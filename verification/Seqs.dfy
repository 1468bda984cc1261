/** Facts about sequences that several models share: concatenation, tables of equal-width entries and sums. */
module Seqs {

  /** All parts one after the other. */
  function Concat<T>(parts: seq<seq<T>>): seq<T> {
    if parts == [] then [] else parts[0] + Concat(parts[1..])
  }

  predicate EndsWith<T(==)>(whole: seq<T>, tail: seq<T>) {
    |tail| <= |whole| && whole[|whole| - |tail|..] == tail
  }

  lemma {:induction false} ConcatAppend<T>(a: seq<seq<T>>, b: seq<seq<T>>)
    ensures Concat(a + b) == Concat(a) + Concat(b)
  {
    if a == [] {
      assert a + b == b;
    } else {
      ConcatAppend(a[1..], b);
      assert (a + b)[0] == a[0] && (a + b)[1..] == a[1..] + b;
      assert a[0] + (Concat(a[1..]) + Concat(b)) == a[0] + Concat(a[1..]) + Concat(b);
    }
  }

  lemma ConcatSnoc<T>(a: seq<seq<T>>, x: seq<T>)
    ensures Concat(a + [x]) == Concat(a) + x
  {
    ConcatAppend(a, [x]);
    assert Concat([x]) == x + Concat([x][1..]) == x;
  }

  lemma Regroup<T>(d: seq<T>, a: seq<T>, b: seq<T>, c: seq<T>)
    ensures d + (a + b + c) == d + a + b + c
  {
  }

  lemma Associate<T>(a: seq<T>, b: seq<T>, c: seq<T>)
    ensures a + (b + c) == (a + b) + c
  {
  }

  lemma SubSlice<T>(s: seq<T>, a: nat, b: nat, i: nat, j: nat)
    requires a <= b <= |s| && i <= j <= b - a
    ensures s[a..b][i..j] == s[a + i..a + j]
  {
    var t := s[a..b];
    forall k | 0 <= k < j - i ensures t[i..j][k] == s[a + i..a + j][k] {
      assert t[i..j][k] == t[i + k] == s[a + (i + k)];
    }
  }

  ghost predicate Uniform<T>(parts: seq<seq<T>>, width: nat) {
    forall k :: 0 <= k < |parts| ==> |parts[k]| == width
  }

  lemma {:induction false} ConcatLength<T>(parts: seq<seq<T>>, width: nat)
    requires Uniform(parts, width)
    ensures |Concat(parts)| == width * |parts|
  {
    if parts != [] {
      ConcatLength(parts[1..], width);
      assert width * |parts| == width + width * |parts[1..]|;
    }
  }

  /** A concatenation of equal-width parts is a table: part i sits at offset i * width. */
  lemma ConcatPart<T>(parts: seq<seq<T>>, width: nat, i: nat, at: nat)
    requires Uniform(parts, width) && i < |parts| && at == width * i
    ensures at + width <= |Concat(parts)| && Concat(parts)[at..at + width] == parts[i]
  {
    var head, tail := parts[..i], parts[i + 1..];
    ConcatLength(head, width);
    assert parts == head + ([parts[i]] + tail);
    ConcatAppend(head, [parts[i]] + tail);
    assert ([parts[i]] + tail)[1..] == tail;
    assert Concat(parts) == Concat(head) + (parts[i] + Concat(tail));
  }

  /** A run of entries of a table is the concatenation of those entries. */
  lemma ConcatUniformSlice<T>(parts: seq<seq<T>>, width: nat, a: nat, b: nat)
    requires Uniform(parts, width) && a <= b <= |parts|
    ensures 0 <= width * a <= width * b <= |Concat(parts)|
    ensures Concat(parts)[width * a..width * b] == Concat(parts[a..b])
  {
    var head, middle, tail := parts[..a], parts[a..b], parts[b..];
    assert parts == head + middle + tail;
    ConcatAppend(head + middle, tail);
    ConcatAppend(head, middle);
    ConcatLength(head, width);
    ConcatLength(head + middle, width);
    ConcatLength(parts, width);
  }

  function Sum(xs: seq<int>): int {
    if xs == [] then 0 else xs[0] + Sum(xs[1..])
  }

  lemma {:induction false} SumAppend(a: seq<int>, b: seq<int>)
    ensures Sum(a + b) == Sum(a) + Sum(b)
  {
    if a == [] {
      assert a + b == b;
    } else {
      SumAppend(a[1..], b);
      assert (a + b)[1..] == a[1..] + b;
    }
  }

  lemma SumSnoc(a: seq<int>, x: int)
    ensures Sum(a + [x]) == Sum(a) + x
  {
    SumAppend(a, [x]);
    assert Sum([x]) == x + Sum([x][1..]) == x;
  }

  /** Extending a prefix by one element adds that element to its sum. */
  lemma SumStep(xs: seq<int>, i: nat)
    requires i < |xs|
    ensures Sum(xs[..i + 1]) == Sum(xs[..i]) + xs[i]
  {
    assert xs[..i + 1] == xs[..i] + [xs[i]];
    SumSnoc(xs[..i], xs[i]);
  }

  /** Sums of prefixes are ordered when no element is below `least` >= 0. */
  lemma {:induction false} SumAtLeast(xs: seq<int>, least: nat)
    requires forall k :: 0 <= k < |xs| ==> xs[k] >= least
    ensures Sum(xs) >= least * |xs|
  {
    if xs != [] {
      SumAtLeast(xs[1..], least);
      assert least * |xs| == least + least * |xs[1..]|;
    }
  }

  lemma {:induction false} SumAtMost(xs: seq<int>, most: nat)
    requires forall k :: 0 <= k < |xs| ==> xs[k] <= most
    ensures Sum(xs) <= most * |xs|
  {
    if xs != [] {
      SumAtMost(xs[1..], most);
      assert most * |xs| == most + most * |xs[1..]|;
    }
  }

  lemma SumPrefixMonotone(xs: seq<int>, i: nat, j: nat)
    requires i <= j <= |xs|
    requires forall k :: 0 <= k < |xs| ==> xs[k] >= 0
    ensures Sum(xs[..i]) <= Sum(xs[..j])
  {
    assert xs[..j] == xs[..i] + xs[i..j];
    SumAppend(xs[..i], xs[i..j]);
    SumAtLeast(xs[i..j], 0);
  }
}
