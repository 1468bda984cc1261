/** Texts: joining with a separator, the order of strings, sorting and mapping lists whatever their order. */
module Texts {
  import opened Seqs

  /** lines.join(sep). */
  function Join(lines: seq<string>, sep: char): string {
    if lines == [] then ""
    else if |lines| == 1 then lines[0]
    else lines[0] + [sep] + Join(lines[1..], sep)
  }

  ghost predicate Without(lines: seq<string>, sep: char) {
    forall k :: 0 <= k < |lines| ==> sep !in lines[k]
  }

  lemma SplitAtSeparator(x: string, r: string, y: string, s: string, sep: char)
    requires sep !in x && sep !in y && x + [sep] + r == y + [sep] + s
    ensures x == y && r == s
  {
    var all := x + [sep] + r;
    assert all[|x|] == sep && all[|y|] == sep;
    assert forall k :: 0 <= k < |x| ==> all[k] == x[k];
    assert forall k :: 0 <= k < |y| ==> all[k] == y[k];
    assert |x| == |y|;
    assert x == all[..|x|] && y == all[..|y|];
    assert r == all[|x| + 1..] && s == all[|y| + 1..];
  }

  lemma JoinHasSeparator(lines: seq<string>, sep: char)
    requires |lines| > 1
    ensures sep in Join(lines, sep)
  {
    assert Join(lines, sep)[|lines[0]|] == sep;
  }

  /** Lists whose members do not hold the separator are told apart by their joined text. */
  lemma {:induction false} JoinInjective(a: seq<string>, b: seq<string>, sep: char)
    requires a != [] && b != [] && Without(a, sep) && Without(b, sep)
    requires Join(a, sep) == Join(b, sep)
    ensures a == b
  {
    if |a| == 1 || |b| == 1 {
      if |a| > 1 { JoinHasSeparator(a, sep); }
      if |b| > 1 { JoinHasSeparator(b, sep); }
    } else {
      SplitAtSeparator(a[0], Join(a[1..], sep), b[0], Join(b[1..], sep), sep);
      JoinInjective(a[1..], b[1..], sep);
      assert a == [a[0]] + a[1..] && b == [b[0]] + b[1..];
    }
  }

  // ---- order

  /** String order: the first difference decides, a prefix comes first. */
  predicate LexLe(a: string, b: string) {
    a == "" || (b != "" && (a[0] < b[0] || (a[0] == b[0] && LexLe(a[1..], b[1..]))))
  }

  lemma {:induction false} LexTotal(a: string, b: string)
    ensures LexLe(a, b) || LexLe(b, a)
  {
    if a != "" && b != "" {
      LexTotal(a[1..], b[1..]);
    }
  }

  lemma {:induction false} LexAntisymmetric(a: string, b: string)
    requires LexLe(a, b) && LexLe(b, a)
    ensures a == b
  {
    if a != "" && b != "" {
      LexAntisymmetric(a[1..], b[1..]);
      assert a == [a[0]] + a[1..] && b == [b[0]] + b[1..];
    }
  }

  lemma {:induction false} LexTransitive(a: string, b: string, c: string)
    requires LexLe(a, b) && LexLe(b, c)
    ensures LexLe(a, c)
  {
    if a != "" && b != "" && c != "" && a[0] == b[0] == c[0] {
      LexTransitive(a[1..], b[1..], c[1..]);
    }
  }

  // ---- sorting

  ghost predicate Sorted(xs: seq<string>) {
    forall i, j :: 0 <= i < j < |xs| ==> LexLe(xs[i], xs[j])
  }

  /** x put before the first member that is not below it. */
  function Insert(x: string, xs: seq<string>): (r: seq<string>)
    ensures multiset(r) == multiset(xs) + multiset{x}
  {
    if xs == [] then [x]
    else if LexLe(x, xs[0]) then [x] + xs
    else
      assert xs == [xs[0]] + xs[1..];
      [xs[0]] + Insert(x, xs[1..])
  }

  /** The list in string order, as Array.prototype.sort leaves it. */
  function Sort(xs: seq<string>): (r: seq<string>)
    ensures multiset(r) == multiset(xs)
  {
    if xs == [] then []
    else
      assert xs == [xs[0]] + xs[1..];
      Insert(xs[0], Sort(xs[1..]))
  }

  lemma {:induction false} InsertSorted(x: string, xs: seq<string>)
    requires Sorted(xs)
    ensures Sorted(Insert(x, xs))
  {
    if xs != [] {
      if LexLe(x, xs[0]) {
        forall j | 0 <= j < |xs| ensures LexLe(x, xs[j]) {
          if j > 0 { LexTransitive(x, xs[0], xs[j]); }
        }
      } else {
        LexTotal(x, xs[0]);
        InsertSorted(x, xs[1..]);
        var rest := Insert(x, xs[1..]);
        forall j | 0 <= j < |rest| ensures LexLe(xs[0], rest[j]) {
          assert rest[j] in multiset(xs[1..]) + multiset{x};
          if rest[j] != x {
            var k :| 0 <= k < |xs[1..]| && xs[1..][k] == rest[j];
            assert xs[k + 1] == rest[j];
          }
        }
      }
    }
  }

  lemma {:induction false} SortSorted(xs: seq<string>)
    ensures Sorted(Sort(xs))
  {
    if xs != [] {
      SortSorted(xs[1..]);
      InsertSorted(xs[0], Sort(xs[1..]));
    }
  }

  lemma SmallestFirst(a: seq<string>, b: seq<string>)
    requires Sorted(a) && Sorted(b) && multiset(a) == multiset(b) && a != [] && b != []
    ensures a[0] == b[0]
  {
    assert a[0] in multiset(b) && b[0] in multiset(a);
    var i :| 0 <= i < |b| && b[i] == a[0];
    var j :| 0 <= j < |a| && a[j] == b[0];
    LexTotal(a[0], a[0]);
    LexAntisymmetric(a[0], b[0]);
  }

  lemma SortedTail(a: seq<string>)
    requires a != [] && Sorted(a)
    ensures Sorted(a[1..])
  {
    hide LexLe;
  }

  lemma TailsSame(a: seq<string>, b: seq<string>)
    requires a != [] && b != [] && a[0] == b[0] && multiset(a) == multiset(b) && Sorted(a) && Sorted(b)
    ensures multiset(a[1..]) == multiset(b[1..]) && Sorted(a[1..]) && Sorted(b[1..])
  {
    hide LexLe, Sorted;
    SortedTail(a);
    SortedTail(b);
    RemoveSame(a, 0, b, 0);
    assert RemoveAt(a, 0) == a[1..] && RemoveAt(b, 0) == b[1..];
  }

  /** A sorted list is determined by what it holds. */
  lemma {:induction false} SortedIsUnique(a: seq<string>, b: seq<string>)
    requires Sorted(a) && Sorted(b) && multiset(a) == multiset(b)
    ensures a == b
  {
    hide LexLe;
    SameLength(a, b);
    if a != [] {
      SmallestFirst(a, b);
      TailsSame(a, b);
      hide Sorted;
      SortedIsUnique(a[1..], b[1..]);
      assert a == [a[0]] + a[1..] && b == [b[0]] + b[1..];
    }
  }

  lemma SameLength<T>(a: seq<T>, b: seq<T>)
    requires multiset(a) == multiset(b)
    ensures |a| == |b|
  {
    assert |multiset(a)| == |a| && |multiset(b)| == |b|;
  }

  /** Lists with the same members sort alike. */
  lemma SortOfPermutation(a: seq<string>, b: seq<string>)
    requires multiset(a) == multiset(b)
    ensures Sort(a) == Sort(b)
  {
    SortSorted(a);
    SortSorted(b);
    SortedIsUnique(Sort(a), Sort(b));
  }

  // ---- mapping

  function Map<T, U>(f: T -> U, xs: seq<T>): (r: seq<U>)
    ensures |r| == |xs|
  {
    seq(|xs|, k requires 0 <= k < |xs| => f(xs[k]))
  }

  function RemoveAt<T>(xs: seq<T>, i: nat): seq<T>
    requires i < |xs|
  {
    xs[..i] + xs[i + 1..]
  }

  lemma RemoveAtMultiset<T>(xs: seq<T>, i: nat)
    requires i < |xs|
    ensures multiset(xs) == multiset(RemoveAt(xs, i)) + multiset{xs[i]}
  {
    assert xs == xs[..i] + ([xs[i]] + xs[i + 1..]);
  }

  /** Lists that hold an equal member hold the same exactly when they do without it. */
  lemma RemoveSame<T>(a: seq<T>, i: nat, b: seq<T>, j: nat)
    requires i < |a| && j < |b| && a[i] == b[j]
    ensures multiset(a) == multiset(b) <==> multiset(RemoveAt(a, i)) == multiset(RemoveAt(b, j))
  {
    RemoveAtMultiset(a, i);
    RemoveAtMultiset(b, j);
    hide RemoveAt;
    var m, n, x := multiset(RemoveAt(a, i)), multiset(RemoveAt(b, j)), multiset{a[i]};
    assert m + x - x == m && n + x - x == n;
  }

  lemma MapRemoveAt<T, U>(f: T -> U, xs: seq<T>, i: nat)
    requires i < |xs|
    ensures Map(f, RemoveAt(xs, i)) == RemoveAt(Map(f, xs), i)
  {
  }

  lemma {:induction false} MapOfPermutation<T, U>(f: T -> U, a: seq<T>, b: seq<T>)
    requires multiset(a) == multiset(b)
    ensures multiset(Map(f, a)) == multiset(Map(f, b))
    decreases |a|
  {
    SameLength(a, b);
    if a != [] {
      assert a[0] in multiset(b);
      var i :| 0 <= i < |b| && b[i] == a[0];
      RemoveSame(a, 0, b, i);
      MapOfPermutation(f, RemoveAt(a, 0), RemoveAt(b, i));
      MapRemoveAt(f, a, 0);
      MapRemoveAt(f, b, i);
      RemoveSame(Map(f, a), 0, Map(f, b), i);
    }
  }

  ghost predicate TellsApart<T(!new), U>(f: T -> U, a: seq<T>, b: seq<T>) {
    forall x, y :: x in a && y in b && f(x) == f(y) ==> x == y
  }

  lemma StillApart<T(!new), U>(f: T -> U, a: seq<T>, i: nat, b: seq<T>, j: nat)
    requires i < |a| && j < |b| && TellsApart(f, a, b)
    ensures TellsApart(f, RemoveAt(a, i), RemoveAt(b, j))
  {
  }

  /** When f tells the members apart, equal images mean equal lists, up to order. */
  lemma {:induction false} PermutationOfMap<T(!new), U>(f: T -> U, a: seq<T>, b: seq<T>)
    requires TellsApart(f, a, b) && multiset(Map(f, a)) == multiset(Map(f, b))
    ensures multiset(a) == multiset(b)
    decreases |a|
  {
    SameLength(Map(f, a), Map(f, b));
    if a != [] {
      assert Map(f, a)[0] in multiset(Map(f, b));
      var i :| 0 <= i < |b| && Map(f, b)[i] == f(a[0]);
      assert a[0] in a && b[i] in b;
      assert a[0] == b[i];
      RemoveSame(Map(f, a), 0, Map(f, b), i);
      MapRemoveAt(f, a, 0);
      MapRemoveAt(f, b, i);
      StillApart(f, a, 0, b, i);
      hide RemoveAt, TellsApart;
      PermutationOfMap(f, RemoveAt(a, 0), RemoveAt(b, i));
      RemoveSame(a, 0, b, i);
    } else {
      assert b == [];
    }
  }

  // ---- whitespace

  /** What \s matches and trim() removes: ASCII blanks, no-break space, BOM and the Unicode space separators. */
  predicate IsSpace(c: char) {
    || '\t' <= c <= '\r' || c == ' ' || c == '\U{a0}' || c == '\U{1680}' || '\U{2000}' <= c <= '\U{200a}'
    || c == '\U{2028}' || c == '\U{2029}' || c == '\U{202f}' || c == '\U{205f}' || c == '\U{3000}' || c == '\U{feff}'
  }

  /** WhiteSpace and LineTerminator of ECMA-262, by code point. */
  ghost predicate IsWhite(c: char) {
    || 0x9 <= c as int <= 0xd || 0x2000 <= c as int <= 0x200a
    || c as int in {0x20, 0xa0, 0x1680, 0x2028, 0x2029, 0x202f, 0x205f, 0x3000, 0xfeff}
  }

  lemma IsSpaceIff(c: char)
    ensures IsSpace(c) <==> IsWhite(c)
  {
  }

  function TrimStart(s: string): string {
    if s != "" && IsSpace(s[0]) then TrimStart(s[1..]) else s
  }

  function TrimEnd(s: string): string {
    if s != "" && IsSpace(s[|s| - 1]) then TrimEnd(s[..|s| - 1]) else s
  }

  function Trim(s: string): string {
    TrimEnd(TrimStart(s))
  }

  /** No whitespace at either end. */
  predicate IsTrimmed(s: string) {
    s == "" || (!IsSpace(s[0]) && !IsSpace(s[|s| - 1]))
  }

  lemma {:induction false} TrimEndKeepsStart(s: string)
    requires s == "" || !IsSpace(s[0])
    ensures IsTrimmed(TrimEnd(s))
  {
    if s != "" && IsSpace(s[|s| - 1]) {
      TrimEndKeepsStart(s[..|s| - 1]);
    }
  }

  lemma {:induction false} TrimStartDone(s: string)
    ensures TrimStart(s) == "" || !IsSpace(TrimStart(s)[0])
  {
    if s != "" && IsSpace(s[0]) {
      TrimStartDone(s[1..]);
    }
  }

  /** Trimming leaves a trimmed text, and a trimmed text alone. */
  lemma TrimIsTrimmed(s: string)
    ensures IsTrimmed(Trim(s)) && Trim(Trim(s)) == Trim(s) && (IsTrimmed(s) ==> Trim(s) == s)
  {
    TrimStartDone(s);
    TrimEndKeepsStart(TrimStart(s));
  }

  /** Trimming cuts whitespace off both ends and nothing else. */
  lemma {:induction false} TrimCuts(s: string) returns (lo: nat, hi: nat)
    ensures lo <= hi <= |s| && Trim(s) == s[lo..hi]
    ensures forall k :: 0 <= k < lo || hi <= k < |s| ==> IsSpace(s[k])
  {
    lo := TrimStartCuts(s);
    var n := TrimEndCuts(TrimStart(s));
    hi := lo + n;
    assert s[lo..][..n] == s[lo..hi];
    forall k | hi <= k < |s| ensures IsSpace(s[k]) {
      assert s[k] == s[lo..][k - lo];
    }
  }

  lemma {:induction false} TrimStartCuts(s: string) returns (lo: nat)
    ensures lo <= |s| && TrimStart(s) == s[lo..] && forall k :: 0 <= k < lo ==> IsSpace(s[k])
  {
    if s != "" && IsSpace(s[0]) {
      var rest := TrimStartCuts(s[1..]);
      lo := rest + 1;
      forall k | 0 <= k < lo ensures IsSpace(s[k]) {
        assert k > 0 ==> s[k] == s[1..][k - 1];
      }
    } else {
      lo := 0;
    }
  }

  lemma {:induction false} TrimEndCuts(s: string) returns (n: nat)
    ensures n <= |s| && TrimEnd(s) == s[..n] && forall k :: n <= k < |s| ==> IsSpace(s[k])
  {
    if s != "" && IsSpace(s[|s| - 1]) {
      n := TrimEndCuts(s[..|s| - 1]);
    } else {
      n := |s|;
    }
  }

  // ---- searching

  predicate Occurs(text: string, pattern: string, i: int) {
    0 <= i <= i + |pattern| <= |text| && text[i..i + |pattern|] == pattern
  }

  /** text.indexOf(pattern, from). */
  function IndexOf(text: string, pattern: string, from: nat): (r: int)
    ensures r == -1 || (from <= r && Occurs(text, pattern, r))
    ensures forall i :: from <= i && (r < 0 || i < r) ==> !Occurs(text, pattern, i)
    decreases |text| - from
  {
    if from + |pattern| > |text| then -1
    else if Occurs(text, pattern, from) then from
    else IndexOf(text, pattern, from + 1)
  }

  /** The first occurrence is what indexOf returns. */
  lemma IndexOfIs(text: string, pattern: string, from: nat, r: int)
    requires from <= r && Occurs(text, pattern, r)
    requires forall i :: from <= i < r ==> !Occurs(text, pattern, i)
    ensures IndexOf(text, pattern, from) == r
  {
  }

  /** Occurrences inside a part are occurrences in the whole. */
  lemma OccursInPart(text: string, lo: nat, hi: nat, pattern: string, i: int)
    requires lo <= hi <= |text| && 0 <= i && i + |pattern| <= hi - lo
    ensures Occurs(text[lo..hi], pattern, i) <==> Occurs(text, pattern, lo + i)
  {
    SubSlice(text, lo, hi, i, i + |pattern|);
  }

  /** A first occurrence inside a part is the first one of the part. */
  lemma IndexOfInPart(text: string, lo: nat, hi: nat, pattern: string, from: nat)
    requires lo <= hi <= |text| && IndexOf(text, pattern, lo + from) >= 0 && IndexOf(text, pattern, lo + from) + |pattern| <= hi
    ensures IndexOf(text[lo..hi], pattern, from) == IndexOf(text, pattern, lo + from) - lo
  {
    hide Occurs;
    var r := IndexOf(text, pattern, lo + from) - lo;
    OccursInPart(text, lo, hi, pattern, r);
    forall k | from <= k < r ensures !Occurs(text[lo..hi], pattern, k) {
      OccursInPart(text, lo, hi, pattern, k);
    }
    IndexOfIs(text[lo..hi], pattern, from, r);
  }
}
