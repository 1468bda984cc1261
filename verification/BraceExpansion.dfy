/**
 Brace alternations of file patterns: the capped expansion that finds the extensions a pattern names, and what it keeps of
 the meaning of the pattern.
 */
module BraceExpansion {
  import opened Seqs
  import opened Texts
  import opened Wrappers

  const MAX_BRACE_EXPANSIONS := 64

  // ---- the first group

  /** The `}` that closes the group open at `depth`, from position i on, or -1. */
  function CloseFrom(value: string, i: nat, depth: nat): (close: int)
    requires i <= |value|
    ensures close == -1 || (i <= close < |value| && value[close] == '}')
    decreases |value| - i
  {
    if i == |value| then -1
    else if value[i] == '{' then CloseFrom(value, i + 1, depth + 1)
    else if value[i] == '}' then if depth <= 1 then i else CloseFrom(value, i + 1, depth - 1)
    else CloseFrom(value, i + 1, depth)
  }

  /** Where the first group opens and closes; no group when it does neither. */
  datatype Group = NoGroup | Group(open: nat, close: nat)

  function FirstGroup(value: string): (g: Group)
    ensures g.Group? ==> g.open < g.close < |value| && value[g.open] == '{' && value[g.close] == '}'
  {
    var open := IndexOf(value, "{", 0);
    if open < 0 then NoGroup
    else
      assert value[open..open + 1] == "{";
      var close := CloseFrom(value, open, 0);
      if close < 0 then NoGroup
      else
        assert value[open] == '{' && value[close] == '}';
        Group(open, close)
  }

  /** The parts between the commas outside nested groups, from position i on; the current part began at `start`. */
  function SplitFrom(value: string, i: nat, depth: int, start: nat): (parts: seq<string>)
    requires start <= i <= |value|
    ensures parts != [] && |parts| <= |value| - i + 1
    ensures forall k :: 0 <= k < |parts| ==> |parts[k]| <= |value|
    decreases |value| - i
  {
    if i == |value| then [value[start..]]
    else if value[i] == '{' then SplitFrom(value, i + 1, depth + 1, start)
    else if value[i] == '}' then SplitFrom(value, i + 1, depth - 1, start)
    else if value[i] == ',' && depth == 0 then [value[start..i]] + SplitFrom(value, i + 1, depth, i + 1)
    else SplitFrom(value, i + 1, depth, start)
  }

  function SplitTopLevel(value: string): (parts: seq<string>)
    ensures parts != [] && |parts| <= |value| + 1
    ensures forall k :: 0 <= k < |parts| ==> |parts[k]| <= |value|
  {
    SplitFrom(value, 0, 0, 0)
  }

  /** The pattern once per alternative of its first group. */
  function Alternatives(value: string, g: Group): (alternatives: seq<string>)
    requires g.Group? && g.open < g.close < |value|
    ensures alternatives != [] && |alternatives| <= |value|
    ensures forall k :: 0 <= k < |alternatives| ==> |alternatives[k]| < |value|
  {
    var parts := SplitTopLevel(value[g.open + 1..g.close]);
    seq(|parts|, k requires 0 <= k < |parts| => value[..g.open] + parts[k] + value[g.close + 1..])
  }

  // ---- the group and its parts by nesting depth

  /** Opening minus closing braces. */
  function Depth(s: string): int {
    if s == "" then 0
    else Depth(s[..|s| - 1]) + if s[|s| - 1] == '{' then 1 else if s[|s| - 1] == '}' then -1 else 0
  }

  lemma DepthSnoc(s: string, from: nat, i: nat)
    requires from <= i < |s|
    ensures Depth(s[from..i + 1]) == Depth(s[from..i]) + if s[i] == '{' then 1 else if s[i] == '}' then -1 else 0
  {
    assert s[from..i + 1][..i - from] == s[from..i];
  }

  lemma {:induction false} CloseMatches(value: string, open: nat, i: nat, depth: nat)
    requires open <= i <= |value| && Depth(value[open..i]) == depth
    requires i == open ==> i < |value| && value[i] == '{'
    requires forall j :: open < j <= i ==> Depth(value[open..j]) > 0
    ensures var close := CloseFrom(value, i, depth);
            if close >= 0 then Depth(value[open..close + 1]) == 0 && forall j :: open < j <= close ==> Depth(value[open..j]) > 0
            else forall j :: open < j <= |value| ==> Depth(value[open..j]) > 0
    decreases |value| - i
  {
    hide Depth;
    if i < |value| {
      DepthSnoc(value, open, i);
      if value[i] == '{' {
        CloseMatches(value, open, i + 1, depth + 1);
      } else if value[i] == '}' {
        if depth > 1 {
          CloseMatches(value, open, i + 1, depth - 1);
        }
      } else {
        CloseMatches(value, open, i + 1, depth);
      }
    }
  }

  /** The group ends at the brace where the nesting depth first returns to zero, and is missing only when it never does. */
  lemma GroupIsBalanced(value: string)
    requires IndexOf(value, "{", 0) >= 0
    ensures var open := IndexOf(value, "{", 0);
            match FirstGroup(value)
            case Group(o, close) => o == open && Depth(value[open..close + 1]) == 0 && forall j :: open < j <= close ==> Depth(value[open..j]) > 0
            case NoGroup => forall j :: open < j <= |value| ==> Depth(value[open..j]) > 0
  {
    hide Depth, CloseFrom, Occurs;
    var open := IndexOf(value, "{", 0);
    OpensWithBrace(value, open);
    CloseMatches(value, open, open, 0);
  }

  lemma OpensWithBrace(value: string, open: int)
    requires Occurs(value, "{", open)
    ensures 0 <= open < |value| && value[open] == '{' && Depth(value[open..open]) == 0
  {
    assert value[open..open + 1] == "{" && value[open..open] == "";
  }

  /** No comma of the part stands outside all groups. */
  ghost predicate NoTopLevelComma(part: string) {
    forall k :: 0 <= k < |part| && part[k] == ',' ==> Depth(part[..k]) != 0
  }

  lemma {:induction false} SplitIsExactFrom(value: string, i: nat, start: nat)
    requires start <= i <= |value| && NoTopLevelComma(value[start..i])
    ensures var parts := SplitFrom(value, i, Depth(value[start..i]), start);
            && Join(parts, ',') == value[start..]
            && (forall k :: 0 <= k < |parts| ==> NoTopLevelComma(parts[k]))
            && forall k :: 0 <= k < |parts| - 1 ==> Depth(parts[k]) == 0
    decreases |value| - i
  {
    hide Depth, NoTopLevelComma, Join;
    var depth := Depth(value[start..i]);
    if i == |value| {
      assert value[start..i] == value[start..];
      JoinOne(value[start..]);
    } else if value[i] == ',' && depth == 0 {
      EmptyPart(value, i + 1);
      SplitIsExactFrom(value, i + 1, i + 1);
      FirstPart(value, start, i, SplitFrom(value, i + 1, 0, i + 1));
    } else {
      DepthSnoc(value, start, i);
      CommaSnoc(value, start, i);
      SplitIsExactFrom(value, i + 1, start);
    }
  }

  lemma JoinOne(part: string)
    ensures Join([part], ',') == part
  {
  }

  lemma EmptyPart(value: string, i: nat)
    requires i <= |value|
    ensures Depth(value[i..i]) == 0 && NoTopLevelComma(value[i..i])
  {
    assert value[i..i] == "";
  }

  lemma FirstPart(value: string, start: nat, i: nat, rest: seq<string>)
    requires start <= i < |value| && value[i] == ',' && rest != [] && Join(rest, ',') == value[i + 1..]
    ensures Join([value[start..i]] + rest, ',') == value[start..]
  {
    var parts := [value[start..i]] + rest;
    assert parts[1..] == rest;
    assert value[start..] == value[start..i] + [','] + value[i + 1..];
  }

  lemma CommaSnoc(value: string, start: nat, i: nat)
    requires start <= i < |value| && NoTopLevelComma(value[start..i])
    requires value[i] == ',' ==> Depth(value[start..i]) != 0
    ensures NoTopLevelComma(value[start..i + 1])
  {
    hide Depth;
    var part := value[start..i + 1];
    forall k | 0 <= k < |part| && part[k] == ',' ensures Depth(part[..k]) != 0 {
      if k < i - start {
        assert value[start..i][k] == ',' && value[start..i][..k] == part[..k];
      } else {
        assert part[..k] == value[start..i];
      }
    }
  }

  /** The parts joined by commas are the text; no comma in a part is at top level, and every separating comma is. */
  lemma SplitIsExact(value: string)
    ensures var parts := SplitTopLevel(value);
            && Join(parts, ',') == value
            && (forall k :: 0 <= k < |parts| ==> NoTopLevelComma(parts[k]))
            && forall k :: 0 <= k < |parts| - 1 ==> Depth(parts[k]) == 0
  {
    assert value[0..0] == "" && value[0..] == value;
    SplitIsExactFrom(value, 0, 0);
  }

  // ---- the meaning: the uncapped expansion

  ghost function Full(value: string): (all: seq<string>)
    ensures all != []
    decreases |value|, |value| + 1
  {
    var g := FirstGroup(value);
    if g.NoGroup? then [value] else FullAll(Alternatives(value, g), |value|)
  }

  ghost function FullAll(values: seq<string>, bound: nat): (all: seq<string>)
    requires forall k :: 0 <= k < |values| ==> |values[k]| < bound
    ensures values != [] ==> all != []
    decreases bound, |values|
  {
    if values == [] then [] else Full(values[0]) + FullAll(values[1..], bound)
  }

  // ---- the capped expansion

  function Expand(value: string): (expanded: seq<string>)
    decreases |value|, |value| + 1
  {
    var g := FirstGroup(value);
    if g.NoGroup? then [value]
    else
      var all := ExpandAll(Alternatives(value, g), |value|);
      if |all| > MAX_BRACE_EXPANSIONS then [value] else all
  }

  function ExpandAll(values: seq<string>, bound: nat): (expanded: seq<string>)
    requires forall k :: 0 <= k < |values| ==> |values[k]| < bound
    decreases bound, |values|
  {
    if values == [] then [] else Expand(values[0]) + ExpandAll(values[1..], bound)
  }

  /** The expansion yields at least one string and at most the cap. */
  lemma {:induction false} ExpandSize(value: string)
    ensures 1 <= |Expand(value)| <= MAX_BRACE_EXPANSIONS
    decreases |value|, |value| + 1
  {
    var g := FirstGroup(value);
    if g.Group? {
      ExpandAllSize(Alternatives(value, g), |value|);
    }
  }

  lemma {:induction false} ExpandAllSize(values: seq<string>, bound: nat)
    requires forall k :: 0 <= k < |values| ==> |values[k]| < bound
    ensures |ExpandAll(values, bound)| >= |values|
    decreases bound, |values|
  {
    if values != [] {
      ExpandSize(values[0]);
      ExpandAllSize(values[1..], bound);
    }
  }

  /** What a list of patterns stands for. */
  ghost function MeaningOf(values: seq<string>): seq<string> {
    if values == [] then [] else Full(values[0]) + MeaningOf(values[1..])
  }

  lemma {:induction false} MeaningAppend(a: seq<string>, b: seq<string>)
    ensures MeaningOf(a + b) == MeaningOf(a) + MeaningOf(b)
  {
    hide Full;
    if a == [] {
      assert a + b == b;
    } else {
      MeaningAppend(a[1..], b);
      assert (a + b)[1..] == a[1..] + b;
      Associate(Full(a[0]), MeaningOf(a[1..]), MeaningOf(b));
    }
  }

  /**
   The capped expansion keeps the meaning: expanding its results fully, one after the other, gives the full expansion of the
   pattern, in the same order - whether or not the cap was hit anywhere.
   */
  lemma {:induction false} ExpandKeepsMeaning(value: string)
    ensures MeaningOf(Expand(value)) == Full(value)
    decreases |value|, |value| + 1
  {
    var g := FirstGroup(value);
    if Expand(value) == [value] {
      assert [value][1..] == [] && MeaningOf([]) == [];
      assert MeaningOf([value]) == Full(value) + MeaningOf([value][1..]);
    } else {
      ExpandAllKeepsMeaning(Alternatives(value, g), |value|);
    }
  }

  lemma {:induction false} ExpandAllKeepsMeaning(values: seq<string>, bound: nat)
    requires forall k :: 0 <= k < |values| ==> |values[k]| < bound
    ensures MeaningOf(ExpandAll(values, bound)) == FullAll(values, bound)
    decreases bound, |values|
  {
    if values != [] {
      ExpandKeepsMeaning(values[0]);
      ExpandAllKeepsMeaning(values[1..], bound);
      MeaningAppend(Expand(values[0]), ExpandAll(values[1..], bound));
    }
  }

  /**
   The expansion is complete within the cap: a pattern with at most 64 full expansions is expanded to just these, and a
   result that could still be expanded has more than 64.
   */
  lemma {:induction false} ExpandIsComplete(value: string)
    ensures |Full(value)| <= 64 ==> Expand(value) == Full(value)
    ensures forall k :: 0 <= k < |Expand(value)| ==> Full(Expand(value)[k]) == [Expand(value)[k]] || |Full(Expand(value)[k])| > 64
    decreases |value|, |value| + 1
  {
    var g := FirstGroup(value);
    if g.Group? {
      ExpandAllIsComplete(Alternatives(value, g), |value|);
    }
  }

  lemma {:induction false} ExpandAllIsComplete(values: seq<string>, bound: nat)
    requires forall k :: 0 <= k < |values| ==> |values[k]| < bound
    ensures |ExpandAll(values, bound)| <= |FullAll(values, bound)|
    ensures |FullAll(values, bound)| <= 64 ==> ExpandAll(values, bound) == FullAll(values, bound)
    ensures var all := ExpandAll(values, bound);
            forall k :: 0 <= k < |all| ==> Full(all[k]) == [all[k]] || |Full(all[k])| > 64
    decreases bound, |values|
  {
    if values != [] {
      ExpandIsComplete(values[0]);
      ExpandSize(values[0]);
      ExpandAllIsComplete(values[1..], bound);
      var first, rest := Expand(values[0]), ExpandAll(values[1..], bound);
      assert forall k :: 0 <= k < |first + rest| ==> (first + rest)[k] == if k < |first| then first[k] else rest[k - |first|];
    }
  }

  // ---- the full expansion, on the text

  /** Braces close in the order they open, and all of them do. */
  ghost predicate Balanced(part: string) {
    Depth(part) == 0 && forall j :: 0 <= j <= |part| ==> Depth(part[..j]) >= 0
  }

  lemma {:induction false} DepthAppend(a: string, b: string)
    ensures Depth(a + b) == Depth(a) + Depth(b)
    decreases |b|
  {
    if b == "" {
      assert a + b == a;
    } else {
      assert (a + b)[..|a + b| - 1] == a + b[..|b| - 1];
      DepthAppend(a, b[..|b| - 1]);
    }
  }

  lemma {:induction false} BalancedJoin(parts: seq<string>)
    requires parts != [] && forall k :: 0 <= k < |parts| ==> Balanced(parts[k])
    ensures Balanced(Join(parts, ','))
    decreases |parts|
  {
    hide Depth;
    if |parts| > 1 {
      var rest := Join(parts[1..], ',');
      BalancedJoin(parts[1..]);
      BalancedComma(parts[0], rest);
    }
  }

  lemma BalancedComma(a: string, b: string)
    requires Balanced(a) && Balanced(b)
    ensures Balanced(a + [','] + b)
  {
    CommaHasNoDepth();
    hide Depth;
    var text := a + [','] + b;
    DepthAppend(a, [',']);
    DepthAppend(a + [','], b);
    forall j | 0 <= j <= |text| ensures Depth(text[..j]) >= 0 {
      if j <= |a| {
        assert text[..j] == a[..j];
      } else {
        assert text[..j] == a + [','] + b[..j - |a| - 1];
        DepthAppend(a + [','], b[..j - |a| - 1]);
      }
    }
  }

  lemma CommaHasNoDepth()
    ensures Depth([',']) == 0 && Depth("{") == 1 && Depth("}") == -1
  {
  }

  /** A text is cut at top-level commas in one way only. */
  lemma {:induction false} CutIsUnique(p: seq<string>, q: seq<string>)
    requires p != [] && q != [] && Join(p, ',') == Join(q, ',')
    requires forall k :: 0 <= k < |p| ==> NoTopLevelComma(p[k]) && (k < |p| - 1 ==> Depth(p[k]) == 0)
    requires forall k :: 0 <= k < |q| ==> NoTopLevelComma(q[k]) && (k < |q| - 1 ==> Depth(q[k]) == 0)
    ensures p == q
    decreases |p|
  {
    hide Depth;
    FirstCut(p, q);
    FirstCut(q, p);
    assert |p[0]| == |q[0]|;
    var text := Join(p, ',');
    assert p[0] == text[..|p[0]|] == q[0];
    if |p| > 1 {
      assert |q| > 1;
      assert Join(p[1..], ',') == text[|p[0]| + 1..] == Join(q[1..], ',');
      CutIsUnique(p[1..], q[1..]);
      assert p == [p[0]] + p[1..] && q == [q[0]] + q[1..];
    } else {
      assert |q| == 1;
    }
  }

  lemma JoinFirst(p: seq<string>)
    requires p != []
    ensures var text := Join(p, ',');
            && |p[0]| <= |text| && text[..|p[0]|] == p[0]
            && if |p| == 1 then text == p[0] else |p[0]| < |text| && text[|p[0]|] == ','
  {
  }

  lemma CommaBehind(text: string, a: string, b: string)
    requires a <= text && b <= text && |a| < |b| && text[|a|] == ',' && Depth(a) == 0
    ensures !NoTopLevelComma(b)
  {
    hide Depth;
    assert b[|a|] == ',' && b[..|a|] == a;
  }

  lemma FirstCut(p: seq<string>, q: seq<string>)
    requires p != [] && q != [] && Join(p, ',') == Join(q, ',')
    requires |p| > 1 ==> Depth(p[0]) == 0
    requires NoTopLevelComma(q[0])
    ensures |q[0]| <= |p[0]|
  {
    hide Depth, Join, NoTopLevelComma;
    JoinFirst(p);
    JoinFirst(q);
    if |p[0]| < |q[0]| {
      CommaBehind(Join(p, ','), p[0], q[0]);
    }
  }

  /** The first group of a text that is written as such. */
  lemma GroupAsWritten(prefix: string, inner: string, suffix: string)
    requires '{' !in prefix && Balanced(inner)
    ensures FirstGroup(prefix + "{" + inner + "}" + suffix) == Group(|prefix|, |prefix| + 1 + |inner|)
  {
    CommaHasNoDepth();
    hide Depth, FirstGroup;
    var value, open, close := prefix + "{" + inner + "}" + suffix, |prefix|, |prefix| + 1 + |inner|;
    assert value[open..open + 1] == "{";
    forall i | 0 <= i < open ensures !Occurs(value, "{", i) {
      assert value[i..i + 1][0] == prefix[i];
    }
    IndexOfIs(value, "{", 0, open);
    GroupIsBalanced(value);
    forall j | open < j <= close ensures Depth(value[open..j]) > 0 {
      assert value[open..j] == "{" + inner[..j - open - 1];
      DepthAppend("{", inner[..j - open - 1]);
    }
    assert value[open..close + 1] == "{" + inner + "}";
    DepthAppend("{", inner);
    DepthAppend("{" + inner, "}");
  }

  /** The pattern with each of the parts in place of its group. */
  function InPlace(prefix: string, parts: seq<string>, suffix: string): (values: seq<string>)
    ensures |values| == |parts|
  {
    seq(|parts|, k requires 0 <= k < |parts| => prefix + parts[k] + suffix)
  }

  /**
   The full expansion on the text: a pattern whose first group holds the given parts expands to the expansions of the
   pattern with each part in its place.
   */
  lemma FullOfGroup(prefix: string, parts: seq<string>, suffix: string)
    requires '{' !in prefix && parts != [] && forall k :: 0 <= k < |parts| ==> Balanced(parts[k]) && NoTopLevelComma(parts[k])
    ensures Full(prefix + "{" + Join(parts, ',') + "}" + suffix) == MeaningOf(InPlace(prefix, parts, suffix))
  {
    hide FirstGroup, Depth, Balanced, NoTopLevelComma, Join;
    var inner := Join(parts, ',');
    var value, g := prefix + "{" + inner + "}" + suffix, Group(|prefix|, |prefix| + 1 + |inner|);
    BalancedJoin(parts);
    GroupAsWritten(prefix, inner, suffix);
    PartsAsWritten(parts);
    AlternativesAsWritten(prefix, parts, suffix);
    FullAllIsMeaning(Alternatives(value, g), |value|);
  }

  lemma PartsAsWritten(parts: seq<string>)
    requires parts != [] && forall k :: 0 <= k < |parts| ==> Balanced(parts[k]) && NoTopLevelComma(parts[k])
    ensures SplitTopLevel(Join(parts, ',')) == parts
  {
    hide Depth, NoTopLevelComma, Join, SplitTopLevel;
    SplitIsExact(Join(parts, ','));
    CutIsUnique(SplitTopLevel(Join(parts, ',')), parts);
  }

  lemma AlternativesAsWritten(prefix: string, parts: seq<string>, suffix: string)
    requires SplitTopLevel(Join(parts, ',')) == parts
    ensures var inner := Join(parts, ',');
            Alternatives(prefix + "{" + inner + "}" + suffix, Group(|prefix|, |prefix| + 1 + |inner|)) == InPlace(prefix, parts, suffix)
  {
    hide SplitTopLevel, Join;
    var inner := Join(parts, ',');
    var value := prefix + "{" + inner + "}" + suffix;
    assert value[..|prefix|] == prefix && value[|prefix| + 1..|prefix| + 1 + |inner|] == inner && value[|prefix| + 2 + |inner|..] == suffix;
  }

  lemma {:induction false} FullAllIsMeaning(values: seq<string>, bound: nat)
    requires forall k :: 0 <= k < |values| ==> |values[k]| < bound
    ensures FullAll(values, bound) == MeaningOf(values)
    decreases |values|
  {
    hide Full;
    if values != [] {
      FullAllIsMeaning(values[1..], bound);
    }
  }

  /** The first opening brace is at `open`, and nothing closes it. */
  ghost predicate NeverCloses(value: string, open: nat) {
    && open < |value| && value[open] == '{' && '{' !in value[..open]
    && forall j :: open < j <= |value| ==> Depth(value[open..j]) > 0
  }

  lemma FirstBrace(value: string, open: nat)
    requires open < |value| && value[open] == '{' && '{' !in value[..open]
    ensures IndexOf(value, "{", 0) == open
  {
    assert value[open..open + 1] == "{";
    forall i | 0 <= i < open ensures !Occurs(value, "{", i) {
      assert value[i..i + 1][0] == value[..open][i];
    }
    IndexOfIs(value, "{", 0, open);
  }

  lemma NoBraceNoGroup(value: string)
    requires '{' !in value
    ensures FirstGroup(value).NoGroup?
  {
    hide Occurs;
    if IndexOf(value, "{", 0) >= 0 {
      OpensWithBrace(value, IndexOf(value, "{", 0));
    }
  }

  /** A pattern without an opening brace, or whose first one is never closed, stands for itself. */
  lemma FullOfNoGroup(value: string)
    requires '{' !in value || exists open :: NeverCloses(value, open)
    ensures Full(value) == [value]
  {
    hide Depth, FirstGroup, IndexOf;
    if '{' in value {
      var open :| NeverCloses(value, open);
      FirstBrace(value, open);
      GroupIsBalanced(value);
    } else {
      NoBraceNoGroup(value);
    }
  }

  // ---- extensions

  predicate HasNoBrace(s: string) {
    '{' !in s && '}' !in s
  }

  /** A brace-free ending lies behind the first group, so every alternative keeps it. */
  lemma AlternativesKeepEnding(value: string, g: Group, ending: string)
    requires g.Group? && g.open < g.close < |value| && value[g.close] == '}'
    requires EndsWith(value, ending) && HasNoBrace(ending)
    ensures forall k :: 0 <= k < |Alternatives(value, g)| ==> EndsWith(Alternatives(value, g)[k], ending)
  {
    var n, m := |value|, |ending|;
    forall k | n - m <= k < n ensures value[k] in ending {
      assert value[k] == value[n - m..][k - (n - m)] == ending[k - (n - m)];
    }
    assert g.close < n - m;
    var rest := value[g.close + 1..];
    assert rest[|rest| - m..] == value[n - m..];
    forall k | 0 <= k < |Alternatives(value, g)| ensures EndsWith(Alternatives(value, g)[k], ending) {
      var a := Alternatives(value, g)[k];
      assert a[|a| - m..] == rest[|rest| - m..];
    }
  }

  /** An extension a string ends with is the one all its full expansions end with, also when it still holds braces. */
  lemma {:induction false} FullKeepsEnding(value: string, ending: string)
    requires EndsWith(value, ending) && HasNoBrace(ending)
    ensures forall k :: 0 <= k < |Full(value)| ==> EndsWith(Full(value)[k], ending)
    decreases |value|, |value| + 1
  {
    var g := FirstGroup(value);
    if g.Group? {
      AlternativesKeepEnding(value, g, ending);
      FullAllKeepsEnding(Alternatives(value, g), |value|, ending);
    }
  }

  lemma {:induction false} FullAllKeepsEnding(values: seq<string>, bound: nat, ending: string)
    requires forall k :: 0 <= k < |values| ==> |values[k]| < bound && EndsWith(values[k], ending)
    requires HasNoBrace(ending)
    ensures forall k :: 0 <= k < |FullAll(values, bound)| ==> EndsWith(FullAll(values, bound)[k], ending)
    decreases bound, |values|
  {
    if values != [] {
      FullKeepsEnding(values[0], ending);
      FullAllKeepsEnding(values[1..], bound, ending);
    }
  }

  // ---- the loops

  /** The scan for the closing brace. */
  method FindClose(value: string, open: nat) returns (close: int)
    requires open < |value| && value[open] == '{'
    ensures close == CloseFrom(value, open, 0)
  {
    var depth: nat := 0;
    close := -1;
    for i := open to |value|
      invariant CloseFrom(value, open, 0) == CloseFrom(value, i, depth)
      invariant i > open ==> depth > 0
    {
      if value[i] == '{' {
        depth := depth + 1;
      } else if value[i] == '}' {
        depth := depth - 1;
        if depth == 0 {
          return i;
        }
      }
    }
  }

  method SplitOnCommas(value: string) returns (parts: seq<string>)
    ensures parts == SplitTopLevel(value)
  {
    parts := [];
    var depth, start := 0, 0;
    for i := 0 to |value|
      invariant start <= i
      invariant SplitTopLevel(value) == parts + SplitFrom(value, i, depth, start)
    {
      if value[i] == '{' {
        depth := depth + 1;
      } else if value[i] == '}' {
        depth := depth - 1;
      } else if value[i] == ',' && depth == 0 {
        Associate(parts, [value[start..i]], SplitFrom(value, i + 1, depth, i + 1));
        parts := parts + [value[start..i]];
        start := i + 1;
      }
    }
    parts := parts + [value[start..]];
  }

  lemma {:induction false} ExpandAllSnoc(values: seq<string>, n: nat, bound: nat)
    requires n < |values| && forall k :: 0 <= k < |values| ==> |values[k]| < bound
    ensures ExpandAll(values[..n + 1], bound) == ExpandAll(values[..n], bound) + Expand(values[n])
    decreases n
  {
    hide Expand;
    if n == 0 {
      assert values[..1][1..] == [] && values[..0] == [];
      assert ExpandAll(values[..1], bound) == Expand(values[0]) + ExpandAll([], bound);
    } else {
      ExpandAllSnoc(values[1..], n - 1, bound);
      assert values[..n + 1][1..] == values[1..][..n] && values[..n][1..] == values[1..][..n - 1];
      Associate(Expand(values[0]), ExpandAll(values[1..][..n - 1], bound), Expand(values[n]));
    }
  }

  /** The inner loop: adds the expansions of one alternative, unless there would be too many. */
  method AddExpansions(result: seq<string>, expanded: seq<string>) returns (more: seq<string>, ok: bool)
    requires |result| <= MAX_BRACE_EXPANSIONS
    ensures ok <==> |result| + |expanded| <= MAX_BRACE_EXPANSIONS
    ensures ok ==> more == result + expanded
  {
    more := result;
    for k := 0 to |expanded|
      invariant |more| == |result| + k <= MAX_BRACE_EXPANSIONS && more == result + expanded[..k]
    {
      if |more| >= MAX_BRACE_EXPANSIONS {
        return more, false;
      }
      more := more + [expanded[k]];
    }
    ok := true;
  }

  /** What was expanded so far only grows. */
  lemma {:induction false} ExpandAllPrefix(values: seq<string>, n: nat, bound: nat)
    requires n <= |values| && forall k :: 0 <= k < |values| ==> |values[k]| < bound
    ensures |ExpandAll(values[..n], bound)| <= |ExpandAll(values, bound)|
    decreases |values| - n
  {
    hide Expand, ExpandAll;
    if n < |values| {
      ExpandAllSnoc(values, n, bound);
      ExpandAllPrefix(values, n + 1, bound);
    } else {
      assert values[..n] == values;
    }
  }

  /** expandBraces: the pattern itself when it holds no group or would expand beyond the cap. */
  method ExpandBraces(value: string) returns (result: seq<string>)
    ensures result == Expand(value)
    ensures 1 <= |result| <= 64
    decreases |value|
  {
    ExpandSize(value);
    var open := IndexOf(value, "{", 0);
    if open < 0 {
      return [value];
    }
    assert value[open..open + 1] == "{";
    var close := FindClose(value, open);
    if close < 0 {
      return [value];
    }
    var group := Group(open, close);
    assert FirstGroup(value) == group;
    result := ExpandGroup(value, group);
  }

  /** The outer loop over the alternatives of the first group. */
  method ExpandGroup(value: string, group: Group) returns (result: seq<string>)
    requires group.Group? && FirstGroup(value) == group
    ensures result == Expand(value)
    decreases |value|, 0
  {
    var alternatives := SplitOnCommas(value[group.open + 1..group.close]);
    ghost var all := Alternatives(value, group);
    assert all[..0] == [];
    result := [];
    for k := 0 to |alternatives|
      invariant result == ExpandAll(all[..k], |value|) && |result| <= MAX_BRACE_EXPANSIONS
    {
      var alternative := value[..group.open] + alternatives[k] + value[group.close + 1..];
      assert alternative == all[k];
      var expanded := ExpandBraces(alternative);
      ExpandAllSnoc(all, k, |value|);
      var more, ok := AddExpansions(result, expanded);
      if !ok {
        ExpandAllPrefix(all, k + 1, |value|);
        return [value];
      }
      result := more;
    }
    assert all[..|all|] == all;
  }

  // ---- the extensions patterns name

  /** Behind the last `/`. */
  function Basename(s: string): (r: string)
    ensures EndsWith(s, r) && '/' !in r
  {
    if s == "" || s[|s| - 1] == '/' then ""
    else
      var r := Basename(s[..|s| - 1]) + [s[|s| - 1]];
      assert s[|s| - |r|..] == r;
      r
  }

  lemma BasenameSnoc(s: string, c: char)
    ensures Basename(s + [c]) == if c == '/' then "" else Basename(s) + [c]
  {
    assert (s + [c])[..|s + [c]| - 1] == s && (s + [c])[|s + [c]| - 1] == c;
  }

  lemma {:induction false} BasenameAppend(s: string, name: string)
    requires '/' !in name
    ensures Basename(s + name) == Basename(s) + name
  {
    hide Basename, EndsWith;
    if name == "" {
      assert s + name == s;
    } else {
      var init, last := name[..|name| - 1], name[|name| - 1];
      BasenameAppend(s, init);
      BasenameSnoc(s + init, last);
      assert s + name == s + init + [last];
    }
  }

  /** The basename is what follows the last slash, or all of a name without one. */
  lemma BasenameIs(folder: string, name: string)
    requires '/' !in name
    ensures Basename(name) == name && Basename(folder + "/" + name) == name
  {
    BasenameAppend("", name);
    BasenameAppend(folder + "/", name);
    BasenameSnoc(folder, '/');
    hide Basename;
    assert "" + name == name;
  }

  predicate NamesExtension(name: string, ext: string) {
    EndsWith(name, "." + ext)
  }

  /** ext is one of the extensions, the name ends with it, and no longer one does. */
  ghost predicate IsLongestExtension(name: string, extensions: seq<string>, ext: string) {
    && ext in extensions && EndsWith(name, "." + ext)
    && forall other :: other in extensions && EndsWith(name, "." + other) ==> |other| <= |ext|
  }

  /** longestExcludedExtension. Endings of one length are equal, so there is at most one. */
  method LongestExcludedExtension(name: string, extensions: seq<string>) returns (result: Option<string>)
    ensures result.None? ==> forall ext :: ext in extensions ==> !EndsWith(name, "." + ext)
    ensures result.Some? ==> IsLongestExtension(name, extensions, result.value)
  {
    result := None;
    for k := 0 to |extensions|
      invariant result.None? ==> forall j :: 0 <= j < k ==> !NamesExtension(name, extensions[j])
      invariant result.Some? ==> result.value in extensions && NamesExtension(name, result.value)
      invariant result.Some? ==> forall j :: 0 <= j < k && NamesExtension(name, extensions[j]) ==> |extensions[j]| <= |result.value|
    {
      if NamesExtension(name, extensions[k]) && (result.None? || |extensions[k]| > |result.value|) {
        result := Some(extensions[k]);
      }
    }
  }

  lemma OneLongestExtension(name: string, extensions: seq<string>, a: string, b: string)
    requires IsLongestExtension(name, extensions, a) && IsLongestExtension(name, extensions, b)
    ensures a == b
  {
    var x, y := "." + a, "." + b;
    assert a == x[1..] && b == y[1..];
  }

  predicate IsNegated(pattern: string) {
    pattern != "" && pattern[0] == '!'
  }

  /** The alternatives of the patterns that are not negated, in order. */
  function ExpandedPatterns(patterns: seq<string>): seq<string> {
    if patterns == [] then []
    else
      var last := patterns[|patterns| - 1];
      ExpandedPatterns(patterns[..|patterns| - 1]) + if IsNegated(last) then [] else Expand(last)
  }

  /** Those of `alternatives` whose longest extension is `ext`, in their order, repeated where they repeat. */
  ghost function Naming(alternatives: seq<string>, extensions: seq<string>, ext: string): seq<string> {
    if alternatives == [] then []
    else
      var last := alternatives[|alternatives| - 1];
      Naming(alternatives[..|alternatives| - 1], extensions, ext) + if IsLongestExtension(Basename(last), extensions, ext) then [last] else []
  }

  lemma {:induction false} NamingNames(alternatives: seq<string>, extensions: seq<string>, ext: string, k: nat)
    requires k < |Naming(alternatives, extensions, ext)|
    ensures IsLongestExtension(Basename(Naming(alternatives, extensions, ext)[k]), extensions, ext)
  {
    hide Basename, IsLongestExtension;
    var before := alternatives[..|alternatives| - 1];
    if k < |Naming(before, extensions, ext)| {
      NamingNames(before, extensions, ext, k);
    }
  }

  /** Under each extension exactly the alternatives that name it are recorded; nothing is recorded for one that none names. */
  ghost predicate Records(alternatives: seq<string>, extensions: seq<string>, result: map<string, seq<string>>) {
    && (forall ext :: ext in result <==> Naming(alternatives, extensions, ext) != [])
    && forall ext :: ext in result ==> result[ext] == Naming(alternatives, extensions, ext)
  }

  function Recorded(result: map<string, seq<string>>, ext: string, expanded: string): map<string, seq<string>> {
    result[ext := (if ext in result then result[ext] else []) + [expanded]]
  }

  /** The inner loop: records the alternatives of one pattern behind those of the earlier ones. */
  method RecordAlternatives(ghost earlier: seq<string>, expanded: seq<string>, extensions: seq<string>, start: map<string, seq<string>>)
    returns (result: map<string, seq<string>>)
    requires Records(earlier, extensions, start)
    ensures Records(earlier + expanded, extensions, result)
  {
    hide Basename, Naming;
    result := start;
    assert earlier + expanded[..0] == earlier;
    for k := 0 to |expanded|
      invariant Records(earlier + expanded[..k], extensions, result)
    {
      var extension := LongestExcludedExtension(Basename(expanded[k]), extensions);
      RecordsOneMore(earlier + expanded[..k], expanded[k], extensions, result, extension);
      if extension.Some? {
        result := Recorded(result, extension.value, expanded[k]);
      }
      assert earlier + expanded[..k + 1] == earlier + expanded[..k] + [expanded[k]];
    }
    assert expanded[..|expanded|] == expanded;
  }

  lemma NamingOneMore(alternatives: seq<string>, expanded: string, extensions: seq<string>, ext: string)
    ensures Naming(alternatives + [expanded], extensions, ext)
            == Naming(alternatives, extensions, ext) + if IsLongestExtension(Basename(expanded), extensions, ext) then [expanded] else []
  {
    hide Basename, IsLongestExtension;
    assert (alternatives + [expanded])[..|alternatives|] == alternatives;
  }

  lemma RecordsOneMore(alternatives: seq<string>, expanded: string, extensions: seq<string>, result: map<string, seq<string>>, extension: Option<string>)
    requires Records(alternatives, extensions, result)
    requires extension.None? ==> forall ext :: ext in extensions ==> !EndsWith(Basename(expanded), "." + ext)
    requires extension.Some? ==> IsLongestExtension(Basename(expanded), extensions, extension.value)
    ensures Records(alternatives + [expanded], extensions, if extension.None? then result else Recorded(result, extension.value, expanded))
  {
    hide Basename, Naming, EndsWith;
    forall ext
      ensures Naming(alternatives + [expanded], extensions, ext)
              == Naming(alternatives, extensions, ext) + if extension == Some(ext) then [expanded] else []
    {
      NamingOneMore(alternatives, expanded, extensions, ext);
      if IsLongestExtension(Basename(expanded), extensions, ext) && extension.Some? {
        OneLongestExtension(Basename(expanded), extensions, ext, extension.value);
      }
    }
  }

  /**
   collectExtensionReincludes: the alternatives that name an excluded extension, under the longest they name, in the order
   of the patterns and of their expansions. Every full expansion of what is recorded under an extension ends with it.
   */
  method CollectExtensionReincludes(patterns: seq<string>, extensions: seq<string>) returns (result: map<string, seq<string>>)
    ensures Records(ExpandedPatterns(patterns), extensions, result)
    ensures forall ext, k, m :: ext in result && HasNoBrace(ext) && 0 <= k < |result[ext]| && 0 <= m < |Full(result[ext][k])| ==>
              EndsWith(Full(result[ext][k])[m], "." + ext)
  {
    hide Expand, Naming, Basename;
    result := map[];
    NothingNamed(extensions);
    for i := 0 to |patterns|
      invariant Records(ExpandedPatterns(patterns[..i]), extensions, result)
    {
      ExpandedOneMore(patterns, i);
      if !IsNegated(patterns[i]) {
        var expanded := ExpandBraces(patterns[i]);
        result := RecordAlternatives(ExpandedPatterns(patterns[..i]), expanded, extensions, result);
      }
    }
    assert patterns[..|patterns|] == patterns;
    forall ext, k, m | ext in result && HasNoBrace(ext) && 0 <= k < |result[ext]| && 0 <= m < |Full(result[ext][k])|
      ensures EndsWith(Full(result[ext][k])[m], "." + ext)
    {
      NamingNames(ExpandedPatterns(patterns), extensions, ext, k);
      EndingOfBasename(result[ext][k], "." + ext);
      FullKeepsEnding(result[ext][k], "." + ext);
    }
  }

  lemma NothingNamed(extensions: seq<string>)
    ensures Records(ExpandedPatterns([]), extensions, map[])
  {
  }

  lemma ExpandedOneMore(patterns: seq<string>, i: nat)
    requires i < |patterns|
    ensures ExpandedPatterns(patterns[..i + 1])
            == if "!" <= patterns[i] then ExpandedPatterns(patterns[..i]) else ExpandedPatterns(patterns[..i]) + Expand(patterns[i])
  {
    hide Expand;
    assert patterns[..i + 1][..i] == patterns[..i];
    assert ExpandedPatterns(patterns[..i]) + [] == ExpandedPatterns(patterns[..i]);
  }

  lemma EndingOfBasename(s: string, ending: string)
    requires EndsWith(Basename(s), ending)
    ensures EndsWith(s, ending)
  {
    var base := Basename(s);
    assert s[|s| - |base|..][|base| - |ending|..] == s[|s| - |ending|..];
  }
}
