/** Splitting a text into its PEM blocks by one forward scan. */
module Pem {
  import opened Json
  import opened Seqs
  import opened Texts
  import opened Wrappers

  const BEGIN := "-----BEGIN "
  const END := "-----END "
  const DASHES := "-----"
  const BEGIN_PREFIX := "-----BEGIN"

  /** The index past the marker at `start`, or -1 when its label is empty or holds a dash. */
  function MarkerEnd(text: string, start: nat, prefix: string): (r: int)
    requires Occurs(text, prefix, start)
    ensures r < 0 || start + |prefix| + 6 <= r <= |text|
    ensures r >= -1
  {
    var labelStart := start + |prefix|;
    var dash := IndexOf(text, "-", labelStart);
    if dash <= labelStart || !Occurs(text, DASHES, dash) then -1 else dash + |DASHES|
  }

  /** A well-formed marker starts at i. */
  predicate IsMarker(text: string, prefix: string, i: int) {
    Occurs(text, prefix, i) && MarkerEnd(text, i, prefix) >= 0
  }

  /** The first well-formed END marker at or after `from`, or -1. */
  function NextEnd(text: string, from: nat): (r: int)
    requires from <= |text|
    ensures r == -1 || (from <= r && IsMarker(text, END, r))
    ensures forall i :: from <= i && (r < 0 || i < r) ==> !IsMarker(text, END, i)
    decreases |text| - from
  {
    var at := IndexOf(text, END, from);
    if at < 0 then -1
    else if MarkerEnd(text, at, END) >= 0 then at
    else NextEnd(text, at + 1)
  }

  /** The complete blocks from `position` on. */
  function Scan(text: string, position: nat): (blocks: seq<string>)
    decreases |text| - position
  {
    if position >= |text| then []
    else
      var beginAt := IndexOf(text, BEGIN, position);
      if beginAt < 0 then []
      else
        var beginEnd := MarkerEnd(text, beginAt, BEGIN);
        if beginEnd < 0 then Scan(text, beginAt + 1)
        else
          var endAt := NextEnd(text, beginEnd);
          if endAt < 0 then []
          else
            var endEnd := MarkerEnd(text, endAt, END);
            [text[beginAt..endEnd]] + Scan(text, endEnd)
  }

  function Split(text: string): (blocks: seq<string>) {
    var trimmed := Trim(text);
    if trimmed == "" then []
    else if IndexOf(trimmed, BEGIN_PREFIX, 0) < 0 || Scan(trimmed, 0) == [] then [trimmed]
    else Scan(trimmed, 0)
  }

  // ---- cost

  /** Characters indexOf looks at. */
  ghost function SearchCost(text: string, pattern: string, from: nat): nat
    requires from <= |text|
  {
    var r := IndexOf(text, pattern, from);
    if r < 0 then |text| - from else r - from + |pattern|
  }

  ghost function MarkerCost(text: string, start: nat, prefix: string): nat
    requires Occurs(text, prefix, start)
  {
    SearchCost(text, "-", start + |prefix|) + |DASHES|
  }

  /** The markers end in their only blank, so no two occurrences overlap. */
  lemma NoOverlap(text: string, prefix: string, i: int, j: int)
    requires prefix == BEGIN || prefix == END
    requires Occurs(text, prefix, i) && Occurs(text, prefix, j) && i < j
    ensures j >= i + |prefix|
  {
    var last := i + |prefix| - 1;
    CharOf(text, prefix, i, last);
    if j <= last {
      CharOf(text, prefix, j, last);
    }
  }

  lemma CharOf(text: string, prefix: string, i: int, at: int)
    requires Occurs(text, prefix, i) && i <= at < i + |prefix|
    ensures text[at] == prefix[at - i]
  {
    assert text[i..i + |prefix|][at - i] == text[at];
  }

  /** Both markers start with a dash. */
  lemma StartsWithDash(text: string, prefix: string, i: int)
    requires prefix == BEGIN || prefix == END
    requires Occurs(text, prefix, i)
    ensures text[i] == '-'
  {
    assert text[i] == text[i..i + |prefix|][0];
  }

  lemma DashOccurs(text: string, i: int)
    requires 0 <= i < |text|
    ensures Occurs(text, "-", i) <==> text[i] == '-'
  {
    assert text[i..i + 1] == [text[i]];
  }

  /** The end of the dash search behind a malformed marker: up to there no marker starts. */
  ghost function Frontier(text: string, start: nat, prefix: string): (f: nat)
    requires Occurs(text, prefix, start)
    ensures start + |prefix| <= f <= |text|
    ensures MarkerCost(text, start, prefix) <= f - start - |prefix| + 6
  {
    var dash := IndexOf(text, "-", start + |prefix|);
    if dash < 0 then |text| else dash
  }

  ghost predicate Clear(text: string, prefix: string, from: int, to: int) {
    forall i :: from <= i < to ==> !Occurs(text, prefix, i)
  }

  lemma NothingBeforeFrontier(text: string, prefix: string, start: nat)
    requires (prefix == BEGIN || prefix == END) && Occurs(text, prefix, start)
    ensures Clear(text, prefix, start + 1, Frontier(text, start, prefix))
  {
    forall i | start < i < Frontier(text, start, prefix) ensures !Occurs(text, prefix, i) {
      if Occurs(text, prefix, i) {
        NoOverlap(text, prefix, start, i);
        StartsWithDash(text, prefix, i);
        DashOccurs(text, i);
      }
    }
  }

  /** A search that starts in a clear stretch ends behind it; what it and the dash search behind its hit cost. */
  lemma SearchStep(text: string, prefix: string, from: nat, frontier: nat)
    requires (prefix == BEGIN || prefix == END) && from <= frontier <= |text| && Clear(text, prefix, from, frontier)
    ensures var at := IndexOf(text, prefix, from);
            if at < 0 then SearchCost(text, prefix, from) == |text| - from
            else
              var f := Frontier(text, at, prefix);
              && Clear(text, prefix, at + 1, f)
              && SearchCost(text, prefix, from) + MarkerCost(text, at, prefix) <= 10 * (at + 1 - from) + f - frontier
  {
    var at := IndexOf(text, prefix, from);
    if at >= 0 {
      NothingBeforeFrontier(text, prefix, at);
    }
  }

  /** The dash search of a well-formed marker stops inside it. */
  lemma FrontierOfMarker(text: string, prefix: string, at: nat)
    requires (prefix == BEGIN || prefix == END) && Occurs(text, prefix, at) && MarkerEnd(text, at, prefix) >= 0
    ensures Frontier(text, at, prefix) + |DASHES| == MarkerEnd(text, at, prefix)
  {
  }

  lemma NothingIsClear(text: string, prefix: string, from: nat)
    ensures Clear(text, prefix, from, from)
  {
  }

  /** The inner loop: on to the first well-formed END marker. */
  method FindEnd(trimmed: string, beginEnd: nat) returns (endAt: int, endEnd: int, ghost scanned: nat)
    requires beginEnd <= |trimmed|
    ensures endAt == NextEnd(trimmed, beginEnd)
    ensures endAt >= 0 ==> endEnd == MarkerEnd(trimmed, endAt, END)
    ensures scanned <= 12 * ((if endAt >= 0 then endEnd else |trimmed|) - beginEnd)
  {
    endAt, endEnd, scanned := -1, -1, 0;
    hide SearchCost, MarkerCost, Frontier, Clear, MarkerEnd, Occurs;
    var searchFrom := beginEnd;
    ghost var frontier: nat := beginEnd;
    NothingIsClear(trimmed, END, beginEnd);
    while endAt < 0 || endEnd < 0
      invariant beginEnd <= searchFrom <= frontier <= |trimmed|
      invariant endAt < 0 || endEnd < 0 ==> NextEnd(trimmed, beginEnd) == NextEnd(trimmed, searchFrom)
      invariant endAt >= 0 && endEnd >= 0 ==> endAt == NextEnd(trimmed, beginEnd) && endEnd == MarkerEnd(trimmed, endAt, END)
      invariant endAt >= 0 && endEnd >= 0 ==> scanned <= 12 * (endEnd - beginEnd)
      invariant endAt < 0 || endEnd < 0 ==> Clear(trimmed, END, searchFrom, frontier) && scanned <= 10 * (searchFrom - beginEnd) + (frontier - beginEnd)
      decreases |trimmed| - searchFrom, endAt < 0 || endEnd < 0
    {
      SearchStep(trimmed, END, searchFrom, frontier);
      scanned := scanned + SearchCost(trimmed, END, searchFrom);
      endAt := IndexOf(trimmed, END, searchFrom);
      if endAt < 0 {
        return;
      }
      scanned := scanned + MarkerCost(trimmed, endAt, END);
      endEnd := MarkerEnd(trimmed, endAt, END);
      frontier := Frontier(trimmed, endAt, END);
      searchFrom := endAt + 1;
      if endEnd >= 0 {
        FrontierOfMarker(trimmed, END, endAt);
      }
    }
  }

  /** One turn of the outer loop. */
  lemma ScanStep(text: string, position: nat)
    requires position < |text|
    ensures var beginAt := IndexOf(text, BEGIN, position);
            if beginAt < 0 then Scan(text, position) == []
            else
              var beginEnd := MarkerEnd(text, beginAt, BEGIN);
              if beginEnd < 0 then Scan(text, position) == Scan(text, beginAt + 1)
              else
                var endAt := NextEnd(text, beginEnd);
                if endAt < 0 then Scan(text, position) == []
                else
                  var endEnd := MarkerEnd(text, endAt, END);
                  beginAt <= endEnd <= |text| && Scan(text, position) == [text[beginAt..endEnd]] + Scan(text, endEnd)
  {
  }

  lemma ScanDone(text: string)
    ensures Scan(text, |text|) == []
  {
  }

  /** The outer loop over the trimmed text, counting the characters looked at. */
  method ScanBlocks(trimmed: string) returns (blocks: seq<string>, ghost scanned: nat)
    ensures blocks == Scan(trimmed, 0)
    ensures scanned <= 26 * |trimmed|
  {
    blocks, scanned := [], 0;
    hide SearchCost, MarkerCost, Frontier, Clear, MarkerEnd, Occurs, Scan, IndexOf, NextEnd;
    var position := 0;
    ghost var frontier: nat := 0;
    NothingIsClear(trimmed, BEGIN, 0);
    while position < |trimmed|
      invariant position <= frontier <= |trimmed|
      invariant Scan(trimmed, 0) == blocks + Scan(trimmed, position)
      invariant Clear(trimmed, BEGIN, position, frontier)
      invariant scanned <= 12 * position + frontier
      decreases |trimmed| - position
    {
      SearchStep(trimmed, BEGIN, position, frontier);
      ScanStep(trimmed, position);
      scanned := scanned + SearchCost(trimmed, BEGIN, position);
      var beginAt := IndexOf(trimmed, BEGIN, position);
      if beginAt < 0 {
        break;
      }
      scanned := scanned + MarkerCost(trimmed, beginAt, BEGIN);
      var beginEnd := MarkerEnd(trimmed, beginAt, BEGIN);
      if beginEnd < 0 {
        frontier := Frontier(trimmed, beginAt, BEGIN);
        position := beginAt + 1;
        continue;
      }
      var endAt, endEnd, cost := FindEnd(trimmed, beginEnd);
      scanned := scanned + cost;
      if endAt < 0 {
        break;
      }
      FrontierOfMarker(trimmed, BEGIN, beginAt);
      blocks := blocks + [trimmed[beginAt..endEnd]];
      position := endEnd;
      frontier := position;
      NothingIsClear(trimmed, BEGIN, position);
    }
    ScanDone(trimmed);
  }

  /**
   splitPemBlocks. Beyond trimming and the test for a BEGIN, which pass over the text once each, the scan looks at no more
   than 26 characters per character of the trimmed text.
   */
  method SplitPemBlocks(text: string) returns (blocks: seq<string>, ghost scanned: nat)
    ensures blocks == Split(text)
    ensures scanned <= 26 * |Trim(text)|
  {
    scanned := 0;
    var trimmed := Trim(text);
    if |trimmed| == 0 {
      return [], 0;
    }
    if IndexOf(trimmed, BEGIN_PREFIX, 0) < 0 {
      return [trimmed], 0;
    }
    blocks, scanned := ScanBlocks(trimmed);
    if |blocks| == 0 {
      blocks := [trimmed];
    }
  }
}
