/** What splitting a text into PEM blocks guarantees: stability, order, and undoing a join of blocks. */
module PemBlocks {
  import opened Pem
  import opened Seqs
  import opened Texts

  /** A complete block: a BEGIN marker at the start, the first END marker behind it at the end. */
  predicate IsBlock(s: string) {
    && Occurs(s, BEGIN, 0) && MarkerEnd(s, 0, BEGIN) >= 0
    && NextEnd(s, MarkerEnd(s, 0, BEGIN)) >= 0
    && MarkerEnd(s, NextEnd(s, MarkerEnd(s, 0, BEGIN)), END) == |s|
  }

  // ---- markers and blocks as they are written

  ghost predicate IsLabel(name: string) {
    name != "" && '-' !in name
  }

  lemma OccursJoined(text: string, a: string, b: string, i: int)
    ensures Occurs(text, a + b, i) <==> Occurs(text, a, i) && Occurs(text, b, i + |a|)
    ensures Occurs(text, a + b, i) ==> i >= 0
  {
    if Occurs(text, a + b, i) {
      assert text[i..i + |a|] == text[i..i + |a + b|][..|a|];
      assert text[i + |a|..i + |a| + |b|] == text[i..i + |a + b|][|a|..];
    }
    if Occurs(text, a, i) && Occurs(text, b, i + |a|) {
      assert text[i..i + |a + b|] == text[i..i + |a|] + text[i + |a|..i + |a| + |b|];
    }
  }

  /** A marker that is written out. */
  lemma WrittenIsMarker(text: string, prefix: string, name: string, i: int)
    requires IsLabel(name) && Occurs(text, prefix + name + "-----", i)
    ensures IsMarker(text, prefix, i) && MarkerEnd(text, i, prefix) == i + |prefix + name + "-----"|
  {
    OccursJoined(text, prefix + name, "-----", i);
    OccursJoined(text, prefix, name, i);
    hide Occurs, IndexOf;
    var start, dash := i + |prefix|, i + |prefix| + |name|;
    DashIsFirst(text, name, start, dash);
  }

  lemma DashIsFirst(text: string, name: string, start: nat, dash: nat)
    requires '-' !in name && dash == start + |name| && Occurs(text, name, start) && Occurs(text, "-----", dash)
    ensures IndexOf(text, "-", start) == dash
  {
    hide IndexOf;
    CharOf(text, "-----", dash, dash);
    DashOccurs(text, dash);
    forall k | start <= k < dash ensures !Occurs(text, "-", k) {
      CharOf(text, name, start, k);
      DashOccurs(text, k);
    }
    IndexOfIs(text, "-", start, dash);
  }

  /** A marker is the prefix, a label that is not empty and holds no dash, and five dashes. */
  lemma IsMarkerIff(text: string, prefix: string, i: int)
    ensures IsMarker(text, prefix, i) <==> exists name: string :: IsLabel(name) && Occurs(text, prefix + name + "-----", i)
  {
    if name: string :| IsLabel(name) && Occurs(text, prefix + name + "-----", i) {
      WrittenIsMarker(text, prefix, name, i);
    }
    if IsMarker(text, prefix, i) {
      var start := i + |prefix|;
      var dash := IndexOf(text, "-", start);
      var name := text[start..dash];
      forall k | 0 <= k < |name| ensures name[k] != '-' {
        DashOccurs(text, start + k);
      }
      hide IndexOf;
      OccursJoined(text, prefix, name, i);
      OccursJoined(text, prefix + name, "-----", i);
      assert IsLabel(name);
    }
  }

  /** What PEM files hold is a block: a BEGIN marker, a body without dashes and an END marker. */
  lemma WrittenIsBlock(name: string, body: string, last: string)
    requires IsLabel(name) && '-' !in body && IsLabel(last)
    ensures IsBlock("-----BEGIN " + name + "-----" + body + "-----END " + last + "-----")
  {
    hide Occurs, NextEnd, IsMarker, MarkerEnd;
    var begin, end := "-----BEGIN " + name + "-----", "-----END " + last + "-----";
    var s, at := begin + body + end, |begin| + |body|;
    assert s == "-----BEGIN " + name + "-----" + body + "-----END " + last + "-----";
    WholeOccurs(begin, body, end);
    WrittenIsMarker(s, "-----BEGIN ", name, 0);
    WrittenIsMarker(s, "-----END ", last, at);
    forall i | |begin| <= i < at ensures !IsMarker(s, END, i) {
      NoMarkerInBody(begin, body, end, i);
    }
    NextEndIs(s, |begin|, at);
    MarkerOccurs(s, BEGIN, 0);
  }

  lemma MarkerOccurs(text: string, prefix: string, i: int)
    requires IsMarker(text, prefix, i)
    ensures Occurs(text, prefix, i) && MarkerEnd(text, i, prefix) >= 0
  {
  }

  lemma WholeOccurs(begin: string, body: string, end: string)
    ensures Occurs(begin + body + end, begin, 0) && Occurs(begin + body + end, end, |begin| + |body|)
  {
    OccursJoined(begin + body + end, begin + body, end, 0);
    OccursJoined(begin + body + end, begin, body, 0);
  }

  lemma NoMarkerInBody(begin: string, body: string, end: string, i: nat)
    requires '-' !in body && |begin| <= i < |begin| + |body|
    ensures !IsMarker(begin + body + end, END, i)
  {
    var s := begin + body + end;
    assert s[i] == body[i - |begin|];
    if Occurs(s, END, i) {
      StartsWithDash(s, END, i);
    }
  }

  // ---- markers in a part of a text

  /** With a dash in reach behind the label, a marker ends in a part where it ends in the whole. */
  lemma MarkerEndIn(text: string, lo: nat, hi: nat, prefix: string, i: nat, d: nat)
    requires lo <= hi <= |text| && i + |prefix| <= d && d + |DASHES| <= hi - lo && text[lo + d] == '-'
    requires Occurs(text, prefix, lo + i) && Occurs(text[lo..hi], prefix, i)
    ensures var m := MarkerEnd(text, lo + i, prefix);
            MarkerEnd(text[lo..hi], i, prefix) == if m < 0 then -1 else m - lo
  {
    hide Occurs, IndexOf;
    var start := i + |prefix|;
    var dash := IndexOf(text, "-", lo + start);
    DashInReach(text, lo + start, lo + d);
    IndexOfInPart(text, lo, hi, "-", start);
    OccursInPart(text, lo, hi, DASHES, dash - lo);
  }

  lemma DashInReach(text: string, from: nat, d: nat)
    requires from <= d < |text| && text[d] == '-'
    ensures from <= IndexOf(text, "-", from) <= d
  {
    DashOccurs(text, d);
  }

  /** Before an END marker, a part and the whole have the same well-formed END markers. */
  lemma MarkersAgree(text: string, lo: nat, hi: nat, e: nat, i: nat)
    requires lo <= hi <= |text| && i < e && e + |END| <= hi - lo && Occurs(text, END, lo + e)
    ensures IsMarker(text, END, lo + i) <==> IsMarker(text[lo..hi], END, i)
  {
    OccursInPart(text, lo, hi, END, i);
    if Occurs(text, END, lo + i) {
      NoOverlap(text, END, lo + i, lo + e);
      StartsWithDash(text, END, lo + e);
      MarkerEndIn(text, lo, hi, END, i, e);
    }
  }

  lemma NextEndIs(text: string, from: nat, r: nat)
    requires from <= r <= |text| && IsMarker(text, END, r)
    requires forall i :: from <= i < r ==> !IsMarker(text, END, i)
    ensures NextEnd(text, from) == r
  {
  }

  lemma DashBeforeMarkerEnd(text: string, prefix: string, i: nat)
    requires Occurs(text, prefix, i) && MarkerEnd(text, i, prefix) >= 0
    ensures text[MarkerEnd(text, i, prefix) - |DASHES|] == '-' == text[MarkerEnd(text, i, prefix) - 1]
  {
    var dash := MarkerEnd(text, i, prefix) - |DASHES|;
    CharOf(text, DASHES, dash, dash);
    CharOf(text, DASHES, dash, dash + 4);
  }

  lemma PartOf(text: string, s: string, lo: nat)
    requires Occurs(text, s, lo)
    ensures lo + |s| <= |text| && text[lo..lo + |s|] == s
  {
  }

  /** The first END marker of the whole that ends where the part does is the first one of the part. */
  lemma EndInPart(text: string, lo: nat, hi: nat, from: nat, e: nat)
    requires lo <= hi <= |text| && lo + from <= |text| && NextEnd(text, lo + from) == lo + e && MarkerEnd(text, lo + e, END) == hi
    ensures from <= hi - lo && NextEnd(text[lo..hi], from) == e && MarkerEnd(text[lo..hi], e, END) == hi - lo
  {
    hide MarkerEnd, Occurs, NextEnd;
    OccursInPart(text, lo, hi, END, e);
    DashBeforeMarkerEnd(text, END, lo + e);
    MarkerEndIn(text, lo, hi, END, e, hi - lo - |DASHES|);
    forall i | from <= i < e ensures !IsMarker(text[lo..hi], END, i) {
      MarkersAgree(text, lo, hi, e, i);
    }
    NextEndIs(text[lo..hi], from, e);
  }

  lemma EndInWhole(text: string, lo: nat, hi: nat, from: nat, e: nat)
    requires lo <= hi <= |text| && from <= hi - lo && NextEnd(text[lo..hi], from) == e && MarkerEnd(text[lo..hi], e, END) == hi - lo
    ensures NextEnd(text, lo + from) == lo + e && MarkerEnd(text, lo + e, END) == hi
  {
    hide MarkerEnd, Occurs, NextEnd;
    OccursInPart(text, lo, hi, END, e);
    DashBeforeMarkerEnd(text[lo..hi], END, e);
    MarkerEndIn(text, lo, hi, END, e, hi - lo - |DASHES|);
    forall i | lo + from <= i < lo + e ensures !IsMarker(text, END, i) {
      MarkersAgree(text, lo, hi, e, i - lo);
    }
    NextEndIs(text, lo + from, lo + e);
  }

  /** A complete block is recognized wherever it stands. */
  lemma BlockInText(text: string, lo: nat, s: string)
    requires Occurs(text, s, lo) && IsBlock(s)
    ensures Occurs(text, BEGIN, lo)
    ensures var beginEnd := MarkerEnd(text, lo, BEGIN);
            && beginEnd >= 0 && NextEnd(text, beginEnd) >= 0 && MarkerEnd(text, NextEnd(text, beginEnd), END) == lo + |s|
  {
    hide MarkerEnd, NextEnd, Occurs;
    PartOf(text, s, lo);
    var hi, be := lo + |s|, MarkerEnd(s, 0, BEGIN);
    OccursInPart(text, lo, hi, BEGIN, 0);
    DashBeforeMarkerEnd(s, BEGIN, 0);
    MarkerEndIn(text, lo, hi, BEGIN, 0, be - |DASHES|);
    EndInWhole(text, lo, hi, be, NextEnd(s, be));
  }

  /** What the scan cuts out is a complete block. */
  lemma CutIsBlock(text: string, b: nat)
    requires IsMarker(text, BEGIN, b) && NextEnd(text, MarkerEnd(text, b, BEGIN)) >= 0
    ensures var endEnd := MarkerEnd(text, NextEnd(text, MarkerEnd(text, b, BEGIN)), END);
            b < endEnd <= |text| && IsBlock(text[b..endEnd])
  {
    hide MarkerEnd, NextEnd, Occurs, IsBlock;
    var beginEnd := MarkerEnd(text, b, BEGIN);
    var endAt := NextEnd(text, beginEnd);
    CutBetween(text, b, beginEnd, endAt, MarkerEnd(text, endAt, END));
  }

  lemma CutBetween(text: string, b: nat, beginEnd: nat, endAt: nat, endEnd: nat)
    requires beginEnd <= endAt < endEnd <= |text|
    requires Occurs(text, BEGIN, b) && MarkerEnd(text, b, BEGIN) == beginEnd
    requires NextEnd(text, beginEnd) == endAt && MarkerEnd(text, endAt, END) == endEnd
    ensures IsBlock(text[b..endEnd])
  {
    hide MarkerEnd, NextEnd, Occurs;
    OccursInPart(text, b, endEnd, BEGIN, 0);
    DashBeforeMarkerEnd(text, BEGIN, b);
    MarkerEndIn(text, b, endEnd, BEGIN, 0, beginEnd - b - |DASHES|);
    EndInPart(text, b, endEnd, beginEnd - b, endAt - b);
  }

  // ---- order

  /** The blocks are disjoint parts of the text at or after `from`, in text order. */
  ghost predicate InTextOrder(text: string, from: nat, blocks: seq<string>)
    decreases |blocks|
  {
    if blocks == [] then true
    else exists lo: nat :: lo >= from && Occurs(text, blocks[0], lo) && InTextOrder(text, lo + |blocks[0]|, blocks[1..])
  }

  lemma InTextOrderCons(text: string, from: nat, lo: nat, hi: nat, rest: seq<string>)
    requires from <= lo <= hi <= |text| && InTextOrder(text, hi, rest)
    ensures InTextOrder(text, from, [text[lo..hi]] + rest)
  {
    var blocks := [text[lo..hi]] + rest;
    assert blocks[1..] == rest;
    assert Occurs(text, blocks[0], lo);
  }

  lemma LaterStart(text: string, from: nat, later: nat, blocks: seq<string>)
    requires from <= later && InTextOrder(text, later, blocks)
    ensures InTextOrder(text, from, blocks)
  {
  }

  /** The scan returns complete blocks, in order and disjoint. */
  lemma {:induction false} ScanGivesBlocks(text: string, position: nat)
    ensures forall k :: 0 <= k < |Scan(text, position)| ==> IsBlock(Scan(text, position)[k])
    ensures InTextOrder(text, position, Scan(text, position))
    decreases |text| - position
  {
    hide InTextOrder, IsBlock, MarkerEnd, NextEnd, Scan, IndexOf;
    EmptyInOrder(text, position);
    if position < |text| {
      ScanStep(text, position);
      var beginAt := IndexOf(text, BEGIN, position);
      if beginAt >= 0 {
        var beginEnd := MarkerEnd(text, beginAt, BEGIN);
        if beginEnd < 0 {
          ScanGivesBlocks(text, beginAt + 1);
          LaterStart(text, position, beginAt + 1, Scan(text, position));
        } else if NextEnd(text, beginEnd) >= 0 {
          var endEnd := MarkerEnd(text, NextEnd(text, beginEnd), END);
          ScanGivesBlocks(text, endEnd);
          CutIsBlock(text, beginAt);
          InTextOrderCons(text, position, beginAt, endEnd, Scan(text, endEnd));
        }
      }
    } else {
      ScanPast(text, position);
    }
  }

  /** A well-formed BEGIN marker at b and behind it a well-formed END marker at e. */
  predicate MarkersAt(text: string, b: int, e: int) {
    IsMarker(text, BEGIN, b) && IsMarker(text, END, e) && MarkerEnd(text, b, BEGIN) <= e
  }

  /** Somewhere from `position` on a well-formed BEGIN marker is followed by a well-formed END marker. */
  ghost predicate HoldsBlock(text: string, position: nat) {
    exists b, e :: position <= b && MarkersAt(text, b, e)
  }

  /** The dash search of a marker ends before the next marker starts, so later markers end later. */
  lemma MarkersInOrder(text: string, b: nat, later: nat)
    requires IsMarker(text, BEGIN, b) && IsMarker(text, BEGIN, later) && b < later
    ensures MarkerEnd(text, b, BEGIN) <= MarkerEnd(text, later, BEGIN)
  {
    hide Occurs;
    NoOverlap(text, BEGIN, b, later);
    StartsWithDash(text, BEGIN, later);
    DashInReach(text, b + |BEGIN|, later);
  }

  /** The scan finds a block exactly where a well-formed BEGIN marker is followed by a well-formed END marker. */
  lemma {:induction false} ScanFindsIff(text: string, position: nat)
    ensures Scan(text, position) != [] <==> HoldsBlock(text, position)
    decreases |text| - position
  {
    hide MarkerEnd, NextEnd, Scan, IndexOf, Occurs;
    if position >= |text| {
      ScanPast(text, position);
      NoMarkerPast(text, position);
    } else {
      ScanStep(text, position);
      var b := IndexOf(text, BEGIN, position);
      if b >= 0 && MarkerEnd(text, b, BEGIN) < 0 {
        ScanFindsIff(text, b + 1);
      } else if b >= 0 {
        FirstMarkerDecides(text, position, b);
      }
    }
  }

  lemma FirstMarkerDecides(text: string, position: nat, b: nat)
    requires IndexOf(text, BEGIN, position) == b && MarkerEnd(text, b, BEGIN) >= 0
    ensures HoldsBlock(text, position) <==> NextEnd(text, MarkerEnd(text, b, BEGIN)) >= 0
  {
    hide MarkerEnd, NextEnd, IndexOf, Occurs;
    var e := NextEnd(text, MarkerEnd(text, b, BEGIN));
    assert e >= 0 ==> MarkersAt(text, b, e);
    if HoldsBlock(text, position) {
      var later, last :| position <= later && MarkersAt(text, later, last);
      if later > b {
        MarkersInOrder(text, b, later);
      }
      assert later >= b && last >= MarkerEnd(text, b, BEGIN);
    }
  }

  lemma NoMarkerPast(text: string, position: nat)
    requires position >= |text|
    ensures forall b :: position <= b ==> !IsMarker(text, BEGIN, b)
  {
  }

  /** A part whose surroundings hold no dash has the markers of the whole. */
  lemma MarkerInTrimmed(text: string, lo: nat, hi: nat, prefix: string, i: int)
    requires lo <= hi <= |text| && forall k :: 0 <= k < lo || hi <= k < |text| ==> text[k] != '-'
    requires prefix == BEGIN || prefix == END
    ensures IsMarker(text, prefix, i) <==> IsMarker(text[lo..hi], prefix, i - lo)
    ensures IsMarker(text, prefix, i) ==> MarkerEnd(text, i, prefix) == lo + MarkerEnd(text[lo..hi], i - lo, prefix)
  {
    hide MarkerEnd;
    if IsMarker(text, prefix, i) {
      StartsWithDash(text, prefix, i);
      DashBeforeMarkerEnd(text, prefix, i);
      OccursInPart(text, lo, hi, prefix, i - lo);
      MarkerEndIn(text, lo, hi, prefix, i - lo, MarkerEnd(text, i, prefix) - |DASHES| - lo);
    } else if IsMarker(text[lo..hi], prefix, i - lo) {
      DashBeforeMarkerEnd(text[lo..hi], prefix, i - lo);
      OccursInPart(text, lo, hi, prefix, i - lo);
      MarkerEndIn(text, lo, hi, prefix, i - lo, MarkerEnd(text[lo..hi], i - lo, prefix) - |DASHES|);
    }
  }

  /** So trimming a text takes no block from it. */
  lemma TrimKeepsBlocks(text: string)
    ensures HoldsBlock(Trim(text), 0) <==> HoldsBlock(text, 0)
  {
    hide MarkersAt, Trim;
    var lo, hi := TrimCuts(text);
    forall b: int, e: int | MarkersAt(text, b, e) ensures MarkersAt(text[lo..hi], b - lo, e - lo) && b - lo >= 0 {
      MarkersInTrimmed(text, lo, hi, b, e);
    }
    forall b: int, e: int | MarkersAt(text[lo..hi], b, e) ensures MarkersAt(text, lo + b, lo + e) {
      MarkersInTrimmed(text, lo, hi, lo + b, lo + e);
    }
  }

  lemma MarkersInTrimmed(text: string, lo: nat, hi: nat, b: int, e: int)
    requires lo <= hi <= |text| && forall k :: 0 <= k < lo || hi <= k < |text| ==> text[k] != '-'
    ensures MarkersAt(text, b, e) <==> MarkersAt(text[lo..hi], b - lo, e - lo)
    ensures MarkersAt(text, b, e) ==> b >= lo
  {
    hide MarkerEnd;
    MarkerInTrimmed(text, lo, hi, BEGIN, b);
    MarkerInTrimmed(text, lo, hi, END, e);
  }

  lemma EmptyInOrder(text: string, from: nat)
    ensures InTextOrder(text, from, [])
  {
  }

  lemma ScanPast(text: string, position: nat)
    requires position >= |text|
    ensures Scan(text, position) == []
  {
  }

  // ---- joined blocks

  /** When no BEGIN comes first, the scan finds the block at `lo` and goes on behind it. */
  lemma ScanFindsBlock(text: string, position: nat, lo: nat, s: string)
    requires position <= lo && Clear(text, BEGIN, position, lo) && Occurs(text, s, lo) && IsBlock(s)
    ensures Scan(text, position) == [s] + Scan(text, lo + |s|)
  {
    hide IsBlock, MarkerEnd, NextEnd, Scan, IndexOf, Occurs;
    BlockInText(text, lo, s);
    PartOf(text, s, lo);
    IndexOfIs(text, BEGIN, position, lo);
    ScanStep(text, position);
  }

  ghost predicate AllBlocks(blocks: seq<string>) {
    forall k :: 0 <= k < |blocks| ==> IsBlock(blocks[k])
  }

  lemma NoBeginAt(text: string, i: nat)
    requires i < |text| && text[i] == '\n'
    ensures Clear(text, BEGIN, i, i + 1)
  {
    if Occurs(text, BEGIN, i) {
      StartsWithDash(text, BEGIN, i);
    }
  }

  lemma {:induction false} ScanJoined(text: string, position: nat, lo: nat, blocks: seq<string>)
    requires blocks != [] && AllBlocks(blocks)
    requires position <= lo <= |text| && Clear(text, BEGIN, position, lo) && text[lo..] == Join(blocks, '\n')
    ensures Scan(text, position) == blocks
    decreases |blocks|
  {
    hide IsBlock, Clear, Scan;
    var s, next := blocks[0], lo + |blocks[0]|;
    assert text[lo..][..|s|] == s;
    assert Occurs(text, s, lo);
    ScanFindsBlock(text, position, lo, s);
    if |blocks| == 1 {
      ScanPast(text, next);
    } else {
      assert text[lo..][|s|] == '\n' == text[next];
      assert text[lo..][|s| + 1..] == text[next + 1..] == Join(blocks[1..], '\n');
      NoBeginAt(text, next);
      ScanJoined(text, next, next + 1, blocks[1..]);
      assert blocks == [s] + blocks[1..];
    }
  }

  /** A block starts and ends with a dash. */
  lemma BlockEnds(s: string)
    requires IsBlock(s)
    ensures |s| >= 2 && s[0] == '-' == s[|s| - 1] && Occurs(s, BEGIN_PREFIX, 0)
  {
    StartsWithDash(s, BEGIN, 0);
    DashBeforeMarkerEnd(s, END, NextEnd(s, MarkerEnd(s, 0, BEGIN)));
    assert s[..11][..10] == BEGIN_PREFIX;
  }

  lemma {:induction false} JoinedEnds(blocks: seq<string>)
    requires blocks != [] && AllBlocks(blocks)
    ensures var text := Join(blocks, '\n'); |text| >= 2 && text[0] == '-' == text[|text| - 1] && Occurs(text, BEGIN_PREFIX, 0)
    decreases |blocks|
  {
    hide IsBlock;
    BlockEnds(blocks[0]);
    if |blocks| > 1 {
      JoinedEnds(blocks[1..]);
      assert Join(blocks, '\n')[0..10] == blocks[0][0..10];
    }
  }

  /** Splitting complete blocks that were joined by line breaks gives them back, also when the text ends in one. */
  lemma SplitUndoesJoin(blocks: seq<string>)
    requires blocks != [] && AllBlocks(blocks)
    ensures Split(Join(blocks, '\n')) == blocks
    ensures Split(Join(blocks, '\n') + "\n") == blocks
  {
    hide Scan, IsBlock, Join;
    var text := Join(blocks, '\n');
    JoinedEnds(blocks);
    TrimIsTrimmed(text);
    ScanJoined(text, 0, 0, blocks);
    var ended := text + "\n";
    assert TrimStart(ended) == ended && ended[..|ended| - 1] == text;
    assert TrimStart(text) == text;
  }

  // ---- the whole function

  /** Splitting any of the results again changes nothing. */
  lemma SplitIsStable(text: string, k: nat)
    requires k < |Split(text)|
    ensures Split(Split(text)[k]) == [Split(text)[k]]
  {
    var trimmed := Trim(text);
    TrimIsTrimmed(text);
    hide Trim, Scan, IsBlock;
    if Split(text) != [trimmed] {
      ScanGivesBlocks(trimmed, 0);
      var block := Split(text)[k];
      assert Join([block], '\n') == block;
      SplitUndoesJoin([block]);
    }
  }

  /** The results are disjoint parts of the trimmed text in its order: the whole of it, or complete blocks. */
  lemma SplitGivesParts(text: string)
    ensures InTextOrder(Trim(text), 0, Split(text))
    ensures Split(text) == [Trim(text)] || AllBlocks(Split(text))
  {
    var trimmed := Trim(text);
    hide Trim, Scan, IsBlock;
    ScanGivesBlocks(trimmed, 0);
    if Split(text) == [trimmed] {
      assert trimmed[0..|trimmed|] == trimmed;
      EmptyInOrder(trimmed, |trimmed|);
      InTextOrderCons(trimmed, 0, 0, |trimmed|, []);
    }
  }

  /** Where the scan finds a block, there is a BEGIN. */
  lemma ScanHasBegin(text: string)
    requires Scan(text, 0) != []
    ensures text != "" && IndexOf(text, BEGIN_PREFIX, 0) >= 0
  {
    hide IsBlock, Scan, Occurs, MarkerEnd, NextEnd, IndexOf;
    if text == "" {
      ScanPast(text, 0);
    } else {
      ScanStep(text, 0);
      BeginHasPrefix(text, IndexOf(text, BEGIN, 0));
    }
  }

  lemma BeginHasPrefix(text: string, at: int)
    requires Occurs(text, BEGIN, at)
    ensures Occurs(text, BEGIN_PREFIX, at)
  {
    assert BEGIN[..10] == BEGIN_PREFIX;
    SubSlice(text, at, at + 11, 0, 10);
  }

  /** Some result stands in the text around position b. */
  ghost predicate IsInResult(text: string, blocks: seq<string>, b: int) {
    exists k, lo :: 0 <= k < |blocks| && Around(text, blocks[k], lo, b)
  }

  predicate Around(text: string, block: string, lo: int, b: int) {
    Occurs(text, block, lo) && lo <= b < lo + |block|
  }

  lemma LaterResult(text: string, first: string, rest: seq<string>, b: int)
    requires IsInResult(text, rest, b)
    ensures IsInResult(text, [first] + rest, b)
  {
    var k, lo :| 0 <= k < |rest| && Around(text, rest[k], lo, b);
    assert Around(text, ([first] + rest)[k + 1], lo, b);
  }

  lemma {:induction false} ScanMissesNothing(text: string, position: nat, b: nat, e: int)
    requires position <= b && MarkersAt(text, b, e)
    ensures IsInResult(text, Scan(text, position), b)
    decreases |text| - position
  {
    hide MarkerEnd, NextEnd, Scan, IndexOf, Occurs, IsInResult;
    MarkerIsInside(text, b, e);
    ScanStep(text, position);
    var first := IndexOf(text, BEGIN, position);
    assert 0 <= first <= b;
    if MarkerEnd(text, first, BEGIN) < 0 {
      ScanMissesNothing(text, first + 1, b, e);
    } else {
      assert HoldsBlock(text, position);
      FirstMarkerDecides(text, position, first);
      var end := MarkerEnd(text, NextEnd(text, MarkerEnd(text, first, BEGIN)), END);
      if b < end {
        FirstResult(text, first, end, Scan(text, end), b);
      } else {
        ScanMissesNothing(text, end, b, e);
        LaterResult(text, text[first..end], Scan(text, end), b);
      }
    }
  }

  lemma MarkerIsInside(text: string, b: nat, e: int)
    requires MarkersAt(text, b, e)
    ensures b < |text| && Occurs(text, BEGIN, b)
  {
  }

  lemma FirstResult(text: string, lo: nat, hi: nat, rest: seq<string>, b: int)
    requires lo <= b < hi <= |text|
    ensures IsInResult(text, [text[lo..hi]] + rest, b)
  {
    assert Around(text, ([text[lo..hi]] + rest)[0], lo, b);
  }

  /**
   No block is passed over: every well-formed BEGIN marker that a well-formed END marker follows lies in one of the results,
   as the start of a block or inside one that started before.
   */
  lemma SplitMissesNothing(text: string, b: nat, e: int)
    requires MarkersAt(Trim(text), b, e)
    ensures IsInResult(Trim(text), Split(text), b) && AllBlocks(Split(text))
  {
    hide Scan, Trim, IsBlock, IsInResult, MarkersAt;
    var trimmed := Trim(text);
    ScanMissesNothing(trimmed, 0, b, e);
    ScanFindsIff(trimmed, 0);
    assert HoldsBlock(trimmed, 0);
    ScanHasBegin(trimmed);
    ScanGivesBlocks(trimmed, 0);
  }
}
