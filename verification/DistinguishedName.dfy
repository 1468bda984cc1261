/** The parser of distinguished names (RFC 2253): quoting, escapes, separators and the treatment of spaces. */
module DistinguishedName {
  import opened Bytes
  import opened Texts
  import opened Wrappers
  import Utf8

  type Attributes = map<string, string>

  predicate IsSeparator(c: char) {
    c == ',' || c == ';' || c == '+'
  }

  predicate IsHex(c: char) {
    HexDigitValue(c) >= 0
  }

  // ---- the parse as a function of the position

  /** A hex pair `\XX` starts at i. */
  predicate HexPairAt(s: string, i: nat) {
    i + 3 <= |s| && s[i] == '\\' && IsHex(s[i + 1]) && IsHex(s[i + 2])
  }

  /** The bytes of the longest run of hex pairs from i on. */
  function HexRun(s: string, i: nat): (b: bytes)
    ensures i + 3 * |b| <= |s| || b == []
    decreases |s| - i
  {
    if HexPairAt(s, i) then [16 * HexDigitValue(s[i + 1]) + HexDigitValue(s[i + 2])] + HexRun(s, i + 3) else []
  }

  /** The first position from i on that holds no space. */
  function NonSpace(s: string, i: nat): (j: nat)
    requires i <= |s|
    ensures i <= j <= |s| && (j < |s| ==> s[j] != ' ')
    ensures forall k :: i <= k < j ==> s[k] == ' '
    decreases |s| - i
  {
    if i == |s| || s[i] != ' ' then i else NonSpace(s, i + 1)
  }

  /** Spaces up to position j are dropped: the text, a value or a key ends there. */
  predicate EndsToken(s: string, j: nat, key: Option<string>) {
    || j >= |s| || s[j] == ',' || s[j] == ';'
    || (key.None? && s[j] == '=') || (key.Some? && s[j] == '+')
  }

  function Store(result: Attributes, key: Option<string>, token: string): Attributes {
    if key.Some? then result[key.value := token] else result
  }

  /**
   The attributes of s, once those before position i are in `result`, inside or outside quotes, with the key and the part
   of the token read so far. A backslash that ends the text runs past the end, and the attribute it ends is lost.
   */
  function ParseFrom(s: string, i: nat, quoted: bool, key: Option<string>, token: string, result: Attributes): Attributes
    decreases |s| - i
  {
    if i > |s| then result
    else if i == |s| then Store(result, key, token)
    else if quoted then
      if s[i] == '"' then ParseFrom(s, i + 1, false, key, token, result)
      else ParseFrom(s, i + 1, true, key, token + [s[i]], result)
    else if s[i] == '"' then ParseFrom(s, i + 1, true, key, token, result)
    else if s[i] == '\\' then
      var run := HexRun(s, i);
      if run != [] then ParseFrom(s, i + 3 * |run|, false, key, token + Utf8.Decode(run), result)
      else if i + 1 < |s| then ParseFrom(s, i + 2, false, key, token + [s[i + 1]], result)
      else result
    else if key.None? && s[i] == '=' then ParseFrom(s, i + 1, false, Some(token), "", result)
    else if IsSeparator(s[i]) then ParseFrom(s, i + 1, false, None, "", Store(result, key, token))
    else if s[i] == ' ' && token == "" then ParseFrom(s, i + 1, false, key, token, result)
    else if s[i] == ' ' && EndsToken(s, NonSpace(s, i), key) then ParseFrom(s, NonSpace(s, i), false, key, token, result)
    else ParseFrom(s, i + 1, false, key, token + [s[i]], result)
  }

  function Parse(text: string): Attributes {
    ParseFrom(Trim(text), 0, false, None, "", map[])
  }

  // ---- the loop

  /** What the cached look-ahead is worth at position i: nothing when it lies behind, else it is the next non-space. */
  ghost predicate LookAheadHolds(s: string, i: nat, nextNonSpace: int) {
    0 <= nextNonSpace <= |s| && (i <= nextNonSpace ==> NonSpace(s, i) == nextNonSpace)
  }

  /** The run of hex pairs at i: its bytes, and where it ends. */
  method ReadHexPairs(s: string, i: nat) returns (b: bytes, end: nat)
    requires i <= |s|
    ensures b == HexRun(s, i) && end == i + 3 * |b| && end <= |s|
  {
    b, end := [], i;
    while end + 3 <= |s| && s[end] == '\\' && IsHex(s[end + 1]) && IsHex(s[end + 2])
      invariant i <= end <= |s| && end == i + 3 * |b|
      invariant HexRun(s, i) == b + HexRun(s, end)
    {
      b := b + [16 * HexDigitValue(s[end + 1]) + HexDigitValue(s[end + 2])];
      end := end + 3;
    }
  }

  method SkipSpaces(s: string, i: nat) returns (j: nat)
    requires i <= |s|
    ensures j == NonSpace(s, i)
  {
    j := i;
    while j < |s| && s[j] == ' '
      invariant i <= j <= |s| && NonSpace(s, i) == NonSpace(s, j)
    {
      j := j + 1;
    }
  }

  /** Any step forward keeps the look-ahead right: a position it has not reached yet is still in the same run of spaces. */
  lemma LookAheadStep(s: string, i: nat, nextNonSpace: int)
    requires i < |s| && LookAheadHolds(s, i, nextNonSpace)
    ensures i <= nextNonSpace ==> NonSpace(s, i) == nextNonSpace
    ensures LookAheadHolds(s, i + 1, nextNonSpace)
    ensures s[i] != ' ' ==> forall j :: i < j ==> LookAheadHolds(s, j, nextNonSpace)
  {
  }

  lemma LookAheadFresh(s: string, i: nat)
    requires i <= |s|
    ensures LookAheadHolds(s, i, NonSpace(s, i)) && LookAheadHolds(s, NonSpace(s, i), NonSpace(s, i))
  {
  }

  lemma StartsAfterSpace(text: string)
    ensures LookAheadHolds(Trim(text), 0, 0)
  {
    TrimIsTrimmed(text);
  }

  /**
   parseDn: one loop over the trimmed text, with jumps past escapes and skipped spaces and a look-ahead that is computed once
   per run of spaces.
   */
  method ParseDn(text: string) returns (result: Attributes)
    ensures result == Parse(text)
  {
    var quoted, key, token, nextNonSpace := false, None, "", 0;
    var s := Trim(text);
    StartsAfterSpace(text);
    result := map[];
    var i := 0;
    hide NonSpace, LookAheadHolds, HexRun, Utf8.Decode, Trim;
    while i <= |s|
      invariant 0 <= i && 0 <= nextNonSpace <= |s|
      invariant i <= |s| ==> LookAheadHolds(s, i, nextNonSpace)
      invariant ParseFrom(s, i, quoted, key, token, result) == Parse(text)
      decreases |s| - i
    {
      if i == |s| {
        return Store(result, key, token);
      }
      LookAheadStep(s, i, nextNonSpace);
      var ch := s[i];
      if quoted && ch == '"' {
        quoted := false;
      } else if !quoted && ch == '"' {
        quoted := true;
      } else if !quoted && ch == '\\' {
        var run, end := ReadHexPairs(s, i);
        if |run| == 0 {
          i := i + 1;
          if i == |s| {
            return;
          }
          token := token + [s[i]];
        } else {
          i := end - 1;
          var decoded := Utf8.DecodeEscapedBytes(run);
          token := token + decoded;
        }
      } else if !quoted && key.None? && ch == '=' {
        key, token := Some(token), "";
      } else if !quoted && IsSeparator(ch) {
        if key.Some? {
          result := result[key.value := token];
        }
        key, token := None, "";
      } else if ch == ' ' && !quoted && |token| == 0 {
      } else if ch == ' ' && !quoted {
        if i > nextNonSpace {
          nextNonSpace := SkipSpaces(s, i);
        }
        LookAheadFresh(s, i);
        LookAheadStep(s, i, nextNonSpace);
        if EndsToken(s, nextNonSpace, key) {
          i := nextNonSpace - 1;
        } else {
          token := token + [ch];
        }
      } else {
        token := token + [ch];
      }
      i := i + 1;
    }
  }
}
