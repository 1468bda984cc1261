/** Key lists as configured: public keys of the updater, signing keys in a base64 environment variable. */
module SigningKeys {
  import opened Base64
  import opened Bytes
  import opened Json
  import opened Pem
  import opened PemBlocks
  import opened Seqs
  import opened Texts
  import opened Wrappers

  // ---- public keys

  /** A configured public key value: none, one, or a list. */
  datatype KeyConfig = NoKeys | One(value: Value) | Many(values: seq<Value>)

  function KeysOf(v: Value): seq<string> {
    if v.Text? then Split(v.text) else []
  }

  function Entries(config: KeyConfig): seq<Value> {
    match config
    case NoKeys => []
    case One(value) => [value]
    case Many(values) => values
  }

  /** normalizePublicKeyList: the keys of every text, in order. */
  method NormalizePublicKeyList(config: KeyConfig) returns (result: seq<string>)
    ensures result == Concat(Map(KeysOf, Entries(config)))
    ensures forall k :: 0 <= k < |result| ==> Split(result[k]) == [result[k]]
  {
    result := [];
    var entries := Entries(config);
    for i := 0 to |entries|
      invariant result == Concat(Map(KeysOf, entries[..i]))
      invariant forall k :: 0 <= k < |result| ==> Split(result[k]) == [result[k]]
    {
      assert Map(KeysOf, entries[..i + 1]) == Map(KeysOf, entries[..i]) + [KeysOf(entries[i])];
      ConcatSnoc(Map(KeysOf, entries[..i]), KeysOf(entries[i]));
      if entries[i].Text? {
        var blocks, _ := SplitPemBlocks(entries[i].text);
        forall k | 0 <= k < |blocks| ensures Split(blocks[k]) == [blocks[k]] {
          SplitIsStable(entries[i].text, k);
        }
        hide Split;
        result := result + blocks;
      } else {
        assert result + KeysOf(entries[i]) == result;
      }
    }
    assert entries[..|entries|] == entries;
  }

  /** Every text's blocks are among the keys, in order; a value that is no text has none. */
  lemma {:induction false} ConfiguredBlocks(values: seq<Value>, blocks: seq<seq<string>>)
    requires |values| == |blocks|
    requires forall k :: 0 <= k < |values| ==>
               (values[k].Text? && blocks[k] != [] && AllBlocks(blocks[k]) && values[k].text == Join(blocks[k], '\n')) || (!values[k].Text? && blocks[k] == [])
    ensures Concat(Map(KeysOf, Entries(Many(values)))) == Concat(blocks)
    ensures |values| == 1 ==> Concat(Map(KeysOf, Entries(One(values[0])))) == blocks[0]
    ensures Concat(Map(KeysOf, Entries(NoKeys))) == []
  {
    hide AllBlocks, Split, Join;
    if values != [] {
      ConfiguredBlocks(values[1..], blocks[1..]);
      if values[0].Text? {
        SplitUndoesJoin(blocks[0]);
      }
      assert Map(KeysOf, values)[1..] == Map(KeysOf, values[1..]);
      assert Map(KeysOf, [values[0]]) == [KeysOf(values[0])];
      assert Concat([blocks[0]]) == blocks[0] + Concat([blocks[0]][1..]) == blocks[0];
    }
  }

  // ---- the environment variable

  datatype EnvError = HoldsPem | NotBase64 | IncompletePem

  /** The keys of the decoded text, which must end with the last of them. */
  function PemsOf(text: string): Result<seq<string>, EnvError> {
    var pems := Split(text);
    if IndexOf(text, BEGIN_PREFIX, 0) < 0 || pems == [] || !EndsWith(TrimEnd(text), pems[|pems| - 1]) then Failure(IncompletePem)
    else Success(pems)
  }

  /** decodeSigningKeyEnv; `utf8` decodes the bytes of the text. */
  function DecodeSigningKeyEnv(utf8: bytes -> string, value: string): Result<seq<string>, EnvError> {
    if IndexOf(value, BEGIN_PREFIX, 0) >= 0 then Failure(HoldsPem)
    else
      var decoded := DecodeStrict(value);
      if decoded.None? then Failure(NotBase64)
      else PemsOf(utf8(decoded.value))
  }

  ghost predicate IsAscii(s: string) {
    forall k :: 0 <= k < |s| ==> s[k] as int < 128
  }

  function AsciiBytes(s: string): (b: bytes)
    requires IsAscii(s)
  {
    seq(|s|, k requires 0 <= k < |s| && IsAscii(s) => s[k] as int)
  }

  /** What is used of UTF-8: ASCII text is its own encoding. */
  ghost predicate DecodesAscii(utf8: bytes -> string) {
    forall s {:trigger AsciiBytes(s)} :: IsAscii(s) ==> utf8(AsciiBytes(s)) == s
  }

  lemma {:induction false} WithoutSpacesKeeps(s: string, c: char)
    requires c in s && !IsSpace(c)
    ensures c in WithoutSpaces(s)
  {
    if s[0] != c {
      WithoutSpacesKeeps(s[1..], c);
    }
  }

  lemma {:induction false} CanonicalHasNoDash(s: string)
    requires IsCanonical(s)
    ensures '-' !in s
  {
    if |s| > 4 {
      CanonicalHasNoDash(s[4..]);
      assert s == s[..4] + s[4..];
    }
  }

  lemma {:induction false} JoinEndsWithLast(blocks: seq<string>)
    requires blocks != []
    ensures EndsWith(Join(blocks, '\n'), blocks[|blocks| - 1])
  {
    if |blocks| > 1 {
      JoinEndsWithLast(blocks[1..]);
      var text, rest, last := Join(blocks, '\n'), Join(blocks[1..], '\n'), blocks[|blocks| - 1];
      assert text[|text| - |rest|..] == rest;
      assert text[|text| - |last|..] == rest[|rest| - |last|..];
    }
  }

  /** No dash, so no PEM marker, occurs in the base64 of anything, however it is broken into lines. */
  lemma EncodedHoldsNoPem(value: string, b: bytes)
    requires WithoutSpaces(value) == Base64.Encode(b)
    ensures IndexOf(value, BEGIN_PREFIX, 0) < 0
  {
    EncodeIsCanonical(b);
    CanonicalHasNoDash(Base64.Encode(b));
    var at := IndexOf(value, BEGIN_PREFIX, 0);
    if at >= 0 {
      CharOf(value, BEGIN_PREFIX, at, at);
      WithoutSpacesKeeps(value, '-');
    }
  }

  lemma PemsOfJoined(blocks: seq<string>, text: string)
    requires blocks != [] && AllBlocks(blocks)
    requires text == Join(blocks, '\n') || text == Join(blocks, '\n') + "\n"
    ensures PemsOf(text) == Success(blocks)
  {
    hide IsBlock, Join, Split, EndsWith;
    JoinedEnds(blocks);
    SplitUndoesJoin(blocks);
    JoinEndsWithLast(blocks);
    var joined := Join(blocks, '\n');
    assert text != joined ==> text[..|text| - 1] == joined;
    assert TrimEnd(text) == joined;
    assert text[..10] == joined[..10];
    assert Occurs(text, BEGIN_PREFIX, 0);
  }

  /**
   The base64 of concatenated PEM files, whitespace put into it anywhere, decodes to exactly their blocks in order.
   `text` is the blocks joined by line breaks, with or without one at the end.
   */
  lemma EnvRoundTrip(utf8: bytes -> string, blocks: seq<string>, text: string, value: string)
    requires DecodesAscii(utf8) && blocks != [] && AllBlocks(blocks)
    requires text == Join(blocks, '\n') || text == Join(blocks, '\n') + "\n"
    requires IsAscii(text) && WithoutSpaces(value) == Base64.Encode(AsciiBytes(text))
    ensures DecodeSigningKeyEnv(utf8, value) == Success(blocks)
  {
    hide IsBlock, Join, PemsOf, DecodeStrict, IsCanonical, Base64.Encode;
    JoinedEnds(blocks);
    PemsOfJoined(blocks, text);
    EncodedHoldsNoPem(value, AsciiBytes(text));
    StrictIsExact(value);
    assert DecodeStrict(value) == Some(AsciiBytes(text));
  }

  ghost predicate Holds(text: string, pattern: string) {
    exists i :: Occurs(text, pattern, i)
  }

  /** Whitespace aside, the text ends with these characters. */
  ghost predicate EndsBlank(text: string, last: string) {
    exists n: nat :: n <= |text| && EndsWith(text[..n], last) && forall k :: n <= k < |text| ==> IsSpace(text[k])
  }

  /** The keys end in no whitespace. */
  lemma KeyIsTrimmed(text: string, k: nat)
    requires k < |Split(text)|
    ensures Split(text)[k] != "" && !IsSpace(Split(text)[k][|Split(text)[k]| - 1])
  {
    hide Trim, Scan, IsBlock;
    TrimIsTrimmed(text);
    if Split(text) != [Trim(text)] {
      ScanGivesBlocks(Trim(text), 0);
      BlockEnds(Split(text)[k]);
    }
  }

  lemma {:induction false} TrimEndIs(s: string, n: nat)
    requires n <= |s| && n > 0 && !IsSpace(s[n - 1]) && forall k :: n <= k < |s| ==> IsSpace(s[k])
    ensures TrimEnd(s) == s[..n]
    decreases |s|
  {
    hide IsSpace;
    if n < |s| {
      TrimEndIs(s[..|s| - 1], n);
    }
  }

  lemma EndsBlankIff(text: string, last: string)
    requires last != "" && !IsSpace(last[|last| - 1])
    ensures EndsWith(TrimEnd(text), last) <==> EndsBlank(text, last)
  {
    hide TrimEnd, IsSpace;
    if EndsWith(TrimEnd(text), last) {
      var n := TrimEndCuts(text);
    }
    if n: nat :| n <= |text| && EndsWith(text[..n], last) && forall k :: n <= k < |text| ==> IsSpace(text[k]) {
      assert text[..n][n - 1] == text[..n][|text[..n]| - |last|..][|last| - 1] == last[|last| - 1];
      TrimEndIs(text, n);
    }
  }

  /** A decoded text gives its keys exactly when it starts a block somewhere and nothing but whitespace follows the last key. */
  lemma PemsOfIff(text: string)
    ensures PemsOf(text) == Success(Split(text)) || PemsOf(text) == Failure(IncompletePem)
    ensures PemsOf(text).Success? <==> Holds(text, "-----BEGIN") && Split(text) != [] && EndsBlank(text, Split(text)[|Split(text)| - 1])
  {
    hide Split, TrimEnd, EndsBlank;
    if Split(text) != [] {
      KeyIsTrimmed(text, |Split(text)| - 1);
      EndsBlankIff(text, Split(text)[|Split(text)| - 1]);
    }
  }

  /**
   A value is refused exactly when it holds PEM text itself, is no strict base64, or what it decodes to starts no block or goes on
   behind the last key.
   */
  lemma EnvIff(utf8: bytes -> string, value: string)
    ensures DecodeSigningKeyEnv(utf8, value) == Failure(HoldsPem) <==> Holds(value, "-----BEGIN")
    ensures DecodeSigningKeyEnv(utf8, value) == Failure(NotBase64) <==> !Holds(value, "-----BEGIN") && DecodeStrict(value).None?
    ensures DecodeSigningKeyEnv(utf8, value).Success? ==> DecodeSigningKeyEnv(utf8, value).value == Split(utf8(DecodeStrict(value).value))
    ensures DecodeSigningKeyEnv(utf8, value).Success? <==>
              && !Holds(value, "-----BEGIN") && DecodeStrict(value).Some?
              && var text := utf8(DecodeStrict(value).value);
                 Holds(text, "-----BEGIN") && Split(text) != [] && EndsBlank(text, Split(text)[|Split(text)| - 1])
  {
    hide DecodeStrict, Split, PemsOf, EndsBlank;
    if DecodeStrict(value).Some? {
      PemsOfIff(utf8(DecodeStrict(value).value));
    }
  }

  /**
   The keys of a decoded value are complete blocks exactly when its text holds a well-formed BEGIN marker followed by a
   well-formed END marker. A text that starts a block but completes none passes as one key and is left to the key parser.
   */
  lemma CompleteIffSomeBlock(utf8: bytes -> string, value: string)
    requires DecodeSigningKeyEnv(utf8, value).Success?
    ensures AllBlocks(DecodeSigningKeyEnv(utf8, value).value) <==> HoldsBlock(utf8(DecodeStrict(value).value), 0)
  {
    hide AllBlocks, Scan, Trim, Split, TrimEnd, IndexOf, DecodeStrict, HoldsBlock;
    var text := utf8(DecodeStrict(value).value);
    SplitCompleteIff(text);
    ScanFindsIff(Trim(text), 0);
    TrimKeepsBlocks(text);
  }

  /** Such a value: the base64 of a BEGIN and nothing else, whitespace put into it anywhere. */
  lemma IncompleteKeyPasses(utf8: bytes -> string, value: string)
    requires DecodesAscii(utf8) && WithoutSpaces(value) == Base64.Encode(AsciiBytes("-----BEGIN"))
    ensures DecodeSigningKeyEnv(utf8, value) == Success(["-----BEGIN"]) && !IsBlock("-----BEGIN")
  {
    hide IsBlock, PemsOf, DecodeStrict, IsCanonical, Base64.Encode;
    EncodedHoldsNoPem(value, AsciiBytes("-----BEGIN"));
    StrictIsExact(value);
    BeginIsOneKey();
  }

  lemma BeginIsOneKey()
    ensures PemsOf("-----BEGIN") == Success(["-----BEGIN"]) && !IsBlock("-----BEGIN")
  {
    var text := "-----BEGIN";
    TrimIsTrimmed(text);
    assert Occurs(text, BEGIN_PREFIX, 0);
    assert TrimEnd(text) == text;
    assert IndexOf(text, BEGIN, 0) == -1;
    assert Scan(text, 0) == [];
  }

  lemma SplitCompleteIff(text: string)
    requires Split(text) != []
    ensures AllBlocks(Split(text)) <==> Scan(Trim(text), 0) != []
  {
    hide IsBlock, Scan, Trim;
    var trimmed := Trim(text);
    ScanGivesBlocks(trimmed, 0);
    if Scan(trimmed, 0) == [] {
      assert Split(text)[0] == trimmed;
      if IsBlock(trimmed) {
        WholeIsBlock(trimmed);
      }
    } else {
      ScanHasBegin(trimmed);
    }
  }

  lemma WholeIsBlock(s: string)
    requires IsBlock(s)
    ensures Scan(s, 0) == [s]
  {
    hide IsBlock, Scan;
    assert Join([s], '\n') == s == s[0..];
    ScanJoined(s, 0, 0, [s]);
  }
}
