/**
 Signing a manifest with a list of keys and verifying it against a trust list. Key parsing, key ids and the signature
 scheme are parameters.
 */
module ManifestVerify {
  import opened Base64
  import opened Bytes
  import opened Json
  import opened Manifest
  import opened ManifestShape
  import opened Texts
  import opened Wrappers

  // ---- the signatures of a manifest

  /** A signature to try, with the id of the key that is said to have made it. */
  datatype Candidate = Candidate(keyId: Option<string>, signature: string)

  function Listed(entries: seq<SignatureEntry>): (listed: seq<Candidate>) {
    if entries == [] then []
    else
      var entry, rest := entries[0], Listed(entries[1..]);
      if !IsNonEmptyText(entry.signature) then rest
      else [Candidate(if IsNonEmptyText(entry.keyId) then Some(entry.keyId.text) else None, entry.signature.text)] + rest
  }

  predicate HasSignature(candidates: seq<Candidate>, signature: string) {
    exists k :: 0 <= k < |candidates| && candidates[k].signature == signature
  }

  /** The listed signatures, and the legacy one unless it is among them. */
  function Candidates(info: Manifest): (candidates: seq<Candidate>) {
    var listed := Listed(info.signatures);
    if IsNonEmptyText(info.signature) && !HasSignature(listed, info.signature.text)
    then listed + [Candidate(None, info.signature.text)] else listed
  }

  lemma {:induction false} ListedSnoc(entries: seq<SignatureEntry>, i: nat)
    requires i < |entries|
    ensures Listed(entries[..i + 1]) == Listed(entries[..i]) + Listed([entries[i]])
    decreases i
  {
    assert [entries[i]][1..] == [] && entries[..i + 1][1..] == entries[1..][..i];
    if i == 0 {
      assert entries[..1] == [entries[0]];
    } else {
      ListedSnoc(entries[1..], i - 1);
      assert entries[1..][..i - 1] == entries[..i][1..];
    }
  }

  /** collectManifestSignatures. */
  method CollectManifestSignatures(info: Manifest) returns (result: seq<Candidate>)
    ensures result == Candidates(info)
  {
    result := [];
    for i := 0 to |info.signatures|
      invariant result == Listed(info.signatures[..i])
    {
      var entry := info.signatures[i];
      ListedSnoc(info.signatures, i);
      if IsNonEmptyText(entry.signature) {
        result := result + [Candidate(if IsNonEmptyText(entry.keyId) then Some(entry.keyId.text) else None, entry.signature.text)];
      }
    }
    assert info.signatures[..|info.signatures|] == info.signatures;
    if IsNonEmptyText(info.signature) && !HasSignature(result, info.signature.text) {
      result := result + [Candidate(None, info.signature.text)];
    }
  }

  // ---- trusted keys

  /** A configured key: text still to parse, or a key object. */
  datatype KeySource<Key> = Pem(text: string) | Parsed(key: Key)

  /** What the key functions do: parsing and ids fail (throw) on unusable keys. */
  datatype Scheme<!Key> = Scheme(parse: string -> Option<Key>, idOf: Key -> Option<string>, verify: (string, Key, bytes) -> bool)

  datatype Verdict = Accepted(keyId: string) | Rejected(reason: Option<Problem>)

  function KeyAt<Key>(scheme: Scheme<Key>, source: KeySource<Key>): Option<Key> {
    match source
    case Pem(text) => scheme.parse(text)
    case Parsed(key) => Some(key)
  }

  function IdAt<Key>(scheme: Scheme<Key>, source: KeySource<Key>): (id: Option<string>)
    ensures id.Some? ==> KeyAt(scheme, source).Some?
  {
    if KeyAt(scheme, source).None? then None else scheme.idOf(KeyAt(scheme, source).value)
  }

  /** No earlier source has the same key id. */
  ghost predicate IsFirst<Key>(scheme: Scheme<Key>, sources: seq<KeySource<Key>>, i: nat)
    requires i < |sources|
  {
    forall j :: 0 <= j < i ==> IdAt(scheme, sources[j]) != IdAt(scheme, sources[i])
  }

  /** A signature is tried with the key it is tagged with, an untagged one with every key. */
  predicate Applies(candidate: Candidate, id: string) {
    candidate.keyId.None? || candidate.keyId == Some(id)
  }

  /** The key of this source verifies one of the candidates that apply to it. */
  ghost predicate Validates<Key>(scheme: Scheme<Key>, data: string, candidates: seq<Candidate>, source: KeySource<Key>)
    requires IdAt(scheme, source).Some?
  {
    exists k :: 0 <= k < |candidates| && ValidatedBy(scheme, data, candidates[k], source)
  }

  predicate ValidatedBy<Key>(scheme: Scheme<Key>, data: string, candidate: Candidate, source: KeySource<Key>)
    requires IdAt(scheme, source).Some?
  {
    && Applies(candidate, IdAt(scheme, source).value)
    && scheme.verify(data, KeyAt(scheme, source).value, Base64.Decode(candidate.signature))
  }

  /** The outcome from source i on; a failure is the index of the source whose key throws. */
  ghost function VerifyFrom<Key>(scheme: Scheme<Key>, data: string, candidates: seq<Candidate>, sources: seq<KeySource<Key>>, i: nat): (r: Result<Verdict, nat>)
    requires i <= |sources|
    decreases |sources| - i
  {
    if i == |sources| then Success(Rejected(None))
    else if IdAt(scheme, sources[i]).None? then Failure(i)
    else if IsFirst(scheme, sources, i) && Validates(scheme, data, candidates, sources[i]) then Success(Accepted(IdAt(scheme, sources[i]).value))
    else VerifyFrom(scheme, data, candidates, sources, i + 1)
  }

  ghost function Verify<Key>(scheme: Scheme<Key>, num: int -> string, info: Manifest, sources: seq<KeySource<Key>>): (r: Result<Verdict, nat>) {
    if Candidates(info) == [] || sources == [] then Success(Rejected(None))
    else if FirstProblem(info).Some? then Success(Rejected(FirstProblem(info)))
    else VerifyFrom(scheme, Canonical(num, info), Candidates(info), sources, 0)
  }

  // ---- the loop over the trust list

  function Tagged(candidates: seq<Candidate>, keyId: Option<string>): (r: seq<Candidate>)
    ensures forall x :: x in r <==> x in candidates && x.keyId == keyId
  {
    if candidates == [] then []
    else (if candidates[0].keyId == keyId then [candidates[0]] else []) + Tagged(candidates[1..], keyId)
  }

  /** The signatures tagged with the key's id first, then the untagged ones. */
  method TryCandidates<Key>(scheme: Scheme<Key>, data: string, candidates: seq<Candidate>, source: KeySource<Key>) returns (ok: bool)
    requires IdAt(scheme, source).Some?
    ensures ok <==> Validates(scheme, data, candidates, source)
  {
    var keyId := IdAt(scheme, source);
    var order := Tagged(candidates, keyId) + Tagged(candidates, None);
    for k := 0 to |order|
      invariant forall j :: 0 <= j < k ==> !ValidatedBy(scheme, data, order[j], source)
    {
      assert order[k] in Tagged(candidates, keyId) || order[k] in Tagged(candidates, None);
      if scheme.verify(data, KeyAt(scheme, source).value, Base64.Decode(order[k].signature)) {
        assert order[k] in candidates && ValidatedBy(scheme, data, order[k], source);
        return true;
      }
    }
    forall k | 0 <= k < |candidates| ensures !ValidatedBy(scheme, data, candidates[k], source) {
      if Applies(candidates[k], keyId.value) {
        assert candidates[k] in candidates;
        assert candidates[k] in Tagged(candidates, keyId) || candidates[k] in Tagged(candidates, None);
        assert candidates[k] in order;
      }
    }
    ok := false;
  }

  /** Each key once, by its id, until one verifies a candidate. */
  method VerifyKeys<Key>(scheme: Scheme<Key>, data: string, candidates: seq<Candidate>, publicKeys: seq<KeySource<Key>>)
    returns (r: Result<Verdict, nat>)
    ensures r == VerifyFrom(scheme, data, candidates, publicKeys, 0)
  {
    hide Validates;
    var seen := {};
    for i := 0 to |publicKeys|
      invariant VerifyFrom(scheme, data, candidates, publicKeys, 0) == VerifyFrom(scheme, data, candidates, publicKeys, i)
      invariant forall id :: id in seen <==> exists j :: 0 <= j < i && IdAt(scheme, publicKeys[j]) == Some(id)
    {
      var keyId := IdAt(scheme, publicKeys[i]);
      if keyId.None? {
        return Failure(i);
      }
      assert keyId.value in seen <==> !IsFirst(scheme, publicKeys, i);
      if keyId.value !in seen {
        seen := seen + {keyId.value};
        var ok := TryCandidates(scheme, data, candidates, publicKeys[i]);
        if ok {
          return Success(Accepted(keyId.value));
        }
      }
    }
    r := Success(Rejected(None));
  }

  /** verifyManifestSignatures: nothing without signatures or keys, then the shape, then the keys. */
  method VerifyManifestSignatures<Key>(scheme: Scheme<Key>, num: int -> string, info: Manifest, publicKeys: seq<KeySource<Key>>)
    returns (r: Result<Verdict, nat>)
    ensures r == Verify(scheme, num, info, publicKeys)
  {
    hide Candidates, FirstProblem, Canonical, ShapeValid, VerifyFrom;
    var candidates := CollectManifestSignatures(info);
    if |candidates| == 0 || |publicKeys| == 0 {
      return Success(Rejected(None));
    }
    var shapeProblem := ValidateSignedManifestShape(info);
    if shapeProblem.Some? {
      return Success(Rejected(shapeProblem));
    }
    var data := CanonicalizeForSigning(num, info);
    r := VerifyKeys(scheme, data, candidates, publicKeys);
  }

  // ---- when a manifest is accepted

  /** The key can be read, and has an id. */
  predicate IsUsable<Key>(scheme: Scheme<Key>, source: KeySource<Key>) {
    match source
    case Pem(text) => scheme.parse(text).Some? && scheme.idOf(scheme.parse(text).value).Some?
    case Parsed(key) => scheme.idOf(key).Some?
  }

  ghost predicate AllUsable<Key>(scheme: Scheme<Key>, sources: seq<KeySource<Key>>) {
    forall i :: 0 <= i < |sources| ==> IsUsable(scheme, sources[i])
  }

  /** Sources with the same id hold the same key: the hash behind the ids does not collide on this list. */
  ghost predicate IdsIdentify<Key(!new)>(scheme: Scheme<Key>, sources: seq<KeySource<Key>>) {
    forall i, j :: 0 <= i < |sources| && 0 <= j < |sources| && IdAt(scheme, sources[i]).Some? && IdAt(scheme, sources[i]) == IdAt(scheme, sources[j]) ==>
                     KeyAt(scheme, sources[i]) == KeyAt(scheme, sources[j])
  }

  lemma {:induction false} FirstWithId<Key>(scheme: Scheme<Key>, sources: seq<KeySource<Key>>, i: nat) returns (first: nat)
    requires i < |sources|
    ensures first <= i && IsFirst(scheme, sources, first) && IdAt(scheme, sources[first]) == IdAt(scheme, sources[i])
  {
    first := 0;
    while IdAt(scheme, sources[first]) != IdAt(scheme, sources[i])
      invariant first <= i
      invariant forall j :: 0 <= j < first ==> IdAt(scheme, sources[j]) != IdAt(scheme, sources[i])
      decreases i - first
    {
      first := first + 1;
    }
  }

  lemma {:induction false} AcceptedFromIff<Key>(scheme: Scheme<Key>, data: string, candidates: seq<Candidate>, sources: seq<KeySource<Key>>, i: nat)
    requires i <= |sources| && AllUsable(scheme, sources)
    ensures VerifyFrom(scheme, data, candidates, sources, i).Success?
    ensures VerifyFrom(scheme, data, candidates, sources, i).value.Accepted? <==>
              exists j :: i <= j < |sources| && IsFirst(scheme, sources, j) && Validates(scheme, data, candidates, sources[j])
    decreases |sources| - i
  {
    hide Validates, IsFirst;
    if i < |sources| {
      AcceptedFromIff(scheme, data, candidates, sources, i + 1);
    }
  }

  lemma SameKeyValidates<Key>(scheme: Scheme<Key>, data: string, candidates: seq<Candidate>, s: KeySource<Key>, t: KeySource<Key>)
    requires IdAt(scheme, s).Some? && IdAt(scheme, s) == IdAt(scheme, t) && KeyAt(scheme, s) == KeyAt(scheme, t)
    requires Validates(scheme, data, candidates, s)
    ensures Validates(scheme, data, candidates, t)
  {
    var k :| 0 <= k < |candidates| && ValidatedBy(scheme, data, candidates[k], s);
    assert ValidatedBy(scheme, data, candidates[k], t);
  }

  predicate IsAccepted(r: Result<Verdict, nat>) {
    r.Success? && r.value.Accepted?
  }

  /** Some trusted key verifies some signature that is tagged with its id or untagged. */
  ghost predicate SomeKeyValidates<Key>(scheme: Scheme<Key>, num: int -> string, info: Manifest, sources: seq<KeySource<Key>>)
    requires AllUsable(scheme, sources)
  {
    exists i :: 0 <= i < |sources| && Validates(scheme, Canonical(num, info), Candidates(info), sources[i])
  }

  /**
   With usable keys a manifest is accepted exactly when its shape is valid and some trusted key verifies one of its
   signatures. Keys listed twice make no difference.
   */
  lemma AcceptedIff<Key(!new)>(scheme: Scheme<Key>, num: int -> string, info: Manifest, sources: seq<KeySource<Key>>)
    requires AllUsable(scheme, sources) && IdsIdentify(scheme, sources)
    ensures IsAccepted(Verify(scheme, num, info, sources)) <==> ShapeValid(info) && SomeKeyValidates(scheme, num, info, sources)
  {
    NoProblemIffShapeValid(info);
    hide ShapeValid, FirstProblem, Canonical, Candidates;
    var data, candidates := Canonical(num, info), Candidates(info);
    AcceptedFromIff(scheme, data, candidates, sources, 0);
    if i :| 0 <= i < |sources| && Validates(scheme, data, candidates, sources[i]) {
      var first := FirstWithId(scheme, sources, i);
      SameKeyValidates(scheme, data, candidates, sources[i], sources[first]);
      assert candidates != [];
    }
  }

  // ---- the same on the manifest as it is written

  /** The entry holds this signature, under this key id or under none. */
  predicate EntryHolds(entry: SignatureEntry, signature: string, id: string) {
    entry.signature == Text(signature) && (!entry.keyId.Text? || entry.keyId.text == "" || entry.keyId.text == id)
  }

  /** An entry of the list holds the signature for this key, or it is the top-level one and no entry has it, under whatever key id. */
  ghost predicate Carries(info: Manifest, signature: string, id: string) {
    && signature != ""
    && (|| (exists k :: 0 <= k < |info.signatures| && EntryHolds(info.signatures[k], signature, id))
        || (info.signature == Text(signature) && forall k :: 0 <= k < |info.signatures| ==> info.signatures[k].signature != Text(signature)))
  }

  lemma {:induction false} ListedIs(entries: seq<SignatureEntry>, c: Candidate)
    ensures c in Listed(entries) <==> exists k :: 0 <= k < |entries| && IsListedAs(entries[k], c)
  {
    if entries != [] {
      ListedIs(entries[1..], c);
      assert entries == [entries[0]] + entries[1..];
      forall k | 0 <= k < |entries[1..]| ensures entries[1..][k] == entries[k + 1] {
      }
      if k :| 0 <= k < |entries| && IsListedAs(entries[k], c) {
        assert k == 0 || IsListedAs(entries[1..][k - 1], c);
      }
      if k :| 0 <= k < |entries[1..]| && IsListedAs(entries[1..][k], c) {
        assert IsListedAs(entries[k + 1], c);
      }
    }
  }

  predicate IsListedAs(entry: SignatureEntry, c: Candidate) {
    && c.signature != "" && entry.signature == Text(c.signature)
    && c.keyId == if entry.keyId.Text? && entry.keyId.text != "" then Some(entry.keyId.text) else None
  }

  /** The signatures to try with a key are those the manifest carries for it. */
  lemma CandidatesAreCarried(info: Manifest, signature: string, id: string)
    ensures Carries(info, signature, id) <==> exists c :: c in Candidates(info) && c.signature == signature && Applies(c, id)
  {
    hide Listed;
    forall c ensures c in Listed(info.signatures) <==> exists k :: 0 <= k < |info.signatures| && IsListedAs(info.signatures[k], c) {
      ListedIs(info.signatures, c);
    }
    forall k | 0 <= k < |info.signatures| && signature != "" && info.signatures[k].signature == Text(signature)
      ensures exists c :: c in Listed(info.signatures) && c.signature == signature && IsListedAs(info.signatures[k], c)
    {
      var entry := info.signatures[k];
      var c := Candidate(if entry.keyId.Text? && entry.keyId.text != "" then Some(entry.keyId.text) else None, signature);
      assert IsListedAs(entry, c);
    }
  }

  /**
   With usable keys a manifest is accepted exactly when its shape is valid and a trusted key verifies a signature it
   carries for that key.
   */
  lemma AcceptedAsWritten<Key(!new)>(scheme: Scheme<Key>, num: int -> string, info: Manifest, sources: seq<KeySource<Key>>)
    requires AllUsable(scheme, sources) && IdsIdentify(scheme, sources)
    ensures IsAccepted(Verify(scheme, num, info, sources)) <==>
              && ShapeValid(info)
              && exists i, signature :: 0 <= i < |sources| && VerifiesCarried(scheme, num, info, sources[i], signature)
  {
    hide ShapeValid, Canonical, Candidates, Verify, Carries, IdsIdentify;
    AcceptedIff(scheme, num, info, sources);
    var data, candidates := Canonical(num, info), Candidates(info);
    forall i | 0 <= i < |sources|
      ensures Validates(scheme, data, candidates, sources[i]) <==> exists signature :: VerifiesCarried(scheme, num, info, sources[i], signature)
    {
      ValidatesCarried(scheme, num, info, sources[i]);
    }
  }

  ghost predicate VerifiesCarried<Key(!new)>(scheme: Scheme<Key>, num: int -> string, info: Manifest, source: KeySource<Key>, signature: string) {
    && IdAt(scheme, source).Some? && Carries(info, signature, IdAt(scheme, source).value)
    && scheme.verify(Canonical(num, info), KeyAt(scheme, source).value, Base64.Decode(signature))
  }

  lemma ValidatesCarried<Key(!new)>(scheme: Scheme<Key>, num: int -> string, info: Manifest, source: KeySource<Key>)
    requires IdAt(scheme, source).Some?
    ensures Validates(scheme, Canonical(num, info), Candidates(info), source) <==> exists signature :: VerifiesCarried(scheme, num, info, source, signature)
  {
    hide Canonical, Candidates, Carries, Base64.Decode;
    var data, candidates, id := Canonical(num, info), Candidates(info), IdAt(scheme, source).value;
    if Validates(scheme, data, candidates, source) {
      var k :| 0 <= k < |candidates| && ValidatedBy(scheme, data, candidates[k], source);
      CandidatesAreCarried(info, candidates[k].signature, id);
      assert candidates[k] in candidates;
      assert VerifiesCarried(scheme, num, info, source, candidates[k].signature);
    }
    if signature :| VerifiesCarried(scheme, num, info, source, signature) {
      CandidatesAreCarried(info, signature, id);
      var c :| c in candidates && c.signature == signature && Applies(c, id);
      var k :| 0 <= k < |candidates| && candidates[k] == c;
      assert ValidatedBy(scheme, data, candidates[k], source);
    }
  }

  lemma {:induction false} AcceptedFrom<Key(!new)>(scheme: Scheme<Key>, data: string, candidates: seq<Candidate>, sources: seq<KeySource<Key>>, i: nat)
    returns (j: nat)
    requires i <= |sources| && IsAccepted(VerifyFrom(scheme, data, candidates, sources, i))
    ensures j < |sources| && IdAt(scheme, sources[j]) == Some(VerifyFrom(scheme, data, candidates, sources, i).value.keyId)
    ensures Validates(scheme, data, candidates, sources[j])
    decreases |sources| - i
  {
    hide Validates, IsFirst;
    if IdAt(scheme, sources[i]).Some? && IsFirst(scheme, sources, i) && Validates(scheme, data, candidates, sources[i]) {
      j := i;
    } else {
      j := AcceptedFrom(scheme, data, candidates, sources, i + 1);
    }
  }

  /** The key id of an accepted manifest is the id of a trusted key that verifies a signature carried for it, whatever the other keys are. */
  lemma AcceptedKeyVerifies<Key(!new)>(scheme: Scheme<Key>, num: int -> string, info: Manifest, sources: seq<KeySource<Key>>)
    requires IsAccepted(Verify(scheme, num, info, sources))
    ensures ShapeValid(info)
    ensures exists i, signature :: 0 <= i < |sources| && IdAt(scheme, sources[i]) == Some(Verify(scheme, num, info, sources).value.keyId)
                                   && VerifiesCarried(scheme, num, info, sources[i], signature)
  {
    NoProblemIffShapeValid(info);
    hide ShapeValid, Canonical, Candidates, FirstProblem, VerifyFrom, Validates, VerifiesCarried;
    var j := AcceptedFrom(scheme, Canonical(num, info), Candidates(info), sources, 0);
    ValidatesCarried(scheme, num, info, sources[j]);
  }

  /** A manifest that carries only the top-level signature is accepted by every usable trust list with the key that verifies it. */
  lemma LegacyAloneIsAccepted<Key(!new)>(scheme: Scheme<Key>, num: int -> string, info: Manifest, sources: seq<KeySource<Key>>, i: nat)
    requires AllUsable(scheme, sources) && IdsIdentify(scheme, sources) && ShapeValid(info)
    requires info.signatures == [] && info.signature.Text? && info.signature.text != ""
    requires i < |sources| && scheme.verify(Canonical(num, info), KeyAt(scheme, sources[i]).value, Base64.Decode(info.signature.text))
    ensures IsAccepted(Verify(scheme, num, info, sources))
  {
    hide ShapeValid, Canonical, Verify, IdsIdentify, Base64.Decode;
    AcceptedAsWritten(scheme, num, info, sources);
    assert Carries(info, info.signature.text, IdAt(scheme, sources[i]).value);
    assert VerifiesCarried(scheme, num, info, sources[i], info.signature.text);
  }

  /** A foreign key id does get in the way when the top-level signature is listed under it: no key but that one is tried. */
  lemma ForeignIdHidesLegacy<Key(!new)>(scheme: Scheme<Key>, num: int -> string, info: Manifest, sources: seq<KeySource<Key>>, foreign: string)
    requires AllUsable(scheme, sources) && IdsIdentify(scheme, sources) && foreign != ""
    requires info.signature.Text? && info.signatures == [SignatureEntry(Text(foreign), info.signature)]
    requires forall i :: 0 <= i < |sources| ==> IdAt(scheme, sources[i]) != Some(foreign)
    ensures !IsAccepted(Verify(scheme, num, info, sources))
  {
    hide ShapeValid, Canonical, Verify, IdsIdentify, Base64.Decode;
    AcceptedAsWritten(scheme, num, info, sources);
    forall i, signature | 0 <= i < |sources| ensures !VerifiesCarried(scheme, num, info, sources[i], signature) {
      assert info.signatures[0].signature == info.signature;
    }
  }

  /** The trust list throws exactly when a malformed key comes before every key that verifies. */
  lemma {:induction false} ThrowsIff<Key>(scheme: Scheme<Key>, data: string, candidates: seq<Candidate>, sources: seq<KeySource<Key>>, i: nat)
    requires i <= |sources|
    ensures VerifyFrom(scheme, data, candidates, sources, i).Failure? <==>
              exists e :: i <= e < |sources| && StopsAt(scheme, data, candidates, sources, i, e)
    decreases |sources| - i
  {
    if i < |sources| {
      ThrowsIff(scheme, data, candidates, sources, i + 1);
      hide Validates, IsFirst;
      if IdAt(scheme, sources[i]).None? {
        assert StopsAt(scheme, data, candidates, sources, i, i);
      } else {
        if VerifyFrom(scheme, data, candidates, sources, i).Failure? {
          var e :| i + 1 <= e < |sources| && StopsAt(scheme, data, candidates, sources, i + 1, e);
          assert StopsAt(scheme, data, candidates, sources, i, e);
        }
        if e :| i <= e < |sources| && StopsAt(scheme, data, candidates, sources, i, e) {
          assert e > i && StopsAt(scheme, data, candidates, sources, i + 1, e);
        }
      }
    }
  }

  /** Key e cannot be used, all keys from i up to it can, and none of them verifies anything. */
  ghost predicate StopsAt<Key>(scheme: Scheme<Key>, data: string, candidates: seq<Candidate>, sources: seq<KeySource<Key>>, i: nat, e: nat)
    requires i <= e < |sources|
  {
    && IdAt(scheme, sources[e]).None?
    && forall j :: i <= j < e ==>
         IdAt(scheme, sources[j]).Some? && !(IsFirst(scheme, sources, j) && Validates(scheme, data, candidates, sources[j]))
  }

  /**
   Nothing but what was signed is accepted: if every text a trusted key verifies is the canonical text of a published
   manifest, an accepted manifest has the signed fields of a published one.
   */
  lemma AcceptedWasPublished<Key(!new)>(scheme: Scheme<Key>, num: int -> string, info: Manifest, sources: seq<KeySource<Key>>, published: seq<Manifest>)
    requires PrintsNumbers(num) && AllUsable(scheme, sources) && IdsIdentify(scheme, sources)
    requires forall p :: p in published ==> ScalarFields(p)
    requires OnlySigns(scheme, num, sources, published)
    requires IsAccepted(Verify(scheme, num, info, sources))
    ensures exists p :: p in published && KeptFields(info) == KeptFields(p)
  {
    AcceptedIff(scheme, num, info, sources);
    ShapeValidIsScalar(info);
    var data := Canonical(num, info);
    var i :| 0 <= i < |sources| && Validates(scheme, data, Candidates(info), sources[i]);
    var k :| 0 <= k < |Candidates(info)| && ValidatedBy(scheme, data, Candidates(info)[k], sources[i]);
    var p :| p in published && data == Canonical(num, p);
    CanonicalIsExact(num, info, p);
  }

  /** The trusted keys verify canonical texts of published manifests only. */
  ghost predicate OnlySigns<Key>(scheme: Scheme<Key>, num: int -> string, sources: seq<KeySource<Key>>, published: seq<Manifest>)
    requires AllUsable(scheme, sources)
  {
    forall i, data, signature :: 0 <= i < |sources| && scheme.verify(data, KeyAt(scheme, sources[i]).value, signature) ==>
                                   exists p :: p in published && data == Canonical(num, p)
  }

  // ---- signing

  /** The private half: parsing, the id of the public half (none for a key of another type) and signing. */
  datatype Signer<!Private> = Signer(parse: string -> Option<Private>, idOf: Private -> Option<string>, sign: (string, Private) -> bytes)

  datatype SigningError = NoSigningKey | UnusableSigningKey(index: nat) | UnsignableShape(problem: Problem)

  function PrivateAt<Private>(signer: Signer<Private>, source: KeySource<Private>): Option<Private> {
    match source
    case Pem(text) => signer.parse(text)
    case Parsed(key) => Some(key)
  }

  /** signUpdateManifest with the key of this source: the base64 signature of the canonical text. */
  function SignUpdateManifest<Private>(signer: Signer<Private>, num: int -> string, info: Manifest, key: Private, index: nat): Result<string, SigningError> {
    if signer.idOf(key).None? then Failure(UnusableSigningKey(index))
    else if FirstProblem(info).Some? then Failure(UnsignableShape(FirstProblem(info).value))
    else Success(Base64.Encode(signer.sign(Canonical(num, info), key)))
  }

  function SignFrom<Private>(signer: Signer<Private>, num: int -> string, info: Manifest, sources: seq<KeySource<Private>>, i: nat): (r: Result<seq<SignatureEntry>, SigningError>)
    requires i <= |sources|
    ensures r.Success? ==> |r.value| == |sources| - i
    decreases |sources| - i
  {
    if i == |sources| then Success([])
    else if PrivateAt(signer, sources[i]).None? then Failure(UnusableSigningKey(i))
    else
      var key := PrivateAt(signer, sources[i]).value;
      var signature :- SignUpdateManifest(signer, num, info, key, i);
      var rest :- SignFrom(signer, num, info, sources, i + 1);
      Success([SignatureEntry(Text(signer.idOf(key).value), Text(signature))] + rest)
  }

  /** createUpdateManifestSignatures: one entry per key, in order. */
  function CreateSignatures<Private>(signer: Signer<Private>, num: int -> string, info: Manifest, sources: seq<KeySource<Private>>): Result<seq<SignatureEntry>, SigningError> {
    if sources == [] then Failure(NoSigningKey) else SignFrom(signer, num, info, sources, 0)
  }

  /** The private key can be read, and is of the right type. */
  predicate CanSign<Private>(signer: Signer<Private>, source: KeySource<Private>) {
    match source
    case Pem(text) => signer.parse(text).Some? && signer.idOf(signer.parse(text).value).Some?
    case Parsed(key) => signer.idOf(key).Some?
  }

  lemma {:induction false} SignFromIff<Private>(signer: Signer<Private>, num: int -> string, info: Manifest, sources: seq<KeySource<Private>>, i: nat)
    requires i <= |sources|
    ensures SignFrom(signer, num, info, sources, i).Success? <==>
              (FirstProblem(info).None? || i == |sources|) && forall j :: i <= j < |sources| ==> CanSign(signer, sources[j])
    decreases |sources| - i
  {
    hide FirstProblem, Canonical;
    if i < |sources| {
      SignFromIff(signer, num, info, sources, i + 1);
    }
  }

  /** A manifest is signed exactly when there is a key, every key can sign, and the verifier would take its shape; then every key signs it. */
  lemma SignedIff<Private>(signer: Signer<Private>, num: int -> string, info: Manifest, sources: seq<KeySource<Private>>)
    ensures CreateSignatures(signer, num, info, sources).Success? <==>
              sources != [] && ShapeValid(info) && forall j :: 0 <= j < |sources| ==> CanSign(signer, sources[j])
    ensures CreateSignatures(signer, num, info, sources).Success? ==> |CreateSignatures(signer, num, info, sources).value| == |sources|
  {
    hide FirstProblem, Canonical, ShapeValid, CanSign;
    NoProblemIffShapeValid(info);
    SignFromIff(signer, num, info, sources, 0);
  }

  lemma {:induction false} EntryOfKey<Private>(signer: Signer<Private>, num: int -> string, info: Manifest, sources: seq<KeySource<Private>>, i: nat, j: nat)
    requires i <= j < |sources| && SignFrom(signer, num, info, sources, i).Success?
    ensures PrivateAt(signer, sources[j]).Some?
    ensures var key := PrivateAt(signer, sources[j]).value;
            && signer.idOf(key).Some? && FirstProblem(info).None?
            && SignFrom(signer, num, info, sources, i).value[j - i]
               == SignatureEntry(Text(signer.idOf(key).value), Text(Base64.Encode(signer.sign(Canonical(num, info), key))))
    decreases j - i
  {
    hide FirstProblem, Canonical;
    if i < j {
      EntryOfKey(signer, num, info, sources, i + 1, j);
    }
  }

  // ---- key rotation

  /** The two halves of a key: the same id, and what the one signs the other verifies. */
  ghost predicate IsPair<Key(!new), Private(!new)>(scheme: Scheme<Key>, signer: Signer<Private>, key: Key, private: Private) {
    && scheme.idOf(key) == signer.idOf(private)
    && forall data :: scheme.verify(data, key, signer.sign(data, private))
  }

  lemma {:induction false} ListedHas(entries: seq<SignatureEntry>, entry: SignatureEntry) returns (k: nat)
    requires entry in entries && IsNonEmptyText(entry.keyId) && IsNonEmptyText(entry.signature)
    ensures k < |Listed(entries)| && Listed(entries)[k] == Candidate(Some(entry.keyId.text), entry.signature.text)
  {
    if entries[0] == entry {
      k := 0;
    } else {
      k := ListedHas(entries[1..], entry);
      k := if IsNonEmptyText(entries[0].signature) then k + 1 else k;
    }
  }

  /**
   Rotation: a manifest signed with a list of keys is accepted by every trust list that shares one of them, whatever else
   either list holds - also when it was edited since, as long as its signed fields and its shape are the same.
   */
  lemma SharedKeyIsAccepted<Key(!new), Private(!new)>(
    scheme: Scheme<Key>, signer: Signer<Private>, num: int -> string,
    signed: Manifest, signingKeys: seq<KeySource<Private>>, entries: seq<SignatureEntry>, j: nat,
    info: Manifest, trusted: seq<KeySource<Key>>, i: nat)
    requires PrintsNumbers(num) && AllUsable(scheme, trusted) && IdsIdentify(scheme, trusted)
    requires CreateSignatures(signer, num, signed, signingKeys) == Success(entries)
    requires j < |signingKeys| && PrivateAt(signer, signingKeys[j]).Some?
    requires i < |trusted| && IsPair(scheme, signer, KeyAt(scheme, trusted[i]).value, PrivateAt(signer, signingKeys[j]).value)
    requires IdAt(scheme, trusted[i]) != Some("")
    requires signer.sign(Canonical(num, signed), PrivateAt(signer, signingKeys[j]).value) != []
    requires ShapeValid(info) && KeptFields(info) == KeptFields(signed) && forall e :: e in entries ==> e in info.signatures
    ensures IsAccepted(Verify(scheme, num, info, trusted))
  {
    hide ShapeValid, FirstProblem, Canonical, KeptFields, Candidates, Validates, Verify, IdsIdentify, SignFrom, Base64.Encode;
    EntryOfKey(signer, num, signed, signingKeys, 0, j);
    SameText(num, info, signed);
    EntryValidates(scheme, signer, Canonical(num, info), PrivateAt(signer, signingKeys[j]).value, info, entries[j], trusted[i]);
    AcceptedIff(scheme, num, info, trusted);
  }

  lemma SameText(num: int -> string, info: Manifest, signed: Manifest)
    requires PrintsNumbers(num) && ShapeValid(info) && FirstProblem(signed).None? && KeptFields(info) == KeptFields(signed)
    ensures Canonical(num, info) == Canonical(num, signed)
  {
    NoProblemIffShapeValid(signed);
    ShapeValidIsScalar(signed);
    ShapeValidIsScalar(info);
    CanonicalIsExact(num, info, signed);
  }

  /** The entry a key wrote validates under its public half. */
  lemma EntryValidates<Key(!new), Private(!new)>(scheme: Scheme<Key>, signer: Signer<Private>, data: string, private: Private, info: Manifest,
                                                 entry: SignatureEntry, source: KeySource<Key>)
    requires IdAt(scheme, source).Some? && IdAt(scheme, source) != Some("")
    requires IsPair(scheme, signer, KeyAt(scheme, source).value, private) && signer.sign(data, private) != []
    requires entry in info.signatures
    requires entry == SignatureEntry(Text(IdAt(scheme, source).value), Text(Base64.Encode(signer.sign(data, private))))
    ensures Validates(scheme, data, Candidates(info), source)
  {
    var signature := signer.sign(data, private);
    DecodeEncode(signature);
    assert Base64.Encode(signature) != "";
    hide Base64.Encode, Base64.Decode;
    var k := ListedHas(info.signatures, entry);
    assert Candidates(info)[k] == Listed(info.signatures)[k];
    assert ValidatedBy(scheme, data, Candidates(info)[k], source);
  }

  /** Another order of the files, other notes, date and name: the shape and the signed fields stay. */
  lemma EditKeepsSignedFields(info: Manifest, files: seq<File>, releaseDate: Value, releaseName: Value, releaseNotes: Value)
    requires info.files.Some? && multiset(files) == multiset(info.files.value)
    ensures var edited := info.(files := Some(files), releaseDate := releaseDate, releaseName := releaseName, releaseNotes := releaseNotes);
            && KeptFields(edited) == KeptFields(info) && (ShapeValid(info) ==> ShapeValid(edited))
            && forall num :: Canonical(num, edited) == Canonical(num, info)
  {
    var edited := info.(files := Some(files), releaseDate := releaseDate, releaseName := releaseName, releaseNotes := releaseNotes);
    var before := info.files.value;
    MapOfPermutation(KeptFile, files, before);
    SameLength(files, before);
    assert edited.PackageList() == info.PackageList();
    if ShapeValid(info) {
      forall k | 0 <= k < |files| ensures PlainFile(files[k]) {
        assert files[k] in multiset(before);
        var j :| 0 <= j < |before| && before[j] == files[k];
        assert PlainFile(info.FileList()[j]);
      }
    }
    forall num ensures Canonical(num, edited) == Canonical(num, info) {
      MapOfPermutation(f => FileLine(num, f), files, before);
      SortOfPermutation(FileLines(num, files), FileLines(num, before));
    }
  }
}
