/** Matching the publisher names an application trusts with the subject of a signing certificate. */
module PublisherName {
  import opened DistinguishedName
  import opened DistinguishedNamePrinter
  import opened Json
  import opened Texts
  import opened Wrappers

  datatype MatchError = NoSubject

  /** isValidPublisherNameDn: one or more attributes, each with a name and a value. */
  predicate IsValidPublisherNameDn(name: Value) {
    name.Text? &&
    var dn := Parse(name.text);
    |dn| != 0 && forall key :: key in dn ==> |key| != 0 && |dn[key]| != 0
  }

  /** Every attribute of the entry has the same value in the subject. */
  predicate EntryMatches(subject: Attributes, name: Value) {
    IsValidPublisherNameDn(name) &&
    var dn := Parse(name.text);
    forall key :: key in dn ==> key in subject && subject[key] == dn[key]
  }

  /** matchPublisherName: some entry matches; without a subject it throws. */
  method MatchPublisherName(subjectText: Value, publisherNames: seq<Value>) returns (r: Result<bool, MatchError>)
    ensures r.Success? <==> subjectText.Text?
    ensures r.Success? ==> (r.value <==> exists k :: 0 <= k < |publisherNames| && EntryMatches(Parse(subjectText.text), publisherNames[k]))
  {
    if !subjectText.Text? {
      return Failure(NoSubject);
    }
    var subject := ParseDn(subjectText.text);
    for k := 0 to |publisherNames|
      invariant forall j :: 0 <= j < k ==> !EntryMatches(subject, publisherNames[j])
    {
      if EntryMatches(subject, publisherNames[k]) {
        return Success(true);
      }
    }
    r := Success(false);
  }

  // ---- what matching means for names as they are written

  lemma {:induction false} CollectHas(result: Attributes, attributes: seq<Attribute>, key: string)
    requires DistinctKeys(attributes)
    ensures key in Collect(result, attributes) <==> key in result || exists k :: 0 <= k < |attributes| && attributes[k].key == key
    ensures forall k :: 0 <= k < |attributes| && attributes[k].key == key ==> key in Collect(result, attributes) && Collect(result, attributes)[key] == attributes[k].value
    ensures (forall k :: 0 <= k < |attributes| ==> attributes[k].key != key) && key in result ==>
              key in Collect(result, attributes) && Collect(result, attributes)[key] == result[key]
    decreases |attributes|
  {
    if attributes != [] {
      var rest, more := attributes[1..], result[attributes[0].key := attributes[0].value];
      CollectHas(more, rest, key);
      assert forall k :: 1 <= k < |attributes| ==> attributes[k] == rest[k - 1];
      assert forall k :: 0 <= k < |rest| ==> rest[k] == attributes[k + 1];
    }
  }

  /** An attribute list has exactly its own attributes. */
  lemma HasAttribute(attributes: seq<Attribute>, key: string, value: string)
    requires DistinctKeys(attributes)
    ensures (key in AttributesOf(attributes) && AttributesOf(attributes)[key] == value) <==>
              exists k :: 0 <= k < |attributes| && attributes[k].key == key && attributes[k].value == value
  {
    CollectHas(map[], attributes, key);
  }

  /** The entry is a non-empty set of non-empty attributes contained in the subject. */
  ghost predicate IsContained(entry: seq<Attribute>, subject: seq<Attribute>) {
    && entry != []
    && forall k :: 0 <= k < |entry| ==> entry[k].value != "" && HasPair(subject, entry[k].key, entry[k].value)
  }

  ghost predicate HasPair(attributes: seq<Attribute>, key: string, value: string) {
    exists k :: 0 <= k < |attributes| && attributes[k].key == key && attributes[k].value == value
  }

  /** A list of attributes that can be written, no key twice. */
  ghost predicate IsName(attributes: seq<Attribute>) {
    AllPrintable(attributes) && DistinctKeys(attributes)
  }

  lemma SurvivorsAreName(attributes: seq<Attribute>)
    requires IsName(attributes)
    ensures IsName(Survivors(attributes))
  {
    hide IsPrintable, LosesLast;
  }

  /** Does this written entry match this written subject? */
  predicate WrittenMatches(entry: seq<Attribute>, subject: seq<Attribute>) {
    EntryMatches(Parse(Print(subject)), Text(Print(entry)))
  }

  /**
   For names however written - order, separators, blanks, escapes and quotes make no difference - an entry matches exactly when it is
   a non-empty set of non-empty attributes contained in the subject, each without a last attribute the parser loses.
   */
  lemma MatchPrinted(entry: seq<Attribute>, subject: seq<Attribute>)
    requires IsName(entry) && IsName(subject)
    ensures WrittenMatches(entry, subject) <==> IsContained(Survivors(entry), Survivors(subject))
    ensures !LosesEnd(entry) && !LosesEnd(subject) ==> (WrittenMatches(entry, subject) <==> IsContained(entry, subject))
  {
    hide Parse, Print, IsPrintable, LosesLast, Survivors;
    ParsePrint(entry);
    ParsePrint(subject);
    SurvivorsAreName(entry);
    SurvivorsAreName(subject);
    MatchAttributes(Survivors(entry), Survivors(subject), Text(Print(entry)));
    AllSurvive(entry);
    AllSurvive(subject);
  }

  lemma AllSurvive(attributes: seq<Attribute>)
    ensures !LosesEnd(attributes) ==> Survivors(attributes) == attributes
  {
  }

  lemma MatchAttributes(entry: seq<Attribute>, subject: seq<Attribute>, name: Value)
    requires IsName(entry) && IsName(subject) && name.Text? && Parse(name.text) == AttributesOf(entry)
    ensures EntryMatches(AttributesOf(subject), name) <==> IsContained(entry, subject)
  {
    hide Parse;
    var dn, of := AttributesOf(entry), AttributesOf(subject);
    if EntryMatches(of, name) {
      assert entry != [];
      forall k | 0 <= k < |entry| ensures entry[k].value != "" && HasPair(subject, entry[k].key, entry[k].value) {
        HasAttribute(entry, entry[k].key, entry[k].value);
        HasAttribute(subject, entry[k].key, entry[k].value);
      }
    }
    if IsContained(entry, subject) {
      HasAttribute(entry, entry[0].key, entry[0].value);
      assert entry[0].key in dn;
      forall key | key in dn ensures |key| != 0 && |dn[key]| != 0 && key in of && of[key] == dn[key] {
        HasAttribute(entry, key, dn[key]);
        HasAttribute(subject, key, dn[key]);
        var k :| 0 <= k < |entry| && entry[k].key == key && entry[k].value == dn[key];
        assert IsPrintable(entry[k]);
      }
    }
  }

  // ---- exactly which names are matched as they read

  /** Against every subject read whole, the entry matches just when it is contained. */
  ghost predicate EntryIsExact(entry: seq<Attribute>) {
    forall subject :: IsName(subject) && !LosesEnd(subject) ==> (WrittenMatches(entry, subject) <==> IsContained(entry, subject))
  }

  /** Every entry read whole matches the subject just when it is contained. */
  ghost predicate SubjectIsExact(subject: seq<Attribute>) {
    forall entry :: IsName(entry) && !LosesEnd(entry) ==> (WrittenMatches(entry, subject) <==> IsContained(entry, subject))
  }

  predicate HasEmptyValue(attributes: seq<Attribute>) {
    exists k :: 0 <= k < |attributes| && attributes[k].value == ""
  }

  /** The attribute with all its characters as hex pairs, which no trimming touches. */
  function InHex(a: Attribute): Attribute {
    a.(style := Escaped(set c | c in a.value, {}))
  }

  function AllInHex(attributes: seq<Attribute>): (r: seq<Attribute>)
    ensures |r| == |attributes|
    ensures forall k :: 0 <= k < |r| ==> r[k] == InHex(attributes[k])
  {
    seq(|attributes|, k requires 0 <= k < |attributes| => InHex(attributes[k]))
  }

  lemma HexLosesNothing(attributes: seq<Attribute>)
    requires IsName(attributes)
    ensures IsName(AllInHex(attributes)) && !LosesEnd(AllInHex(attributes))
  {
    hide IsSpace, IsPlainKey;
    var r := AllInHex(attributes);
    forall k | 0 <= k < |r| ensures IsPrintable(r[k]) && !LosesLast(r[k]) {
      assert IsPrintable(attributes[k]);
    }
  }

  /** An entry with an empty value is contained in nothing; of the others those are matched as they read that lose no attribute. */
  lemma EntryIsExactIff(entry: seq<Attribute>)
    requires IsName(entry)
    ensures EntryIsExact(entry) <==> !LosesEnd(entry) || HasEmptyValue(entry)
  {
    hide IsName, WrittenMatches, LosesLast;
    if !LosesEnd(entry) || HasEmptyValue(entry) {
      forall subject | IsName(subject) && !LosesEnd(subject) ensures WrittenMatches(entry, subject) <==> IsContained(entry, subject) {
        MatchPrinted(entry, subject);
        if HasEmptyValue(entry) {
          EmptyMatchesNothing(entry, subject);
        }
        AllSurvive(entry);
        AllSurvive(subject);
      }
    } else {
      var kept, last := Survivors(entry), entry[|entry| - 1];
      SurvivorsAreName(entry);
      var subject := if kept == [] then AllInHex(entry) else AllInHex(kept);
      HexLosesNothing(entry);
      HexLosesNothing(kept);
      MatchPrinted(entry, subject);
      AllSurvive(subject);
      if kept == [] {
        ContainedInHex(entry);
      } else {
        NoEmptySurvivor(entry);
        ContainedInHex(kept);
        LastIsMissing(entry);
      }
    }
  }

  /** What keeps an empty value, or loses the only attribute with one, is contained in nothing. */
  lemma EmptyMatchesNothing(entry: seq<Attribute>, subject: seq<Attribute>)
    requires HasEmptyValue(entry)
    ensures !IsContained(entry, subject) && !IsContained(Survivors(entry), subject)
  {
    hide IsSpace;
    var k :| 0 <= k < |entry| && entry[k].value == "";
    if LosesEnd(entry) {
      assert k < |entry| - 1;
      assert Survivors(entry)[k].value == "";
    }
  }

  lemma NoEmptySurvivor(attributes: seq<Attribute>)
    requires !HasEmptyValue(attributes)
    ensures !HasEmptyValue(Survivors(attributes))
  {
    forall k | 0 <= k < |Survivors(attributes)| ensures Survivors(attributes)[k].value != "" {
      assert Survivors(attributes)[k] == attributes[k];
    }
  }

  lemma ContainedInHex(attributes: seq<Attribute>)
    requires attributes != [] && !HasEmptyValue(attributes)
    ensures IsContained(attributes, AllInHex(attributes))
  {
    forall k | 0 <= k < |attributes| ensures HasPair(AllInHex(attributes), attributes[k].key, attributes[k].value) {
      assert AllInHex(attributes)[k].key == attributes[k].key && AllInHex(attributes)[k].value == attributes[k].value;
    }
  }

  lemma LastIsMissing(entry: seq<Attribute>)
    requires IsName(entry) && LosesEnd(entry)
    ensures !IsContained(entry, AllInHex(Survivors(entry)))
  {
    var subject, last := AllInHex(Survivors(entry)), entry[|entry| - 1];
    forall k | 0 <= k < |subject| ensures subject[k].key != last.key {
      assert subject[k].key == entry[k].key;
    }
    assert !HasPair(subject, last.key, last.value);
  }

  /** A subject is matched as it reads exactly when it loses no attribute. */
  lemma SubjectIsExactIff(subject: seq<Attribute>)
    requires IsName(subject)
    ensures SubjectIsExact(subject) <==> !LosesEnd(subject)
  {
    hide IsName, WrittenMatches, LosesLast;
    if !LosesEnd(subject) {
      forall entry | IsName(entry) && !LosesEnd(entry) ensures WrittenMatches(entry, subject) <==> IsContained(entry, subject) {
        MatchPrinted(entry, subject);
      }
    } else {
      var entry := AllInHex(subject[|subject| - 1..]);
      LastAlone(subject);
      MatchPrinted(entry, subject);
      AllSurvive(entry);
    }
  }

  lemma LastAlone(subject: seq<Attribute>)
    requires IsName(subject) && LosesEnd(subject)
    ensures var entry := AllInHex(subject[|subject| - 1..]);
            IsName(entry) && !LosesEnd(entry) && IsContained(entry, subject) && !IsContained(entry, Survivors(subject))
  {
    var last := subject[|subject| - 1];
    var entry := AllInHex(subject[|subject| - 1..]);
    assert subject[|subject| - 1..] == [last];
    assert IsName([last]) by { assert IsPrintable(last); }
    HexLosesNothing([last]);
    assert entry[0].key == last.key && entry[0].value == last.value != "";
    forall k | 0 <= k < |Survivors(subject)| ensures Survivors(subject)[k].key != last.key {
      assert Survivors(subject)[k] == subject[k];
    }
    assert !HasPair(Survivors(subject), last.key, last.value);
    assert HasPair(subject, last.key, last.value);
  }

  /** Such a name: trimming leaves a lone backslash, and the only attribute is lost. */
  lemma EscapedBlankAtEndIsLost()
    ensures Parse("CN=a\\ ") == map[]
    ensures Print([EndsInBlank()]) == "CN=a\\ " && LosesEnd([EndsInBlank()])
  {
    var a := EndsInBlank();
    assert EscapedFrom("a ", 2, a.style) == "" && EscapedFrom("a ", 1, a.style) == "\\ " && EscapedFrom("a ", 0, a.style) == "a\\ ";
    assert PrintPair(a) == "CN" + "=" + "a\\ " == "CN=a\\ ";
    PlainKeyCN();
    ParsePrint([a]);
    assert Survivors([a]) == [];
  }

  function EndsInBlank(): Attribute {
    Attribute("CN", "a ", Escaped({}, {}), ',', Blanks(0, 0, 0, 0))
  }

  lemma PlainKeyCN()
    ensures IsPlainKey("CN")
  {
  }
}
