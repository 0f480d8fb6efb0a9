/** The field schema (fields.py): which worksheet columns are identity fields, required
    data fields and caller-supplied custom fields, and how each column name is scrubbed
    into an attribute name. The regular expressions of the source are replaced by
    explicit character classes. */
module Fields {
  import opened Values

  /** The character that replaces every character outside `[A-Za-z0-9_]`. */
  const Placeholder: char := 'X'

  /** The two recognised propagation policies of a custom field. */
  const RootBirth: string := "BIRTH"
  const RootFinal: string := "FINAL"

  datatype FieldsError =
    | Unscrubbable(name: string)
    | DuplicateField(name: string)
    | UnknownPropagation(name: string, policy: string)

  predicate IsDigit(c: char) { '0' <= c <= '9' }

  /** `[a-zA-Z_]` */
  predicate IsIdentStart(c: char) { ('a' <= c <= 'z') || ('A' <= c <= 'Z') || c == '_' }

  /** `[a-zA-Z0-9_]` */
  predicate IsIdentChar(c: char) { IsIdentStart(c) || IsDigit(c) }

  /** The pattern `^[a-zA-Z_]+[a-zA-Z0-9_]*$`: a non-empty name whose first character is a
      letter or underscore and whose other characters are letters, digits or underscores. */
  predicate ValidIdentifier(s: string) {
    |s| >= 1 && IsIdentStart(s[0]) && forall i :: 1 <= i < |s| ==> IsIdentChar(s[i])
  }

  /** Every character outside `[a-zA-Z0-9_]` replaced by the placeholder. */
  function ReplaceInvalid(s: string): (r: string)
    ensures |r| == |s|
    ensures forall i :: 0 <= i < |s| ==> IsIdentChar(r[i])
  {
    seq(|s|, i requires 0 <= i < |s| => if IsIdentChar(s[i]) then s[i] else Placeholder)
  }

  /** The scrubbing rule applied to every field name: a name that is already an identifier
      is kept; otherwise invalid characters are replaced, a placeholder is prefixed when the
      result starts with a digit, and the result is checked once more. */
  function Scrub(name: string): (r: Result<string, FieldsError>)
    ensures r.Failure? <==> name == ""
    ensures r.Failure? ==> r.error == Unscrubbable(name)
    ensures r.Success? ==> ValidIdentifier(r.value)
    ensures ValidIdentifier(name) ==> r == Success(name)
  {
    if ValidIdentifier(name) then Success(name)
    else
      var replaced := ReplaceInvalid(name);
      var prefixed := if |replaced| > 0 && IsDigit(replaced[0]) then [Placeholder] + replaced else replaced;
      if ValidIdentifier(prefixed) then Success(prefixed) else Failure(Unscrubbable(name))
  }

  /** The shape of a scrubbed name: every character outside `[A-Za-z0-9_]` replaced by the
      placeholder, and one placeholder prefixed exactly when the name starts with a digit. */
  lemma ScrubShape(name: string)
    requires name != ""
    ensures var r := Scrub(name).value;
            && |r| == |name| + (if IsDigit(name[0]) then 1 else 0)
            && (|r| > |name| ==> r[0] == Placeholder)
            && forall i :: 0 <= i < |name| ==>
                 r[|r| - |name| + i] == (if IsIdentChar(name[i]) then name[i] else Placeholder)
  {
    if !ValidIdentifier(name) {
      var replaced := ReplaceInvalid(name);
      assert replaced[0] == if IsIdentChar(name[0]) then name[0] else Placeholder;
      if IsDigit(name[0]) {
        var prefixed := [Placeholder] + replaced;
        assert forall i :: 0 <= i < |name| ==> prefixed[1 + i] == replaced[i];
      }
    }
  }

  /** The attribute name of a non-empty field name. */
  function ScrubbedName(name: string): string
    requires name != ""
  {
    Scrub(name).value
  }

  /** A name that is an identifier followed by `#` scrubs to the same identifier followed by
      the placeholder (`Location#`, `Tube#`, `Session#`). */
  lemma ScrubHashSuffix(stem: string)
    requires ValidIdentifier(stem)
    ensures Scrub(stem + "#") == Success(stem + [Placeholder])
  {
    var name := stem + "#";
    assert !IsIdentChar(name[|name| - 1]);
    assert ReplaceInvalid(name) == stem + [Placeholder];
  }

  /** Scrubs every name of `names` in order and records it in `into`, as each schema class's
      loop does; the first unscrubbable name raises. */
  function ScrubAll(names: seq<string>, into: map<string, string>): (r: Result<map<string, string>, FieldsError>)
    ensures r.Success? <==> forall i :: 0 <= i < |names| ==> names[i] != ""
    ensures r.Failure? ==> r.error.Unscrubbable?
    ensures r.Success? ==> forall k :: k in r.value <==> k in into || k in names
    ensures r.Success? ==> forall i :: 0 <= i < |names| ==> r.value[names[i]] == ScrubbedName(names[i])
    ensures r.Success? ==> forall k :: k in into && k !in names ==> r.value[k] == into[k]
    decreases |names|
  {
    if |names| == 0 then Success(into)
    else
      match Scrub(names[0])
      case Failure(e) => Failure(e)
      case Success(attr) =>
        var rest := ScrubAll(names[1..], into[names[0] := attr]);
        assert forall i :: 1 <= i < |names| ==> names[i] == names[1..][i - 1];
        assert forall k :: k in names <==> k == names[0] || k in names[1..];
        rest
  }

  lemma ScrubAllCons(n: string, ns: seq<string>, into: map<string, string>, attr: string)
    requires Scrub(n) == Success(attr)
    ensures ScrubAll([n] + ns, into) == ScrubAll(ns, into[n := attr])
  {
    assert ([n] + ns)[1..] == ns;
  }

  lemma ScrubAllTwo(a: string, b: string, into: map<string, string>, a': string, b': string)
    requires Scrub(a) == Success(a') && Scrub(b) == Success(b')
    ensures ScrubAll([a, b], into) == Success(into[a := a'][b := b'])
  {
    assert [a, b] == [a] + [b];
    ScrubAllCons(a, [b], into, a');
    assert [b] == [b] + [];
    ScrubAllCons(b, [], into[a := a'], b');
  }

  lemma ScrubAllFour(a: string, b: string, c: string, d: string, into: map<string, string>,
                     a': string, b': string, c': string, d': string)
    requires Scrub(a) == Success(a') && Scrub(b) == Success(b')
    requires Scrub(c) == Success(c') && Scrub(d) == Success(d')
    ensures ScrubAll([a, b, c, d], into) == Success(into[a := a'][b := b'][c := c'][d := d'])
  {
    assert [a, b, c, d] == [a] + [b, c, d];
    ScrubAllCons(a, [b, c, d], into, a');
    assert [b, c, d] == [b] + [c, d];
    ScrubAllCons(b, [c, d], into[a := a'], b');
    ScrubAllTwo(c, d, into[a := a'][b := b'], c', d');
  }

  /** An identifier is its own attribute name. */
  lemma ScrubKeeps(name: string)
    requires ValidIdentifier(name)
    ensures Scrub(name) == Success(name)
  {
  }

  lemma IdentityNamesValid()
    ensures ValidIdentifier("RootName") && ValidIdentifier("BirthSession")
    ensures ValidIdentifier("Location") && ValidIdentifier("Tube") && ValidIdentifier("Session")
  {
  }

  lemma OtherNamesValid()
    ensures ValidIdentifier("DeathSession") && ValidIdentifier("TipLivStatus")
    ensures ValidIdentifier("NumberOfTips") && ValidIdentifier("Date") && ValidIdentifier("Order")
    ensures ValidIdentifier("AliveTipsAtBirth") && ValidIdentifier("AliveTipsAtDeath")
  {
  }

  /** The three column names ending in `#` scrub to the same stem ending in `X`. */
  lemma HashColumnsScrub()
    ensures Scrub("Location#") == Success("LocationX")
    ensures Scrub("Tube#") == Success("TubeX")
    ensures Scrub("Session#") == Success("SessionX")
  {
    IdentityNamesValid();
    ScrubHashSuffix("Location");
    assert "Location" + "#" == "Location#" && "Location" + [Placeholder] == "LocationX";
    ScrubHashSuffix("Tube");
    assert "Tube" + "#" == "Tube#" && "Tube" + [Placeholder] == "TubeX";
    ScrubHashSuffix("Session");
    assert "Session" + "#" == "Session#" && "Session" + [Placeholder] == "SessionX";
  }

  /** The identity columns, in the order the source lists them. */
  const IdentityFieldNames: seq<string> := ["RootName", "Location#", "BirthSession", "Tube#"]

  /** The required data columns of the observation table. */
  const BaseFieldNames: seq<string> :=
    ["Session#", "DeathSession", "TipLivStatus", "NumberOfTips", "Date", "Order"]

  /** The columns of the synthesis table besides the identity columns. */
  const SynthesisFieldNames: seq<string> := ["AliveTipsAtBirth", "AliveTipsAtDeath"]

  /** Identity column names and their attribute names. */
  const IdentityMap: map<string, string> :=
    map["RootName" := "RootName", "Location#" := "LocationX",
        "BirthSession" := "BirthSession", "Tube#" := "TubeX"]

  /** Identity and required data column names and their attribute names. */
  const RequiredMap: map<string, string> :=
    IdentityMap["Session#" := "SessionX"]["DeathSession" := "DeathSession"]
               ["TipLivStatus" := "TipLivStatus"]["NumberOfTips" := "NumberOfTips"]
               ["Date" := "Date"]["Order" := "Order"]

  /** Identity and synthesis column names and their attribute names. */
  const SynthesisMap: map<string, string> :=
    IdentityMap["AliveTipsAtBirth" := "AliveTipsAtBirth"]["AliveTipsAtDeath" := "AliveTipsAtDeath"]

  /** `IdentityFields.identity_attributes`: the identity columns put through the scrubbing
      rule. `Location#` and `Tube#` become `LocationX` and `TubeX`; the others are kept. */
  function IdentityAttributes(): (r: Result<map<string, string>, FieldsError>)
    ensures r == Success(IdentityMap)
  {
    IdentityNamesValid();
    ScrubKeeps("RootName");
    ScrubKeeps("BirthSession");
    HashColumnsScrub();
    ScrubAllFour("RootName", "Location#", "BirthSession", "Tube#", map[],
                 "RootName", "LocationX", "BirthSession", "TubeX");
    ScrubAll(IdentityFieldNames, map[])
  }

  /** The last four required data columns need no scrubbing. */
  lemma BaseTailScrub(into: map<string, string>)
    ensures ScrubAll(["TipLivStatus", "NumberOfTips", "Date", "Order"], into)
            == Success(into["TipLivStatus" := "TipLivStatus"]["NumberOfTips" := "NumberOfTips"]["Date" := "Date"]["Order" := "Order"])
  {
    OtherNamesValid();
    ScrubKeeps("TipLivStatus");
    ScrubKeeps("NumberOfTips");
    ScrubKeeps("Date");
    ScrubKeeps("Order");
    ScrubAllFour("TipLivStatus", "NumberOfTips", "Date", "Order", into,
                 "TipLivStatus", "NumberOfTips", "Date", "Order");
  }

  /** Scrubbing the required data columns into the identity attributes gives `RequiredMap`. */
  lemma RequiredAttributesScrub()
    ensures ScrubAll(BaseFieldNames, IdentityMap) == Success(RequiredMap)
  {
    HashColumnsScrub();
    OtherNamesValid();
    ScrubKeeps("DeathSession");
    var tail := ["TipLivStatus", "NumberOfTips", "Date", "Order"];
    var m1 := IdentityMap["Session#" := "SessionX"];
    assert BaseFieldNames == ["Session#"] + (["DeathSession"] + tail);
    ScrubAllCons("Session#", ["DeathSession"] + tail, IdentityMap, "SessionX");
    ScrubAllCons("DeathSession", tail, m1, "DeathSession");
    BaseTailScrub(m1["DeathSession" := "DeathSession"]);
  }

  /** Scrubbing the synthesis columns into the identity attributes gives `SynthesisMap`. */
  lemma SynthesisAttributesScrub()
    ensures ScrubAll(SynthesisFieldNames, IdentityMap) == Success(SynthesisMap)
  {
    OtherNamesValid();
    ScrubKeeps("AliveTipsAtBirth");
    ScrubKeeps("AliveTipsAtDeath");
    ScrubAllTwo("AliveTipsAtBirth", "AliveTipsAtDeath", IdentityMap, "AliveTipsAtBirth", "AliveTipsAtDeath");
  }

  /** A custom column's propagation policy is one of the two recognised values. */
  predicate KnownPolicy(policy: string) {
    policy == RootBirth || policy == RootFinal
  }

  /** The custom columns `pairs` (name, policy) are all accepted when added to a schema whose
      column names are `taken`: no name is already taken or repeated, every policy is known
      and every name is non-empty. */
  predicate CustomFieldsAcceptable(taken: set<string>, pairs: seq<(string, string)>) {
    forall i :: 0 <= i < |pairs| ==>
      && pairs[i].0 !in taken
      && KnownPolicy(pairs[i].1)
      && pairs[i].0 != ""
      && forall j :: 0 <= j < i ==> pairs[j].0 != pairs[i].0
  }

  /** The names of the custom columns. */
  function CustomNames(pairs: seq<(string, string)>): set<string> {
    set i | 0 <= i < |pairs| :: pairs[i].0
  }

  /** The attribute name of every custom column: its name put through the scrubbing rule. */
  function ScrubbedCustom(pairs: seq<(string, string)>): map<string, string>
    requires forall i :: 0 <= i < |pairs| ==> pairs[i].0 != ""
  {
    map k | k in CustomNames(pairs) :: ScrubbedName(k)
  }

  /** The custom-field loop of `RootDataFields.__init__`: each custom column is checked
      against the names already in `required`, then against the known policies, then
      scrubbed, and recorded in both `required` and `custom`; the first failing check
      raises. On success both maps gain exactly the scrubbed custom columns. */
  function AddCustomFields(required: map<string, string>, custom: map<string, string>,
                           pairs: seq<(string, string)>): (r: Result<(map<string, string>, map<string, string>), FieldsError>)
    ensures r.Success? <==> CustomFieldsAcceptable(required.Keys, pairs)
    ensures r.Success? ==> r.value == (required + ScrubbedCustom(pairs), custom + ScrubbedCustom(pairs))
    ensures r.Failure? && r.error.DuplicateField? ==>
              exists i :: 0 <= i < |pairs| && pairs[i].0 == r.error.name
                && (r.error.name in required || exists j :: 0 <= j < i && pairs[j].0 == r.error.name)
    ensures r.Failure? && r.error.UnknownPropagation? ==>
              !KnownPolicy(r.error.policy) && (r.error.name, r.error.policy) in pairs
    ensures r.Failure? && r.error.Unscrubbable? ==> r.error.name == "" && exists i :: 0 <= i < |pairs| && pairs[i].0 == ""
    decreases |pairs|
  {
    if |pairs| == 0 then
      assert CustomNames(pairs) == {};
      assert required + ScrubbedCustom(pairs) == required && custom + ScrubbedCustom(pairs) == custom;
      Success((required, custom))
    else
      var name := pairs[0].0;
      var policy := pairs[0].1;
      if name in required then Failure(DuplicateField(name))
      else if !KnownPolicy(policy) then Failure(UnknownPropagation(name, policy))
      else
        match Scrub(name)
        case Failure(e) => Failure(e)
        case Success(attr) =>
          var rest := pairs[1..];
          var r := AddCustomFields(required[name := attr], custom[name := attr], rest);
          AddCustomFieldsStep(required, pairs, attr);
          if r.Success? then
            ScrubbedCustomCons(required, pairs);
            ScrubbedCustomCons(custom, pairs);
            r
          else
            r
  }

  /** How the acceptance condition and the names of `pairs` split into its head and tail. */
  lemma AddCustomFieldsStep(required: map<string, string>, pairs: seq<(string, string)>, attr: string)
    requires |pairs| > 0
    ensures CustomNames(pairs) == {pairs[0].0} + CustomNames(pairs[1..])
    ensures pairs[0].0 !in required && KnownPolicy(pairs[0].1) && pairs[0].0 != "" ==>
              (CustomFieldsAcceptable(required.Keys, pairs)
               <==> CustomFieldsAcceptable(required[pairs[0].0 := attr].Keys, pairs[1..]))
  {
    var rest := pairs[1..];
    assert forall i :: 1 <= i < |pairs| ==> pairs[i] == rest[i - 1];
    assert CustomNames(pairs) == {pairs[0].0} + CustomNames(rest) by {
      forall k | k in CustomNames(pairs) ensures k in {pairs[0].0} + CustomNames(rest) {
        var i :| 0 <= i < |pairs| && pairs[i].0 == k;
        if i > 0 { assert rest[i - 1].0 == k; }
      }
    }
  }

  /** Recording the head column and then the scrubbed tail columns records all of them. */
  lemma ScrubbedCustomCons(m: map<string, string>, pairs: seq<(string, string)>)
    requires |pairs| > 0
    requires forall i :: 0 <= i < |pairs| ==> pairs[i].0 != ""
    ensures m[pairs[0].0 := ScrubbedName(pairs[0].0)] + ScrubbedCustom(pairs[1..]) == m + ScrubbedCustom(pairs)
  {
    AddCustomFieldsStep(m, pairs, "");
    var n := pairs[0].0;
    var rest := pairs[1..];
    assert forall i :: 0 <= i < |rest| ==> rest[i] == pairs[i + 1];
    var head := m[n := ScrubbedName(n)];
    var lhs := head + ScrubbedCustom(rest);
    var rhs := m + ScrubbedCustom(pairs);
    assert ScrubbedCustom(rest).Keys == CustomNames(rest);
    assert ScrubbedCustom(pairs).Keys == CustomNames(pairs);
    assert head.Keys == m.Keys + {n};
    assert lhs.Keys == head.Keys + CustomNames(rest);
    assert rhs.Keys == m.Keys + CustomNames(pairs);
    assert lhs.Keys == rhs.Keys;
    forall k | k in lhs ensures lhs[k] == rhs[k] {
      if k in CustomNames(rest) {
        assert lhs[k] == ScrubbedCustom(rest)[k] == ScrubbedName(k);
        assert rhs[k] == ScrubbedCustom(pairs)[k] == ScrubbedName(k);
      } else if k == n {
        assert lhs[k] == head[k] == ScrubbedName(n);
        assert rhs[k] == ScrubbedCustom(pairs)[k];
      } else {
        assert k !in CustomNames(pairs);
        assert lhs[k] == head[k] == m[k];
      }
    }
    MapsAgree(lhs, rhs);
  }

  /** The empty map adds nothing to a union. */
  lemma EmptyUnion<K, V>(m: map<K, V>)
    ensures map[] + m == m
  {
    MapsAgree(map[] + m, m);
  }

  /** Two maps with the same keys and the same value under each key are equal. */
  lemma MapsAgree<K, V>(a: map<K, V>, b: map<K, V>)
    requires a.Keys == b.Keys
    requires forall k :: k in a ==> a[k] == b[k]
    ensures a == b
  {
  }

  /** The configuration `RootDataFields.__init__` builds. */
  datatype RootDataFields = RootDataFields(
    baseFields: seq<string>,
    requiredAttributes: map<string, string>,
    additionalFields: seq<(string, string)>,
    customAttributes: map<string, string>)

  /** `RootDataFields(additional_fields)`, with the custom columns given in the order the
      dictionary yields them. */
  function NewRootDataFields(additional: seq<(string, string)>): (r: Result<RootDataFields, FieldsError>)
    ensures r.Success? <==> CustomFieldsAcceptable(RequiredMap.Keys, additional)
    ensures r.Success? ==> r.value.baseFields == BaseFieldNames && r.value.additionalFields == additional
    ensures r.Success? ==> r.value.requiredAttributes == RequiredMap + ScrubbedCustom(additional)
    ensures r.Success? ==> r.value.customAttributes == ScrubbedCustom(additional)
    ensures r.Failure? ==> AddCustomFields(RequiredMap, map[], additional) == Failure(r.error)
  {
    RequiredAttributesScrub();
    match IdentityAttributes()
    case Failure(e) => Failure(e)
    case Success(identity) =>
      match ScrubAll(BaseFieldNames, identity)
      case Failure(e) => Failure(e)
      case Success(required) =>
        match AddCustomFields(required, map[], additional)
        case Failure(e) => Failure(e)
        case Success(maps) =>
          EmptyUnion(ScrubbedCustom(additional));
          Success(RootDataFields(BaseFieldNames, maps.0, additional, maps.1))
  }

  /** The configuration `SynthesisDataFields.__init__` builds. */
  datatype SynthesisDataFields = SynthesisDataFields(
    synthesisFields: seq<string>,
    requiredAttributes: map<string, string>)

  /** `SynthesisDataFields()`: the identity attributes plus the two synthesis columns,
      whose names need no scrubbing. */
  function NewSynthesisDataFields(): (r: Result<SynthesisDataFields, FieldsError>)
    ensures r.Success? && r.value.requiredAttributes == SynthesisMap
  {
    SynthesisAttributesScrub();
    match IdentityAttributes()
    case Failure(e) => Failure(e)
    case Success(identity) =>
      match ScrubAll(SynthesisFieldNames, identity)
      case Failure(e) => Failure(e)
      case Success(required) => Success(SynthesisDataFields(SynthesisFieldNames, required))
  }
}
