/** What one conversion run promises, stated without the loop state: which
    units are written, in which order and with which text, which warnings are
    issued, and that the PO text reads back as the records written. */
module Xlf2PoProperties {
  import opened Wrappers
  import opened Whitespace
  import opened PoFormat
  import opened IcuShapes
  import opened XliffTree
  import opened Xlf2Po

  /** The message id written for a unit: the canonical placeholder of its
      shape, or its (possibly normalised) serialised source. */
  function WrittenSource(u: TransUnit, options: Options): string {
    var s := SourceText(u, options);
    match MatchShape(s, Plural)
    case Some(id) => Canonical(Plural, id)
    case None =>
      match MatchShape(s, GenderSelect)
      case Some(id) => Canonical(GenderSelect, id)
      case None => s
  }

  /** What the loop body reads off one unit: its family, its key and the
      message id it would be written with. */
  datatype Classification = Classification(family: Family, key: string, messageId: string)

  function ClassOf(u: TransUnit, options: Options): Classification {
    var s := SourceText(u, options);
    Classification(FamilyOf(s), UniqueStringId(s, u.meaning, u.description), WrittenSource(u, options))
  }

  /** The classification of each unit, in order. */
  function Classes(units: seq<TransUnit>, options: Options): (cs: seq<Classification>)
    ensures |cs| == |units|
    decreases |units|
  {
    if units == [] then []
    else Classes(units[..|units| - 1], options) + [ClassOf(units[|units| - 1], options)]
  }

  function FamilyAt(units: seq<TransUnit>, k: nat, options: Options): Family
    requires k < |units|
  {
    Classes(units, options)[k].family
  }

  function KeyAt(units: seq<TransUnit>, k: nat, options: Options): string
    requires k < |units|
  {
    Classes(units, options)[k].key
  }

  function RecordAt(units: seq<TransUnit>, k: nat, options: Options): Record
    requires k < |units|
  {
    RecordOf(k, FamilyAt(units, k, options), Classes(units, options)[k].messageId, units[k])
  }

  /** Each entry of `Classes` is the classification of its own unit. */
  lemma {:induction false} ClassesAt(units: seq<TransUnit>, k: nat, options: Options)
    requires k < |units|
    ensures Classes(units, options)[k] == ClassOf(units[k], options)
    decreases |units|
  {
    var n := |units| - 1;
    if k < n {
      ClassesAt(units[..n], k, options);
    }
  }

  /** Unit `k` is written when it is the first unit of its shape family, or
      a plain string whose key no earlier plain string has: the first
      occurrence wins. */
  predicate Written(units: seq<TransUnit>, k: nat, options: Options)
    requires k < |units|
  {
    if FamilyAt(units, k, options) == PlainFamily then
      forall j :: 0 <= j < k && FamilyAt(units, j, options) == PlainFamily ==> KeyAt(units, j, options) != KeyAt(units, k, options)
    else
      forall j :: 0 <= j < k ==> FamilyAt(units, j, options) != FamilyAt(units, k, options)
  }

  /** One warning per plain string that is not written, naming its key, in
      the order of the units. */
  function RepeatWarnings(units: seq<TransUnit>, options: Options): seq<string>
    decreases |units|
  {
    if units == [] then []
    else
      var n := |units| - 1;
      RepeatWarnings(units[..n], options)
      + if FamilyAt(units, n, options) == PlainFamily && !Written(units, n, options)
        then [DuplicateWarning(KeyAt(units, n, options))] else []
  }

  /** One pass of the loop, read off case by case: a shape-matched unit
      sets its flag and touches neither `foundStrings` nor the warnings; a
      plain unit adds its key, or warns once when the key is already there;
      a record is appended only for a first shape or a new key. */
  lemma StepEffect(st: RunState, index: nat, u: TransUnit, options: Options)
    ensures var f := FamilyOf(SourceText(u, options));
            var key := UniqueStringId(SourceText(u, options), u.meaning, u.description);
            var s' := Step(st, index, u, options);
            && s'.hasFoundPlural == (st.hasFoundPlural || f == PluralFamily)
            && s'.hasFoundGenderSelect == (st.hasFoundGenderSelect || f == GenderFamily)
            && s'.foundStrings == (if f == PlainFamily then st.foundStrings + {key} else st.foundStrings)
            && s'.warnings == st.warnings + (if f == PlainFamily && key in st.foundStrings then [DuplicateWarning(key)] else [])
            && s'.records == st.records
                             + if (f == PluralFamily && !st.hasFoundPlural) || (f == GenderFamily && !st.hasFoundGenderSelect)
                                  || (f == PlainFamily && key !in st.foundStrings)
                               then [RecordOf(index, f, WrittenSource(u, options), u)] else []
  {
  }

  /** The family, key, record and `Written` of unit `k` depend only on the
      units up to `k`. */
  lemma PrefixAgrees(units: seq<TransUnit>, n: nat, k: nat, options: Options)
    requires k < n == |units| - 1
    ensures FamilyAt(units[..n], k, options) == FamilyAt(units, k, options)
    ensures KeyAt(units[..n], k, options) == KeyAt(units, k, options)
    ensures RecordAt(units[..n], k, options) == RecordAt(units, k, options)
    ensures Written(units[..n], k, options) == Written(units, k, options)
  {
    forall j | 0 <= j <= k
      ensures FamilyAt(units[..n], j, options) == FamilyAt(units, j, options)
      ensures KeyAt(units[..n], j, options) == KeyAt(units, j, options)
    {
      assert units[..n][j] == units[j];
    }
    assert units[..n][k] == units[k];
  }

  /** Some unit of `units` has family `f`. */
  ghost predicate HasFamily(units: seq<TransUnit>, f: Family, options: Options) {
    exists k :: 0 <= k < |units| && FamilyAt(units, k, options) == f
  }

  /** Some unit has family `f` exactly when some earlier one has, or the last. */
  lemma SomeOfFamilySnoc(units: seq<TransUnit>, init: seq<TransUnit>, options: Options, f: Family)
    requires units != [] && init == units[..|units| - 1]
    ensures HasFamily(units, f, options) <==> HasFamily(init, f, options) || FamilyAt(units, |init|, options) == f
  {
    var n := |init|;
    if k :| 0 <= k < n && FamilyAt(init, k, options) == f {
      PrefixAgrees(units, n, k, options);
      assert FamilyAt(units, k, options) == f;
    }
    if k :| 0 <= k < |units| && FamilyAt(units, k, options) == f && k != n {
      PrefixAgrees(units, n, k, options);
      assert FamilyAt(init, k, options) == f;
    }
  }

  /** The last pass sets a flag exactly when the last unit has its shape. */
  lemma FlagsLast(units: seq<TransUnit>, options: Options)
    requires units != []
    ensures var n := |units| - 1;
            && Run(units, options).hasFoundPlural
               == (Run(units[..n], options).hasFoundPlural || FamilyAt(units, n, options) == PluralFamily)
            && Run(units, options).hasFoundGenderSelect
               == (Run(units[..n], options).hasFoundGenderSelect || FamilyAt(units, n, options) == GenderFamily)
  {
    var n := |units| - 1;
    StepEffect(Run(units[..n], options), n, units[n], options);
  }

  /** After the loop each flag is set exactly when some unit has its shape. */
  lemma {:induction false} RunFlags(units: seq<TransUnit>, options: Options)
    ensures Run(units, options).hasFoundPlural <==> HasFamily(units, PluralFamily, options)
    ensures Run(units, options).hasFoundGenderSelect <==> HasFamily(units, GenderFamily, options)
    decreases |units|
  {
    if units != [] {
      var init := units[..|units| - 1];
      RunFlags(init, options);
      FlagsLast(units, options);
      SomeOfFamilySnoc(units, init, options, PluralFamily);
      SomeOfFamilySnoc(units, init, options, GenderFamily);
    }
  }

  /** The keys of the plain units. */
  ghost function PlainKeys(units: seq<TransUnit>, options: Options): set<string> {
    set k | 0 <= k < |units| && FamilyAt(units, k, options) == PlainFamily :: KeyAt(units, k, options)
  }

  lemma PlainKeysSnoc(units: seq<TransUnit>, init: seq<TransUnit>, options: Options)
    requires units != [] && init == units[..|units| - 1]
    ensures PlainKeys(units, options)
            == PlainKeys(init, options)
               + if FamilyAt(units, |init|, options) == PlainFamily then {KeyAt(units, |init|, options)} else {}
  {
    var n := |init|;
    forall x | x in PlainKeys(units, options)
      ensures x in PlainKeys(init, options) || (FamilyAt(units, n, options) == PlainFamily && x == KeyAt(units, n, options))
    {
      var k :| 0 <= k < |units| && FamilyAt(units, k, options) == PlainFamily && x == KeyAt(units, k, options);
      if k < n {
        PrefixAgrees(units, n, k, options);
        assert x == KeyAt(init, k, options);
      }
    }
    forall x | x in PlainKeys(init, options)
      ensures x in PlainKeys(units, options)
    {
      var k :| 0 <= k < n && FamilyAt(init, k, options) == PlainFamily && x == KeyAt(init, k, options);
      PrefixAgrees(units, n, k, options);
      assert x == KeyAt(units, k, options);
    }
  }

  /** The last pass adds the last unit's key exactly when it is plain. */
  lemma FoundStringsLast(units: seq<TransUnit>, options: Options)
    requires units != []
    ensures var n := |units| - 1;
            Run(units, options).foundStrings
            == Run(units[..n], options).foundStrings
               + if FamilyAt(units, n, options) == PlainFamily then {KeyAt(units, n, options)} else {}
  {
    var n := |units| - 1;
    StepEffect(Run(units[..n], options), n, units[n], options);
  }

  /** After the loop `foundStrings` holds exactly the keys of the plain units. */
  lemma {:induction false} RunFoundStrings(units: seq<TransUnit>, options: Options)
    ensures Run(units, options).foundStrings == PlainKeys(units, options)
    decreases |units|
  {
    if units == [] {
      assert PlainKeys(units, options) == {};
    } else {
      var init := units[..|units| - 1];
      RunFoundStrings(init, options);
      FoundStringsLast(units, options);
      PlainKeysSnoc(units, init, options);
    }
  }

  /** A plain unit's key is already in `foundStrings` exactly when it is not written. */
  lemma PlainWrittenIffNewKey(units: seq<TransUnit>, options: Options)
    requires units != [] && FamilyAt(units, |units| - 1, options) == PlainFamily
    ensures Written(units, |units| - 1, options)
            <==> KeyAt(units, |units| - 1, options) !in Run(units[..|units| - 1], options).foundStrings
  {
    var n := |units| - 1;
    var init := units[..n];
    RunFoundStrings(init, options);
    forall k | 0 <= k < n
      ensures FamilyAt(init, k, options) == FamilyAt(units, k, options)
      ensures KeyAt(init, k, options) == KeyAt(units, k, options)
    {
      PrefixAgrees(units, n, k, options);
    }
  }

  /** A shape-matched unit is written exactly when its flag is still clear. */
  lemma ShapeWrittenIffFirst(units: seq<TransUnit>, options: Options)
    requires units != [] && FamilyAt(units, |units| - 1, options) != PlainFamily
    ensures var st := Run(units[..|units| - 1], options);
            Written(units, |units| - 1, options)
            <==> if FamilyAt(units, |units| - 1, options) == PluralFamily then !st.hasFoundPlural else !st.hasFoundGenderSelect
  {
    var n := |units| - 1;
    var init := units[..n];
    RunFlags(init, options);
    forall k | 0 <= k < n
      ensures FamilyAt(init, k, options) == FamilyAt(units, k, options)
    {
      PrefixAgrees(units, n, k, options);
    }
  }

  /** The last step appends the record of the last unit exactly when that
      unit is written, and a warning exactly when it is a plain repeat. */
  lemma RunLast(units: seq<TransUnit>, options: Options)
    requires units != []
    ensures var n := |units| - 1;
            var st := Run(units[..n], options);
            && Run(units, options).records == st.records + (if Written(units, n, options) then [RecordAt(units, n, options)] else [])
            && Run(units, options).warnings
               == st.warnings + if FamilyAt(units, n, options) == PlainFamily && !Written(units, n, options)
                                then [DuplicateWarning(KeyAt(units, n, options))] else []
  {
    var n := |units| - 1;
    StepEffect(Run(units[..n], options), n, units[n], options);
    if FamilyAt(units, n, options) == PlainFamily {
      PlainWrittenIffNewKey(units, options);
    } else {
      ShapeWrittenIffFirst(units, options);
    }
  }

  /** Each of `recs` is the record of a written unit of `units`. */
  ghost predicate FromWrittenUnits(units: seq<TransUnit>, recs: seq<Record>, options: Options) {
    forall r :: 0 <= r < |recs| ==>
      recs[r].unit < |units| && Written(units, recs[r].unit, options) && recs[r] == RecordAt(units, recs[r].unit, options)
  }

  /** Every written unit of `units` has a record in `recs`. */
  ghost predicate CoversWrittenUnits(units: seq<TransUnit>, recs: seq<Record>, options: Options) {
    forall k :: 0 <= k < |units| && Written(units, k, options) ==> exists r :: 0 <= r < |recs| && recs[r].unit == k
  }

  /** `recs` come in strictly increasing unit order. */
  ghost predicate InUnitOrder(recs: seq<Record>) {
    forall a, b :: 0 <= a < b < |recs| ==> recs[a].unit < recs[b].unit
  }

  /** `recs` are the records of the written units of `units`, each taken
      from its own unit, in strictly increasing unit order, and every written
      unit has one. */
  ghost predicate WrittenRecords(units: seq<TransUnit>, recs: seq<Record>, options: Options) {
    FromWrittenUnits(units, recs, options) && CoversWrittenUnits(units, recs, options) && InUnitOrder(recs)
  }

  lemma FromWrittenUnitsSnoc(units: seq<TransUnit>, init: seq<TransUnit>, before: seq<Record>, recs: seq<Record>, options: Options)
    requires units != [] && init == units[..|units| - 1]
    requires FromWrittenUnits(init, before, options)
    requires recs == before + if Written(units, |init|, options) then [RecordAt(units, |init|, options)] else []
    ensures FromWrittenUnits(units, recs, options)
  {
    forall r | 0 <= r < |recs|
      ensures recs[r].unit < |units| && Written(units, recs[r].unit, options) && recs[r] == RecordAt(units, recs[r].unit, options)
    {
      if r < |before| {
        assert recs[r] == before[r];
        PrefixAgrees(units, |init|, before[r].unit, options);
      }
    }
  }

  lemma CoversWrittenUnitsSnoc(units: seq<TransUnit>, init: seq<TransUnit>, before: seq<Record>, recs: seq<Record>, options: Options)
    requires units != [] && init == units[..|units| - 1]
    requires CoversWrittenUnits(init, before, options)
    requires recs == before + if Written(units, |init|, options) then [RecordAt(units, |init|, options)] else []
    ensures CoversWrittenUnits(units, recs, options)
  {
    forall k | 0 <= k < |units| && Written(units, k, options)
      ensures exists r :: 0 <= r < |recs| && recs[r].unit == k
    {
      if k < |init| {
        PrefixAgrees(units, |init|, k, options);
        var r :| 0 <= r < |before| && before[r].unit == k;
        assert recs[r] == before[r];
      } else {
        assert recs[|recs| - 1].unit == k;
      }
    }
  }

  lemma InUnitOrderSnoc(init: seq<TransUnit>, before: seq<Record>, recs: seq<Record>, last: seq<Record>)
    requires InUnitOrder(before)
    requires forall r :: 0 <= r < |before| ==> before[r].unit < |init|
    requires recs == before + last
    requires |last| <= 1 && forall r :: 0 <= r < |last| ==> last[r].unit == |init|
    ensures InUnitOrder(recs)
  {
    forall a, b | 0 <= a < b < |recs|
      ensures recs[a].unit < recs[b].unit
    {
      assert recs[a] == before[a];
      if b < |before| {
        assert recs[b] == before[b];
      }
    }
  }

  lemma WrittenRecordsSnoc(units: seq<TransUnit>, init: seq<TransUnit>, before: seq<Record>, recs: seq<Record>, options: Options)
    requires units != [] && init == units[..|units| - 1]
    requires WrittenRecords(init, before, options)
    requires recs == before + if Written(units, |init|, options) then [RecordAt(units, |init|, options)] else []
    ensures WrittenRecords(units, recs, options)
  {
    FromWrittenUnitsSnoc(units, init, before, recs, options);
    CoversWrittenUnitsSnoc(units, init, before, recs, options);
    InUnitOrderSnoc(init, before, recs, if Written(units, |init|, options) then [RecordAt(units, |init|, options)] else []);
  }

  /** The records of a run are exactly those of its written units, in order. */
  lemma {:induction false} RunRecords(units: seq<TransUnit>, options: Options)
    ensures WrittenRecords(units, Run(units, options).records, options)
    decreases |units|
  {
    if units != [] {
      var n := |units| - 1;
      RunRecords(units[..n], options);
      RunLast(units, options);
      WrittenRecordsSnoc(units, units[..n], Run(units[..n], options).records, Run(units, options).records, options);
    }
  }

  /** After the loop the warnings are one per repeated plain string. */
  lemma {:induction false} RunWarnings(units: seq<TransUnit>, options: Options)
    ensures Run(units, options).warnings == RepeatWarnings(units, options)
    decreases |units|
  {
    if units != [] {
      RunWarnings(units[..|units| - 1], options);
      RunLast(units, options);
    }
  }

  /** The first unit of a family is written, so a family that occurs has a
      written unit. */
  lemma {:induction false} FirstOfFamilyWritten(units: seq<TransUnit>, k: nat, options: Options)
    requires k < |units| && FamilyAt(units, k, options) != PlainFamily
    ensures exists w :: 0 <= w <= k && Written(units, w, options) && FamilyAt(units, w, options) == FamilyAt(units, k, options)
    decreases k
  {
    if !Written(units, k, options) {
      var j :| 0 <= j < k && FamilyAt(units, j, options) == FamilyAt(units, k, options);
      FirstOfFamilyWritten(units, j, options);
    }
  }

  /** The first plain unit with a given key is written. */
  lemma {:induction false} FirstOfKeyWritten(units: seq<TransUnit>, k: nat, options: Options)
    requires k < |units| && FamilyAt(units, k, options) == PlainFamily
    ensures exists w :: 0 <= w <= k && Written(units, w, options) && FamilyAt(units, w, options) == PlainFamily
                        && KeyAt(units, w, options) == KeyAt(units, k, options)
    decreases k
  {
    if !Written(units, k, options) {
      var j :| 0 <= j < k && FamilyAt(units, j, options) == PlainFamily && KeyAt(units, j, options) == KeyAt(units, k, options);
      FirstOfKeyWritten(units, j, options);
    }
  }

  /** Two records of the same shape family are the same record. */
  lemma ShapeRecordUnique(units: seq<TransUnit>, recs: seq<Record>, options: Options, a: nat, b: nat)
    requires WrittenRecords(units, recs, options)
    requires a < |recs| && b < |recs| && recs[a].family == recs[b].family && recs[a].family != PlainFamily
    ensures a == b
  {
    assert recs[a].family == FamilyAt(units, recs[a].unit, options);
    assert recs[b].family == FamilyAt(units, recs[b].unit, options);
  }

  /** A record of a family exists exactly when a unit of that family does. */
  lemma ShapeRecordExists(units: seq<TransUnit>, recs: seq<Record>, options: Options, f: Family)
    requires WrittenRecords(units, recs, options) && f != PlainFamily
    ensures (exists r :: 0 <= r < |recs| && recs[r].family == f) <==> exists k :: 0 <= k < |units| && FamilyAt(units, k, options) == f
  {
    if r :| 0 <= r < |recs| && recs[r].family == f {
      assert FamilyAt(units, recs[r].unit, options) == f;
    }
    if k :| 0 <= k < |units| && FamilyAt(units, k, options) == f {
      FirstOfFamilyWritten(units, k, options);
      var w :| 0 <= w <= k && Written(units, w, options) && FamilyAt(units, w, options) == f;
      var r :| 0 <= r < |recs| && recs[r].unit == w;
      assert recs[r].family == f;
    }
  }

  /** At most one record comes from each shape family, and there is one
      exactly when some unit has that shape. */
  lemma OneRecordPerShape(units: seq<TransUnit>, options: Options, f: Family)
    requires f != PlainFamily
    ensures var recs := Run(units, options).records;
            && (forall a, b :: 0 <= a < |recs| && 0 <= b < |recs| && recs[a].family == f && recs[b].family == f ==> a == b)
            && ((exists r :: 0 <= r < |recs| && recs[r].family == f) <==> exists k :: 0 <= k < |units| && FamilyAt(units, k, options) == f)
  {
    var recs := Run(units, options).records;
    RunRecords(units, options);
    forall a, b | 0 <= a < |recs| && 0 <= b < |recs| && recs[a].family == f && recs[b].family == f
      ensures a == b
    {
      ShapeRecordUnique(units, recs, options, a, b);
    }
    ShapeRecordExists(units, recs, options, f);
  }

  /** The key a plain record was deduplicated by. */
  function RecordKey(r: Record): string {
    UniqueStringId(r.sourceText, r.meaningText, r.descriptionText)
  }

  /** A plain unit's record carries its unit's key. */
  lemma PlainRecordKey(units: seq<TransUnit>, k: nat, options: Options)
    requires k < |units| && FamilyAt(units, k, options) == PlainFamily
    ensures RecordKey(RecordAt(units, k, options)) == KeyAt(units, k, options)
  {
    ClassesAt(units, k, options);
  }

  lemma PlainRecordKeysDiffer(units: seq<TransUnit>, recs: seq<Record>, options: Options, a: nat, b: nat)
    requires WrittenRecords(units, recs, options)
    requires a < b < |recs| && recs[a].family == PlainFamily && recs[b].family == PlainFamily
    ensures RecordKey(recs[a]) != RecordKey(recs[b])
  {
    assert recs[a].unit < recs[b].unit;
    assert FamilyAt(units, recs[a].unit, options) == PlainFamily;
    assert FamilyAt(units, recs[b].unit, options) == PlainFamily;
    PlainRecordKey(units, recs[a].unit, options);
    PlainRecordKey(units, recs[b].unit, options);
  }

  /** No two plain records share a key. */
  lemma PlainKeysDistinct(units: seq<TransUnit>, options: Options)
    ensures var recs := Run(units, options).records;
            forall a, b :: 0 <= a < b < |recs| && recs[a].family == PlainFamily && recs[b].family == PlainFamily
                           ==> RecordKey(recs[a]) != RecordKey(recs[b])
  {
    RunRecords(units, options);
    var recs := Run(units, options).records;
    forall a, b | 0 <= a < b < |recs| && recs[a].family == PlainFamily && recs[b].family == PlainFamily
      ensures RecordKey(recs[a]) != RecordKey(recs[b])
    {
      PlainRecordKeysDiffer(units, recs, options, a, b);
    }
  }

  /** The key of a plain unit is the key of some plain record. */
  lemma PlainKeyHasRecord(units: seq<TransUnit>, recs: seq<Record>, options: Options, k: nat)
    requires WrittenRecords(units, recs, options)
    requires k < |units| && FamilyAt(units, k, options) == PlainFamily
    ensures exists r :: 0 <= r < |recs| && recs[r].family == PlainFamily && RecordKey(recs[r]) == KeyAt(units, k, options)
  {
    FirstOfKeyWritten(units, k, options);
    var w :| 0 <= w <= k && Written(units, w, options) && FamilyAt(units, w, options) == PlainFamily
             && KeyAt(units, w, options) == KeyAt(units, k, options);
    var r :| 0 <= r < |recs| && recs[r].unit == w;
    PlainRecordKey(units, w, options);
    assert recs[r].family == PlainFamily && RecordKey(recs[r]) == KeyAt(units, k, options);
  }

  /** The key of a plain record is the key of a plain unit. */
  lemma RecordKeyIsPlainKey(units: seq<TransUnit>, recs: seq<Record>, options: Options, r: nat)
    requires WrittenRecords(units, recs, options)
    requires r < |recs| && recs[r].family == PlainFamily
    ensures RecordKey(recs[r]) in PlainKeys(units, options)
  {
    var k := recs[r].unit;
    assert FamilyAt(units, k, options) == PlainFamily;
    PlainRecordKey(units, k, options);
  }

  /** The keys of the plain units are the keys of the plain records. */
  lemma PlainKeysAreRecordKeys(units: seq<TransUnit>, recs: seq<Record>, options: Options)
    requires WrittenRecords(units, recs, options)
    ensures PlainKeys(units, options) == set r | r in recs && r.family == PlainFamily :: RecordKey(r)
  {
    var keys := set r | r in recs && r.family == PlainFamily :: RecordKey(r);
    forall x | x in PlainKeys(units, options)
      ensures x in keys
    {
      var k :| 0 <= k < |units| && FamilyAt(units, k, options) == PlainFamily && x == KeyAt(units, k, options);
      PlainKeyHasRecord(units, recs, options, k);
    }
    forall x | x in keys
      ensures x in PlainKeys(units, options)
    {
      var rec :| rec in recs && rec.family == PlainFamily && x == RecordKey(rec);
      var r :| 0 <= r < |recs| && recs[r] == rec;
      RecordKeyIsPlainKey(units, recs, options, r);
    }
  }

  /** After the loop `foundStrings` holds exactly the keys of the plain
      records written. */
  lemma FoundStringsAreWrittenKeys(units: seq<TransUnit>, options: Options)
    ensures Run(units, options).foundStrings
            == set r | r in Run(units, options).records && r.family == PlainFamily :: RecordKey(r)
  {
    RunRecords(units, options);
    RunFoundStrings(units, options);
    PlainKeysAreRecordKeys(units, Run(units, options).records, options);
  }

  /** Records and warnings together never outnumber the units. */
  lemma {:induction false} RecordsAndWarningsBounded(units: seq<TransUnit>, options: Options)
    ensures |Run(units, options).records| + |Run(units, options).warnings| <= |units|
    decreases |units|
  {
    if units != [] {
      RecordsAndWarningsBounded(units[..|units| - 1], options);
      RunLast(units, options);
    }
  }

  /** The record every unit would give, in unit order. */
  ghost function AllRecords(units: seq<TransUnit>, options: Options): (rs: seq<Record>)
    ensures |rs| == |units| && forall k :: 0 <= k < |units| ==> rs[k] == RecordAt(units, k, options)
  {
    seq(|units|, k requires 0 <= k < |units| => RecordAt(units, k, options))
  }

  lemma AllRecordsSnoc(units: seq<TransUnit>, init: seq<TransUnit>, options: Options)
    requires units != [] && init == units[..|units| - 1]
    ensures AllRecords(units, options) == AllRecords(init, options) + [RecordAt(units, |init|, options)]
  {
    forall k | 0 <= k < |init|
      ensures RecordAt(init, k, options) == RecordAt(units, k, options)
    {
      PrefixAgrees(units, |init|, k, options);
    }
  }

  /** Plain strings with pairwise distinct keys are all written, each as its
      own record in order, and no warning is issued. */
  lemma {:induction false} DistinctPlainAllWritten(units: seq<TransUnit>, options: Options)
    requires forall k :: 0 <= k < |units| ==> FamilyAt(units, k, options) == PlainFamily
    requires forall a, b :: 0 <= a < b < |units| ==> KeyAt(units, a, options) != KeyAt(units, b, options)
    ensures Run(units, options).records == AllRecords(units, options)
    ensures Run(units, options).warnings == []
    decreases |units|
  {
    if units != [] {
      var n := |units| - 1;
      var init := units[..n];
      forall k | 0 <= k < n
        ensures FamilyAt(init, k, options) == FamilyAt(units, k, options)
        ensures KeyAt(init, k, options) == KeyAt(units, k, options)
      {
        PrefixAgrees(units, n, k, options);
      }
      DistinctPlainAllWritten(init, options);
      assert Written(units, n, options);
      RunLast(units, options);
      AllRecordsSnoc(units, init, options);
    }
  }

  /** The message id written for a unit is classified in the unit's family
      again: a canonical placeholder keeps its shape (and carries `num` or
      `gender` as its variable name), a plain text stays plain and is
      normalised when the option is set. */
  lemma WrittenSourceFacts(u: TransUnit, options: Options)
    ensures var s := SourceText(u, options);
            var m := WrittenSource(u, options);
            && FamilyOf(m) == FamilyOf(s)
            && (FamilyOf(s) == PluralFamily ==> MatchShape(s, Plural).Some? && m == Canonical(Plural, MatchShape(s, Plural).value)
                                                && MatchShape(m, Plural) == MatchShape(s, Plural))
            && (FamilyOf(s) == GenderFamily ==> MatchShape(s, GenderSelect).Some? && m == Canonical(GenderSelect, MatchShape(s, GenderSelect).value)
                                                && MatchShape(m, GenderSelect) == MatchShape(s, GenderSelect))
            && (FamilyOf(s) == PlainFamily ==> m == s && (options.normalizeWhitespace ==> Normalized(m)))
  {
    var s := SourceText(u, options);
    match MatchShape(s, Plural)
    case Some(id) =>
      CanonicalKeepsShape(s, Plural);
    case None =>
      match MatchShape(s, GenderSelect)
      case Some(id) =>
        CanonicalKeepsShape(s, GenderSelect);
        ShapesExclusive(Canonical(GenderSelect, id));
      case None =>
        NormalizeWsIsNormalized(u.source);
  }

  /** Every record's message id is classified in the record's family again,
      and a plain one is normalised when the option is set. */
  lemma RecordMessageIds(units: seq<TransUnit>, options: Options)
    ensures var recs := Run(units, options).records;
            forall i :: 0 <= i < |recs| ==>
              && FamilyOf(recs[i].sourceText) == recs[i].family
              && (recs[i].family == PlainFamily && options.normalizeWhitespace ==> Normalized(recs[i].sourceText))
  {
    RunRecords(units, options);
    var recs := Run(units, options).records;
    forall i | 0 <= i < |recs|
      ensures FamilyOf(recs[i].sourceText) == recs[i].family
      ensures recs[i].family == PlainFamily && options.normalizeWhitespace ==> Normalized(recs[i].sourceText)
    {
      ClassesAt(units, recs[i].unit, options);
      WrittenSourceFacts(units[recs[i].unit], options);
    }
  }

  /** The entry each record stands for in the PO text. */
  function EntryOfRecord(r: Record): PoEntry {
    EntryOf(r.sourceText, r.meaningText, r.descriptionText, r.transId, r.targetText)
  }

  /** The entries the records stand for, in order. */
  function Entries(records: seq<Record>): (es: seq<PoEntry>)
    ensures |es| == |records| && forall k :: 0 <= k < |records| ==> es[k] == EntryOfRecord(records[k])
  {
    seq(|records|, k requires 0 <= k < |records| => EntryOfRecord(records[k]))
  }

  /** `poText` is built from the back; read from the front, it is the first
      record's entry followed by the rest. */
  lemma {:induction false} RenderAllCons(records: seq<Record>)
    requires records != []
    ensures RenderAll(records) == Render(records[0]) + RenderAll(records[1..])
    decreases |records|
  {
    var n := |records| - 1;
    var init, tail := records[..n], records[1..];
    if n == 0 {
      assert init == [] && tail == [];
    } else {
      assert init[0] == records[0] && tail[|tail| - 1] == records[n];
      assert init[1..] == tail[..|tail| - 1];
      var first, middle, last := Render(records[0]), RenderAll(init[1..]), Render(records[n]);
      RenderAllCons(init);
      assert RenderAll(records) == RenderAll(init) + last;
      assert RenderAll(tail) == middle + last;
      Associate(first, middle, last);
    }
  }

  /** The PO text reads back, record by record, as the entries of the
      records written, provided no written id holds a newline (the `#:` line
      is not encoded). */
  lemma {:induction false} ReadRenderAll(records: seq<Record>)
    requires forall r :: r in records && Truthy(r.transId) ==> '\n' !in r.transId.value
    ensures ReadRecords(RenderAll(records)) == Some(Entries(records))
    decreases |records|
  {
    if records != [] {
      ReadRenderAll(records[1..]);
      ReadRenderAllStep(records);
    }
  }

  lemma ReadRenderAllStep(records: seq<Record>)
    requires records != []
    requires Truthy(records[0].transId) ==> '\n' !in records[0].transId.value
    requires ReadRecords(RenderAll(records[1..])) == Some(Entries(records[1..]))
    ensures ReadRecords(RenderAll(records)) == Some(Entries(records))
  {
    RenderAllCons(records);
    EntriesCons(records);
    ReadRecordsCons(records[0], RenderAll(records[1..]), Entries(records[1..]));
  }

  lemma EntriesCons(records: seq<Record>)
    requires records != []
    ensures Entries(records) == [EntryOfRecord(records[0])] + Entries(records[1..])
  {
  }

  /** A record followed by a readable text reads as its entry followed by
      the entries of that text. */
  lemma ReadRecordsCons(r: Record, rest: string, es: seq<PoEntry>)
    requires Truthy(r.transId) ==> '\n' !in r.transId.value
    requires ReadRecords(rest) == Some(es)
    ensures ReadRecords(Render(r) + rest) == Some([EntryOfRecord(r)] + es)
  {
    ReadCreatePoString(r.sourceText, r.meaningText, r.descriptionText, r.transId, r.targetText, rest);
    assert |Render(r) + rest| > 0;
  }

  /** No unit has a truthy id holding a newline. */
  predicate IdsOnOneLine(units: seq<TransUnit>) {
    forall k :: 0 <= k < |units| && Truthy(units[k].transId) ==> '\n' !in units[k].transId.value
  }

  /** A whole conversion: the reported count is the number of records in the
      text, and the text reads back as the entries of the written units. */
  lemma ConversionReadsBack(doc: Document, options: Options, serialize: Node -> string)
    requires Conversion(doc, options, serialize).Success?
    requires ResolveDocument(doc, serialize).Success? ==> IdsOnOneLine(ResolveDocument(doc, serialize).value)
    ensures var out := Conversion(doc, options, serialize).value;
            var units := ResolveDocument(doc, serialize).value;
            var recs := Run(units, options).records;
            && out.numTransUnitsWritten == |recs|
            && ReadRecords(out.poText) == Some(Entries(recs))
  {
    var units := ResolveDocument(doc, serialize).value;
    RunRecords(units, options);
    ReadRenderAll(Run(units, options).records);
  }

  /** Two units with the same source, meaning and description but different
      ids and targets: the first is written, the second is reported with its
      key, and the count is one. */
  lemma DuplicateExample()
    ensures var a := TransUnit(Some("1"), "Hello", Some("Bonjour"), Some(""), Some(""));
            var b := TransUnit(Some("2"), "Hello", Some("Salut"), Some(""), Some(""));
            var out := OutputOf(Run([a, b], Options(false)));
            && out.numTransUnitsWritten == 1
            && out.poText == CreatePoString("Hello", a.meaning, a.description, a.transId, a.target)
            && out.warnings == ["Found duplicate string: Hello|:|:"]
  {
    var a := TransUnit(Some("1"), "Hello", Some("Bonjour"), Some(""), Some(""));
    var b := TransUnit(Some("2"), "Hello", Some("Salut"), Some(""), Some(""));
    var rec := RecordOf(0, PlainFamily, "Hello", a);
    DuplicateExampleRun(a, b);
    assert RenderAll([rec]) == Render(rec) by {
      assert [rec][..0] == [];
    }
  }

  lemma DuplicateExampleRun(a: TransUnit, b: TransUnit)
    requires a == TransUnit(Some("1"), "Hello", Some("Bonjour"), Some(""), Some(""))
    requires b == TransUnit(Some("2"), "Hello", Some("Salut"), Some(""), Some(""))
    ensures Run([a, b], Options(false))
            == RunState({"Hello|:|:"}, false, false, [RecordOf(0, PlainFamily, "Hello", a)],
                        ["Found duplicate string: Hello|:|:"])
  {
    var options := Options(false);
    var key := "Hello|:|:";
    var st1 := RunState({key}, false, false, [RecordOf(0, PlainFamily, "Hello", a)], []);
    assert SourceText(a, options) == "Hello" && SourceText(b, options) == "Hello";
    assert UniqueStringId("Hello", a.meaning, a.description) == key && UniqueStringId("Hello", b.meaning, b.description) == key;
    assert MatchShape("Hello", Plural) == None && MatchShape("Hello", GenderSelect) == None;
    assert Step(Initial, 0, a, options) == st1;
    assert Run([a], options) == st1 by {
      assert [a][..0] == [];
    }
    assert Run([a, b], options) == Step(st1, 1, b, options) by {
      assert [a, b][..1] == [a];
    }
    assert Step(st1, 1, b, options) == st1.(warnings := [DuplicateWarning(key)]);
    assert DuplicateWarning(key) == "Found duplicate string: Hello|:|:";
  }

  /** The key joins its parts with `|:` and no escaping, so distinct
      (source, meaning, description) triples can share a key: the second of
      these two units is dropped as a duplicate of the first. */
  lemma KeyCollisionExample()
    ensures var a := TransUnit(None, "a|:b", None, Some(""), Some("d"));
            var b := TransUnit(None, "a", None, Some("b|:"), Some("d"));
            && (a.source, a.meaning, a.description) != (b.source, b.meaning, b.description)
            && |Run([a, b], Options(false)).records| == 1
            && Run([a, b], Options(false)).warnings == [DuplicateWarning("a|:b|:|:d")]
  {
    var a := TransUnit(None, "a|:b", None, Some(""), Some("d"));
    var b := TransUnit(None, "a", None, Some("b|:"), Some("d"));
    var options := Options(false);
    var key := "a|:b|:|:d";
    assert a.source != b.source;
    assert SourceText(a, options) == "a|:b" && SourceText(b, options) == "a";
    assert UniqueStringId("a|:b", a.meaning, a.description) == key;
    assert UniqueStringId("a", b.meaning, b.description) == key;
    assert MatchShape("a|:b", Plural) == None && MatchShape("a|:b", GenderSelect) == None;
    assert MatchShape("a", Plural) == None && MatchShape("a", GenderSelect) == None;
    var st1 := RunState({key}, false, false, [RecordOf(0, PlainFamily, "a|:b", a)], []);
    assert Step(Initial, 0, a, options) == st1;
    assert Run([a], options) == st1 by {
      assert [a][..0] == [];
    }
    assert Run([a, b], options) == Step(st1, 1, b, options) by {
      assert [a, b][..1] == [a];
    }
    assert Step(st1, 1, b, options) == st1.(warnings := [DuplicateWarning(key)]);
  }
}
