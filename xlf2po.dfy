/** The conversion loop of `xlf2po`: each trans-unit is classified as a
    plural placeholder, a gender-select placeholder or a plain string, and
    written as a PO record unless its family or its key was already written
    in this run. */
module Xlf2Po {
  import opened Wrappers
  import opened Whitespace
  import opened PoFormat
  import opened IcuShapes
  import opened XliffTree

  /** The conversion options that reach the core; `outputFile` only decides
      where the text goes and is not part of this model. */
  datatype Options = Options(normalizeWhitespace: bool)

  /** What a run produces: the PO text, the count the source reports as
      `numTransUnitsWritten`, and the duplicate warnings in order. */
  datatype Output = Output(poText: string, numTransUnitsWritten: nat, warnings: seq<string>)

  /** A string value as `+` concatenation renders it: `undefined` for `None`. */
  function JsString(o: Option<string>): string {
    match o
    case None => "undefined"
    case Some(s) => s
  }

  /** The serialised source as the tests see it: normalised first when the
      option is set. */
  function SourceText(u: TransUnit, options: Options): string {
    if options.normalizeWhitespace then NormalizeWs(u.source) else u.source
  }

  /** `sourceText + '|:' + meaningText + '|:' + descriptionText`. */
  function UniqueStringId(sourceText: string, meaningText: Option<string>, descriptionText: Option<string>): string {
    sourceText + "|:" + JsString(meaningText) + "|:" + JsString(descriptionText)
  }

  function DuplicateWarning(key: string): string {
    "Found duplicate string: " + key
  }

  /** Which branch of the loop a source takes; the plural test comes first. */
  datatype Family = PluralFamily | GenderFamily | PlainFamily

  function FamilyOf(sourceText: string): Family {
    if MatchShape(sourceText, Plural).Some? then PluralFamily
    else if MatchShape(sourceText, GenderSelect).Some? then GenderFamily
    else PlainFamily
  }

  /** One record appended to `poText`: the unit it came from, its family and
      the arguments passed to `createPoString`. */
  datatype Record = Record(unit: nat, family: Family, sourceText: string, meaningText: Option<string>,
                           descriptionText: Option<string>, transId: Option<string>, targetText: Option<string>)

  function Render(r: Record): string {
    CreatePoString(r.sourceText, r.meaningText, r.descriptionText, r.transId, r.targetText)
  }

  /** `poText` after appending the records one after the other. */
  function RenderAll(records: seq<Record>): string
    decreases |records|
  {
    if records == [] then "" else RenderAll(records[..|records| - 1]) + Render(records[|records| - 1])
  }

  /** The per-run state of the loop: the `foundStrings` set, the two flags,
      the records written so far and the warnings issued so far. */
  datatype RunState = RunState(foundStrings: set<string>, hasFoundPlural: bool, hasFoundGenderSelect: bool,
                               records: seq<Record>, warnings: seq<string>)

  const Initial: RunState := RunState({}, false, false, [], [])

  /** The record a unit gives with the given `sourceText`. */
  function RecordOf(index: nat, family: Family, sourceText: string, u: TransUnit): Record {
    Record(index, family, sourceText, u.meaning, u.description, u.transId, u.target)
  }

  /** One pass of the loop body for unit number `index`. */
  function Step(st: RunState, index: nat, u: TransUnit, options: Options): RunState {
    var sourceText := SourceText(u, options);
    var key := UniqueStringId(sourceText, u.meaning, u.description);
    match MatchShape(sourceText, Plural)
    case Some(id) =>
      if st.hasFoundPlural then st
      else st.(hasFoundPlural := true,
               records := st.records + [RecordOf(index, PluralFamily, Canonical(Plural, id), u)])
    case None =>
      match MatchShape(sourceText, GenderSelect)
      case Some(id) =>
        if st.hasFoundGenderSelect then st
        else st.(hasFoundGenderSelect := true,
                 records := st.records + [RecordOf(index, GenderFamily, Canonical(GenderSelect, id), u)])
      case None =>
        if key in st.foundStrings then st.(warnings := st.warnings + [DuplicateWarning(key)])
        else st.(foundStrings := st.foundStrings + {key},
                 records := st.records + [RecordOf(index, PlainFamily, sourceText, u)])
  }

  /** The state after the loop has run over `units`, from a fresh state. */
  function Run(units: seq<TransUnit>, options: Options): RunState
    decreases |units|
  {
    if units == [] then Initial
    else Step(Run(units[..|units| - 1], options), |units| - 1, units[|units| - 1], options)
  }

  function OutputOf(st: RunState): Output {
    Output(RenderAll(st.records), |st.records|, st.warnings)
  }

  /** What converting a document yields: the fault that stops it, or the
      output of the loop over its units. */
  function Conversion(doc: Document, options: Options, serialize: Node -> string): Result<Output, ConvertError> {
    match ResolveDocument(doc, serialize)
    case Failure(e) => Failure(e)
    case Success(units) => Success(OutputOf(Run(units, options)))
  }

  lemma ResolveAllPrefix(nodes: seq<Node>, i: nat, serialize: Node -> string, units: seq<TransUnit>, u: TransUnit)
    requires i < |nodes|
    requires ResolveAll(nodes[..i], serialize) == Success(units)
    requires ResolveUnit(nodes[i], i, serialize) == Success(u)
    ensures ResolveAll(nodes[..i + 1], serialize) == Success(units + [u])
  {
    var longer := nodes[..i + 1];
    assert longer[..|longer| - 1] == nodes[..i] && longer[|longer| - 1] == nodes[i];
    assert ResolveAll(longer[..|longer| - 1], serialize) == Success(units);
    assert ResolveUnit(longer[|longer| - 1], |longer| - 1, serialize) == Success(u);
  }

  /** Once a unit fails, the whole list fails with that fault. */
  lemma {:induction false} ResolveAllFails(nodes: seq<Node>, i: nat, serialize: Node -> string)
    requires i <= |nodes|
    requires ResolveAll(nodes[..i], serialize).Failure?
    ensures ResolveAll(nodes, serialize) == ResolveAll(nodes[..i], serialize)
    decreases |nodes| - i
  {
    if i < |nodes| {
      assert nodes[..i + 1][..i] == nodes[..i];
      ResolveAllFails(nodes, i + 1, serialize);
    } else {
      assert nodes[..i] == nodes;
    }
  }

  /** A unit whose lookup fails makes the whole list fail with its fault. */
  lemma ResolveUnitFails(nodes: seq<Node>, i: nat, serialize: Node -> string, units: seq<TransUnit>)
    requires i < |nodes|
    requires ResolveAll(nodes[..i], serialize) == Success(units)
    requires ResolveUnit(nodes[i], i, serialize).Failure?
    ensures ResolveAll(nodes, serialize) == Failure(ResolveUnit(nodes[i], i, serialize).error)
  {
    assert nodes[..i + 1][..i] == nodes[..i];
    ResolveAllFails(nodes, i + 1, serialize);
  }

  lemma RunSnoc(units: seq<TransUnit>, u: TransUnit, options: Options)
    ensures Run(units + [u], options) == Step(Run(units, options), |units|, u, options)
  {
    assert (units + [u])[..|units|] == units;
  }

  lemma RenderAllAppend(records: seq<Record>, rec: Record)
    ensures RenderAll(records + [rec]) == RenderAll(records) + Render(rec)
  {
    assert (records + [rec])[..|records|] == records;
  }

  /** `Step` on a unit whose source is a plural placeholder. */
  lemma StepPlural(st: RunState, index: nat, u: TransUnit, options: Options, id: string)
    requires MatchShape(SourceText(u, options), Plural) == Some(id)
    ensures Step(st, index, u, options)
            == if st.hasFoundPlural then st
               else st.(hasFoundPlural := true,
                        records := st.records + [RecordOf(index, PluralFamily, Canonical(Plural, id), u)])
  {
  }

  /** `Step` on a unit whose source is a gender-select placeholder. */
  lemma StepGender(st: RunState, index: nat, u: TransUnit, options: Options, id: string)
    requires MatchShape(SourceText(u, options), Plural).None?
    requires MatchShape(SourceText(u, options), GenderSelect) == Some(id)
    ensures Step(st, index, u, options)
            == if st.hasFoundGenderSelect then st
               else st.(hasFoundGenderSelect := true,
                        records := st.records + [RecordOf(index, GenderFamily, Canonical(GenderSelect, id), u)])
  {
  }

  /** `Step` on a unit whose source is plain text. */
  lemma StepPlain(st: RunState, index: nat, u: TransUnit, options: Options)
    requires MatchShape(SourceText(u, options), Plural).None?
    requires MatchShape(SourceText(u, options), GenderSelect).None?
    ensures var key := UniqueStringId(SourceText(u, options), u.meaning, u.description);
            Step(st, index, u, options)
            == if key in st.foundStrings then st.(warnings := st.warnings + [DuplicateWarning(key)])
               else st.(foundStrings := st.foundStrings + {key},
                        records := st.records + [RecordOf(index, PlainFamily, SourceText(u, options), u)])
  {
  }

  /** The classifying half of the loop body, for a unit already looked up:
      a first plural or gender-select placeholder is written in canonical
      form, a later one is skipped, and a plain string is written unless its
      key was seen, in which case a warning is issued instead. */
  method WriteUnit(index: nat, u: TransUnit, options: Options,
                   foundStrings: set<string>, hasFoundPlural: bool, hasFoundGenderSelect: bool,
                   poText: string, numTransUnitsWritten: nat, warnings: seq<string>, ghost records: seq<Record>)
    returns (foundStrings': set<string>, hasFoundPlural': bool, hasFoundGenderSelect': bool,
             poText': string, numTransUnitsWritten': nat, warnings': seq<string>, ghost records': seq<Record>)
    requires poText == RenderAll(records) && numTransUnitsWritten == |records|
    ensures RunState(foundStrings', hasFoundPlural', hasFoundGenderSelect', records', warnings')
            == Step(RunState(foundStrings, hasFoundPlural, hasFoundGenderSelect, records, warnings), index, u, options)
    ensures poText' == RenderAll(records') && numTransUnitsWritten' == |records'|
  {
    foundStrings', hasFoundPlural', hasFoundGenderSelect' := foundStrings, hasFoundPlural, hasFoundGenderSelect;
    poText', numTransUnitsWritten', warnings', records' := poText, numTransUnitsWritten, warnings, records;

    var sourceText := u.source;
    if options.normalizeWhitespace {
      sourceText := NormalizeWs(sourceText);
    }
    var uniqueStringId := UniqueStringId(sourceText, u.meaning, u.description);

    ghost var st := RunState(foundStrings, hasFoundPlural, hasFoundGenderSelect, records, warnings);
    var pluralMatch := MatchShape(sourceText, Plural);
    if pluralMatch.Some? {
      StepPlural(st, index, u, options, pluralMatch.value);
      if !hasFoundPlural {
        hasFoundPlural' := true;
        sourceText := Canonical(Plural, pluralMatch.value);
        poText' := poText + CreatePoString(sourceText, u.meaning, u.description, u.transId, u.target);
        numTransUnitsWritten' := numTransUnitsWritten + 1;
        RenderAllAppend(records, RecordOf(index, PluralFamily, sourceText, u));
        records' := records + [RecordOf(index, PluralFamily, sourceText, u)];
      }
    } else {
      var genderMatch := MatchShape(sourceText, GenderSelect);
      if genderMatch.Some? {
        StepGender(st, index, u, options, genderMatch.value);
        if !hasFoundGenderSelect {
          hasFoundGenderSelect' := true;
          sourceText := Canonical(GenderSelect, genderMatch.value);
          poText' := poText + CreatePoString(sourceText, u.meaning, u.description, u.transId, u.target);
          numTransUnitsWritten' := numTransUnitsWritten + 1;
          RenderAllAppend(records, RecordOf(index, GenderFamily, sourceText, u));
          records' := records + [RecordOf(index, GenderFamily, sourceText, u)];
        }
      } else {
        StepPlain(st, index, u, options);
        if uniqueStringId in foundStrings {
          warnings' := warnings + [DuplicateWarning(uniqueStringId)];
        } else {
          foundStrings' := foundStrings + {uniqueStringId};
          poText' := poText + CreatePoString(sourceText, u.meaning, u.description, u.transId, u.target);
          numTransUnitsWritten' := numTransUnitsWritten + 1;
          RenderAllAppend(records, RecordOf(index, PlainFamily, sourceText, u));
          records' := records + [RecordOf(index, PlainFamily, sourceText, u)];
        }
      }
    }
  }

  /** The exported converter: walks to the units, then runs the loop over
      them with the `foundStrings` set, the two flags, the text and the count
      as local state; the first unit whose lookup fails stops the run.
      `serialize` stands for `js2xml`; reading the file and writing or
      printing the result are left to the caller. */
  method Convert(doc: Document, options: Options, serialize: Node -> string) returns (r: Result<Output, ConvertError>)
    ensures r == Conversion(doc, options, serialize)
  {
    var transUnits :- UnitNodes(doc);
    var numTransUnitsWritten: nat := 0;
    var poText := "";
    var foundStrings: set<string> := {};
    var hasFoundPlural := false;
    var hasFoundGenderSelect := false;
    var warnings: seq<string> := [];
    ghost var units: seq<TransUnit> := [];
    ghost var records: seq<Record> := [];

    var i := 0;
    assert transUnits[..i] == [];
    while i < |transUnits|
      invariant 0 <= i <= |transUnits|
      invariant ResolveAll(transUnits[..i], serialize) == Success(units)
      invariant Run(units, options) == RunState(foundStrings, hasFoundPlural, hasFoundGenderSelect, records, warnings)
      invariant poText == RenderAll(records) && numTransUnitsWritten == |records|
    {
      var resolved := ResolveUnit(transUnits[i], i, serialize);
      if resolved.Failure? {
        ResolveUnitFails(transUnits, i, serialize, units);
        return Failure(resolved.error);
      }
      var u := resolved.value;
      ResolveAllPrefix(transUnits, i, serialize, units, u);
      RunSnoc(units, u, options);
      foundStrings, hasFoundPlural, hasFoundGenderSelect, poText, numTransUnitsWritten, warnings, records :=
        WriteUnit(i, u, options, foundStrings, hasFoundPlural, hasFoundGenderSelect,
                  poText, numTransUnitsWritten, warnings, records);
      units := units + [u];
      i := i + 1;
    }
    assert transUnits[..i] == transUnits;
    r := Success(Output(poText, numTransUnitsWritten, warnings));
  }
}
