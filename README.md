# xlf2po in Dafny

A model of the converter in `xlf2po.js`, which turns an XLIFF 1.2 translation
file into a gettext PO file, with proofs about it. The model covers:

- the walk from the parsed document to its trans-units: the children of the
  first child of the first child of the first top-level node, which in a
  usual file are the units under xliff, file and body;
- the per-unit lookup of the `id` attribute, the source, the target and the
  `meaning` and `description` notes;
- the optional whitespace normalisation of the serialised source;
- the two ICU placeholder patterns, plural and gender select, and their
  canonical rewrite;
- the classify-and-deduplicate loop, with its `foundStrings` set and its
  `hasFoundPlural` and `hasFoundGenderSelect` flags;
- `createPoString` and `poEncode`, which write each PO record.

Modules, one per concern:

- `Wrappers`: `Option` and `Result`.
- `Whitespace`: `normalizeWhitespace` (`/\s+/g` to one space, then `trim`) over
  the exact JavaScript `\s` set.
- `PoFormat`: `poEncode`, `createPoString`, and a PO reader that inverts
  both.
- `IcuShapes`: the two anchored regular expressions, with the lazy `ICU.*?`
  capture as the shortest id that lets the rest of the pattern match, the
  canonical rewrite, and the marker that tells the two shapes apart.
- `XliffTree`: the `xml2js` tree as a datatype and the lookups of the loop
  body, with each `TypeError` the JavaScript would throw as a `ConvertError`.
- `Xlf2Po`: the loop as a fold `Run` of `Step` over the looked-up units.
  `WriteUnit` is the imperative loop body and `Convert` the loop itself; both
  are proved equal to the fold.
- `Xlf2PoProperties`: what the fold guarantees, namely:
  - which units are written and which flags and keys are set;
  - one record per placeholder family;
  - distinct keys for plain records;
  - the warnings, in order;
  - read-back of the whole PO text as the entries of the written units;
  - two concrete runs.

Two behaviours of the code that the model keeps as written:

- **Normalisation.** When the option is set, whitespace is normalised before
  both shape tests (`xlf2po.js:80-82` comes before line 86). A placeholder
  with stray whitespace is therefore still recognised, and normalisation is
  not confined to plain units.
- **Key separator.** The duplicate key joins source, meaning and description
  with `|:` (`xlf2po.js:84`). Ordinary text can contain `|:`, so two plain
  units whose (source, meaning, description) triples differ can share a key,
  and the second is then dropped with a duplicate warning.
  `KeyCollisionExample` exhibits such a pair, and `DistinctPlainAllWritten`
  is stated over distinct keys for that reason.

## Model

| member | source | states |
|---|---|---|
| Whitespace.DropLeadingWs | xlf2po.js:43 | the result is a suffix of the input, every dropped character is whitespace and the first kept one is not |
| Whitespace.DropTrailingWs | xlf2po.js:43 | the result is a prefix of the input, every dropped character is whitespace and the last kept one is not |
| Whitespace.CollapseRunsShape | xlf2po.js:42 | replacing each run of `\s` by one space leaves no two adjacent whitespace characters and only plain spaces, and keeps emptiness and a leading whitespace character |
| Whitespace.CollapseRunsFixed | xlf2po.js:42 | a string already single-spaced is unchanged by the replacement |
| Whitespace.CollapseRunsJoin | xlf2po.js:42 | a non-empty run of `\s` characters between a visible character (or the start) and a visible character (or the end) becomes exactly one space: collapsing `a`, the run, then `b` gives the collapse of `a`, one space, and the collapse of `b` |
| Whitespace.CollapseRunsVisible | xlf2po.js:42 | the replacement keeps every non-whitespace character, in order |
| Whitespace.CollapseRuns | xlf2po.js:42 | `replace(/\s+/g, ' ')`; what it promises is stated by `CollapseRunsShape`, `CollapseRunsJoin`, `CollapseRunsFixed` and `CollapseRunsVisible` |
| Whitespace.Trim | xlf2po.js:43 | `trim()`; stated by `DropLeadingWs` and `DropTrailingWs` (a slice that drops only whitespace at each end and keeps a visible character at each end) and `TrimSingleSpaced` |
| Whitespace.TrimSingleSpaced | xlf2po.js:43 | trimming a single-spaced string leaves it with no whitespace at either end and still single-spaced |
| Whitespace.NormalizeWs | xlf2po.js:40-45 | `normalizeWhitespace`; stated by `NormalizeWsIsNormalized`, `NormalizedIsFixed`, `NormalizeWsIdempotent` and `NormalizeWsKeepsVisible` |
| Whitespace.NormalizeWsIsNormalized | xlf2po.js:40-45 | `normalizeWhitespace` yields a string with no whitespace at either end, only plain spaces, never two adjacent |
| Whitespace.NormalizedIsFixed | xlf2po.js:40-45 | every normalised string is a fixed point of `normalizeWhitespace` |
| Whitespace.NormalizeWsIdempotent | xlf2po.js:40-45 | normalising twice is the same as normalising once |
| Whitespace.NormalizeWsKeepsVisible | xlf2po.js:40-45 | normalising keeps every non-whitespace character, in order |
| PoFormat.ReplaceAllAppend | xlf2po.js:34-36 | a global one-character replacement distributes over concatenation |
| PoFormat.EncodeOneChar | xlf2po.js:32-38 | the three chained replacements turn a backslash into two, a quote into backslash-quote, a newline into quote-newline-quote, and leave any other character alone |
| PoFormat.PoEncodeCons | xlf2po.js:32-38 | `poEncode` works character by character, so no replacement rewrites the output of an earlier one |
| PoFormat.PoEncodeUnchanged | xlf2po.js:32-38 | text without backslash, quote or newline is written unchanged |
| PoFormat.UnescapePoEncode | xlf2po.js:32-38 | the reader recovers every encoded field and the text after its closing quote |
| PoFormat.UnescapeOnlyEncoded | xlf2po.js:32-38 | whatever the reader accepts is exactly an encoded field, its closing and the rest |
| PoFormat.PoEncodeInjective | xlf2po.js:32-38 | two different strings never encode to the same text |
| PoFormat.PoEncode | xlf2po.js:32-38 | `poEncode`; stated by `EncodeOneChar` and `PoEncodeCons` (what each character becomes), `PoEncodeUnchanged`, `UnescapePoEncode` and `UnescapeOnlyEncoded` (the reader inverts it exactly) and `PoEncodeInjective` |
| PoFormat.CreatePoString | xlf2po.js:6-30 | every record ends with the closing quote of its last line and a blank line |
| PoFormat.ReadOptionalLine | xlf2po.js:9-25 | an optional encoded line (`#.`, `msgctxt`, `msgid`, `msgstr`) reads back as its value when written and as absent when not |
| PoFormat.ReadReferenceLine | xlf2po.js:13-15 | the unencoded `#:` line reads back as the id when the id is truthy and has no newline |
| PoFormat.ReadCreatePoString | xlf2po.js:6-30 | a record reads back as its entry, with every falsy field absent, followed by the rest of the text |
| IcuShapes.ShortestIdFrom | xlf2po.js:64-66 | the lazy `(ICU.*?)` capture takes the least length from which the whole pattern matches, or none matches |
| IcuShapes.MatchShape | xlf2po.js:64-66 | `matches[1]` is the shortest matching capture, sits right after `<x id="`, starts with `ICU` and has no line terminator; no match means no capture length fits |
| IcuShapes.CapturedId | xlf2po.js:64-66 | the capture of any match starts with `ICU` and holds no line terminator |
| IcuShapes.MatchHasMarker | xlf2po.js:64-66 | every plural match has `r` and every select match has `f` eleven characters from the end |
| IcuShapes.ShapesExclusive | xlf2po.js:86-94 | no source matches both patterns, so testing plural first never hides a gender select |
| IcuShapes.CanonicalMatches | xlf2po.js:89-98 | the canonical placeholder built from any valid id matches its own pattern with that id |
| IcuShapes.CanonicalKeepsShape | xlf2po.js:89-98 | the pattern matched against the canonical form of a matching source captures exactly the id captured from the source, so the rewrite keeps the shape and the id |
| IcuShapes.Canonical | xlf2po.js:90 | the canonical placeholder; stated by `CanonicalMatches` and `CanonicalKeepsShape` |
| XliffTree.FindNamed | xlf2po.js:70 | `find` by element name gives the first element with that name, or none has it |
| XliffTree.FilterNamed | xlf2po.js:71 | `filter` by name keeps only elements with that name and all of them; `FilterNamedOne` and `FilterNamedAppend` fix the result as exactly the named elements, in document order, with their repeats |
| XliffTree.FilterNamedOne | xlf2po.js:71 | a one-element list keeps its element exactly when it has the name |
| XliffTree.FilterNamedAppend | xlf2po.js:71 | filtering a concatenation is the concatenation of the filtered parts, so order and multiplicity are kept |
| XliffTree.FindRole | xlf2po.js:72-74 | the first note with `from` equal to the role, none, or a fault exactly when a note without attributes is met before any match |
| XliffTree.NoteText | xlf2po.js:73-75 | a missing note gives `''`; the lookup fails exactly when the found note is not an element or has no children; otherwise it gives the `text` of the note's first child, or `undefined` when that child is not a text node |
| XliffTree.RoleText | xlf2po.js:71-75 | the lookup succeeds exactly when `FindRole` over the `note` children does not fault and the note it finds, if any, is an element with children; on success the text is `''` when no note has that `from`, else the first-child text of the first such note, or `undefined` when that child is not text; every failure is a malformed note |
| XliffTree.ResolveUnit | xlf2po.js:69-78 | a unit that is not an element or lacks attributes or children fails as malformed; otherwise it fails as a malformed note exactly when the meaning or the description lookup fails, then as a missing source exactly when both succeed and there is no `source` child, and succeeds exactly in the remaining case; a looked-up unit's id is `attributes.id`, its source the serialisation of the first `source` child, its target the serialisation of the first `target` child or `null`, and its meaning and description the `RoleText` of its children |
| XliffTree.NoNotesReadEmpty | xlf2po.js:69-78 | a unit with attributes and a `source` child but no `note` child looks up, with `''` for both the meaning and the description |
| XliffTree.BareUnitExample | xlf2po.js:69-78 | `<trans-unit id="1"><source>Hello</source></trans-unit>` looks up to id `1`, the serialised source, no target and `''` for both notes |
| XliffTree.UnitElementReadsBack | xlf2po.js:69-78 | a unit built from an id, a source, an optional target and two role notes looks up to exactly those values |
| XliffTree.FirstChild | xlf2po.js:55-57 | `elements[0]` succeeds exactly on an element with children |
| XliffTree.UnitNodes | xlf2po.js:55-58 | the walk is positional and never looks at names: it succeeds exactly when the first top-level node is an element, its first child is an element, and that child's first child is an element with children, and it then yields exactly those children; otherwise it fails as a malformed document |
| XliffTree.HeaderFirstExample | xlf2po.js:55-58 | in a file whose `header` comes before `body`, the header's children are taken as the units |
| XliffTree.ResolveAll | xlf2po.js:68-78 | on success there is one looked-up unit per node, and unit `k` is the lookup of node `k` |
| XliffTree.ResolveAllFirstFault | xlf2po.js:68-78 | a failure is the fault of some node whose lookup fails, with every earlier node looked up successfully |
| Xlf2Po.ResolveUnitFails | xlf2po.js:68-78 | the first unit whose lookup fails stops the whole conversion with its fault |
| Xlf2Po.SourceText | xlf2po.js:76-82 | the tested source; stated by `NormalizeWsIsNormalized` for the normalised case and by `WrittenSourceFacts` |
| Xlf2Po.UniqueStringId | xlf2po.js:84 | the duplicate key; stated by `StepEffect`, `RunFoundStrings` and `KeyCollisionExample` |
| Xlf2Po.Step | xlf2po.js:84-110 | one pass of the loop body; stated by `StepEffect` and implemented by `WriteUnit` |
| Xlf2Po.Run | xlf2po.js:68-111 | the loop as a fold; stated by `RunFlags`, `RunFoundStrings`, `RunRecords`, `RunWarnings` and `RunLast`, and implemented by `Convert` |
| Xlf2Po.WriteUnit | xlf2po.js:80-110 | the imperative loop body takes the state to exactly `Step` of it, keeping `poText` the rendering of the records and the count their number |
| Xlf2Po.Convert | xlf2po.js:55-111 | the converter's result equals `Conversion`: the first lookup fault, or the text, count and warnings of the fold over all units |
| Xlf2PoProperties.StepEffect | xlf2po.js:84-110 | one step sets the flag of its family, adds the key of a plain unit, warns exactly on a repeated plain key, and writes exactly the first of a family or a new plain key |
| Xlf2PoProperties.RunFlags | xlf2po.js:86-101 | each flag is set after a run exactly when some unit had that family |
| Xlf2PoProperties.RunFoundStrings | xlf2po.js:103-106 | `foundStrings` after a run is exactly the set of keys of the plain units |
| Xlf2PoProperties.PlainWrittenIffNewKey | xlf2po.js:102-109 | a plain unit is written exactly when its key was not yet in `foundStrings` |
| Xlf2PoProperties.ShapeWrittenIffFirst | xlf2po.js:86-101 | a placeholder unit is written exactly when its family's flag was still unset |
| Xlf2PoProperties.RunLast | xlf2po.js:68-111 | the last unit adds its own record when written, and a warning when it is a plain unit that is not written |
| Xlf2PoProperties.RunRecords | xlf2po.js:68-111 | the records are those of the written units, each taken from its own unit, in unit order, with none missing |
| Xlf2PoProperties.RunWarnings | xlf2po.js:103-104 | the warnings are `Found duplicate string: ` plus the key of each repeated plain unit, in unit order |
| Xlf2PoProperties.FirstOfFamilyWritten | xlf2po.js:86-101 | every placeholder family present has a written unit of that family no later than any of its units |
| Xlf2PoProperties.FirstOfKeyWritten | xlf2po.js:102-110 | every plain key present has a written plain unit with that key no later than any of its units |
| Xlf2PoProperties.OneRecordPerShape | xlf2po.js:86-101 | a run writes at most one plural and at most one gender-select record, and exactly one when such a unit occurs |
| Xlf2PoProperties.PlainKeysDistinct | xlf2po.js:102-110 | no two plain records of a run carry the same key |
| Xlf2PoProperties.FoundStringsAreWrittenKeys | xlf2po.js:102-110 | `foundStrings` after a run is exactly the set of keys of the plain records written |
| Xlf2PoProperties.RecordsAndWarningsBounded | xlf2po.js:86-110 | records and warnings together never outnumber the units |
| Xlf2PoProperties.DistinctPlainAllWritten | xlf2po.js:102-110 | when every unit is plain and the keys are pairwise distinct, every unit is written, in order, and there is no warning |
| Xlf2PoProperties.WrittenSourceFacts | xlf2po.js:80-98 | the message id written keeps the unit's family, is the canonical placeholder of the captured id for a shape (and captures that same id again), and the (normalised, when asked) source for a plain unit |
| Xlf2PoProperties.RecordMessageIds | xlf2po.js:80-110 | every record's message id is of its record's family, and normalised for plain records when the option is set |
| Xlf2PoProperties.ReadRenderAll | xlf2po.js:91-107 | for records whose truthy ids hold no newline, the concatenated records read back as their entries, in order |
| Xlf2PoProperties.ConversionReadsBack | xlf2po.js:55-111 | a successful conversion reports as many records as its text holds, and its text reads back as the entries of the written units |
| Xlf2PoProperties.DuplicateExample | xlf2po.js:102-110 | two units with the same source and no notes give one record (the first), count 1 and one warning `Found duplicate string: Hello\|:\|:` |
| Xlf2PoProperties.KeyCollisionExample | xlf2po.js:84 | source `a\|:b` with an empty meaning and source `a` with meaning `b\|:`, both with description `d`, differ but share a key: the second is dropped with a warning |

## Left out

- Reading the XLIFF file and writing or printing the PO text
  (`xlf2po.js:52`, `xlf2po.js:113-122`) are I/O. The model starts from the
  parsed document and ends with the text, the count and the warnings.
- `outputFile` only decides where the text goes and is not an option of the
  model.
- `xml2js` and `js2xml` belong to the `xml-js` package, which is not part of
  this model. The tree is the datatype `XliffTree.Node`, and `js2xml` is the
  parameter `serialize`, on which nothing is assumed.
- `console.warn` is modelled as the sequence of warning strings in the order
  they are issued. When the run then stops on a fault, the model returns only
  the fault, without the warnings already printed.
- The `TypeError`s are modelled as `ConvertError` values, at the point where
  the JavaScript would throw. Their messages are not modelled.
- `xml-js` leaves an empty attribute map or child list out of a node. The
  model reads an empty map or list as `undefined`.
- XliffTree.Node: comments, CDATA sections and the doctype are one
  constructor, `Other`, without their content. The code reads only `name`,
  `attributes`, `elements` and `text`, and these nodes have none of them.
  Processing instructions keep their name, which `find` and `filter` read.
- Xlf2PoProperties.DistinctPlainAllWritten: stated over distinct keys, not
  distinct (source, meaning, description) triples. The `|:` separator lets
  different triples share a key, as `KeyCollisionExample` shows.
- Xlf2PoProperties.ConversionReadsBack: read-back is proved only when no
  truthy id contains a newline. The `#:` line writes the id unencoded, so
  such an id would break the line.
- PoFormat.ReadCreatePoString: same limit as `ConversionReadsBack`, for the
  same reason.
- Xlf2PoProperties.DuplicateExample: states the text as `createPoString` of
  the first unit's fields rather than as the literal characters.
- A description that contains a newline is written as `#. ` with a
  `"\n"` continuation, which is not a standard PO comment. The model writes
  it as the code does, and its reader accepts that form.
- IcuShapes.MatchShape: the `...` slots and every `.` are measured in
  Unicode scalar values, the characters of a Dafny string. A JavaScript
  regular expression without the `u` flag measures them in UTF-16 code
  units, so `{` + U+1F600 + `a}` fills a `{...}` slot in the code but not in
  the model. Sources with characters outside the Basic Multilingual Plane
  are not modelled faithfully by the shape tests.
