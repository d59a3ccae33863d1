# resolveToBy stitch transform — a Dafny model

The transform lets a schema author write `@resolveToBy(requiredSelectionSet: "{ id name }")`
or `@resolveToBy(keyField: "id")` on a field. At schema-build time it collects the
requirement of each such field into a registry. At request time, wherever that field is
requested, it returns the field node followed by the required selections, so the sub-request
also fetches them.

The model has three modules:

- `Wrappers` (`wrappers.dfy`): `Option` and `Result`.
- `Literals` (`literals.dfy`): the literal decoder of `src/utils.ts`.
  - `ParseLiteral` is the pure decoder.
  - `ObjectEntries` is the written-order dictionary fill that specifies `parseObject`.
  - `ParseObject` is the imperative `parseObject` loop, proved equal to `ObjectEntries`.
  - The module also holds the two JavaScript conversions the transform applies to decoded
    values: truthiness (`Truthy`) and template-string conversion (`TemplateText`).
  - Decoding terminates: `ParseLiteral` and `ObjectEntries` are accepted by Dafny's termination
    check, each recursive call being on a child node of a list or an object.
- `Stitch` (`stitch.dfy`): `ResolveToByStitchTransform` of `src/index.ts`.
  - It is a class whose `selectionMap: seq<ResolveToByStitchMap>` is the registry; the entry
    record is the one `src/types.ts` declares.
  - `ModifySchema` is the imperative directive loop. It is proved against the
    specification function `Requirement`, a left fold (`Scan`) of one step per directive.
  - `ModifyRequest` is a function that reads the registry: a first-match lookup (`FirstMatch`).
  - `parseSelectionSet` and `mergeSelectionSets` come from other libraries. They are
    parameters: `parse: Lit -> Result<Option<SelectionSet>, string>` and
    `merge: (SelectionSet, Option<SelectionSet>) -> Option<SelectionSet>`. `None` stands for a
    library result of `undefined`. The model keeps the transform's truthiness test of the
    accumulator after every parse and merge, and its test before the push.
  - An exception is a `Failure` result.

The module `StitchScenario` (also in `stitch.dfy`) is a client that uses only the contracts.
It covers three cases: `Product.price` with `keyField: "sku"` expands to `[priceNode, sku]`;
the text `"{ invalid syntax"` is rejected and nothing is registered; a second registration of
the same field is appended but never found.

Behaviour of the code a reader might not expect:

- The registry is append-only. Nothing enforces one entry per (type, field). Scanning the same
  field twice appends a second entry, and lookups keep returning the first one
  (`LookupAfterAppend`, `StitchScenario.ExpansionScenario`). Nothing is ever overwritten.
- On a lookup miss, `modifyRequest` returns the field node itself, not a one-element array
  (`SameNode`). A hit whose entry has an empty selection list still gives the array `[fieldNode]`.
- The choice between the two arguments uses JavaScript truthiness of any decoded value, not
  "a string is present". An empty `requiredSelectionSet` falls back to `keyField`. A non-string
  truthy `requiredSelectionSet` is handed to the parser as it is.
- Enum constants (such as `keyField: id` written without quotes) are constant literals, yet they
  decode to `undefined`. The same holds for variables.

## Model

| member | source | states |
|---|---|---|
| Literals.ScalarsKeepRawValue | src/utils.ts:5-8 | a string node decodes to its raw string and a boolean node to its raw boolean |
| Literals.NumbersHaveNoIntegerSubtype | src/utils.ts:9-12 | an int node and a float node with the same text decode to the same number, kept as its numeral |
| Literals.ListDecodesElementwise | src/utils.ts:16-18 | a list decodes to a list of the same length whose element i is the decoding of element i |
| Literals.UndefinedExactlyForUnhandledKinds | src/utils.ts:4-22 | the result is `undefined` exactly for the kinds without a case (enum, variable), and `null` exactly for a null node |
| Literals.DecodableIsDefined | src/utils.ts:3-23 | a node built only from handled kinds decodes to a value with no `undefined` anywhere inside |
| Literals.ParseObject | src/utils.ts:25-33 | filling the empty dictionary field by field in written order yields exactly `ObjectEntries(fields)` |
| Literals.ObjectKeysAreFieldNames | src/utils.ts:25-33 | the decoded record's keys are exactly the written field names, with no inherited keys |
| Literals.LastOccurrenceWins | src/utils.ts:27-30 | for a repeated field name, the record holds the decoding of the last occurrence |
| Literals.TemplateTextFailsOnlyOnRecords | src/index.ts:126-128 | `${keyField}` gives a string unchanged, and throws exactly when the value is or contains a record |
| Stitch.ResolveToByStitchTransform.constructor | src/index.ts:29 | the registry starts empty |
| Stitch.ResolveToByDirectives | src/index.ts:101-103 | the filter keeps exactly the directives named `resolveToBy` and is no longer than its input |
| Stitch.FilterKeepsOrder | src/index.ts:101-103 | filtering distributes over concatenation, so the kept directives stay in written order |
| Stitch.SelectionSource | src/index.ts:123 | a truthy `requiredSelectionSet` is used as it is; otherwise a string `keyField` gives exactly `{ keyField }`; conversion fails exactly when `keyField` holds a record |
| Stitch.KeyFieldSynthesisesSelection | src/index.ts:126-128 | `resolveToBy(keyField: k)`, even after empty `requiredSelectionSet` arguments, hands the parser exactly `{ k }` |
| Stitch.NoResolveToByNoRequirement | src/index.ts:97-107 | with no directive list, or none named `resolveToBy`, the field declares no requirement |
| Stitch.ScanNoneWhenNoneContribute | src/index.ts:116-118 | when every directive has falsy `requiredSelectionSet` and `keyField`, no selection set is accumulated |
| Stitch.ScanNoneIffNoneContribute | src/index.ts:116-132 | for a parser and merger that never give back `undefined`: no selection set is accumulated exactly when every directive has falsy `requiredSelectionSet` and `keyField` |
| Stitch.UndefinedMergeDropsAccumulator | src/index.ts:120-132 | a merge that gives back `undefined` leaves no accumulated set, and a later contributing directive then seeds a fresh one with its own parse result |
| Stitch.ScanSkipsNonContributing | src/index.ts:116-118 | skipped directives do not affect the result: the fold over all directives equals the fold over the contributing ones |
| Stitch.ScanSingleContributor | src/index.ts:125-128 | with one contributing directive, the requirement is what the parser gave back for it (or its error), and merge is not applied |
| Stitch.MergesInDirectiveOrder | src/index.ts:120-124 | a later contributing directive makes the accumulator exactly `merge(accumulated, parsed)`, with the earlier requirement as first operand |
| Stitch.ScanStopsAtFailure | src/index.ts:109-130 | once a directive throws, later directives change nothing, and the error reported is the first one |
| Stitch.ResolveToByStitchTransform.ModifySchema | src/index.ts:92-141 | returns the unchanged field config unless the requirement throws; appends one entry `(typeName, fieldName, requirement)` at the end when a requirement is derived, and otherwise leaves the registry unchanged, also on a throw |
| Stitch.NewEntries | src/index.ts:132-138 | at most one entry is appended: exactly when a requirement was derived, carrying the call's type and field names |
| Stitch.FirstMatch | src/index.ts:144-146 | returns the least index whose entry has equal type and field names, or none exactly when no entry matches |
| Stitch.LookupAfterAppend | src/index.ts:132-146 | appending an entry never changes an existing lookup answer; a field found nowhere before is found at the new entry when it matches |
| Stitch.ResolveToByStitchTransform.ModifyRequest | src/index.ts:143-153 | on a miss, the field node itself; on a hit, `[fieldNode]` followed by the earliest matching entry's selections in order; it only reads the registry |

## Left out

- `transformSchema`, `transformRequest`, `transformResult` and the constructor's wiring of `TransformCompositeFields` (src/index.ts:32-90): they pass through to other libraries whose code is not part of this model.
- The `noWrap` flag (src/index.ts:28) is never read by the transform.
- `parseSelectionSet` and `mergeSelectionSets` are parameters. The model assumes only their types: a parse error or a selection set that may be `undefined`, and a merge result that may be `undefined`. So merge commutativity, deep merging by field name, and any in-place update of the first operand by the library are not modelled. A merge that throws is not modelled either.
- Stitch.ScanNoneIffNoneContribute: the "only if" direction is proved only for a parser and merger that never give back `undefined`, because the transform drops an `undefined` accumulator (see `UndefinedMergeDropsAccumulator`).
- `parseFloat`: numbers keep their numeral text. Two numerals of the same value (`1.0`, `1`) decode to different `Num` values.
- Literals.TemplateText: a number converts to its numeral, not to JavaScript's canonical number text (`1.50` converts as `1.50`, not `1.5`).
- Literals.Truthy: a numeral is falsy exactly when its mantissa has no non-zero digit. A float that underflows to zero (`1e-400`) is counted truthy.
- Records are maps, so the enumeration order of a record's keys is not modelled.
- An argument named `__proto__` (it changes the prototype of the plain `args` object) is treated as an ordinary key.
- The Building-then-Frozen registry lifecycle and concurrent readers: the source does not enforce the lifecycle. In the model, `ModifyRequest` is a function that reads the registry and cannot change it.
- The field configuration is abstracted to its output type, description and definition node. Selection nodes keep only alias, name, arguments and sub-selections. Locations and other AST detail are left out.
