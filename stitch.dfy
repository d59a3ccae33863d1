/**
 * The `resolveToBy` transform: a registry of (type, field) -> selection set
 * requirements, filled at schema-build time from the field's `resolveToBy`
 * directives and read at request time to splice the required selections next
 * to the requested field.
 *
 * The selection-set parser and merger belong to other libraries; they are
 * parameters here. `parse` may fail with a message; both may also give back
 * `undefined` (None), which the transform tests for after every call.
 */
module Stitch {
  import opened Wrappers
  import opened Literals

  /** A node of a selection set: a field (possibly aliased, with arguments and sub-selections) or a fragment. */
  datatype Selection =
    | FieldSelection(alias: Option<string>, name: string, arguments: seq<ObjectField>, selectionSet: Option<SelectionSet>)
    | FragmentSpread(name: string)
    | InlineFragment(typeCondition: Option<string>, selectionSet: Option<SelectionSet>)

  datatype SelectionSet = SelectionSet(selections: seq<Selection>)

  /** The field node handed to the request hook. */
  type FieldNode = s: Selection | s.FieldSelection? witness FieldSelection(None, "", [], None)

  /** A directive application: its name and its `name: value` arguments. */
  datatype Directive = Directive(name: string, arguments: seq<ObjectField>)

  /** The field's definition node; its directive list may be absent. */
  datatype FieldDefinition = FieldDefinition(name: string, directives: Option<seq<Directive>>)

  /** A field's configuration at schema-build time; only its definition node is read. */
  datatype FieldConfig = FieldConfig(outputType: string, description: Option<string>, astNode: Option<FieldDefinition>)

  /** One registry entry (the `ResolveToByStitchMap` record). */
  datatype ResolveToByStitchMap = ResolveToByStitchMap(typeName: string, fieldName: string, selectionSet: SelectionSet)

  /** What makes `modifySchema` throw: the parser's error, or converting a record to text. */
  datatype SchemaError = ParseFailure(message: string) | ConversionFailure

  /** What `modifyRequest` returns: the field node itself, or an array of nodes. */
  datatype RequestRewrite = SameNode(node: FieldNode) | Expanded(nodes: seq<Selection>)

  /** The selection-set parser: an error message, or a selection set that may be `undefined`. */
  type Parser = Lit -> Result<Option<SelectionSet>, string>
  /** The merger, applied to the accumulated set and the newly parsed one; it may give `undefined`. */
  type Merger = (SelectionSet, Option<SelectionSet>) -> Option<SelectionSet>

  /** A parser and a merger that never give back `undefined`. */
  ghost predicate AlwaysReturnsSet(parse: Parser, merge: Merger)
  {
    && (forall source :: parse(source).Success? ==> parse(source).value.Some?)
    && (forall acc, parsed :: merge(acc, parsed).Some?)
  }

  const DirectiveName := "resolveToBy"
  const RequiredSelectionSetArg := "requiredSelectionSet"
  const KeyFieldArg := "keyField"

  /** The directives named `resolveToBy`, in written order. */
  function ResolveToByDirectives(ds: seq<Directive>): (r: seq<Directive>)
    ensures |r| <= |ds|
    ensures forall d :: d in r <==> d in ds && d.name == DirectiveName
  {
    if ds == [] then []
    else if ds[0].name == DirectiveName then [ds[0]] + ResolveToByDirectives(ds[1..])
    else ResolveToByDirectives(ds[1..])
  }

  /** Filtering keeps the written order: it distributes over concatenation. */
  lemma {:induction false} FilterKeepsOrder(a: seq<Directive>, b: seq<Directive>)
    ensures ResolveToByDirectives(a + b) == ResolveToByDirectives(a) + ResolveToByDirectives(b)
  {
    if a != [] {
      assert (a + b)[1..] == a[1..] + b;
      FilterKeepsOrder(a[1..], b);
    } else {
      assert a + b == b;
    }
  }

  /** The property a dictionary of decoded arguments gives for `key`, `undefined` when missing. */
  function Get(args: map<string, Lit>, key: string): Lit
  {
    if key in args then args[key] else Undefined
  }

  /** The directive's arguments decoded into a dictionary, later names overwriting earlier ones. */
  function DirectiveArgs(d: Directive): map<string, Lit>
  {
    ObjectEntries(d.arguments)
  }

  /** A directive contributes when `requiredSelectionSet` or `keyField` decodes to a truthy value. */
  predicate Contributes(d: Directive)
  {
    Truthy(Get(DirectiveArgs(d), RequiredSelectionSetArg)) || Truthy(Get(DirectiveArgs(d), KeyFieldArg))
  }

  /**
   * The value handed to the parser: a truthy `requiredSelectionSet` as it is,
   * else the text `{ <keyField> }`. Converting `keyField` to text throws when
   * it holds a record.
   */
  function SelectionSource(args: map<string, Lit>): (r: Result<Lit, SchemaError>)
    ensures Truthy(Get(args, RequiredSelectionSetArg)) ==> r == Success(Get(args, RequiredSelectionSetArg))
    ensures !Truthy(Get(args, RequiredSelectionSetArg)) && Get(args, KeyFieldArg).Str? ==>
              r == Success(Str("{ " + Get(args, KeyFieldArg).s + " }"))
    ensures r.Failure? <==> !Truthy(Get(args, RequiredSelectionSetArg)) && ContainsRecord(Get(args, KeyFieldArg))
  {
    TemplateTextFailsOnlyOnRecords(Get(args, KeyFieldArg));
    var required := Get(args, RequiredSelectionSetArg);
    if Truthy(required) then Success(required)
    else match TemplateText(Get(args, KeyFieldArg))
      case None => Failure(ConversionFailure)
      case Some(text) => Success(Str("{ " + text + " }"))
  }

  /** The selection set one contributing directive asks for: its source, parsed. */
  function ParseDirective(d: Directive, parse: Parser): Result<Option<SelectionSet>, SchemaError>
  {
    match SelectionSource(DirectiveArgs(d))
    case Failure(e) => Failure(e)
    case Success(source) =>
      match parse(source)
      case Failure(message) => Failure(ParseFailure(message))
      case Success(parsed) => Success(parsed)
  }

  /**
   * One iteration of the directive loop: skip, or seed / merge into the
   * accumulator. Whatever the parser or merger gives back, `undefined`
   * included, becomes the new accumulator.
   */
  function Step(acc: Option<SelectionSet>, d: Directive, parse: Parser, merge: Merger): Result<Option<SelectionSet>, SchemaError>
  {
    if !Contributes(d) then Success(acc)
    else match ParseDirective(d, parse)
      case Failure(e) => Failure(e)
      case Success(parsed) => Success(if acc.Some? then merge(acc.value, parsed) else parsed)
  }

  /** The accumulated selection set after the directives, in order: a left fold of Step that stops at the first error. */
  function Scan(ds: seq<Directive>, parse: Parser, merge: Merger): Result<Option<SelectionSet>, SchemaError>
  {
    if ds == [] then Success(None)
    else match Scan(ds[..|ds| - 1], parse, merge)
      case Failure(e) => Failure(e)
      case Success(acc) => Step(acc, ds[|ds| - 1], parse, merge)
  }

  /** The requirement a field's configuration declares (None: it declares none). */
  function Requirement(config: FieldConfig, parse: Parser, merge: Merger): Result<Option<SelectionSet>, SchemaError>
  {
    if config.astNode.None? || config.astNode.value.directives.None? then Success(None)
    else Scan(ResolveToByDirectives(config.astNode.value.directives.value), parse, merge)
  }

  /** The registry entries one `modifySchema` call appends: one on a derived requirement, else none. */
  function NewEntries(typeName: string, fieldName: string, req: Result<Option<SelectionSet>, SchemaError>): (r: seq<ResolveToByStitchMap>)
    ensures |r| <= 1
    ensures r != [] <==> req.Success? && req.value.Some?
    ensures r != [] ==> r[0].typeName == typeName && r[0].fieldName == fieldName && r[0].selectionSet == req.value.value
  {
    if req.Success? && req.value.Some? then [ResolveToByStitchMap(typeName, fieldName, req.value.value)] else []
  }

  predicate Matches(e: ResolveToByStitchMap, typeName: string, fieldName: string)
  {
    e.typeName == typeName && e.fieldName == fieldName
  }

  /** The lookup in the registry: the index of the earliest entry for (typeName, fieldName). */
  function FirstMatch(entries: seq<ResolveToByStitchMap>, typeName: string, fieldName: string): (r: Option<nat>)
    ensures r.Some? ==> r.value < |entries| && Matches(entries[r.value], typeName, fieldName)
    ensures r.Some? ==> forall j :: 0 <= j < r.value ==> !Matches(entries[j], typeName, fieldName)
    ensures r.None? <==> forall j :: 0 <= j < |entries| ==> !Matches(entries[j], typeName, fieldName)
  {
    if entries == [] then None
    else if Matches(entries[0], typeName, fieldName) then Some(0)
    else match FirstMatch(entries[1..], typeName, fieldName)
      case None => None
      case Some(k) => Some(k + 1)
  }

  class ResolveToByStitchTransform {
    /** The registry: entries in the order they were registered. */
    var selectionMap: seq<ResolveToByStitchMap>

    constructor ()
      ensures selectionMap == []
    {
      selectionMap := [];
    }

    /**
     * `modifySchema`: registers the field's requirement, if it declares one,
     * and returns the field configuration unchanged. A failed parse (or a
     * keyField that cannot become text) throws before anything is registered.
     */
    method ModifySchema(typeName: string, fieldName: string, fieldConfig: FieldConfig, parse: Parser, merge: Merger)
      returns (r: Result<FieldConfig, SchemaError>)
      modifies this
      ensures r.Success? <==> Requirement(fieldConfig, parse, merge).Success?
      ensures r.Success? ==> r.value == fieldConfig
      ensures r.Failure? ==> r.error == Requirement(fieldConfig, parse, merge).error
      ensures selectionMap == old(selectionMap) + NewEntries(typeName, fieldName, Requirement(fieldConfig, parse, merge))
    {
      if fieldConfig.astNode.None? || fieldConfig.astNode.value.directives.None? {
        return Success(fieldConfig);
      }
      var directives := ResolveToByDirectives(fieldConfig.astNode.value.directives.value);
      if |directives| == 0 {
        return Success(fieldConfig);
      }
      var selectionSet: Option<SelectionSet> := None;
      for i := 0 to |directives|
        invariant Scan(directives[..i], parse, merge) == Success(selectionSet)
        invariant selectionMap == old(selectionMap)
      {
        assert directives[..i + 1][..i] == directives[..i];
        var directive := directives[i];
        var args: map<string, Lit> := map[];
        for j := 0 to |directive.arguments|
          invariant args == ObjectEntries(directive.arguments[..j])
        {
          assert directive.arguments[..j + 1][..j] == directive.arguments[..j];
          var arg := directive.arguments[j];
          args := args[arg.name := ParseLiteral(arg.value)];
        }
        assert directive.arguments[..|directive.arguments|] == directive.arguments;
        if !Truthy(Get(args, RequiredSelectionSetArg)) && !Truthy(Get(args, KeyFieldArg)) {
          continue;
        }
        var source := SelectionSource(args);
        if source.Failure? {
          ScanStopsAtFailure(directives[..i + 1], directives[i + 1..], parse, merge);
          assert directives[..i + 1] + directives[i + 1..] == directives;
          return Failure(source.error);
        }
        var parsed := parse(source.value);
        if parsed.Failure? {
          ScanStopsAtFailure(directives[..i + 1], directives[i + 1..], parse, merge);
          assert directives[..i + 1] + directives[i + 1..] == directives;
          return Failure(ParseFailure(parsed.error));
        }
        if selectionSet.Some? {
          selectionSet := merge(selectionSet.value, parsed.value);
        } else {
          selectionSet := parsed.value;
        }
      }
      assert directives[..|directives|] == directives;
      if selectionSet.Some? {
        selectionMap := selectionMap + [ResolveToByStitchMap(typeName, fieldName, selectionSet.value)];
      }
      return Success(fieldConfig);
    }

    /**
     * `modifyRequest`: the earliest entry for (typeName, fieldName) turns the
     * field node into the array [fieldNode, ...entry selections]; without one
     * the node itself comes back.
     */
    function ModifyRequest(typeName: string, fieldName: string, fieldNode: FieldNode): (r: RequestRewrite)
      reads this
      ensures r.SameNode? <==> forall j :: 0 <= j < |selectionMap| ==> !Matches(selectionMap[j], typeName, fieldName)
      ensures r.SameNode? ==> r.node == fieldNode
      ensures r.Expanded? ==> exists i :: 0 <= i < |selectionMap| && Matches(selectionMap[i], typeName, fieldName)
                                         && (forall j :: 0 <= j < i ==> !Matches(selectionMap[j], typeName, fieldName))
                                         && r.nodes == [fieldNode] + selectionMap[i].selectionSet.selections
    {
      match FirstMatch(selectionMap, typeName, fieldName)
      case None => SameNode(fieldNode)
      case Some(i) => Expanded([fieldNode] + selectionMap[i].selectionSet.selections)
    }
  }

  /** Once a directive has thrown, later directives change nothing: the error is the first one. */
  lemma {:induction false} ScanStopsAtFailure(ds: seq<Directive>, rest: seq<Directive>, parse: Parser, merge: Merger)
    requires Scan(ds, parse, merge).Failure?
    ensures Scan(ds + rest, parse, merge) == Scan(ds, parse, merge)
    decreases |rest|
  {
    if rest != [] {
      var init := rest[..|rest| - 1];
      ScanStopsAtFailure(ds, init, parse, merge);
      assert (ds + rest)[..|ds + rest| - 1] == ds + init;
    } else {
      assert ds + rest == ds;
    }
  }

  /** When no directive contributes, no selection set is accumulated. */
  lemma {:induction false} ScanNoneWhenNoneContribute(ds: seq<Directive>, parse: Parser, merge: Merger)
    requires forall i :: 0 <= i < |ds| ==> !Contributes(ds[i])
    ensures Scan(ds, parse, merge) == Success(None)
  {
    if ds != [] {
      var init := ds[..|ds| - 1];
      assert forall i :: 0 <= i < |init| ==> init[i] == ds[i];
      ScanNoneWhenNoneContribute(init, parse, merge);
    }
  }

  /**
   * With a parser and merger that never give back `undefined`, no selection
   * set is accumulated exactly when no directive contributes.
   */
  lemma {:induction false} ScanNoneIffNoneContribute(ds: seq<Directive>, parse: Parser, merge: Merger)
    requires AlwaysReturnsSet(parse, merge)
    ensures Scan(ds, parse, merge) == Success(None) <==> forall i :: 0 <= i < |ds| ==> !Contributes(ds[i])
  {
    if ds != [] {
      var init := ds[..|ds| - 1];
      ScanNoneIffNoneContribute(init, parse, merge);
      assert forall i :: 0 <= i < |init| ==> init[i] == ds[i];
    }
  }

  /**
   * An `undefined` from the merger drops the accumulator: the field then has
   * no requirement unless a later directive contributes again, which seeds
   * a fresh accumulator.
   */
  lemma {:induction false} UndefinedMergeDropsAccumulator(ds: seq<Directive>, d: Directive, later: Directive, acc: SelectionSet,
                                                          parsed: Option<SelectionSet>, parse: Parser, merge: Merger)
    requires Scan(ds, parse, merge) == Success(Some(acc))
    requires Contributes(d) && ParseDirective(d, parse) == Success(parsed) && merge(acc, parsed) == None
    ensures Scan(ds + [d], parse, merge) == Success(None)
    ensures Contributes(later) && ParseDirective(later, parse).Success? ==>
              Scan(ds + [d] + [later], parse, merge) == Success(ParseDirective(later, parse).value)
  {
    assert (ds + [d])[..|ds + [d]| - 1] == ds;
    assert (ds + [d] + [later])[..|ds + [d] + [later]| - 1] == ds + [d];
  }

  /** Non-contributing directives are skipped: the scan equals the scan of the contributing ones alone. */
  lemma {:induction false} ScanSkipsNonContributing(ds: seq<Directive>, parse: Parser, merge: Merger)
    ensures Scan(ds, parse, merge) == Scan(Contributing(ds), parse, merge)
  {
    if ds != [] {
      var init := ds[..|ds| - 1];
      var last := ds[|ds| - 1];
      assert ds == init + [last];
      ContributingAppend(init, last);
      ScanSkipsNonContributing(init, parse, merge);
      if Contributes(last) {
        var c := Contributing(init) + [last];
        assert c[..|c| - 1] == Contributing(init);
      }
    }
  }

  function Contributing(ds: seq<Directive>): seq<Directive>
  {
    if ds == [] then []
    else if Contributes(ds[|ds| - 1]) then Contributing(ds[..|ds| - 1]) + [ds[|ds| - 1]]
    else Contributing(ds[..|ds| - 1])
  }

  lemma ContributingAppend(ds: seq<Directive>, d: Directive)
    ensures Contributing(ds + [d]) == if Contributes(d) then Contributing(ds) + [d] else Contributing(ds)
  {
  }

  /**
   * With a single contributing directive the requirement is that directive's
   * parsed selection set; merge is never applied.
   */
  lemma {:induction false} ScanSingleContributor(ds: seq<Directive>, k: nat, parse: Parser, merge: Merger)
    requires k < |ds| && Contributes(ds[k])
    requires forall i :: 0 <= i < |ds| && i != k ==> !Contributes(ds[i])
    ensures Scan(ds, parse, merge) == match ParseDirective(ds[k], parse)
                                      case Failure(e) => Failure(e)
                                      case Success(parsed) => Success(parsed)
  {
    var init := ds[..|ds| - 1];
    assert forall i :: 0 <= i < |init| ==> init[i] == ds[i];
    if k < |ds| - 1 {
      ScanSingleContributor(init, k, parse, merge);
    } else {
      ScanNoneWhenNoneContribute(init, parse, merge);
    }
  }

  /**
   * A later contributing directive is merged into what came before, as
   * merge(accumulated, parsed): the earlier requirement is the first operand.
   */
  lemma MergesInDirectiveOrder(ds: seq<Directive>, d: Directive, acc: SelectionSet, parsed: Option<SelectionSet>, parse: Parser, merge: Merger)
    requires Scan(ds, parse, merge) == Success(Some(acc))
    requires Contributes(d) && ParseDirective(d, parse) == Success(parsed)
    ensures Scan(ds + [d], parse, merge) == Success(merge(acc, parsed))
  {
  }

  /** A field without `resolveToBy` directives declares no requirement, so nothing is registered. */
  lemma NoResolveToByNoRequirement(config: FieldConfig, parse: Parser, merge: Merger)
    requires config.astNode.Some? && config.astNode.value.directives.Some? ==>
               forall d :: d in config.astNode.value.directives.value ==> d.name != DirectiveName
    ensures Requirement(config, parse, merge) == Success(None)
  {
    if config.astNode.Some? && config.astNode.value.directives.Some? {
      var ds := config.astNode.value.directives.value;
      assert ResolveToByDirectives(ds) == [] by {
        if ResolveToByDirectives(ds) != [] {
          assert ResolveToByDirectives(ds)[0] in ResolveToByDirectives(ds);
        }
      }
    }
  }

  /**
   * `resolveToBy(keyField: "id")` alone makes the parser see exactly "{ id }";
   * an empty `requiredSelectionSet` falls back to the key field.
   */
  lemma KeyFieldSynthesisesSelection(key: string, required: seq<ObjectField>)
    requires key != ""
    requires forall i :: 0 <= i < |required| ==> required[i].name == RequiredSelectionSetArg && required[i].value == StringValue("")
    ensures SelectionSource(DirectiveArgs(Directive(DirectiveName, required + [ObjectField(KeyFieldArg, StringValue(key))])))
              == Success(Str("{ " + key + " }"))
  {
    var fields := required + [ObjectField(KeyFieldArg, StringValue(key))];
    var args := ObjectEntries(fields);
    assert fields[..|fields| - 1] == required;
    assert fields[|fields| - 1] == ObjectField(KeyFieldArg, StringValue(key));
    assert ParseLiteral(StringValue(key)) == Str(key);
    RequiredArgIsEmptyString(required);
    assert args == ObjectEntries(required)[KeyFieldArg := Str(key)];
    assert Get(args, KeyFieldArg) == Str(key);
    assert !Truthy(Get(args, RequiredSelectionSetArg));
  }

  lemma {:induction false} RequiredArgIsEmptyString(fields: seq<ObjectField>)
    requires forall i :: 0 <= i < |fields| ==> fields[i].name == RequiredSelectionSetArg && fields[i].value == StringValue("")
    ensures ObjectEntries(fields) == if fields == [] then map[] else map[RequiredSelectionSetArg := Str("")]
  {
    if fields != [] {
      RequiredArgIsEmptyString(fields[..|fields| - 1]);
    }
  }

  /**
   * Registering an entry never changes an earlier answer: a field already in
   * the registry keeps its first entry; otherwise the new entry is found if
   * it is for that field.
   */
  lemma {:induction false} LookupAfterAppend(entries: seq<ResolveToByStitchMap>, e: ResolveToByStitchMap, typeName: string, fieldName: string)
    ensures FirstMatch(entries + [e], typeName, fieldName) ==
              if FirstMatch(entries, typeName, fieldName).Some? then FirstMatch(entries, typeName, fieldName)
              else if Matches(e, typeName, fieldName) then Some(|entries|)
              else None
  {
    if entries != [] {
      assert (entries + [e])[1..] == entries[1..] + [e];
      LookupAfterAppend(entries[1..], e, typeName, fieldName);
    }
  }
}

/**
 * Clients of the transform, using only the contracts above: the
 * `Product.price` example with `resolveToBy(keyField: "sku")`, a rejected
 * selection-set text, and a second registration of the same field, which is
 * appended but never found.
 */
module StitchScenario {
  import opened Wrappers
  import opened Literals
  import opened Stitch

  const Sku := FieldSelection(None, "sku", [], None)
  const Name := FieldSelection(None, "name", [], None)

  function Parse(source: Lit): Result<Option<SelectionSet>, string>
  {
    if source == Str("{ sku }") then Success(Some(SelectionSet([Sku])))
    else if source == Str("{ name }") then Success(Some(SelectionSet([Name])))
    else Failure("Syntax Error")
  }

  function Concat(a: SelectionSet, b: Option<SelectionSet>): Option<SelectionSet>
  {
    Some(SelectionSet(a.selections + (if b.Some? then b.value.selections else [])))
  }

  /** Registers `Product.price` from `resolveToBy(keyField: key)`. */
  method RegisterByKey(t: ResolveToByStitchTransform, key: string) returns (r: Result<FieldConfig, SchemaError>)
    requires key == "sku" || key == "name"
    modifies t
    ensures r.Success?
    ensures t.selectionMap == old(t.selectionMap) + [ResolveToByStitchMap("Product", "price", Parse(Str("{ " + key + " }")).value.value)]
  {
    var d := Directive(DirectiveName, [ObjectField(KeyFieldArg, StringValue(key))]);
    var config := FieldConfig("Float", None, Some(FieldDefinition("price", Some([d]))));
    assert ObjectEntries(d.arguments) == map[KeyFieldArg := Str(key)] by {
      assert d.arguments[..0] == [];
    }
    KeyFieldSynthesisesSelection(key, []);
    ScanSingleContributor([d], 0, Parse, Concat);
    assert ResolveToByDirectives([d]) == [d];
    r := t.ModifySchema("Product", "price", config, Parse, Concat);
  }

  method ExpansionScenario()
  {
    var t := new ResolveToByStitchTransform();
    var r := RegisterByKey(t, "sku");
    assert t.selectionMap == [ResolveToByStitchMap("Product", "price", SelectionSet([Sku]))];

    var priceNode: FieldNode := FieldSelection(Some("cost"), "price", [], None);
    var out := t.ModifyRequest("Product", "price", priceNode);
    assert out == Expanded([priceNode, Sku]);
    out := t.ModifyRequest("Product", "title", priceNode);
    assert out == SameNode(priceNode);

    r := RegisterByKey(t, "name");
    assert |t.selectionMap| == 2;
    out := t.ModifyRequest("Product", "price", priceNode);
    assert out == Expanded([priceNode, Sku]);
  }

  method RejectionScenario()
  {
    var t := new ResolveToByStitchTransform();
    var broken := Directive(DirectiveName, [ObjectField(RequiredSelectionSetArg, StringValue("{ invalid syntax"))]);
    var config := FieldConfig("String", None, Some(FieldDefinition("title", Some([broken]))));
    assert ObjectEntries(broken.arguments) == map[RequiredSelectionSetArg := Str("{ invalid syntax")] by {
      assert broken.arguments[..0] == [];
    }
    ScanSingleContributor([broken], 0, Parse, Concat);
    assert ResolveToByDirectives([broken]) == [broken];
    var r := t.ModifySchema("Product", "title", config, Parse, Concat);
    assert r == Failure(ParseFailure("Syntax Error"));
    assert t.selectionMap == [];
  }
}
