/**
 * The literal decoder: turns a constant GraphQL value node (a directive
 * argument) into a plain JavaScript-like value, plus the two JavaScript value
 * conversions the transform applies to decoded values (truthiness and
 * template-string conversion).
 */
module Literals {
  import opened Wrappers

  /** A GraphQL value node: the kinds the decoder handles, and the two it does not. */
  datatype ValueNode =
    | StringValue(raw: string)
    | BooleanValue(flag: bool)
    | IntValue(raw: string)
    | FloatValue(raw: string)
    | ObjectValue(fields: seq<ObjectField>)
    | ListValue(values: seq<ValueNode>)
    | NullValue
    | EnumValue(raw: string)
    | Variable(name: string)

  /** A `name: value` pair: an object field, and also the shape of a directive argument. */
  datatype ObjectField = ObjectField(name: string, value: ValueNode)

  /**
   * A decoded value. Numbers keep the numeral they were written as; integer
   * and float numerals are not told apart. A record is a key-to-value
   * dictionary with no inherited keys.
   */
  datatype Lit =
    | Str(s: string)
    | Bool(b: bool)
    | Num(numeral: string)
    | List(items: seq<Lit>)
    | Record(entries: map<string, Lit>)
    | Null
    | Undefined

  /** The kinds the decoder has a case for, at every depth of the node. */
  ghost predicate DecodableKinds(node: ValueNode)
  {
    match node
    case EnumValue(_) => false
    case Variable(_) => false
    case ListValue(values) => forall i :: 0 <= i < |values| ==> DecodableKinds(values[i])
    case ObjectValue(fields) => forall i :: 0 <= i < |fields| ==> DecodableKinds(fields[i].value)
    case _ => true
  }

  /** No `undefined` anywhere in the value. */
  ghost predicate Defined(v: Lit)
  {
    match v
    case Undefined => false
    case List(items) => forall i :: 0 <= i < |items| ==> Defined(items[i])
    case Record(entries) => forall k :: k in entries ==> Defined(entries[k])
    case _ => true
  }

  /** The set of field names written in an object node. */
  ghost function FieldNames(fields: seq<ObjectField>): set<string>
  {
    set i | 0 <= i < |fields| :: fields[i].name
  }

  /**
   * `parseLiteral`: a switch over the node kind. A kind without a case
   * (an enum value, a variable) falls out of the switch: `undefined`.
   */
  function ParseLiteral(node: ValueNode): (r: Lit)
    decreases node
  {
    match node
    case StringValue(raw) => Str(raw)
    case BooleanValue(flag) => Bool(flag)
    case IntValue(raw) => Num(raw)
    case FloatValue(raw) => Num(raw)
    case ObjectValue(fields) => Record(ObjectEntries(fields))
    case ListValue(values) => List(seq(|values|, i requires 0 <= i < |values| => ParseLiteral(values[i])))
    case NullValue => Null
    case EnumValue(_) => Undefined
    case Variable(_) => Undefined
  }

  /**
   * The dictionary obtained by assigning every field's decoded value under
   * its name, in written order, starting from an empty dictionary: a later
   * field with the same name overwrites an earlier one.
   */
  function ObjectEntries(fields: seq<ObjectField>): map<string, Lit>
    decreases fields
  {
    if fields == [] then map[]
    else
      var last := fields[|fields| - 1];
      ObjectEntries(fields[..|fields| - 1])[last.name := ParseLiteral(last.value)]
  }

  /** `parseObject`: fills a fresh prototype-less dictionary field by field. */
  method ParseObject(fields: seq<ObjectField>) returns (value: map<string, Lit>)
    ensures value == ObjectEntries(fields)
  {
    value := map[];
    for i := 0 to |fields|
      invariant value == ObjectEntries(fields[..i])
    {
      assert fields[..i + 1][..i] == fields[..i];
      value := value[fields[i].name := ParseLiteral(fields[i].value)];
    }
    assert fields[..|fields|] == fields;
  }

  /** String and boolean nodes give back their raw value. */
  lemma ScalarsKeepRawValue(raw: string, flag: bool)
    ensures ParseLiteral(StringValue(raw)) == Str(raw)
    ensures ParseLiteral(BooleanValue(flag)) == Bool(flag)
  {
  }

  /** Integer and float nodes with the same text decode to the same number. */
  lemma NumbersHaveNoIntegerSubtype(raw: string)
    ensures ParseLiteral(IntValue(raw)) == ParseLiteral(FloatValue(raw)) == Num(raw)
  {
  }

  /** A list decodes element by element, keeping length and order. */
  lemma ListDecodesElementwise(values: seq<ValueNode>)
    ensures ParseLiteral(ListValue(values)).List?
    ensures |ParseLiteral(ListValue(values)).items| == |values|
    ensures forall i :: 0 <= i < |values| ==> ParseLiteral(ListValue(values)).items[i] == ParseLiteral(values[i])
  {
  }

  /** `undefined` comes exactly from the kinds the switch has no case for. */
  lemma UndefinedExactlyForUnhandledKinds(node: ValueNode)
    ensures ParseLiteral(node) == Undefined <==> node.EnumValue? || node.Variable?
    ensures ParseLiteral(node) == Null <==> node.NullValue?
  {
  }

  /** The decoded record has exactly the written field names as keys, and no others. */
  lemma {:induction false} ObjectKeysAreFieldNames(fields: seq<ObjectField>)
    ensures ObjectEntries(fields).Keys == FieldNames(fields)
  {
    if fields != [] {
      var init := fields[..|fields| - 1];
      ObjectKeysAreFieldNames(init);
      assert FieldNames(fields) == FieldNames(init) + {fields[|fields| - 1].name} by {
        forall k | k in FieldNames(fields) ensures k in FieldNames(init) + {fields[|fields| - 1].name} {
          var i :| 0 <= i < |fields| && fields[i].name == k;
          if i < |fields| - 1 {
            assert init[i] == fields[i];
          }
        }
        forall k | k in FieldNames(init) ensures k in FieldNames(fields) {
          var i :| 0 <= i < |init| && init[i].name == k;
          assert fields[i] == init[i];
        }
      }
    }
  }

  /** For a repeated field name, the value of the last occurrence is the one kept. */
  lemma {:induction false} LastOccurrenceWins(fields: seq<ObjectField>, j: nat)
    requires j < |fields|
    requires forall k :: j < k < |fields| ==> fields[k].name != fields[j].name
    ensures fields[j].name in ObjectEntries(fields)
    ensures ObjectEntries(fields)[fields[j].name] == ParseLiteral(fields[j].value)
  {
    if j < |fields| - 1 {
      var init := fields[..|fields| - 1];
      assert init[j] == fields[j];
      LastOccurrenceWins(init, j);
    }
  }

  /** Decoding a node made only of handled kinds never yields `undefined`, at any depth. */
  lemma {:induction false} DecodableIsDefined(node: ValueNode)
    requires DecodableKinds(node)
    ensures Defined(ParseLiteral(node))
    decreases node
  {
    match node
    case ListValue(values) =>
      forall i | 0 <= i < |values| ensures Defined(ParseLiteral(values[i])) {
        DecodableIsDefined(values[i]);
      }
    case ObjectValue(fields) =>
      EntriesDefined(fields);
    case _ =>
  }

  lemma {:induction false} EntriesDefined(fields: seq<ObjectField>)
    requires forall i :: 0 <= i < |fields| ==> DecodableKinds(fields[i].value)
    ensures forall k :: k in ObjectEntries(fields) ==> Defined(ObjectEntries(fields)[k])
    decreases fields
  {
    if fields != [] {
      var init := fields[..|fields| - 1];
      assert forall i :: 0 <= i < |init| ==> init[i] == fields[i];
      EntriesDefined(init);
      DecodableIsDefined(fields[|fields| - 1].value);
    }
  }

  /** True when a numeral's mantissa (the text before any exponent) has no non-zero digit. */
  predicate ZeroNumeral(numeral: string)
  {
    numeral == [] || numeral[0] == 'e' || numeral[0] == 'E'
    || (numeral[0] in "0.-+" && ZeroNumeral(numeral[1..]))
  }

  /**
   * JavaScript truthiness of a decoded value: the empty string, `false`,
   * zero, `null` and `undefined` are falsy; lists and records are objects,
   * hence truthy.
   */
  predicate Truthy(v: Lit)
  {
    match v
    case Str(s) => s != ""
    case Bool(b) => b
    case Num(numeral) => !ZeroNumeral(numeral)
    case List(_) => true
    case Record(_) => true
    case Null => false
    case Undefined => false
  }

  /**
   * The string a template literal `${v}` produces, or None where JavaScript
   * throws a TypeError: a record has no prototype, hence no `toString`.
   * A list is joined with commas, `null` and `undefined` elements giving "".
   */
  function TemplateText(v: Lit): (r: Option<string>)
    decreases v
  {
    match v
    case Str(s) => Some(s)
    case Bool(b) => Some(if b then "true" else "false")
    case Num(numeral) => Some(numeral)
    case Null => Some("null")
    case Undefined => Some("undefined")
    case Record(_) => None
    case List(items) => JoinItems(items)
  }

  /** The items converted to text one by one and joined with commas. */
  function JoinItems(items: seq<Lit>): (r: Option<string>)
    decreases items
  {
    if items == [] then Some("")
    else
      var head := if items[0].Null? || items[0].Undefined? then Some("") else TemplateText(items[0]);
      var rest := JoinItems(items[1..]);
      if head.None? || rest.None? then None
      else if |items| == 1 then head
      else Some(head.value + "," + rest.value)
  }

  /** A string converts to itself; only a record, alone or inside a list, makes conversion throw. */
  lemma {:induction false} TemplateTextFailsOnlyOnRecords(v: Lit)
    ensures v.Str? ==> TemplateText(v) == Some(v.s)
    ensures TemplateText(v).None? <==> ContainsRecord(v)
    decreases v
  {
    if v.List? {
      JoinFailsOnlyOnRecords(v.items);
    }
  }

  lemma {:induction false} JoinFailsOnlyOnRecords(items: seq<Lit>)
    ensures JoinItems(items).None? <==> exists i :: 0 <= i < |items| && ContainsRecord(items[i])
    decreases items
  {
    if items != [] {
      JoinFailsOnlyOnRecords(items[1..]);
      TemplateTextFailsOnlyOnRecords(items[0]);
      if exists i :: 0 <= i < |items| && ContainsRecord(items[i]) {
        var i :| 0 <= i < |items| && ContainsRecord(items[i]);
        if i > 0 {
          assert items[1..][i - 1] == items[i];
        }
      }
      if exists i :: 0 <= i < |items[1..]| && ContainsRecord(items[1..][i]) {
        var i :| 0 <= i < |items[1..]| && ContainsRecord(items[1..][i]);
        assert items[i + 1] == items[1..][i];
      }
    }
  }

  /** A record somewhere in the value (at the top or inside nested lists). */
  ghost predicate ContainsRecord(v: Lit)
  {
    match v
    case Record(_) => true
    case List(items) => exists i :: 0 <= i < |items| && ContainsRecord(items[i])
    case _ => false
  }
}
