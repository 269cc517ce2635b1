/** The JSON Schema each validator tree exports (`schema()`), `any_schema`, and what the
    exported schemas mean under JSON Schema's reading of the keywords they use. */
module Schema {
  import opened Values
  import opened Rules
  import opened Semantics
  import opened Properties

  datatype Json =
    | JNull
    | JBool(b: bool)
    | JInt(i: int)
    | JNum(text: string)
    | JStr(s: string)
    | JArr(items: seq<Json>)
    | JObj(fields: seq<Field>)

  datatype Field = Field(name: string, val: Json)

  /** A configuration value as a JSON document. */
  function ToJson(v: Value): Json
    decreases v
  {
    match v
    case VNone => JNull
    case VBool(b) => JBool(b)
    case VInt(i) => JInt(i)
    case VFloat(t) => JNum(t)
    case VStr(s) => JStr(s)
    case VList(items) => JArr(seq(|items|, i requires 0 <= i < |items| => ToJson(items[i])))
    case VDict(entries) =>
      JObj(seq(|entries|, i requires 0 <= i < |entries| => Field(entries[i].key, ToJson(entries[i].value))))
  }

  function FieldNames(fs: seq<Field>): (ns: seq<string>)
    ensures |ns| == |fs|
    ensures forall i :: 0 <= i < |fs| ==> ns[i] == fs[i].name
  {
    seq(|fs|, i requires 0 <= i < |fs| => fs[i].name)
  }

  // ---------------------------------------------------------------------------
  // What a schema means

  /** The checks JSON Schema delegates: unanchored pattern search, and the named
      formats (`uri`, `regex`, `path`, ...). */
  datatype Checker = Checker(search: (string, string) -> bool, format: (string, Json) -> bool)

  predicate HasType(t: string, d: Json) {
    (t == "string" && d.JStr?) || (t == "number" && (d.JInt? || d.JNum?)) || (t == "integer" && d.JInt?)
    || (t == "boolean" && d.JBool?) || (t == "array" && d.JArr?) || (t == "object" && d.JObj?)
    || (t == "null" && d.JNull?)
  }

  /** Whether document `d` satisfies schema `s`, for the keywords the validators emit: a
      boolean schema holds for everything or nothing, an object schema iff each of its
      keywords holds, and a keyword about arrays or objects holds for other documents. */
  predicate Satisfies(c: Checker, s: Json, d: Json)
    decreases s
  {
    match s
    case JBool(b) => b
    case JObj(fields) =>
      forall i :: 0 <= i < |fields| ==>
        var name, v := fields[i].name, fields[i].val;
        if name == "type" then v.JStr? && HasType(v.s, d)
        else if name == "enum" then v.JArr? && d in v.items
        else if name == "anyOf" then v.JArr? && exists j :: 0 <= j < |v.items| && Satisfies(c, v.items[j], d)
        else if name == "not" then !Satisfies(c, v, d)
        else if name == "pattern" then v.JStr? && (d.JStr? ==> c.search(v.s, d.s))
        else if name == "format" then v.JStr? && c.format(v.s, d)
        else if name == "items" then d.JArr? ==> forall k :: 0 <= k < |d.items| ==> Satisfies(c, v, d.items[k])
        else if name == "properties" then
          v.JObj? && (d.JObj? ==>
            forall g, h :: 0 <= g < |v.fields| && 0 <= h < |d.fields| && d.fields[h].name == v.fields[g].name ==>
              Satisfies(c, v.fields[g].val, d.fields[h].val))
        else if name == "required" then
          v.JArr? && (d.JObj? ==> forall k :: 0 <= k < |v.items| ==> v.items[k].JStr? && v.items[k].s in FieldNames(d.fields))
        else if name == "additionalProperties" then
          d.JObj? ==>
            forall h :: 0 <= h < |d.fields| && d.fields[h].name !in Declared(fields) ==> Satisfies(c, v, d.fields[h].val)
        else true
    case _ => true
  }

  /** The property names an object schema declares. */
  function Declared(fields: seq<Field>): seq<string> {
    if fields == [] then []
    else (if fields[0].name == "properties" && fields[0].val.JObj? then FieldNames(fields[0].val.fields) else [])
           + Declared(fields[1..])
  }

  // ---------------------------------------------------------------------------
  // any_schema

  /** `any_schema(schema_list)`: the one schema itself when there is one, else an
      `anyOf` over all of them. */
  function AnySchema(list: seq<Json>): (s: Json)
    ensures (forall i :: 0 <= i < |list| ==> list[i].JObj?) ==> s.JObj?
  {
    if |list| == 1 then list[0] else JObj([Field("anyOf", JArr(list))])
  }

  /** What `any_schema` promises: its schema matches exactly what one of the given
      schemas matches (so an empty list matches nothing). */
  lemma AnySchemaMeaning(c: Checker, list: seq<Json>, d: Json)
    ensures Satisfies(c, AnySchema(list), d) <==> exists i :: 0 <= i < |list| && Satisfies(c, list[i], d)
  {
    if |list| != 1 {
      var s := JObj([Field("anyOf", JArr(list))]);
      assert s.fields[0].val.items == list;
    }
  }

  // ---------------------------------------------------------------------------
  // schema()

  function Schema(r: Rule): (s: Json)
    ensures s.JObj?
    decreases Size(r)
  {
    match r.kind
    case RootKind(alts) =>
      assert Size(r) == 1 + RulesSize(alts);
      AnySchema(Schemas(alts))
    case ChoiceKind(valid, validIc) =>
      JObj([Field("enum", JArr(seq(|valid|, i requires 0 <= i < |valid| => ToJson(valid[i]))
                              + seq(|validIc|, i requires 0 <= i < |validIc| => JStr(validIc[i]))))])
    case AnyKind => JObj([])
    case EqualsKind(literal) => JObj([Field("enum", JArr([ToJson(literal)]))])
    case NumberKind => JObj([Field("type", JStr("number"))])
    case IntegerKind => JObj([Field("type", JStr("integer"))])
    case DecimalKind => JObj([Field("type", JStr("number"))])
    case BooleanKind => JObj([Field("type", JStr("boolean"))])
    case TextKind => JObj([Field("type", JStr("string"))])
    case RegexpKind => JObj([Field("type", JStr("string")), Field("format", JStr("regex"))])
    case RegexpMatchKind(patterns, rejects, _) => PatternSchema(patterns, rejects)
    case UrlKind(_) => JObj([Field("type", JStr("string")), Field("format", JStr("uri"))])
    case ListKind(alts) =>
      assert Size(r) == 1 + RulesSize(alts);
      JObj([Field("type", JStr("array")), Field("items", AnySchema(Schemas(alts)))])
    case DictKind(_, explicit, _, anyKey, required) =>
      assert Size(r) == 1 + ExplicitSize(explicit) + PairsSize(r.kind.keyRules) + RulesSize(anyKey);
      DictSchema(PropertyFields(explicit), if anyKey == [] then JBool(false) else AnySchema(Schemas(anyKey)), required)
  }

  /** A dict node's schema, given its properties and the schema of keys not among them. */
  function DictSchema(props: seq<Field>, extra: Json, required: seq<string>): Json {
    JObj([Field("type", JStr("object")), Field("properties", JObj(props))]
         + RequiredField(required)
         + [Field("additionalProperties", extra)])
  }

  /** `[v.schema() for v in validators]`. */
  function Schemas(rs: seq<Rule>): (ss: seq<Json>)
    decreases RulesSize(rs)
    ensures |ss| == |rs|
    ensures forall i :: 0 <= i < |ss| ==> ss[i].JObj?
  {
    if rs == [] then [] else [Schema(rs[0])] + Schemas(rs[1..])
  }

  lemma {:induction false} SchemasElem(rs: seq<Rule>, i: nat)
    requires i < |rs|
    ensures Schemas(rs)[i] == Schema(rs[i])
    decreases |rs|
  {
    if i > 0 {
      SchemasElem(rs[1..], i - 1);
    }
  }

  /** The `properties` of a dict schema: one per explicitly accepted key that has
      rules. */
  function PropertyFields(es: seq<KeyRules>): seq<Field>
    decreases ExplicitSize(es)
  {
    if es == [] then []
    else
      ExplicitSizeElem(es, 0);
      assert ExplicitSize(es) == KeyRulesSize(es[0]) + ExplicitSize(es[1..]);
      (if es[0].rules == [] then [] else [Field(es[0].key, AnySchema(Schemas(es[0].rules)))]) + PropertyFields(es[1..])
  }

  function RequiredField(required: seq<string>): seq<Field> {
    if required == [] then []
    else [Field("required", JArr(seq(|required|, i requires 0 <= i < |required| => JStr(required[i]))))]
  }

  /** `regexp_match`: an `anyOf` of string-with-pattern schemas, with a `not` over the
      reject patterns when there are any. */
  function PatternSchema(patterns: seq<string>, rejects: seq<string>): Json {
    var accept := AnySchema(AcceptItems(patterns));
    var reject := AnySchema(RejectItems(rejects));
    if rejects == [] then accept
    else JObj(accept.fields + [Field("not", reject)])
  }

  // ---------------------------------------------------------------------------
  // The dict schema as written

  /** The `properties` loop as written: `any_schema` is handed a generator, whose `len`
      raises `TypeError` at the first key that has validators. */
  function PropertiesAsWritten(es: seq<KeyRules>): (r: Result<seq<Field>, string>)
    ensures r.Ok? ==> r.value == []
  {
    if es == [] then Ok([])
    else if es[0].rules == [] then PropertiesAsWritten(es[1..])
    else Err("TypeError: object of type 'generator' has no len()")
  }

  /** `schema()` as written, on any tree: a dict node raises in its `properties` loop,
      and a root, list or dict node passes on the first exception raised by the
      `schema()` of one of its children. */
  function SchemaAsWritten(r: Rule): Result<Json, string>
    decreases Size(r), 1
  {
    match r.kind
    case RootKind(alts) =>
      assert Size(r) == 1 + RulesSize(alts);
      (match SchemasAsWritten(alts)
       case Err(e) => Err(e)
       case Ok(ss) => Ok(AnySchema(ss)))
    case ListKind(alts) =>
      assert Size(r) == 1 + RulesSize(alts);
      (match SchemasAsWritten(alts)
       case Err(e) => Err(e)
       case Ok(ss) => Ok(JObj([Field("type", JStr("array")), Field("items", AnySchema(ss))])))
    case DictKind(_, explicit, _, anyKey, required) =>
      assert Size(r) == 1 + ExplicitSize(explicit) + PairsSize(r.kind.keyRules) + RulesSize(anyKey);
      (match PropertiesAsWritten(explicit)
       case Err(e) => Err(e)
       case Ok(props) =>
         if anyKey == [] then Ok(DictSchema(props, JBool(false), required))
         else match SchemasAsWritten(anyKey)
           case Err(e) => Err(e)
           case Ok(ss) => Ok(DictSchema(props, AnySchema(ss), required)))
    case _ => Ok(Schema(r))
  }

  /** `[v.schema() for v in validators]` as written: the first exception wins. */
  function SchemasAsWritten(rs: seq<Rule>): Result<seq<Json>, string>
    decreases RulesSize(rs), 0
  {
    if rs == [] then Ok([])
    else match SchemaAsWritten(rs[0])
      case Err(e) => Err(e)
      case Ok(s) =>
        match SchemasAsWritten(rs[1..])
        case Err(e) => Err(e)
        case Ok(ss) => Ok([s] + ss)
  }

  /** Some dict node that `schema()` reaches, through root and list alternatives and
      catch-all rules, holds a key with validators. */
  predicate RaisesAsWritten(r: Rule)
    decreases Size(r), 1
  {
    match r.kind
    case RootKind(alts) =>
      assert Size(r) == 1 + RulesSize(alts);
      SomeRaisesAsWritten(alts)
    case ListKind(alts) =>
      assert Size(r) == 1 + RulesSize(alts);
      SomeRaisesAsWritten(alts)
    case DictKind(_, explicit, _, anyKey, _) =>
      assert Size(r) == 1 + ExplicitSize(explicit) + PairsSize(r.kind.keyRules) + RulesSize(anyKey);
      (exists i :: 0 <= i < |explicit| && explicit[i].rules != []) || SomeRaisesAsWritten(anyKey)
    case _ => false
  }

  predicate SomeRaisesAsWritten(rs: seq<Rule>)
    decreases RulesSize(rs), 0
  {
    rs != [] && (RaisesAsWritten(rs[0]) || SomeRaisesAsWritten(rs[1..]))
  }

  /** As written, `schema()` raises exactly when it reaches a dict node holding a key
      accepted with a validator, which `accept` always registers; otherwise it returns
      the corrected schema. */
  lemma {:induction false} SchemaAsWrittenRaises(r: Rule)
    ensures SchemaAsWritten(r).Err? <==> RaisesAsWritten(r)
    ensures SchemaAsWritten(r).Ok? ==> SchemaAsWritten(r).value == Schema(r)
    decreases Size(r), 1
  {
    match r.kind
    case RootKind(alts) =>
      assert Size(r) == 1 + RulesSize(alts);
      SchemasAsWrittenRaises(alts);
    case ListKind(alts) =>
      assert Size(r) == 1 + RulesSize(alts);
      SchemasAsWrittenRaises(alts);
    case DictKind(_, explicit, _, anyKey, _) =>
      assert Size(r) == 1 + ExplicitSize(explicit) + PairsSize(r.kind.keyRules) + RulesSize(anyKey);
      PropertiesAsWrittenRaises(explicit);
      SchemasAsWrittenRaises(anyKey);
    case _ =>
  }

  lemma {:induction false} SchemasAsWrittenRaises(rs: seq<Rule>)
    ensures SchemasAsWritten(rs).Err? <==> SomeRaisesAsWritten(rs)
    ensures SchemasAsWritten(rs).Ok? ==> SchemasAsWritten(rs).value == Schemas(rs)
    decreases RulesSize(rs), 0
  {
    if rs != [] {
      SchemaAsWrittenRaises(rs[0]);
      SchemasAsWrittenRaises(rs[1..]);
    }
  }

  lemma {:induction false} PropertiesAsWrittenRaises(es: seq<KeyRules>)
    ensures PropertiesAsWritten(es).Err? <==> exists i :: 0 <= i < |es| && es[i].rules != []
    ensures PropertiesAsWritten(es).Ok? ==> PropertyFields(es) == []
    decreases |es|
  {
    if es != [] {
      PropertiesAsWrittenRaises(es[1..]);
      if es[0].rules == [] {
        assert forall i :: 1 <= i < |es| ==> es[i] == es[1..][i - 1];
        if exists i :: 0 <= i < |es| && es[i].rules != [] {
          var i :| 0 <= i < |es| && es[i].rules != [];
          assert es[1..][i - 1].rules != [];
        }
      }
    }
  }

  /** `factory('dict')` followed by `accept('text', key='a')`: `schema()` raises. */
  lemma DictSchemaAsWrittenExample(o: Oracle)
    ensures Factory(o, "dict", None).Ok?
    ensures var d := Factory(o, "dict", None).value;
            AcceptKey(d, Rule(TextKind, None), Some("a"), false).Ok?
              && SchemaAsWritten(AcceptKey(d, Rule(TextKind, None), Some("a"), false).value).Err?
  {
    var d := Factory(o, "dict", None).value;
    var d' := AcceptKey(d, Rule(TextKind, None), Some("a"), false).value;
    assert RulesFor(d'.kind.explicit, "a") == [Rule(TextKind, None)];
    var i := IndexOfKey(ExplicitKeys(d'.kind.explicit), "a").value;
    SchemaAsWrittenRaises(d');
  }

  /** The same dict node used as the catch-all rule of an empty dict node: the outer
      `schema()` raises through `[v.schema() for v in self.any_key]`. */
  lemma NestedSchemaAsWrittenExample(o: Oracle)
    ensures var d := Factory(o, "dict", None).value;
            var inner := AcceptKey(d, Rule(TextKind, None), Some("a"), false).value;
            SchemaAsWritten(AcceptAnyKey(d, inner)).Err?
  {
    var d := Factory(o, "dict", None).value;
    var inner := AcceptKey(d, Rule(TextKind, None), Some("a"), false).value;
    DictSchemaAsWrittenExample(o);
    SchemaAsWrittenRaises(inner);
    var outer := AcceptAnyKey(d, inner);
    assert outer.kind.anyKey == [inner];
    assert SomeRaisesAsWritten(outer.kind.anyKey);
    SchemaAsWrittenRaises(outer);
  }

  // ---------------------------------------------------------------------------
  // The corrected dict schema

  /** Each explicitly accepted key with validators gets a property whose schema is the
      `any_schema` of its validators' schemas, and there is no other property. */
  lemma {:induction false} PropertiesOfKeys(es: seq<KeyRules>)
    ensures forall i :: 0 <= i < |es| && es[i].rules != [] ==>
              Field(es[i].key, AnySchema(Schemas(es[i].rules))) in PropertyFields(es)
    ensures forall f :: f in PropertyFields(es) ==>
              exists i :: 0 <= i < |es| && es[i].rules != [] && f == Field(es[i].key, AnySchema(Schemas(es[i].rules)))
    decreases |es|
  {
    if es != [] {
      PropertiesOfKeys(es[1..]);
      assert forall i :: 1 <= i < |es| ==> es[i] == es[1..][i - 1];
      var head := if es[0].rules == [] then [] else [Field(es[0].key, AnySchema(Schemas(es[0].rules)))];
      assert PropertyFields(es) == head + PropertyFields(es[1..]);
      forall f | f in PropertyFields(es)
        ensures exists i :: 0 <= i < |es| && es[i].rules != [] && f == Field(es[i].key, AnySchema(Schemas(es[i].rules)))
      {
        if f !in head {
          var j :| 0 <= j < |es[1..]| && es[1..][j].rules != [] && f == Field(es[1..][j].key, AnySchema(Schemas(es[1..][j].rules)));
          assert es[j + 1] == es[1..][j];
        }
      }
    }
  }

  /** A document satisfying a dict node's schema is an object that holds every required
      key and, when the node has no catch-all rules, only keys accepted with rules. */
  lemma DictSchemaDemands(c: Checker, r: Rule, j: Json)
    requires r.kind.DictKind?
    ensures Satisfies(c, Schema(r), j) ==>
              j.JObj? && (forall k :: 0 <= k < |r.kind.required| ==> r.kind.required[k] in FieldNames(j.fields))
                      && (r.kind.anyKey == [] ==>
                            forall h :: 0 <= h < |j.fields| ==> j.fields[h].name in FieldNames(PropertyFields(r.kind.explicit)))
  {
    var props := PropertyFields(r.kind.explicit);
    var extra := if r.kind.anyKey == [] then JBool(false) else AnySchema(Schemas(r.kind.anyKey));
    assert Schema(r) == DictSchema(props, extra, r.kind.required);
    DictSchemaHolds(c, props, extra, r.kind.required, j);
  }

  lemma DictSchemaHolds(c: Checker, props: seq<Field>, extra: Json, required: seq<string>, j: Json)
    ensures Satisfies(c, DictSchema(props, extra, required), j) ==>
              j.JObj? && (forall k :: 0 <= k < |required| ==> required[k] in FieldNames(j.fields))
                      && (extra == JBool(false) ==> forall h :: 0 <= h < |j.fields| ==> j.fields[h].name in FieldNames(props))
  {
    var rest := RequiredField(required) + [Field("additionalProperties", extra)];
    var fs := [Field("type", JStr("object")), Field("properties", JObj(props))] + rest;
    assert DictSchema(props, extra, required) == JObj(fs);
    DeclaredOnlyProperties(props, rest);
    if Satisfies(c, JObj(fs), j) {
      assert fs[0] == Field("type", JStr("object"));
      if required != [] {
        assert fs[2] == RequiredField(required)[0];
        RequiredHolds(c, fs, j, 2, required);
      }
      if extra == JBool(false) {
        ClosedObjectHolds(c, fs, j, |fs| - 1);
      }
    }
  }

  lemma RequiredHolds(c: Checker, fs: seq<Field>, j: Json, i: nat, names: seq<string>)
    requires i < |fs| && j.JObj? && Satisfies(c, JObj(fs), j)
    requires names != [] && fs[i] == RequiredField(names)[0]
    ensures forall k :: 0 <= k < |names| ==> names[k] in FieldNames(j.fields)
  {
    var items := fs[i].val.items;
    forall k | 0 <= k < |names| ensures names[k] in FieldNames(j.fields) {
      assert items[k] == JStr(names[k]);
    }
  }

  lemma ClosedObjectHolds(c: Checker, fs: seq<Field>, j: Json, i: nat)
    requires i < |fs| && j.JObj? && Satisfies(c, JObj(fs), j)
    requires fs[i] == Field("additionalProperties", JBool(false))
    ensures forall h :: 0 <= h < |j.fields| ==> j.fields[h].name in Declared(fs)
  {
  }

  /** The declared property names of a dict schema are those of its `properties`. */
  lemma {:induction false} DeclaredOnlyProperties(props: seq<Field>, rest: seq<Field>)
    requires forall i :: 0 <= i < |rest| ==> rest[i].name != "properties"
    ensures Declared([Field("type", JStr("object")), Field("properties", JObj(props))] + rest) == FieldNames(props)
    decreases |rest|
  {
    var head := [Field("type", JStr("object")), Field("properties", JObj(props))];
    if rest == [] {
      assert Declared(head[1..]) == FieldNames(props) + Declared([]);
    } else {
      NothingDeclared(rest);
      assert (head + rest)[1..] == [head[1]] + rest;
      assert (head + rest)[2..] == rest;
      assert Declared(head + rest) == Declared((head + rest)[1..]);
      assert Declared((head + rest)[1..]) == FieldNames(props) + Declared(rest);
    }
  }

  lemma {:induction false} NothingDeclared(fs: seq<Field>)
    requires forall i :: 0 <= i < |fs| ==> fs[i].name != "properties"
    ensures Declared(fs) == []
    decreases |fs|
  {
    if fs != [] {
      NothingDeclared(fs[1..]);
    }
  }

  // ---------------------------------------------------------------------------
  // Where the schema agrees with validation

  /** Trees built from root, list, text, boolean and any nodes. */
  predicate Plain(r: Rule)
    decreases r
  {
    match r.kind
    case RootKind(alts) => forall i :: 0 <= i < |alts| ==> Plain(alts[i])
    case ListKind(alts) => forall i :: 0 <= i < |alts| ==> Plain(alts[i])
    case TextKind => true
    case BooleanKind => true
    case AnyKind => true
    case _ => false
  }

  /** For such trees the exported schema holds for exactly the values validation passes. */
  lemma SchemaAgrees(o: Oracle, c: Checker, r: Rule, d: Value, p: seq<string>)
    requires Plain(r)
    ensures Satisfies(c, Schema(r), ToJson(d)) <==> Eval(o, r, d, p).ok
    decreases Size(r), 2
  {
    if r.kind.RootKind? {
      RootAgrees(o, c, r, d, p);
    } else if r.kind.ListKind? {
      ListAgrees(o, c, r, d, p);
    } else {
      LeafAgrees(o, c, r, d, p);
    }
  }

  lemma LeafAgrees(o: Oracle, c: Checker, r: Rule, d: Value, p: seq<string>)
    requires r.kind.TextKind? || r.kind.BooleanKind? || r.kind.AnyKind?
    ensures Satisfies(c, Schema(r), ToJson(d)) <==> Eval(o, r, d, p).ok
  {
    if !r.kind.AnyKind? {
      var t := if r.kind.TextKind? then "string" else "boolean";
      assert Schema(r) == JObj([Field("type", JStr(t))]);
      TypeSchemaMeaning(c, t, ToJson(d));
    }
  }

  lemma TypeSchemaMeaning(c: Checker, t: string, j: Json)
    ensures Satisfies(c, JObj([Field("type", JStr(t))]), j) <==> HasType(t, j)
  {
    assert JObj([Field("type", JStr(t))]).fields[0] == Field("type", JStr(t));
  }

  lemma RootAgrees(o: Oracle, c: Checker, r: Rule, d: Value, p: seq<string>)
    requires r.kind.RootKind? && Plain(r)
    ensures Satisfies(c, Schema(r), ToJson(d)) <==> Eval(o, r, d, p).ok
    decreases Size(r), 1
  {
    assert Size(r) == 1 + RulesSize(r.kind.alts);
    assert Eval(o, r, d, p) == SelectItem(o, d, r.kind.alts, p);
    AlternativesAgree(o, c, r.kind.alts, d, p);
  }

  /** An array schema holds for exactly the arrays whose every item its item schema
      holds for. */
  lemma ArraySchemaMeaning(c: Checker, each: Json, j: Json)
    ensures Satisfies(c, JObj([Field("type", JStr("array")), Field("items", each)]), j) <==>
              j.JArr? && forall k :: 0 <= k < |j.items| ==> Satisfies(c, each, j.items[k])
  {
    var sch := JObj([Field("type", JStr("array")), Field("items", each)]);
    assert sch.fields[0] == Field("type", JStr("array"));
    assert sch.fields[1] == Field("items", each);
  }

  lemma ListAgrees(o: Oracle, c: Checker, r: Rule, d: Value, p: seq<string>)
    requires r.kind.ListKind? && Plain(r)
    ensures Satisfies(c, Schema(r), ToJson(d)) <==> Eval(o, r, d, p).ok
    decreases Size(r), 1
  {
    var alts := r.kind.alts;
    assert Size(r) == 1 + RulesSize(alts);
    ListPasses(o, r, d, p);
    var each := AnySchema(Schemas(alts));
    assert Schema(r) == JObj([Field("type", JStr("array")), Field("items", each)]);
    ArraySchemaMeaning(c, each, ToJson(d));
    if d.VList? {
      var j := ToJson(d);
      assert |j.items| == |d.items|;
      forall k | 0 <= k < |d.items|
        ensures Satisfies(c, each, j.items[k]) <==> ElementPasses(o, d.items, alts, p, k)
      {
        assert j.items[k] == ToJson(d.items[k]);
        AlternativesAgree(o, c, alts, d.items[k], p + [ListLabel(d.items, k)]);
      }
    }
  }

  /** `validate_item` over such alternatives passes exactly the values the `any_schema`
      of their schemas holds for. */
  lemma AlternativesAgree(o: Oracle, c: Checker, alts: seq<Rule>, d: Value, p: seq<string>)
    requires forall i :: 0 <= i < |alts| ==> Plain(alts[i])
    ensures Satisfies(c, AnySchema(Schemas(alts)), ToJson(d)) <==> SelectItem(o, d, alts, p).ok
    decreases RulesSize(alts), 0
  {
    assert |Schemas(alts)| == |alts|;
    AnySchemaMeaning(c, Schemas(alts), ToJson(d));
    SelectItemPasses(o, d, alts, p);
    forall i | 0 <= i < |alts|
      ensures Satisfies(c, Schemas(alts)[i], ToJson(d)) <==> Accepts(o, alts[i], d, p)
    {
      RulesSizeElem(alts, i);
      SchemasElem(alts, i);
      SchemaAgrees(o, c, alts[i], d, p);
      PlainPassImpliesValidateable(o, alts[i], d, p);
    }
  }

  lemma PlainPassImpliesValidateable(o: Oracle, r: Rule, d: Value, p: seq<string>)
    requires Plain(r)
    ensures Eval(o, r, d, p).ok ==> Validateable(r, d)
  {
  }

  // ---------------------------------------------------------------------------
  // The regexp_match schema

  /** One accept pattern with a `not` beside it. */
  lemma OnePatternWithReject(c: Checker, pattern: string, reject: Json, d: Json)
    ensures Satisfies(c, JObj([Field("type", JStr("string")), Field("pattern", JStr(pattern)), Field("not", reject)]), d)
            <==> d.JStr? && c.search(pattern, d.s) && !Satisfies(c, reject, d)
  {
    var fs := [Field("type", JStr("string")), Field("pattern", JStr(pattern)), Field("not", reject)];
    assert fs[0] == Field("type", JStr("string"));
    assert fs[1] == Field("pattern", JStr(pattern));
    assert fs[2] == Field("not", reject);
  }

  /** An `anyOf` with a `not` beside it. */
  lemma AnyOfWithReject(c: Checker, items: seq<Json>, reject: Json, d: Json)
    ensures Satisfies(c, JObj([Field("anyOf", JArr(items)), Field("not", reject)]), d)
            <==> Satisfies(c, JObj([Field("anyOf", JArr(items))]), d) && !Satisfies(c, reject, d)
  {
    var fs := [Field("anyOf", JArr(items)), Field("not", reject)];
    assert fs[0] == Field("anyOf", JArr(items));
    assert fs[1] == Field("not", reject);
    assert [Field("anyOf", JArr(items))][0] == fs[0];
  }

  /** `{'type': 'string', 'pattern': p}` holds for the texts `p` occurs in. */
  lemma PatternItemMeaning(c: Checker, pattern: string, d: Json)
    ensures Satisfies(c, JObj([Field("type", JStr("string")), Field("pattern", JStr(pattern))]), d)
            <==> d.JStr? && c.search(pattern, d.s)
  {
    var fs := [Field("type", JStr("string")), Field("pattern", JStr(pattern))];
    assert fs[0].name == "type" && fs[1].name == "pattern";
  }

  /** `{'pattern': p}` holds for everything but the texts `p` does not occur in. */
  lemma RejectItemMeaning(c: Checker, pattern: string, d: Json)
    ensures Satisfies(c, JObj([Field("pattern", JStr(pattern))]), d) <==> (d.JStr? ==> c.search(pattern, d.s))
  {
    assert [Field("pattern", JStr(pattern))][0].name == "pattern";
  }

  function AcceptItems(patterns: seq<string>): seq<Json> {
    seq(|patterns|, i requires 0 <= i < |patterns| => JObj([Field("type", JStr("string")), Field("pattern", JStr(patterns[i]))]))
  }

  function RejectItems(rejects: seq<string>): seq<Json> {
    seq(|rejects|, i requires 0 <= i < |rejects| => JObj([Field("pattern", JStr(rejects[i]))]))
  }

  /** The accept part holds for the texts some accept pattern occurs in. */
  lemma AcceptPartMeaning(c: Checker, patterns: seq<string>, d: Json)
    ensures Satisfies(c, AnySchema(AcceptItems(patterns)), d) <==>
              d.JStr? && exists i :: 0 <= i < |patterns| && c.search(patterns[i], d.s)
  {
    var items := AcceptItems(patterns);
    AnySchemaMeaning(c, items, d);
    forall i | 0 <= i < |patterns|
      ensures Satisfies(c, items[i], d) <==> d.JStr? && c.search(patterns[i], d.s)
    {
      PatternItemMeaning(c, patterns[i], d);
    }
  }

  /** The reject part holds for a text iff some reject pattern occurs in it. */
  lemma RejectPartMeaning(c: Checker, rejects: seq<string>, d: Json)
    requires d.JStr?
    ensures Satisfies(c, AnySchema(RejectItems(rejects)), d) <==> exists j :: 0 <= j < |rejects| && c.search(rejects[j], d.s)
  {
    var items := RejectItems(rejects);
    AnySchemaMeaning(c, items, d);
    forall j | 0 <= j < |rejects|
      ensures Satisfies(c, items[j], d) <==> c.search(rejects[j], d.s)
    {
      RejectItemMeaning(c, rejects[j], d);
    }
  }

  /** A `regexp_match` schema holds exactly for the texts in which some accept pattern
      occurs and no reject pattern does (an unanchored search, where validation
      anchors the match at the start). */
  lemma PatternSchemaMeaning(c: Checker, patterns: seq<string>, rejects: seq<string>, d: Json)
    ensures Satisfies(c, PatternSchema(patterns, rejects), d) <==>
              d.JStr? && (exists i :: 0 <= i < |patterns| && c.search(patterns[i], d.s))
              && !(exists j :: 0 <= j < |rejects| && c.search(rejects[j], d.s))
  {
    var accept := AnySchema(AcceptItems(patterns));
    var reject := AnySchema(RejectItems(rejects));
    assert PatternSchema(patterns, rejects) == if rejects == [] then accept else JObj(accept.fields + [Field("not", reject)]);
    AcceptPartMeaning(c, patterns, d);
    if rejects != [] {
      if d.JStr? {
        RejectPartMeaning(c, rejects, d);
      }
      if |patterns| == 1 {
        OnePatternWithReject(c, patterns[0], reject, d);
        assert accept.fields + [Field("not", reject)]
               == [Field("type", JStr("string")), Field("pattern", JStr(patterns[0])), Field("not", reject)];
      } else {
        AnyOfWithReject(c, AcceptItems(patterns), reject, d);
        assert accept.fields + [Field("not", reject)] == [Field("anyOf", JArr(AcceptItems(patterns))), Field("not", reject)];
      }
    }
  }

  // ---------------------------------------------------------------------------
  // Where it does not

  /** A `number` node passes booleans (Python's booleans are integers), while its schema
      type `number` does not hold for JSON booleans. */
  lemma NumberSchemaRejectsBooleans(o: Oracle, c: Checker, b: bool, p: seq<string>)
    ensures Eval(o, Rule(NumberKind, None), VBool(b), p).ok
    ensures !Satisfies(c, Schema(Rule(NumberKind, None)), ToJson(VBool(b)))
  {
    assert Schema(Rule(NumberKind, None)).fields[0] == Field("type", JStr("number"));
  }

  /** A choice accepted ignoring case passes other spellings of the text, while the
      schema's `enum` holds only for the lower-case spelling it stored. */
  lemma ChoiceSchemaIsCaseSensitive(o: Oracle, c: Checker, p: seq<string>)
    ensures Eval(o, Rule(ChoiceKind([], ["foo"]), None), VStr("FOO"), p).ok
    ensures !Satisfies(c, Schema(Rule(ChoiceKind([], ["foo"]), None)), ToJson(VStr("FOO")))
  {
    assert Lower("FOO") == "foo" by {
      assert LowerChar('F') == 'f' && LowerChar('O') == 'o';
    }
    var sch := Schema(Rule(ChoiceKind([], ["foo"]), None));
    assert sch.fields[0].val.items == [JStr("foo")];
    assert JStr("FOO") != JStr("foo");
  }
}
