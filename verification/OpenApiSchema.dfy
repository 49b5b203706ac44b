/**
 Schemas, which nest through their properties and items, and their JSON form. A schema with a
 reference writes the reference and nothing else.
 */
module OpenApiSchema {
  import opened Wrappers
  import opened OpenApiJson

  datatype Schema = Schema(ty: string, format: string, title: string, description: string, defaultVal: string,
                           example: string, enums: seq<string>, required: seq<string>,
                           properties: map<string, Schema>, items: Option<Schema>,
                           minimum: real, maximum: real, minLength: int, maxLength: int, pattern: string,
                           nullable: bool, readOnly: bool, writeOnly: bool, ref: string)

  const NO_SCHEMA := Schema("", "", "", "", "", "", [], [], map[], None, 0.0, 0.0, 0, 0, "", false, false, false, "")

  /** What is written for each field of a schema, given its nested schemas already written. */
  function SchemaField(s: Schema, properties: map<string, Json>, items: Option<Json>, n: Name): Option<Json> {
    if s.ref != "" then If(n == NRef, JStr(s.ref))
    else
      if n.NType? then Text(s.ty)
      else if n.NFormat? then Text(s.format)
      else if n.NTitle? then Text(s.title)
      else if n.NDescription? then Text(s.description)
      else if n.NDefault? then Text(s.defaultVal)
      else if n.NExample? then Text(s.example)
      else if n.NEnum? then Texts(s.enums)
      else if n.NRequired? then Texts(s.required)
      else if n.NProperties? then If(properties != map[], JMap(properties))
      else if n.NItems? then items
      else if n.NMinimum? then Real(s.minimum)
      else if n.NMaximum? then Real(s.maximum)
      else if n.NMinLength? then Whole(s.minLength)
      else if n.NMaxLength? then Whole(s.maxLength)
      else if n.NPattern? then Text(s.pattern)
      else if n.NNullable? then Flag(s.nullable)
      else if n.NReadOnly? then Flag(s.readOnly)
      else if n.NWriteOnly? then Flag(s.writeOnly)
      else None
  }

  function SchemaFields(s: Schema, properties: map<string, Json>, items: Option<Json>): Fields {
    Build(n => SchemaField(s, properties, items, n))
  }

  /** A schema read from its fields, given its nested schemas already read. */
  function SchemaOf(o: Fields, properties: map<string, Schema>, items: Option<Schema>): Schema {
    Schema(Str(Get(o, NType)), Str(Get(o, NFormat)), Str(Get(o, NTitle)), Str(Get(o, NDescription)),
           Str(Get(o, NDefault)), Str(Get(o, NExample)), ListOf(TextOf, Get(o, NEnum)),
           ListOf(TextOf, Get(o, NRequired)), properties, items, Num(Get(o, NMinimum)), Num(Get(o, NMaximum)),
           Int(Get(o, NMinLength)), Int(Get(o, NMaxLength)), Str(Get(o, NPattern)), Bool(Get(o, NNullable)),
           Bool(Get(o, NReadOnly)), Bool(Get(o, NWriteOnly)), Str(Get(o, NRef)))
  }

  function SchemaToJson(s: Schema): Json
    decreases s
  {
    JRec(SchemaFields(s, map k | k in s.properties :: SchemaToJson(s.properties[k]),
                      if s.items.Some? then Some(SchemaToJson(s.items.value)) else None))
  }

  function SchemaFromJson(j: Json): Schema
    decreases j
  {
    if !j.JRec? then NO_SCHEMA
    else
      var properties := Free(Get(j.fields, NProperties));
      var items := Get(j.fields, NItems);
      SchemaOf(j.fields, map k | k in properties :: SchemaFromJson(properties[k]),
               if items.Some? then Some(SchemaFromJson(items.value)) else None)
  }

  /** Nothing stands beside a reference, here and in all nested schemas. */
  ghost predicate SchemaOk(s: Schema)
    decreases s
  {
    if s.ref != "" then s == NO_SCHEMA.(ref := s.ref)
    else
      && (forall k :: k in s.properties ==> SchemaOk(s.properties[k]))
      && (s.items.Some? ==> SchemaOk(s.items.value))
  }

  // ---------- One level ----------

  /** `o` holds exactly what is written for `s`. */
  ghost predicate Holds(o: Fields, s: Schema, ps: map<string, Json>, it: Option<Json>) {
    forall n {:trigger Get(o, n)} :: Get(o, n) == SchemaField(s, ps, it, n)
  }

  ghost predicate TextsBack(o: Fields, s: Schema) {
    && Str(Get(o, NType)) == s.ty && Str(Get(o, NFormat)) == s.format && Str(Get(o, NTitle)) == s.title
    && Str(Get(o, NDescription)) == s.description && Str(Get(o, NDefault)) == s.defaultVal
    && Str(Get(o, NExample)) == s.example && Str(Get(o, NPattern)) == s.pattern && Str(Get(o, NRef)) == s.ref
  }

  ghost predicate NumbersBack(o: Fields, s: Schema) {
    && Num(Get(o, NMinimum)) == s.minimum && Num(Get(o, NMaximum)) == s.maximum
    && Int(Get(o, NMinLength)) == s.minLength && Int(Get(o, NMaxLength)) == s.maxLength
  }

  ghost predicate RestBack(o: Fields, s: Schema) {
    && ListOf(TextOf, Get(o, NEnum)) == s.enums && ListOf(TextOf, Get(o, NRequired)) == s.required
    && Bool(Get(o, NNullable)) == s.nullable && Bool(Get(o, NReadOnly)) == s.readOnly
    && Bool(Get(o, NWriteOnly)) == s.writeOnly
  }

  lemma TextsHeld(o: Fields, s: Schema, ps: map<string, Json>, it: Option<Json>)
    requires Holds(o, s, ps, it) && s.ref == ""
    ensures TextsBack(o, s)
  {
  }

  lemma NumbersHeld(o: Fields, s: Schema, ps: map<string, Json>, it: Option<Json>)
    requires Holds(o, s, ps, it) && s.ref == ""
    ensures NumbersBack(o, s)
  {
  }

  lemma RestHeld(o: Fields, s: Schema, ps: map<string, Json>, it: Option<Json>)
    requires Holds(o, s, ps, it) && s.ref == ""
    ensures RestBack(o, s)
  {
  }

  lemma SchemaOfReads(o: Fields, s: Schema, properties: map<string, Schema>, items: Option<Schema>)
    requires TextsBack(o, s) && NumbersBack(o, s) && RestBack(o, s)
    ensures SchemaOf(o, properties, items) == s.(properties := properties, items := items)
  {
  }

  lemma PlainHeld(o: Fields, s: Schema, ps: map<string, Json>, it: Option<Json>,
                  properties: map<string, Schema>, items: Option<Schema>)
    requires Holds(o, s, ps, it) && s.ref == ""
    ensures SchemaOf(o, properties, items) == s.(properties := properties, items := items)
  {
    TextsHeld(o, s, ps, it);
    NumbersHeld(o, s, ps, it);
    RestHeld(o, s, ps, it);
    SchemaOfReads(o, s, properties, items);
  }

  lemma ReferenceHeld(o: Fields, s: Schema, ps: map<string, Json>, it: Option<Json>)
    requires Holds(o, s, ps, it) && s.ref != ""
    ensures SchemaOf(o, map[], None) == NO_SCHEMA.(ref := s.ref)
  {
  }

  /** The nested schemas are found as they were written, and not at all beside a reference. */
  lemma NestedHeld(o: Fields, s: Schema, ps: map<string, Json>, it: Option<Json>)
    requires Holds(o, s, ps, it)
    ensures Free(Get(o, NProperties)) == if s.ref == "" then ps else map[]
    ensures Get(o, NItems) == if s.ref == "" then it else None
  {
  }

  // ---------- Nested schemas ----------

  function ToItem(i: Option<Schema>): Option<Json> { if i.Some? then Some(SchemaToJson(i.value)) else None }

  function FromItem(i: Option<Json>): Option<Schema> { if i.Some? then Some(SchemaFromJson(i.value)) else None }

  lemma ToUnfolds(s: Schema)
    ensures SchemaToJson(s) == JRec(SchemaFields(s, Each(SchemaToJson, s.properties), ToItem(s.items)))
  {
    assert Each(SchemaToJson, s.properties) == map k | k in s.properties :: SchemaToJson(s.properties[k]);
  }

  lemma FromUnfolds(o: Fields)
    ensures SchemaFromJson(JRec(o)) ==
      SchemaOf(o, Each(SchemaFromJson, Free(Get(o, NProperties))), FromItem(Get(o, NItems)))
  {
    var ps := Free(Get(o, NProperties));
    assert Each(SchemaFromJson, ps) == map k | k in ps :: SchemaFromJson(ps[k]);
  }

  /** What is read from what was written for `s`, the nested schemas being read from `ps` and `it`. */
  function ReadBack(s: Schema, ps: map<string, Json>, it: Option<Json>): Schema {
    if s.ref == "" then s.(properties := Each(SchemaFromJson, ps), items := FromItem(it))
    else NO_SCHEMA.(ref := s.ref)
  }

  lemma SchemaHeld(o: Fields, s: Schema, ps: map<string, Json>, it: Option<Json>)
    requires Holds(o, s, ps, it)
    ensures SchemaFromJson(JRec(o)) == ReadBack(s, ps, it)
  {
    FromUnfolds(o);
    NestedHeld(o, s, ps, it);
    if s.ref == "" {
      PlainHeld(o, s, ps, it, Each(SchemaFromJson, ps), FromItem(it));
    } else {
      ReferenceHeld(o, s, ps, it);
    }
  }

  lemma SchemaBack(s: Schema)
    ensures SchemaFromJson(SchemaToJson(s)) == ReadBack(s, Each(SchemaToJson, s.properties), ToItem(s.items))
  {
    var ps, it := Each(SchemaToJson, s.properties), ToItem(s.items);
    ToUnfolds(s);
    SchemaHeld(SchemaFields(s, ps, it), s, ps, it);
  }

  /** The fields written do not depend on the nested schemas beyond what is passed in. */
  lemma FieldsCongruent(s: Schema, s': Schema, ps: map<string, Json>, it: Option<Json>)
    requires s' == s.(properties := s'.properties, items := s'.items)
    ensures SchemaFields(s', ps, it) == SchemaFields(s, ps, it)
  {
    BuildSame(n => SchemaField(s', ps, it, n), n => SchemaField(s, ps, it, n));
  }

  lemma ReferenceCongruent(s: Schema, ps: map<string, Json>, it: Option<Json>, ps': map<string, Json>, it': Option<Json>)
    requires s.ref != ""
    ensures SchemaFields(NO_SCHEMA.(ref := s.ref), ps', it') == SchemaFields(s, ps, it)
  {
    BuildSame(n => SchemaField(NO_SCHEMA.(ref := s.ref), ps', it', n), n => SchemaField(s, ps, it, n));
  }

  ghost predicate SchemaFaithful(s: Schema) { Faithful(SchemaToJson, SchemaFromJson, SchemaOk, s) }

  lemma ItemBack(i: Option<Schema>)
    requires i.Some? ==> SchemaFaithful(i.value)
    ensures FromItem(ToItem(i)) == i <==> i.Some? ==> SchemaOk(i.value)
    ensures ToItem(FromItem(ToItem(i))) == ToItem(i)
  {
  }

  lemma SchemaStep(s: Schema)
    requires var m := s.properties;
      && (Each(SchemaFromJson, Each(SchemaToJson, m)) == m <==> forall k :: k in m ==> SchemaOk(m[k]))
      && Each(SchemaToJson, Each(SchemaFromJson, Each(SchemaToJson, m))) == Each(SchemaToJson, m)
    requires FromItem(ToItem(s.items)) == s.items <==> s.items.Some? ==> SchemaOk(s.items.value)
    requires ToItem(FromItem(ToItem(s.items))) == ToItem(s.items)
    ensures SchemaFaithful(s)
  {
    hide SchemaToJson, SchemaFromJson, SchemaFields, ToItem, FromItem;
    var ps, it := Each(SchemaToJson, s.properties), ToItem(s.items);
    var s' := SchemaFromJson(SchemaToJson(s));
    SchemaBack(s);
    ToUnfolds(s);
    ToUnfolds(s');
    if s.ref == "" {
      FieldsCongruent(s, s', ps, it);
    } else {
      ReferenceCongruent(s, ps, it, Each(SchemaToJson, s'.properties), ToItem(s'.items));
    }
  }

  /** Every schema, however deep, is read back exactly when it is canonical, and rewritten the same. */
  lemma {:induction false} SchemaRoundTrip(s: Schema)
    ensures SchemaFromJson(SchemaToJson(s)) == s <==> SchemaOk(s)
    ensures SchemaToJson(SchemaFromJson(SchemaToJson(s))) == SchemaToJson(s)
    ensures SchemaFaithful(s)
    decreases s
  {
    forall k | k in s.properties ensures SchemaFaithful(s.properties[k]) {
      SchemaRoundTrip(s.properties[k]);
    }
    if s.items.Some? {
      SchemaRoundTrip(s.items.value);
    }
    EachBack(SchemaToJson, SchemaFromJson, SchemaOk, s.properties);
    ItemBack(s.items);
    SchemaStep(s);
  }

  // ---------- Field by field ----------

  /** A reference is written alone. */
  lemma ReferenceLayout(s: Schema)
    requires s.ref != ""
    ensures SchemaToJson(s) == JRec(map[NRef := JStr(s.ref)])
  {
    var o := SchemaFields(s, Each(SchemaToJson, s.properties), ToItem(s.items));
    ToUnfolds(s);
    hide SchemaToJson;
    forall n ensures Get(o, n) == if n == NRef then Some(JStr(s.ref)) else None {
    }
    assert forall n :: n in o <==> n == NRef by {
      assert forall n :: n in o <==> Get(o, n).Some?;
    }
  }

  /** Without a reference every field that says something is written under its own name. */
  lemma SchemaLayout(s: Schema)
    requires s.ref == ""
    ensures var o := Record(SchemaToJson(s));
      SchemaToJson(s).JRec? && LayoutNames(o) && LayoutTexts(o, s) && LayoutNumbers(o, s) && LayoutRest(o, s)
  {
    var o := SchemaFields(s, Each(SchemaToJson, s.properties), ToItem(s.items));
    ToUnfolds(s);
    NamesLaidOut(o, s, Each(SchemaToJson, s.properties), ToItem(s.items));
    TextsLaidOut(o, s, Each(SchemaToJson, s.properties), ToItem(s.items));
    NumbersLaidOut(o, s, Each(SchemaToJson, s.properties), ToItem(s.items));
    RestLaidOut(o, s);
    hide SchemaToJson, SchemaFields, LayoutNames, LayoutTexts, LayoutNumbers, LayoutRest;
  }

  ghost predicate LayoutNames(o: Fields) {
    OnlyFields(o, {NType, NFormat, NTitle, NDescription, NDefault, NExample, NEnum, NRequired, NProperties, NItems,
                   NMinimum, NMaximum, NMinLength, NMaxLength, NPattern, NNullable, NReadOnly, NWriteOnly})
  }

  ghost predicate LayoutTexts(o: Fields, s: Schema) {
    && TextField(o, NType, s.ty) && TextField(o, NFormat, s.format) && TextField(o, NTitle, s.title)
    && TextField(o, NDescription, s.description) && TextField(o, NDefault, s.defaultVal)
    && TextField(o, NExample, s.example) && TextField(o, NPattern, s.pattern)
  }

  ghost predicate LayoutNumbers(o: Fields, s: Schema) {
    && Field(o, NMinimum, s.minimum != 0.0, JNum(s.minimum)) && Field(o, NMaximum, s.maximum != 0.0, JNum(s.maximum))
    && Field(o, NMinLength, s.minLength != 0, JInt(s.minLength))
    && Field(o, NMaxLength, s.maxLength != 0, JInt(s.maxLength))
    && Field(o, NNullable, s.nullable, JBool(true)) && Field(o, NReadOnly, s.readOnly, JBool(true))
    && Field(o, NWriteOnly, s.writeOnly, JBool(true))
  }

  ghost predicate LayoutRest(o: Fields, s: Schema) {
    && Field(o, NEnum, s.enums != [], JTexts(s.enums)) && Field(o, NRequired, s.required != [], JTexts(s.required))
    && Field(o, NProperties, s.properties != map[], JMap(Each(SchemaToJson, s.properties)))
    && (NItems in o <==> s.items.Some?) && (s.items.Some? ==> o[NItems] == SchemaToJson(s.items.value))
  }

  lemma NamesLaidOut(o: Fields, s: Schema, ps: map<string, Json>, it: Option<Json>)
    requires Holds(o, s, ps, it) && s.ref == ""
    ensures LayoutNames(o)
  {
    forall n | n in o ensures SchemaField(s, ps, it, n).Some? {
      assert Get(o, n).Some?;
    }
  }

  lemma TextsLaidOut(o: Fields, s: Schema, ps: map<string, Json>, it: Option<Json>)
    requires Holds(o, s, ps, it) && s.ref == ""
    ensures LayoutTexts(o, s)
  {
    assert Get(o, NType) == Text(s.ty) && Get(o, NFormat) == Text(s.format) && Get(o, NTitle) == Text(s.title);
    assert Get(o, NDescription) == Text(s.description) && Get(o, NDefault) == Text(s.defaultVal);
    assert Get(o, NExample) == Text(s.example) && Get(o, NPattern) == Text(s.pattern);
  }

  lemma NumbersLaidOut(o: Fields, s: Schema, ps: map<string, Json>, it: Option<Json>)
    requires Holds(o, s, ps, it) && s.ref == ""
    ensures LayoutNumbers(o, s)
  {
    assert Get(o, NMinimum) == Real(s.minimum) && Get(o, NMaximum) == Real(s.maximum);
    assert Get(o, NMinLength) == Whole(s.minLength) && Get(o, NMaxLength) == Whole(s.maxLength);
    FlagsLaidOut(o, s, ps, it);
  }

  lemma FlagsLaidOut(o: Fields, s: Schema, ps: map<string, Json>, it: Option<Json>)
    requires Holds(o, s, ps, it) && s.ref == ""
    ensures Field(o, NNullable, s.nullable, JBool(true)) && Field(o, NReadOnly, s.readOnly, JBool(true))
    ensures Field(o, NWriteOnly, s.writeOnly, JBool(true))
  {
    assert Get(o, NNullable) == Flag(s.nullable) && Get(o, NReadOnly) == Flag(s.readOnly);
    assert Get(o, NWriteOnly) == Flag(s.writeOnly);
  }

  lemma RestLaidOut(o: Fields, s: Schema)
    requires Holds(o, s, Each(SchemaToJson, s.properties), ToItem(s.items)) && s.ref == ""
    ensures LayoutRest(o, s)
  {
    var ps, it := Each(SchemaToJson, s.properties), ToItem(s.items);
    assert Get(o, NEnum) == Texts(s.enums) && Get(o, NRequired) == Texts(s.required);
    assert Get(o, NProperties) == If(ps != map[], JMap(ps)) && Get(o, NItems) == it;
    assert ps == map[] <==> s.properties == map[] by {
      assert ps.Keys == s.properties.Keys;
    }
    hide SchemaToJson, SchemaField;
  }

  ghost predicate ReadsTextFields(o: Fields, s: Schema) {
    && ReadsText(o, NType, s.ty) && ReadsText(o, NFormat, s.format) && ReadsText(o, NTitle, s.title)
    && ReadsText(o, NDescription, s.description) && ReadsText(o, NDefault, s.defaultVal)
    && ReadsText(o, NExample, s.example) && ReadsText(o, NPattern, s.pattern) && ReadsText(o, NRef, s.ref)
  }

  ghost predicate ReadsOtherFields(o: Fields, s: Schema) {
    && ReadsTexts(o, NEnum, s.enums) && ReadsTexts(o, NRequired, s.required)
    && ReadsReal(o, NMinimum, s.minimum) && ReadsReal(o, NMaximum, s.maximum)
    && ReadsWhole(o, NMinLength, s.minLength) && ReadsWhole(o, NMaxLength, s.maxLength)
    && ReadsFlag(o, NNullable, s.nullable) && ReadsFlag(o, NReadOnly, s.readOnly) && ReadsFlag(o, NWriteOnly, s.writeOnly)
  }

  ghost predicate ReadsNestedFields(o: Fields, s: Schema) {
    && ReadsMap(o, NProperties, SchemaFromJson, s.properties)
    && (NItems in o <==> s.items.Some?) && (NItems in o ==> s.items.value == SchemaFromJson(o[NItems]))
  }

  /** Every field of a schema is read from its own name, whatever else the object holds. */
  lemma SchemaReads(o: Fields)
    ensures var s := SchemaFromJson(JRec(o)); ReadsTextFields(o, s) && ReadsOtherFields(o, s) && ReadsNestedFields(o, s)
  {
    FromUnfolds(o);
    hide SchemaFromJson;
    var ps, it := Each(SchemaFromJson, Free(Get(o, NProperties))), FromItem(Get(o, NItems));
    TextFieldsRead(o, ps, it);
    OtherFieldsRead(o, ps, it);
    assert ReadsNestedFields(o, SchemaOf(o, ps, it));
    hide SchemaOf, ReadsTextFields, ReadsOtherFields, ReadsNestedFields;
  }

  lemma TextFieldsRead(o: Fields, ps: map<string, Schema>, it: Option<Schema>)
    ensures ReadsTextFields(o, SchemaOf(o, ps, it))
  {
  }

  lemma OtherFieldsRead(o: Fields, ps: map<string, Schema>, it: Option<Schema>)
    ensures ReadsOtherFields(o, SchemaOf(o, ps, it))
  {
  }

  // ---------- When other objects write a schema ----------

  predicate HasTypeOrRef(s: Schema) { s.ty != "" || s.ref != "" }

  predicate HasContent(s: Schema) { s.ty != "" || s.ref != "" || s.properties != map[] }

  lemma ConditionsKept(s: Schema)
    ensures HasTypeOrRef(SchemaFromJson(SchemaToJson(s))) == HasTypeOrRef(s)
    ensures HasContent(s) ==> HasContent(SchemaFromJson(SchemaToJson(s)))
  {
    SchemaBack(s);
    var ps := Each(SchemaToJson, s.properties);
    assert ps.Keys == s.properties.Keys && Each(SchemaFromJson, ps).Keys == ps.Keys;
    assert s.properties != map[] ==> s.properties.Keys != {};
  }
}
