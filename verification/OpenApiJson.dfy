/**
 JSON values as the OpenAPI serialiser uses them, and the laws of the ways a field is written:
 plainly, as a list, as a map, or as an object that is left out as a whole.
 */
module OpenApiJson {
  import opened Wrappers

  /** The fixed field names of the objects of the format; free keys are strings. */
  datatype Name =
    | NName | NUrl | NEmail | NTitle | NVersion | NDescription | NTermsOfService | NContact | NLicense
    | NExternalDocs | NRef | NType | NFormat | NDefault | NExample | NEnum | NRequired | NProperties | NItems
    | NMinimum | NMaximum | NMinLength | NMaxLength | NPattern | NNullable | NReadOnly | NWriteOnly
    | NSchema | NHeaders | NContent | NIn | NDeprecated | NSummary | NOperationId | NTags | NParameters
    | NRequestBody | NResponses | NSecurity | NGet | NPost | NPut | NDelete | NPatch | NHead | NOptions
    | NScheme | NBearerFormat | NSchemas | NRequestBodies | NSecuritySchemes
    | NOpenapi | NInfo | NServers | NPaths | NComponents

  type Fields = map<Name, Json>

  /** A JSON value; an object has either fixed field names or free keys. */
  datatype Json =
    | JStr(s: string)
    | JBool(b: bool)
    | JNum(r: real)
    | JInt(n: int)
    | JArr(items: seq<Json>)
    | JRec(fields: Fields)
    | JMap(entries: map<string, Json>)

  // ---------- Reading a field ----------

  function Record(j: Json): Fields { if j.JRec? then j.fields else map[] }

  function Get(o: Fields, n: Name): Option<Json> { if n in o then Some(o[n]) else None }

  function Str(f: Option<Json>): string { if f.Some? && f.value.JStr? then f.value.s else "" }

  function Bool(f: Option<Json>): bool { f.Some? && f.value.JBool? && f.value.b }

  function Num(f: Option<Json>): real { if f.Some? && f.value.JNum? then f.value.r else 0.0 }

  function Int(f: Option<Json>): int { if f.Some? && f.value.JInt? then f.value.n else 0 }

  function Arr(f: Option<Json>): seq<Json> { if f.Some? && f.value.JArr? then f.value.items else [] }

  function Free(f: Option<Json>): map<string, Json> { if f.Some? && f.value.JMap? then f.value.entries else map[] }

  function TextOf(j: Json): string { Str(Some(j)) }

  function ListOf<T>(read: Json -> T, f: Option<Json>): seq<T> { All(read, Arr(f)) }

  function MapOf<T>(read: Json -> T, f: Option<Json>): map<string, T> { Each(read, Free(f)) }

  function One<T>(read: Json -> T, none: T, f: Option<Json>): T { if f.Some? then read(f.value) else none }

  // ---------- Writing a field ----------

  /** A field that is written under a condition. */
  function If(keep: bool, j: Json): Option<Json> { if keep then Some(j) else None }

  /** A text is written unless it is empty. */
  function Text(s: string): (f: Option<Json>)
    ensures Str(f) == s
  {
    If(s != "", JStr(s))
  }

  function Flag(b: bool): (f: Option<Json>)
    ensures Bool(f) == b
  {
    If(b, JBool(b))
  }

  function Real(r: real): (f: Option<Json>)
    ensures Num(f) == r
  {
    If(r != 0.0, JNum(r))
  }

  function Whole(n: int): (f: Option<Json>)
    ensures Int(f) == n
  {
    If(n != 0, JInt(n))
  }

  function Texts(ss: seq<string>): (f: Option<Json>)
    ensures ListOf(TextOf, f) == ss
  {
    var js := All(s => JStr(s), ss);
    assert All(TextOf, js) == ss;
    If(ss != [], JArr(js))
  }

  function List<T(==)>(write: T -> Json, xs: seq<T>): Option<Json> { If(xs != [], JArr(All(write, xs))) }

  function Map<T(==)>(write: T -> Json, m: map<string, T>): Option<Json> { If(m != map[], JMap(Each(write, m))) }

  // ---------- Laws ----------

  function All<T, U>(f: T -> U, xs: seq<T>): (ys: seq<U>)
    ensures |ys| == |xs| && forall i :: 0 <= i < |xs| ==> ys[i] == f(xs[i])
  {
    seq(|xs|, i requires 0 <= i < |xs| => f(xs[i]))
  }

  function Each<T, U>(f: T -> U, m: map<string, T>): (m': map<string, U>)
    ensures m'.Keys == m.Keys && forall k :: k in m ==> m'[k] == f(m[k])
  {
    map k | k in m :: f(m[k])
  }

  /**
   What is expected of a writer and its reader on `x`: reading back returns `x` exactly when `x` is
   canonical, and writing what was read back writes the same again.
   */
  ghost predicate Faithful<T(!new), U(!new)>(write: T -> U, read: U -> T, canonical: T -> bool, x: T) {
    && (read(write(x)) == x <==> canonical(x))
    && write(read(write(x))) == write(x)
  }

  lemma EachBack<T(!new), U(!new)>(write: T -> U, read: U -> T, ok: T -> bool, m: map<string, T>)
    requires forall k :: k in m ==> Faithful(write, read, ok, m[k])
    ensures Each(read, Each(write, m)) == m <==> forall k :: k in m ==> ok(m[k])
    ensures Each(write, Each(read, Each(write, m))) == Each(write, m)
    ensures Each(read, Each(write, m)).Keys == m.Keys
  {
    var m' := Each(read, Each(write, m));
    assert forall k :: k in m ==> m'[k] == read(write(m[k]));
    assert (forall k :: k in m ==> ok(m[k])) ==> m' == m;
  }

  lemma AllBack<T(!new), U(!new)>(write: T -> U, read: U -> T, ok: T -> bool, xs: seq<T>)
    requires forall i :: 0 <= i < |xs| ==> Faithful(write, read, ok, xs[i])
    ensures All(read, All(write, xs)) == xs <==> forall i :: 0 <= i < |xs| ==> ok(xs[i])
    ensures All(write, All(read, All(write, xs))) == All(write, xs)
  {
    var xs' := All(read, All(write, xs));
    assert forall i :: 0 <= i < |xs| ==> xs'[i] == read(write(xs[i]));
    assert (forall i :: 0 <= i < |xs| ==> ok(xs[i])) ==> xs' == xs;
  }

  lemma MapBack<T(!new)>(write: T -> Json, read: Json -> T, ok: T -> bool, m: map<string, T>)
    requires forall k :: k in m ==> Faithful(write, read, ok, m[k])
    ensures MapOf(read, Map(write, m)) == m <==> forall k :: k in m ==> ok(m[k])
    ensures Map(write, MapOf(read, Map(write, m))) == Map(write, m)
    ensures MapOf(read, Map(write, m)) == map[] <==> m == map[]
  {
    EachBack(write, read, ok, m);
    var m' := Each(read, Each(write, m));
    if m == map[] {
    } else {
      var k :| k in m;
      assert k in m';
    }
  }

  lemma ListBack<T(!new)>(write: T -> Json, read: Json -> T, ok: T -> bool, xs: seq<T>)
    requires forall i :: 0 <= i < |xs| ==> Faithful(write, read, ok, xs[i])
    ensures ListOf(read, List(write, xs)) == xs <==> forall i :: 0 <= i < |xs| ==> ok(xs[i])
    ensures List(write, ListOf(read, List(write, xs))) == List(write, xs)
  {
    AllBack(write, read, ok, xs);
    assert |All(read, All(write, xs))| == |xs|;
  }

  /** An object that is left out as a whole unless `keep` holds of it. */
  lemma SlotBack<T(!new)>(write: T -> Json, read: Json -> T, ok: T -> bool, keep: T -> bool, none: T, x: T)
    requires Faithful(write, read, ok, x)
    requires !keep(none) && (keep(x) ==> keep(read(write(x))))
    ensures One(read, none, If(keep(x), write(x))) == x <==> if keep(x) then ok(x) else x == none
    ensures keep(One(read, none, If(keep(x), write(x)))) == keep(x)
    ensures If(keep(x), write(One(read, none, If(keep(x), write(x))))) == If(keep(x), write(x))
  {
  }

  // ---------- What an object holds under a name, and what a reader makes of it ----------

  /** The object has the field `n` exactly when `present`, and then with this value. */
  ghost predicate Field(o: Fields, n: Name, present: bool, j: Json) {
    (n in o <==> present) && (present ==> o[n] == j)
  }

  /** An optional text: there unless it is empty. */
  ghost predicate TextField(o: Fields, n: Name, s: string) {
    Field(o, n, s != "", JStr(s))
  }

  /** The object has no fields but these. */
  ghost predicate OnlyFields(o: Fields, names: set<Name>) {
    forall n :: n in o ==> n in names
  }

  function JTexts(ss: seq<string>): Json { JArr(All(s => JStr(s), ss)) }

  ghost predicate ReadsText(o: Fields, n: Name, s: string) {
    (n !in o ==> s == "") && (n in o && o[n].JStr? ==> s == o[n].s)
  }

  ghost predicate ReadsFlag(o: Fields, n: Name, b: bool) {
    (n !in o ==> !b) && (n in o && o[n].JBool? ==> b == o[n].b)
  }

  ghost predicate ReadsReal(o: Fields, n: Name, r: real) {
    (n !in o ==> r == 0.0) && (n in o && o[n].JNum? ==> r == o[n].r)
  }

  ghost predicate ReadsWhole(o: Fields, n: Name, k: int) {
    (n !in o ==> k == 0) && (n in o && o[n].JInt? ==> k == o[n].n)
  }

  /** Text for text, the strings of an array. */
  ghost predicate AreTexts(js: seq<Json>, ss: seq<string>) {
    |ss| == |js| && forall i :: 0 <= i < |ss| && js[i].JStr? ==> ss[i] == js[i].s
  }

  ghost predicate ReadsTexts(o: Fields, n: Name, ss: seq<string>) {
    && (n !in o ==> ss == [])
    && (n in o && o[n].JArr? ==> AreTexts(o[n].items, ss))
  }

  ghost predicate ReadsOne<T>(o: Fields, n: Name, read: Json -> T, none: T, x: T) {
    x == if n in o then read(o[n]) else none
  }

  ghost predicate ReadsList<T>(o: Fields, n: Name, read: Json -> T, xs: seq<T>) {
    && (n !in o ==> xs == [])
    && (n in o && o[n].JArr? ==> |xs| == |o[n].items| && forall i :: 0 <= i < |xs| ==> xs[i] == read(o[n].items[i]))
  }

  ghost predicate ReadsMap<T>(o: Fields, n: Name, read: Json -> T, m: map<string, T>) {
    && (n !in o ==> m == map[])
    && (n in o && o[n].JMap? ==> m.Keys == o[n].entries.Keys && forall k :: k in m ==> m[k] == read(o[n].entries[k]))
  }

  // ---------- Objects with fixed field names ----------

  /** The object holding the fields for which `f` gives a value. */
  function Build(f: Name -> Option<Json>): (o: Fields)
    ensures forall n {:trigger Get(o, n)} :: Get(o, n) == f(n)
  {
    map n: Name | f(n).Some? :: f(n).value
  }

  lemma BuildSame(f: Name -> Option<Json>, g: Name -> Option<Json>)
    requires forall n :: f(n) == g(n)
    ensures Build(f) == Build(g)
  {
  }
}
