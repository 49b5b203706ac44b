/**
 OpenAPI documents and their JSON form. The serialiser leaves out empty fields, and some objects
 as a whole; reading back what it wrote returns the document exactly when nothing that was left
 out carried information.

 Each type comes as: the record, what is written for each field name, writer, reader, the
 canonical records, and the law that connects the three.
 */
module OpenApi {
  import opened Wrappers
  import opened OpenApiJson
  import opened OpenApiSchema

  // ---------- Contact ----------

  datatype Contact = Contact(name: string, url: string, email: string)

  function ContactField(c: Contact, n: Name): Option<Json> {
    if n.NName? then Text(c.name)
    else if n.NUrl? then Text(c.url)
    else if n.NEmail? then Text(c.email)
    else None
  }

  function ContactToJson(c: Contact): Json { JRec(Build(n => ContactField(c, n))) }

  function ContactFromJson(j: Json): Contact {
    var o := Record(j);
    Contact(Str(Get(o, NName)), Str(Get(o, NUrl)), Str(Get(o, NEmail)))
  }

  /** A contact always comes back, so writing it again writes the same. */
  lemma ContactBack(c: Contact)
    ensures ContactFromJson(ContactToJson(c)) == c
  {
  }

  lemma ContactLayout(c: Contact)
    ensures var o := Record(ContactToJson(c));
      && ContactToJson(c).JRec? && OnlyFields(o, {NName, NUrl, NEmail})
      && TextField(o, NName, c.name) && TextField(o, NUrl, c.url) && TextField(o, NEmail, c.email)
  {
  }

  lemma ContactReads(o: Fields)
    ensures var c := ContactFromJson(JRec(o));
      ReadsText(o, NName, c.name) && ReadsText(o, NUrl, c.url) && ReadsText(o, NEmail, c.email)
  {
  }

  // ---------- License ----------

  datatype License = License(name: string, url: string)

  function LicenseField(l: License, n: Name): Option<Json> {
    if n.NName? then Some(JStr(l.name))
    else if n.NUrl? then Text(l.url)
    else None
  }

  function LicenseToJson(l: License): Json { JRec(Build(n => LicenseField(l, n))) }

  function LicenseFromJson(j: Json): License {
    var o := Record(j);
    License(Str(Get(o, NName)), Str(Get(o, NUrl)))
  }

  lemma LicenseBack(l: License)
    ensures LicenseFromJson(LicenseToJson(l)) == l
  {
  }

  /** The name is always written. */
  lemma LicenseLayout(l: License)
    ensures var o := Record(LicenseToJson(l));
      && LicenseToJson(l).JRec? && OnlyFields(o, {NName, NUrl})
      && Field(o, NName, true, JStr(l.name)) && TextField(o, NUrl, l.url)
  {
  }

  lemma LicenseReads(o: Fields)
    ensures var l := LicenseFromJson(JRec(o)); ReadsText(o, NName, l.name) && ReadsText(o, NUrl, l.url)
  {
  }

  // ---------- Server and external documentation ----------

  /** Servers and external documentation have the same fields and the same JSON form. */
  datatype Link = Link(url: string, description: string)

  function LinkField(l: Link, n: Name): Option<Json> {
    if n.NUrl? then Some(JStr(l.url))
    else if n.NDescription? then Text(l.description)
    else None
  }

  function LinkToJson(l: Link): Json { JRec(Build(n => LinkField(l, n))) }

  function LinkFromJson(j: Json): Link {
    var o := Record(j);
    Link(Str(Get(o, NUrl)), Str(Get(o, NDescription)))
  }

  lemma LinkBack(l: Link)
    ensures LinkFromJson(LinkToJson(l)) == l
  {
  }

  const NO_LINK := Link("", "")

  /** External documentation without address is left out. */
  function DocsField(l: Link): Option<Json> { If(l.url != "", LinkToJson(l)) }

  predicate DocsOk(l: Link) { l.url != "" || l == NO_LINK }

  function DocsOf(f: Option<Json>): Link { One(LinkFromJson, NO_LINK, f) }

  lemma DocsBack(l: Link)
    ensures DocsOf(DocsField(l)) == l <==> DocsOk(l)
    ensures DocsField(DocsOf(DocsField(l))) == DocsField(l)
  {
    LinkBack(l);
  }

  /** The address is always written. */
  lemma LinkLayout(l: Link)
    ensures var o := Record(LinkToJson(l));
      && LinkToJson(l).JRec? && OnlyFields(o, {NUrl, NDescription})
      && Field(o, NUrl, true, JStr(l.url)) && TextField(o, NDescription, l.description)
  {
  }

  lemma LinkReads(o: Fields)
    ensures var l := LinkFromJson(JRec(o)); ReadsText(o, NUrl, l.url) && ReadsText(o, NDescription, l.description)
  {
  }

  // ---------- Info ----------

  datatype Info = Info(title: string, version: string, description: string, termsOfService: string,
                       contact: Contact, license: License)

  const NO_CONTACT := Contact("", "", "")

  const NO_LICENSE := License("", "")

  function InfoField(i: Info, n: Name): Option<Json> {
    if n.NTitle? then Some(JStr(i.title))
    else if n.NVersion? then Some(JStr(i.version))
    else if n.NDescription? then Text(i.description)
    else if n.NTermsOfService? then Text(i.termsOfService)
    else if n.NContact? then
      If(i.contact.name != "" || i.contact.url != "" || i.contact.email != "", ContactToJson(i.contact))
    else if n.NLicense? then If(i.license.name != "", LicenseToJson(i.license))
    else None
  }

  function InfoToJson(i: Info): Json { JRec(Build(n => InfoField(i, n))) }

  function InfoFromJson(j: Json): Info {
    var o := Record(j);
    Info(Str(Get(o, NTitle)), Str(Get(o, NVersion)), Str(Get(o, NDescription)), Str(Get(o, NTermsOfService)),
         One(ContactFromJson, NO_CONTACT, Get(o, NContact)), One(LicenseFromJson, NO_LICENSE, Get(o, NLicense)))
  }

  predicate InfoOk(i: Info) { i.license.name != "" || i.license == NO_LICENSE }

  lemma InfoBack(i: Info)
    ensures InfoFromJson(InfoToJson(i)) == i <==> InfoOk(i)
    ensures InfoToJson(InfoFromJson(InfoToJson(i))) == InfoToJson(i)
  {
    var i' := InfoFromJson(InfoToJson(i));
    ContactBack(i.contact);
    LicenseBack(i.license);
    assert i' == if i.license.name != "" then i else i.(license := NO_LICENSE);
    BuildSame(n => InfoField(i', n), n => InfoField(i, n));
  }

  /** Title and version are always written; contact and license only when they have something to say. */
  lemma InfoLayout(i: Info)
    ensures var o := Record(InfoToJson(i));
      && InfoToJson(i).JRec?
      && OnlyFields(o, {NTitle, NVersion, NDescription, NTermsOfService, NContact, NLicense})
      && Field(o, NTitle, true, JStr(i.title)) && Field(o, NVersion, true, JStr(i.version))
      && TextField(o, NDescription, i.description) && TextField(o, NTermsOfService, i.termsOfService)
      && Field(o, NContact, i.contact != Contact("", "", ""), ContactToJson(i.contact))
      && Field(o, NLicense, i.license.name != "", LicenseToJson(i.license))
  {
  }

  lemma InfoReads(o: Fields)
    ensures var i := InfoFromJson(JRec(o));
      && ReadsText(o, NTitle, i.title) && ReadsText(o, NVersion, i.version)
      && ReadsText(o, NDescription, i.description) && ReadsText(o, NTermsOfService, i.termsOfService)
      && ReadsOne(o, NContact, ContactFromJson, Contact("", "", ""), i.contact)
      && ReadsOne(o, NLicense, LicenseFromJson, License("", ""), i.license)
  {
  }

  // ---------- Tag ----------

  datatype Tag = Tag(name: string, description: string, externalDocs: Link)

  function TagField(t: Tag, n: Name): Option<Json> {
    if n.NName? then Some(JStr(t.name))
    else if n.NDescription? then Text(t.description)
    else if n.NExternalDocs? then DocsField(t.externalDocs)
    else None
  }

  function TagToJson(t: Tag): Json { JRec(Build(n => TagField(t, n))) }

  function TagFromJson(j: Json): Tag {
    var o := Record(j);
    Tag(Str(Get(o, NName)), Str(Get(o, NDescription)), DocsOf(Get(o, NExternalDocs)))
  }

  predicate TagOk(t: Tag) { DocsOk(t.externalDocs) }

  lemma TagBack(t: Tag)
    ensures Faithful(TagToJson, TagFromJson, TagOk, t)
  {
    var t' := TagFromJson(TagToJson(t));
    DocsBack(t.externalDocs);
    assert t' == t.(externalDocs := DocsOf(DocsField(t.externalDocs)));
    BuildSame(n => TagField(t', n), n => TagField(t, n));
  }

  lemma TagLayout(t: Tag)
    ensures var o := Record(TagToJson(t));
      && TagToJson(t).JRec? && OnlyFields(o, {NName, NDescription, NExternalDocs})
      && Field(o, NName, true, JStr(t.name)) && TextField(o, NDescription, t.description)
      && Field(o, NExternalDocs, t.externalDocs.url != "", LinkToJson(t.externalDocs))
  {
  }

  lemma TagReads(o: Fields)
    ensures var t := TagFromJson(JRec(o));
      && ReadsText(o, NName, t.name) && ReadsText(o, NDescription, t.description)
      && ReadsOne(o, NExternalDocs, LinkFromJson, Link("", ""), t.externalDocs)
  {
  }

  // ---------- Header ----------

  datatype Header = Header(description: string, required: bool, schema: Schema)

  /** The schema of a header or parameter is left out when it has neither type nor reference. */
  function TypedField(s: Schema): Option<Json> { If(HasTypeOrRef(s), SchemaToJson(s)) }

  ghost predicate TypedOk(s: Schema) { if HasTypeOrRef(s) then SchemaOk(s) else s == NO_SCHEMA }

  function SlotOf(f: Option<Json>): Schema { One(SchemaFromJson, NO_SCHEMA, f) }

  lemma TypedBack(s: Schema)
    ensures SlotOf(TypedField(s)) == s <==> TypedOk(s)
    ensures TypedField(SlotOf(TypedField(s))) == TypedField(s)
  {
    hide SchemaToJson, SchemaFromJson, SchemaOk;
    SchemaRoundTrip(s);
    ConditionsKept(s);
    SlotBack(SchemaToJson, SchemaFromJson, SchemaOk, HasTypeOrRef, NO_SCHEMA, s);
  }

  function HeaderField(h: Header, n: Name): Option<Json> {
    if n.NDescription? then Text(h.description)
    else if n.NRequired? then Flag(h.required)
    else if n.NSchema? then TypedField(h.schema)
    else None
  }

  function HeaderToJson(h: Header): Json { JRec(Build(n => HeaderField(h, n))) }

  function HeaderFromJson(j: Json): Header {
    var o := Record(j);
    Header(Str(Get(o, NDescription)), Bool(Get(o, NRequired)), SlotOf(Get(o, NSchema)))
  }

  ghost predicate HeaderOk(h: Header) { TypedOk(h.schema) }

  lemma HeaderBack(h: Header)
    ensures Faithful(HeaderToJson, HeaderFromJson, HeaderOk, h)
  {
    hide SchemaToJson, SchemaFromJson, SchemaOk;
    var h' := HeaderFromJson(HeaderToJson(h));
    TypedBack(h.schema);
    assert h' == h.(schema := SlotOf(TypedField(h.schema)));
    BuildSame(n => HeaderField(h', n), n => HeaderField(h, n));
  }

  lemma HeaderLayout(h: Header)
    ensures var o := Record(HeaderToJson(h));
      && HeaderToJson(h).JRec? && OnlyFields(o, {NDescription, NRequired, NSchema})
      && TextField(o, NDescription, h.description) && Field(o, NRequired, h.required, JBool(true))
      && Field(o, NSchema, h.schema.ty != "" || h.schema.ref != "", SchemaToJson(h.schema))
  {
    hide SchemaToJson;
  }

  lemma HeaderReads(o: Fields)
    ensures var h := HeaderFromJson(JRec(o));
      && ReadsText(o, NDescription, h.description) && ReadsFlag(o, NRequired, h.required)
      && ReadsOne(o, NSchema, SchemaFromJson, NO_SCHEMA, h.schema)
  {
    hide SchemaFromJson;
  }

  // ---------- Media type ----------

  datatype MediaType = MediaType(schema: Schema, example: string)

  /** The schema of a media type is also kept for its properties. */
  function ContentField(s: Schema): Option<Json> { If(HasContent(s), SchemaToJson(s)) }

  ghost predicate ContentOk(s: Schema) { if HasContent(s) then SchemaOk(s) else s == NO_SCHEMA }

  lemma ContentBack(s: Schema)
    ensures SlotOf(ContentField(s)) == s <==> ContentOk(s)
    ensures ContentField(SlotOf(ContentField(s))) == ContentField(s)
  {
    hide SchemaToJson, SchemaFromJson, SchemaOk;
    SchemaRoundTrip(s);
    ConditionsKept(s);
    SlotBack(SchemaToJson, SchemaFromJson, SchemaOk, HasContent, NO_SCHEMA, s);
  }

  function MediaTypeField(m: MediaType, n: Name): Option<Json> {
    if n.NSchema? then ContentField(m.schema)
    else if n.NExample? then Text(m.example)
    else None
  }

  function MediaTypeToJson(m: MediaType): Json { JRec(Build(n => MediaTypeField(m, n))) }

  function MediaTypeFromJson(j: Json): MediaType {
    var o := Record(j);
    MediaType(SlotOf(Get(o, NSchema)), Str(Get(o, NExample)))
  }

  ghost predicate MediaTypeOk(m: MediaType) { ContentOk(m.schema) }

  lemma MediaTypeBack(m: MediaType)
    ensures Faithful(MediaTypeToJson, MediaTypeFromJson, MediaTypeOk, m)
  {
    hide SchemaToJson, SchemaFromJson, SchemaOk;
    var m' := MediaTypeFromJson(MediaTypeToJson(m));
    ContentBack(m.schema);
    assert m' == m.(schema := SlotOf(ContentField(m.schema)));
    BuildSame(n => MediaTypeField(m', n), n => MediaTypeField(m, n));
  }

  lemma MediaTypeLayout(m: MediaType)
    ensures var o := Record(MediaTypeToJson(m));
      && MediaTypeToJson(m).JRec? && OnlyFields(o, {NSchema, NExample}) && TextField(o, NExample, m.example)
      && Field(o, NSchema, m.schema.ty != "" || m.schema.ref != "" || m.schema.properties != map[],
               SchemaToJson(m.schema))
  {
    hide SchemaToJson;
  }

  lemma MediaTypeReads(o: Fields)
    ensures var m := MediaTypeFromJson(JRec(o));
      ReadsOne(o, NSchema, SchemaFromJson, NO_SCHEMA, m.schema) && ReadsText(o, NExample, m.example)
  {
    hide SchemaFromJson;
  }

  // ---------- Response ----------

  datatype Response = Response(description: string, headers: map<string, Header>, content: map<string, MediaType>)

  function ResponseField(r: Response, n: Name): Option<Json> {
    if n.NDescription? then Some(JStr(r.description))
    else if n.NHeaders? then Map(HeaderToJson, r.headers)
    else if n.NContent? then Map(MediaTypeToJson, r.content)
    else None
  }

  function ResponseToJson(r: Response): Json { JRec(Build(n => ResponseField(r, n))) }

  function ResponseFromJson(j: Json): Response {
    var o := Record(j);
    Response(Str(Get(o, NDescription)), MapOf(HeaderFromJson, Get(o, NHeaders)),
             MapOf(MediaTypeFromJson, Get(o, NContent)))
  }

  ghost predicate ContentsOk(m: map<string, MediaType>) { forall k :: k in m ==> MediaTypeOk(m[k]) }

  ghost predicate HeadersOk(m: map<string, Header>) { forall k :: k in m ==> HeaderOk(m[k]) }

  ghost predicate ResponseOk(r: Response) { HeadersOk(r.headers) && ContentsOk(r.content) }

  lemma ContentsBack(m: map<string, MediaType>)
    ensures MapOf(MediaTypeFromJson, Map(MediaTypeToJson, m)) == m <==> ContentsOk(m)
    ensures Map(MediaTypeToJson, MapOf(MediaTypeFromJson, Map(MediaTypeToJson, m))) == Map(MediaTypeToJson, m)
    ensures MapOf(MediaTypeFromJson, Map(MediaTypeToJson, m)) == map[] <==> m == map[]
  {
    forall k | k in m ensures Faithful(MediaTypeToJson, MediaTypeFromJson, MediaTypeOk, m[k]) {
      MediaTypeBack(m[k]);
    }
    MapBack(MediaTypeToJson, MediaTypeFromJson, MediaTypeOk, m);
  }

  lemma HeadersBack(m: map<string, Header>)
    ensures MapOf(HeaderFromJson, Map(HeaderToJson, m)) == m <==> HeadersOk(m)
    ensures Map(HeaderToJson, MapOf(HeaderFromJson, Map(HeaderToJson, m))) == Map(HeaderToJson, m)
    ensures MapOf(HeaderFromJson, Map(HeaderToJson, m)) == map[] <==> m == map[]
  {
    forall k | k in m ensures Faithful(HeaderToJson, HeaderFromJson, HeaderOk, m[k]) {
      HeaderBack(m[k]);
    }
    MapBack(HeaderToJson, HeaderFromJson, HeaderOk, m);
  }

  lemma ResponseBack(r: Response)
    ensures Faithful(ResponseToJson, ResponseFromJson, ResponseOk, r)
  {
    hide Map, MapOf, HeadersOk, ContentsOk;
    var r' := ResponseFromJson(ResponseToJson(r));
    HeadersBack(r.headers);
    ContentsBack(r.content);
    assert r' == Response(r.description, MapOf(HeaderFromJson, Map(HeaderToJson, r.headers)),
                          MapOf(MediaTypeFromJson, Map(MediaTypeToJson, r.content)));
    BuildSame(n => ResponseField(r', n), n => ResponseField(r, n));
  }

  /** The description is always written. */
  lemma ResponseLayout(r: Response)
    ensures var o := Record(ResponseToJson(r));
      && ResponseToJson(r).JRec? && OnlyFields(o, {NDescription, NHeaders, NContent})
      && Field(o, NDescription, true, JStr(r.description))
      && Field(o, NHeaders, r.headers != map[], JMap(Each(HeaderToJson, r.headers)))
      && Field(o, NContent, r.content != map[], JMap(Each(MediaTypeToJson, r.content)))
  {
    hide HeaderToJson, MediaTypeToJson;
  }

  lemma ResponseReads(o: Fields)
    ensures var r := ResponseFromJson(JRec(o));
      && ReadsText(o, NDescription, r.description)
      && ReadsMap(o, NHeaders, HeaderFromJson, r.headers) && ReadsMap(o, NContent, MediaTypeFromJson, r.content)
  {
    hide HeaderFromJson, MediaTypeFromJson;
  }

  // ---------- Request body ----------

  datatype RequestBody = RequestBody(description: string, content: map<string, MediaType>, required: bool)

  const NO_BODY := RequestBody("", map[], false)

  function RequestBodyField(b: RequestBody, n: Name): Option<Json> {
    if n.NDescription? then Text(b.description)
    else if n.NContent? then Map(MediaTypeToJson, b.content)
    else if n.NRequired? then Flag(b.required)
    else None
  }

  function RequestBodyToJson(b: RequestBody): Json { JRec(Build(n => RequestBodyField(b, n))) }

  function RequestBodyFromJson(j: Json): RequestBody {
    var o := Record(j);
    RequestBody(Str(Get(o, NDescription)), MapOf(MediaTypeFromJson, Get(o, NContent)), Bool(Get(o, NRequired)))
  }

  ghost predicate RequestBodyOk(b: RequestBody) { ContentsOk(b.content) }

  predicate BodyKept(b: RequestBody) { b.content != map[] }

  lemma RequestBodyBack(b: RequestBody)
    ensures Faithful(RequestBodyToJson, RequestBodyFromJson, RequestBodyOk, b)
    ensures BodyKept(RequestBodyFromJson(RequestBodyToJson(b))) == BodyKept(b)
  {
    hide Map, MapOf, ContentsOk;
    var b' := RequestBodyFromJson(RequestBodyToJson(b));
    ContentsBack(b.content);
    assert b' == b.(content := MapOf(MediaTypeFromJson, Map(MediaTypeToJson, b.content)));
    BuildSame(n => RequestBodyField(b', n), n => RequestBodyField(b, n));
  }

  lemma RequestBodyLayout(b: RequestBody)
    ensures var o := Record(RequestBodyToJson(b));
      && RequestBodyToJson(b).JRec? && OnlyFields(o, {NDescription, NContent, NRequired})
      && TextField(o, NDescription, b.description) && Field(o, NRequired, b.required, JBool(true))
      && Field(o, NContent, b.content != map[], JMap(Each(MediaTypeToJson, b.content)))
  {
    hide MediaTypeToJson;
  }

  lemma RequestBodyReads(o: Fields)
    ensures var b := RequestBodyFromJson(JRec(o));
      && ReadsText(o, NDescription, b.description) && ReadsFlag(o, NRequired, b.required)
      && ReadsMap(o, NContent, MediaTypeFromJson, b.content)
  {
    hide MediaTypeFromJson;
  }

  // ---------- Parameter ----------

  datatype Parameter = Parameter(name: string, location: string, description: string, required: bool,
                                 deprecated: bool, schema: Schema, example: string)

  function ParameterField(p: Parameter, n: Name): Option<Json> {
    if n.NName? then Some(JStr(p.name))
    else if n.NIn? then Some(JStr(p.location))
    else if n.NDescription? then Text(p.description)
    else if n.NRequired? then Flag(p.required)
    else if n.NDeprecated? then Flag(p.deprecated)
    else if n.NSchema? then TypedField(p.schema)
    else if n.NExample? then Text(p.example)
    else None
  }

  function ParameterToJson(p: Parameter): Json { JRec(Build(n => ParameterField(p, n))) }

  function ParameterFromJson(j: Json): Parameter {
    var o := Record(j);
    Parameter(Str(Get(o, NName)), Str(Get(o, NIn)), Str(Get(o, NDescription)), Bool(Get(o, NRequired)),
              Bool(Get(o, NDeprecated)), SlotOf(Get(o, NSchema)), Str(Get(o, NExample)))
  }

  ghost predicate ParameterOk(p: Parameter) { TypedOk(p.schema) }

  lemma ParameterBack(p: Parameter)
    ensures Faithful(ParameterToJson, ParameterFromJson, ParameterOk, p)
  {
    hide TypedField, SlotOf, TypedOk;
    var p' := ParameterFromJson(ParameterToJson(p));
    TypedBack(p.schema);
    assert p' == p.(schema := SlotOf(TypedField(p.schema)));
    BuildSame(n => ParameterField(p', n), n => ParameterField(p, n));
  }

  /** Name and location are always written. */
  lemma ParameterLayout(p: Parameter)
    ensures var o := Record(ParameterToJson(p));
      && ParameterToJson(p).JRec?
      && OnlyFields(o, {NName, NIn, NDescription, NRequired, NDeprecated, NSchema, NExample})
      && Field(o, NName, true, JStr(p.name)) && Field(o, NIn, true, JStr(p.location))
      && TextField(o, NDescription, p.description) && TextField(o, NExample, p.example)
      && Field(o, NRequired, p.required, JBool(true)) && Field(o, NDeprecated, p.deprecated, JBool(true))
      && Field(o, NSchema, p.schema.ty != "" || p.schema.ref != "", SchemaToJson(p.schema))
  {
    hide SchemaToJson;
  }

  lemma ParameterReads(o: Fields)
    ensures var p := ParameterFromJson(JRec(o));
      && ReadsText(o, NName, p.name) && ReadsText(o, NIn, p.location) && ReadsText(o, NDescription, p.description)
      && ReadsFlag(o, NRequired, p.required) && ReadsFlag(o, NDeprecated, p.deprecated)
      && ReadsOne(o, NSchema, SchemaFromJson, NO_SCHEMA, p.schema) && ReadsText(o, NExample, p.example)
  {
    hide SchemaFromJson;
  }

  ghost predicate ParametersOk(ps: seq<Parameter>) { forall i :: 0 <= i < |ps| ==> ParameterOk(ps[i]) }

  lemma ParametersBack(ps: seq<Parameter>)
    ensures ListOf(ParameterFromJson, List(ParameterToJson, ps)) == ps <==> ParametersOk(ps)
    ensures List(ParameterToJson, ListOf(ParameterFromJson, List(ParameterToJson, ps))) == List(ParameterToJson, ps)
  {
    forall i | 0 <= i < |ps| ensures Faithful(ParameterToJson, ParameterFromJson, ParameterOk, ps[i]) {
      ParameterBack(ps[i]);
    }
    ListBack(ParameterToJson, ParameterFromJson, ParameterOk, ps);
  }

  // ---------- Security requirements ----------

  /** For each scheme, the scopes asked for. */
  type Requirement = map<string, seq<string>>

  function ScopesToJson(scopes: seq<string>): Json { JArr(All(s => JStr(s), scopes)) }

  function ScopesFromJson(j: Json): seq<string> { ListOf(TextOf, Some(j)) }

  function RequirementToJson(r: Requirement): Json { JMap(Each(ScopesToJson, r)) }

  function RequirementFromJson(j: Json): Requirement { MapOf(ScopesFromJson, Some(j)) }

  function SecurityField(rs: seq<Requirement>): Option<Json> { List(RequirementToJson, rs) }

  function SecurityOf(f: Option<Json>): seq<Requirement> { ListOf(RequirementFromJson, f) }

  lemma RequirementBack(r: Requirement)
    ensures RequirementFromJson(RequirementToJson(r)) == r
  {
    var r' := RequirementFromJson(RequirementToJson(r));
    forall k | k in r ensures r'[k] == r[k] {
      assert All(TextOf, All(s => JStr(s), r[k])) == r[k];
    }
  }

  /** Security requirements always come back, including empty ones and empty scope lists. */
  lemma SecurityBack(rs: seq<Requirement>)
    ensures SecurityOf(SecurityField(rs)) == rs
  {
    forall i | 0 <= i < |rs| ensures RequirementFromJson(RequirementToJson(rs[i])) == rs[i] {
      RequirementBack(rs[i]);
    }
  }

  /** A requirement is an object from scheme names to arrays of scopes. */
  lemma RequirementLayout(r: Requirement)
    ensures var j := RequirementToJson(r);
      j.JMap? && j.entries.Keys == r.Keys && forall k :: k in r ==> j.entries[k] == JTexts(r[k])
  {
  }

  lemma RequirementReads(m: map<string, Json>)
    ensures var r := RequirementFromJson(JMap(m));
      && r.Keys == m.Keys
      && forall k :: k in m && m[k].JArr? ==> AreTexts(m[k].items, r[k])
  {
  }

  // ---------- Operation ----------

  datatype Operation = Operation(summary: string, description: string, operationId: string, tags: seq<string>,
                                 parameters: seq<Parameter>, requestBody: RequestBody,
                                 responses: map<string, Response>, deprecated: bool, security: seq<Requirement>)

  const NO_OPERATION := Operation("", "", "", [], [], NO_BODY, map[], false, [])

  /** A request body without content is left out. */
  function BodyField(b: RequestBody): Option<Json> { If(BodyKept(b), RequestBodyToJson(b)) }

  ghost predicate BodyOk(b: RequestBody) { if BodyKept(b) then RequestBodyOk(b) else b == NO_BODY }

  function BodyOf(f: Option<Json>): RequestBody { One(RequestBodyFromJson, NO_BODY, f) }

  lemma BodyBack(b: RequestBody)
    ensures BodyOf(BodyField(b)) == b <==> BodyOk(b)
    ensures BodyField(BodyOf(BodyField(b))) == BodyField(b)
  {
    hide RequestBodyToJson, RequestBodyFromJson, RequestBodyOk;
    RequestBodyBack(b);
    SlotBack(RequestBodyToJson, RequestBodyFromJson, RequestBodyOk, BodyKept, NO_BODY, b);
  }

  ghost predicate ResponsesOk(m: map<string, Response>) { forall k :: k in m ==> ResponseOk(m[k]) }

  lemma ResponsesBack(m: map<string, Response>)
    ensures MapOf(ResponseFromJson, Map(ResponseToJson, m)) == m <==> ResponsesOk(m)
    ensures Map(ResponseToJson, MapOf(ResponseFromJson, Map(ResponseToJson, m))) == Map(ResponseToJson, m)
    ensures MapOf(ResponseFromJson, Map(ResponseToJson, m)) == map[] <==> m == map[]
  {
    forall k | k in m ensures Faithful(ResponseToJson, ResponseFromJson, ResponseOk, m[k]) {
      ResponseBack(m[k]);
    }
    MapBack(ResponseToJson, ResponseFromJson, ResponseOk, m);
  }

  function OperationField(op: Operation, n: Name): Option<Json> {
    if n.NSummary? then Text(op.summary)
    else if n.NDescription? then Text(op.description)
    else if n.NOperationId? then Text(op.operationId)
    else if n.NTags? then Texts(op.tags)
    else if n.NParameters? then List(ParameterToJson, op.parameters)
    else if n.NRequestBody? then BodyField(op.requestBody)
    else if n.NResponses? then Map(ResponseToJson, op.responses)
    else if n.NDeprecated? then Flag(op.deprecated)
    else if n.NSecurity? then SecurityField(op.security)
    else None
  }

  function OperationToJson(op: Operation): Json { JRec(Build(n => OperationField(op, n))) }

  function OperationFromJson(j: Json): Operation {
    var o := Record(j);
    Operation(Str(Get(o, NSummary)), Str(Get(o, NDescription)), Str(Get(o, NOperationId)),
              ListOf(TextOf, Get(o, NTags)), ListOf(ParameterFromJson, Get(o, NParameters)),
              BodyOf(Get(o, NRequestBody)), MapOf(ResponseFromJson, Get(o, NResponses)),
              Bool(Get(o, NDeprecated)), SecurityOf(Get(o, NSecurity)))
  }

  ghost predicate OperationOk(op: Operation) {
    ParametersOk(op.parameters) && BodyOk(op.requestBody) && ResponsesOk(op.responses)
  }

  predicate OperationKept(op: Operation) { op.responses != map[] }

  lemma OperationRead(op: Operation)
    ensures OperationFromJson(OperationToJson(op)) ==
      op.(parameters := ListOf(ParameterFromJson, List(ParameterToJson, op.parameters)),
          requestBody := BodyOf(BodyField(op.requestBody)),
          responses := MapOf(ResponseFromJson, Map(ResponseToJson, op.responses)))
  {
    hide List, ListOf, Map, MapOf, BodyOf, BodyField, SecurityField, SecurityOf;
    SecurityBack(op.security);
  }

  lemma OperationBack(op: Operation)
    ensures Faithful(OperationToJson, OperationFromJson, OperationOk, op)
    ensures OperationKept(OperationFromJson(OperationToJson(op))) == OperationKept(op)
  {
    hide List, ListOf, Map, MapOf, BodyOf, BodyField, SecurityField, OperationFromJson;
    hide ParametersOk, BodyOk, ResponsesOk;
    var op' := OperationFromJson(OperationToJson(op));
    OperationRead(op);
    ParametersBack(op.parameters);
    BodyBack(op.requestBody);
    ResponsesBack(op.responses);
    BuildSame(n => OperationField(op', n), n => OperationField(op, n));
  }

  lemma OperationLayout(op: Operation)
    ensures var o := Record(OperationToJson(op));
      && OperationToJson(op).JRec?
      && OnlyFields(o, {NSummary, NDescription, NOperationId, NTags, NParameters, NRequestBody, NResponses,
                        NDeprecated, NSecurity})
      && TextField(o, NSummary, op.summary) && TextField(o, NDescription, op.description)
      && TextField(o, NOperationId, op.operationId) && Field(o, NDeprecated, op.deprecated, JBool(true))
      && Field(o, NTags, op.tags != [], JTexts(op.tags))
      && Field(o, NParameters, op.parameters != [], JArr(All(ParameterToJson, op.parameters)))
      && Field(o, NRequestBody, op.requestBody.content != map[], RequestBodyToJson(op.requestBody))
      && Field(o, NResponses, op.responses != map[], JMap(Each(ResponseToJson, op.responses)))
      && Field(o, NSecurity, op.security != [], JArr(All(RequirementToJson, op.security)))
  {
    hide ParameterToJson, RequestBodyToJson, ResponseToJson, RequirementToJson;
  }

  lemma OperationReads(o: Fields)
    ensures var op := OperationFromJson(JRec(o));
      && ReadsText(o, NSummary, op.summary) && ReadsText(o, NDescription, op.description)
      && ReadsText(o, NOperationId, op.operationId) && ReadsFlag(o, NDeprecated, op.deprecated)
      && ReadsTexts(o, NTags, op.tags) && ReadsList(o, NParameters, ParameterFromJson, op.parameters)
      && ReadsOne(o, NRequestBody, RequestBodyFromJson, NO_BODY, op.requestBody)
      && ReadsMap(o, NResponses, ResponseFromJson, op.responses)
      && ReadsList(o, NSecurity, RequirementFromJson, op.security)
  {
    hide ParameterFromJson, RequestBodyFromJson, ResponseFromJson, RequirementFromJson;
  }

  // ---------- Path item ----------

  datatype PathItem = PathItem(get: Operation, post: Operation, put: Operation, delete: Operation, patch: Operation,
                               head: Operation, options: Operation, summary: string, description: string,
                               parameters: seq<Parameter>)

  /** An operation without responses is left out. */
  function MethodField(op: Operation): Option<Json> { If(OperationKept(op), OperationToJson(op)) }

  ghost predicate MethodOk(op: Operation) { if OperationKept(op) then OperationOk(op) else op == NO_OPERATION }

  function MethodOf(f: Option<Json>): Operation { One(OperationFromJson, NO_OPERATION, f) }

  lemma MethodBack(op: Operation)
    ensures MethodOf(MethodField(op)) == op <==> MethodOk(op)
    ensures MethodField(MethodOf(MethodField(op))) == MethodField(op)
  {
    hide OperationToJson, OperationFromJson, OperationOk;
    OperationBack(op);
    SlotBack(OperationToJson, OperationFromJson, OperationOk, OperationKept, NO_OPERATION, op);
  }

  function PathItemField(p: PathItem, n: Name): Option<Json> {
    if n.NSummary? then Text(p.summary)
    else if n.NDescription? then Text(p.description)
    else if n.NParameters? then List(ParameterToJson, p.parameters)
    else if n.NGet? then MethodField(p.get)
    else if n.NPost? then MethodField(p.post)
    else if n.NPut? then MethodField(p.put)
    else if n.NDelete? then MethodField(p.delete)
    else if n.NPatch? then MethodField(p.patch)
    else if n.NHead? then MethodField(p.head)
    else if n.NOptions? then MethodField(p.options)
    else None
  }

  function PathItemToJson(p: PathItem): Json { JRec(Build(n => PathItemField(p, n))) }

  function PathItemFromJson(j: Json): PathItem {
    var o := Record(j);
    PathItem(MethodOf(Get(o, NGet)), MethodOf(Get(o, NPost)), MethodOf(Get(o, NPut)), MethodOf(Get(o, NDelete)),
             MethodOf(Get(o, NPatch)), MethodOf(Get(o, NHead)), MethodOf(Get(o, NOptions)),
             Str(Get(o, NSummary)), Str(Get(o, NDescription)), ListOf(ParameterFromJson, Get(o, NParameters)))
  }

  ghost predicate PathItemOk(p: PathItem) {
    && MethodOk(p.get) && MethodOk(p.post) && MethodOk(p.put) && MethodOk(p.delete)
    && MethodOk(p.patch) && MethodOk(p.head) && MethodOk(p.options) && ParametersOk(p.parameters)
  }

  function MethodAgain(op: Operation): Operation { MethodOf(MethodField(op)) }

  lemma PathItemRead(p: PathItem)
    ensures PathItemFromJson(PathItemToJson(p)) ==
      PathItem(MethodAgain(p.get), MethodAgain(p.post), MethodAgain(p.put), MethodAgain(p.delete),
               MethodAgain(p.patch), MethodAgain(p.head), MethodAgain(p.options), p.summary, p.description,
               ListOf(ParameterFromJson, List(ParameterToJson, p.parameters)))
  {
    hide List, ListOf, MethodField, MethodOf;
  }

  lemma PathItemBack(p: PathItem)
    ensures Faithful(PathItemToJson, PathItemFromJson, PathItemOk, p)
  {
    hide List, ListOf, MethodField, MethodOf, MethodOk, ParametersOk, PathItemFromJson;
    var p' := PathItemFromJson(PathItemToJson(p));
    PathItemRead(p);
    MethodBack(p.get);
    MethodBack(p.post);
    MethodBack(p.put);
    MethodBack(p.delete);
    MethodBack(p.patch);
    MethodBack(p.head);
    MethodBack(p.options);
    ParametersBack(p.parameters);
    BuildSame(n => PathItemField(p', n), n => PathItemField(p, n));
  }

  lemma PathItemLayout(p: PathItem)
    ensures var o := Record(PathItemToJson(p));
      && PathItemToJson(p).JRec?
      && OnlyFields(o, {NGet, NPost, NPut, NDelete, NPatch, NHead, NOptions, NSummary, NDescription, NParameters})
      && Field(o, NGet, p.get.responses != map[], OperationToJson(p.get))
      && Field(o, NPost, p.post.responses != map[], OperationToJson(p.post))
      && Field(o, NPut, p.put.responses != map[], OperationToJson(p.put))
      && Field(o, NDelete, p.delete.responses != map[], OperationToJson(p.delete))
      && Field(o, NPatch, p.patch.responses != map[], OperationToJson(p.patch))
      && Field(o, NHead, p.head.responses != map[], OperationToJson(p.head))
      && Field(o, NOptions, p.options.responses != map[], OperationToJson(p.options))
      && TextField(o, NSummary, p.summary) && TextField(o, NDescription, p.description)
      && Field(o, NParameters, p.parameters != [], JArr(All(ParameterToJson, p.parameters)))
  {
    hide OperationToJson, ParameterToJson;
  }

  lemma PathItemReads(o: Fields)
    ensures var p := PathItemFromJson(JRec(o));
      && ReadsOne(o, NGet, OperationFromJson, NO_OPERATION, p.get)
      && ReadsOne(o, NPost, OperationFromJson, NO_OPERATION, p.post)
      && ReadsOne(o, NPut, OperationFromJson, NO_OPERATION, p.put)
      && ReadsOne(o, NDelete, OperationFromJson, NO_OPERATION, p.delete)
      && ReadsOne(o, NPatch, OperationFromJson, NO_OPERATION, p.patch)
      && ReadsOne(o, NHead, OperationFromJson, NO_OPERATION, p.head)
      && ReadsOne(o, NOptions, OperationFromJson, NO_OPERATION, p.options)
      && ReadsText(o, NSummary, p.summary) && ReadsText(o, NDescription, p.description)
      && ReadsList(o, NParameters, ParameterFromJson, p.parameters)
  {
    hide OperationFromJson, ParameterFromJson;
  }

  // ---------- Security scheme ----------

  datatype SecurityScheme = SecurityScheme(ty: string, description: string, name: string, location: string,
                                           scheme: string, bearerFormat: string)

  function SecuritySchemeField(s: SecurityScheme, n: Name): Option<Json> {
    if n.NType? then Text(s.ty)
    else if n.NDescription? then Text(s.description)
    else if n.NName? then Text(s.name)
    else if n.NIn? then Text(s.location)
    else if n.NScheme? then Text(s.scheme)
    else if n.NBearerFormat? then Text(s.bearerFormat)
    else None
  }

  function SecuritySchemeToJson(s: SecurityScheme): Json { JRec(Build(n => SecuritySchemeField(s, n))) }

  function SecuritySchemeFromJson(j: Json): SecurityScheme {
    var o := Record(j);
    SecurityScheme(Str(Get(o, NType)), Str(Get(o, NDescription)), Str(Get(o, NName)), Str(Get(o, NIn)),
                   Str(Get(o, NScheme)), Str(Get(o, NBearerFormat)))
  }

  lemma SecuritySchemeBack(s: SecurityScheme)
    ensures SecuritySchemeFromJson(SecuritySchemeToJson(s)) == s
  {
  }

  lemma SecuritySchemeLayout(s: SecurityScheme)
    ensures var o := Record(SecuritySchemeToJson(s));
      && SecuritySchemeToJson(s).JRec?
      && OnlyFields(o, {NType, NDescription, NName, NIn, NScheme, NBearerFormat})
      && TextField(o, NType, s.ty) && TextField(o, NDescription, s.description) && TextField(o, NName, s.name)
      && TextField(o, NIn, s.location) && TextField(o, NScheme, s.scheme)
      && TextField(o, NBearerFormat, s.bearerFormat)
  {
  }

  lemma SecuritySchemeReads(o: Fields)
    ensures var s := SecuritySchemeFromJson(JRec(o));
      && ReadsText(o, NType, s.ty) && ReadsText(o, NDescription, s.description) && ReadsText(o, NName, s.name)
      && ReadsText(o, NIn, s.location) && ReadsText(o, NScheme, s.scheme)
      && ReadsText(o, NBearerFormat, s.bearerFormat)
  {
  }

  // ---------- Components ----------

  datatype Components = Components(schemas: map<string, Schema>, responses: map<string, Response>,
                                   parameters: map<string, Parameter>, requestBodies: map<string, RequestBody>,
                                   headers: map<string, Header>, securitySchemes: map<string, SecurityScheme>)

  const NO_COMPONENTS := Components(map[], map[], map[], map[], map[], map[])

  function ComponentsField(c: Components, n: Name): Option<Json> {
    if n.NSchemas? then Map(SchemaToJson, c.schemas)
    else if n.NResponses? then Map(ResponseToJson, c.responses)
    else if n.NParameters? then Map(ParameterToJson, c.parameters)
    else if n.NRequestBodies? then Map(RequestBodyToJson, c.requestBodies)
    else if n.NHeaders? then Map(HeaderToJson, c.headers)
    else if n.NSecuritySchemes? then Map(SecuritySchemeToJson, c.securitySchemes)
    else None
  }

  function ComponentsToJson(c: Components): Json { JRec(Build(n => ComponentsField(c, n))) }

  function ComponentsFromJson(j: Json): Components {
    var o := Record(j);
    Components(MapOf(SchemaFromJson, Get(o, NSchemas)), MapOf(ResponseFromJson, Get(o, NResponses)),
               MapOf(ParameterFromJson, Get(o, NParameters)), MapOf(RequestBodyFromJson, Get(o, NRequestBodies)),
               MapOf(HeaderFromJson, Get(o, NHeaders)), MapOf(SecuritySchemeFromJson, Get(o, NSecuritySchemes)))
  }

  ghost predicate SchemasOk(m: map<string, Schema>) { forall k :: k in m ==> SchemaOk(m[k]) }

  ghost predicate NamedParametersOk(m: map<string, Parameter>) { forall k :: k in m ==> ParameterOk(m[k]) }

  ghost predicate RequestBodiesOk(m: map<string, RequestBody>) { forall k :: k in m ==> RequestBodyOk(m[k]) }

  ghost predicate ComponentsOk(c: Components) {
    && SchemasOk(c.schemas) && ResponsesOk(c.responses) && NamedParametersOk(c.parameters)
    && RequestBodiesOk(c.requestBodies) && HeadersOk(c.headers)
  }

  predicate ComponentsKept(c: Components) { c != NO_COMPONENTS }

  lemma SchemasBack(m: map<string, Schema>)
    ensures MapOf(SchemaFromJson, Map(SchemaToJson, m)) == m <==> SchemasOk(m)
    ensures Map(SchemaToJson, MapOf(SchemaFromJson, Map(SchemaToJson, m))) == Map(SchemaToJson, m)
    ensures MapOf(SchemaFromJson, Map(SchemaToJson, m)) == map[] <==> m == map[]
  {
    forall k | k in m ensures Faithful(SchemaToJson, SchemaFromJson, SchemaOk, m[k]) {
      SchemaRoundTrip(m[k]);
    }
    MapBack(SchemaToJson, SchemaFromJson, SchemaOk, m);
  }

  lemma NamedParametersBack(m: map<string, Parameter>)
    ensures MapOf(ParameterFromJson, Map(ParameterToJson, m)) == m <==> NamedParametersOk(m)
    ensures Map(ParameterToJson, MapOf(ParameterFromJson, Map(ParameterToJson, m))) == Map(ParameterToJson, m)
    ensures MapOf(ParameterFromJson, Map(ParameterToJson, m)) == map[] <==> m == map[]
  {
    forall k | k in m ensures Faithful(ParameterToJson, ParameterFromJson, ParameterOk, m[k]) {
      ParameterBack(m[k]);
    }
    MapBack(ParameterToJson, ParameterFromJson, ParameterOk, m);
  }

  lemma RequestBodiesBack(m: map<string, RequestBody>)
    ensures MapOf(RequestBodyFromJson, Map(RequestBodyToJson, m)) == m <==> RequestBodiesOk(m)
    ensures Map(RequestBodyToJson, MapOf(RequestBodyFromJson, Map(RequestBodyToJson, m))) == Map(RequestBodyToJson, m)
    ensures MapOf(RequestBodyFromJson, Map(RequestBodyToJson, m)) == map[] <==> m == map[]
  {
    forall k | k in m ensures Faithful(RequestBodyToJson, RequestBodyFromJson, RequestBodyOk, m[k]) {
      RequestBodyBack(m[k]);
    }
    MapBack(RequestBodyToJson, RequestBodyFromJson, RequestBodyOk, m);
  }

  lemma SecuritySchemesBack(m: map<string, SecurityScheme>)
    ensures MapOf(SecuritySchemeFromJson, Map(SecuritySchemeToJson, m)) == m
  {
    forall k | k in m
      ensures Faithful(SecuritySchemeToJson, SecuritySchemeFromJson, (s: SecurityScheme) => true, m[k])
    {
      SecuritySchemeBack(m[k]);
    }
    MapBack(SecuritySchemeToJson, SecuritySchemeFromJson, (s: SecurityScheme) => true, m);
  }

  lemma ComponentsRead(c: Components)
    ensures ComponentsFromJson(ComponentsToJson(c)) ==
      Components(MapOf(SchemaFromJson, Map(SchemaToJson, c.schemas)),
                 MapOf(ResponseFromJson, Map(ResponseToJson, c.responses)),
                 MapOf(ParameterFromJson, Map(ParameterToJson, c.parameters)),
                 MapOf(RequestBodyFromJson, Map(RequestBodyToJson, c.requestBodies)),
                 MapOf(HeaderFromJson, Map(HeaderToJson, c.headers)),
                 MapOf(SecuritySchemeFromJson, Map(SecuritySchemeToJson, c.securitySchemes)))
  {
    hide Map, MapOf;
  }

  lemma ComponentsBack(c: Components)
    ensures Faithful(ComponentsToJson, ComponentsFromJson, ComponentsOk, c)
    ensures ComponentsKept(ComponentsFromJson(ComponentsToJson(c))) == ComponentsKept(c)
  {
    hide Map, MapOf, SchemasOk, ResponsesOk, NamedParametersOk, RequestBodiesOk, HeadersOk, ComponentsFromJson;
    var c' := ComponentsFromJson(ComponentsToJson(c));
    ComponentsRead(c);
    SchemasBack(c.schemas);
    ResponsesBack(c.responses);
    NamedParametersBack(c.parameters);
    RequestBodiesBack(c.requestBodies);
    HeadersBack(c.headers);
    SecuritySchemesBack(c.securitySchemes);
    BuildSame(n => ComponentsField(c', n), n => ComponentsField(c, n));
  }

  lemma ComponentsLayout(c: Components)
    ensures var o := Record(ComponentsToJson(c));
      && ComponentsToJson(c).JRec?
      && OnlyFields(o, {NSchemas, NResponses, NParameters, NRequestBodies, NHeaders, NSecuritySchemes})
      && Field(o, NSchemas, c.schemas != map[], JMap(Each(SchemaToJson, c.schemas)))
      && Field(o, NResponses, c.responses != map[], JMap(Each(ResponseToJson, c.responses)))
      && Field(o, NParameters, c.parameters != map[], JMap(Each(ParameterToJson, c.parameters)))
      && Field(o, NRequestBodies, c.requestBodies != map[], JMap(Each(RequestBodyToJson, c.requestBodies)))
      && Field(o, NHeaders, c.headers != map[], JMap(Each(HeaderToJson, c.headers)))
      && Field(o, NSecuritySchemes, c.securitySchemes != map[], JMap(Each(SecuritySchemeToJson, c.securitySchemes)))
  {
    hide SchemaToJson, ResponseToJson, ParameterToJson, RequestBodyToJson, HeaderToJson, SecuritySchemeToJson;
  }

  lemma ComponentsReads(o: Fields)
    ensures var c := ComponentsFromJson(JRec(o));
      && ReadsMap(o, NSchemas, SchemaFromJson, c.schemas) && ReadsMap(o, NResponses, ResponseFromJson, c.responses)
      && ReadsMap(o, NParameters, ParameterFromJson, c.parameters)
      && ReadsMap(o, NRequestBodies, RequestBodyFromJson, c.requestBodies)
      && ReadsMap(o, NHeaders, HeaderFromJson, c.headers)
      && ReadsMap(o, NSecuritySchemes, SecuritySchemeFromJson, c.securitySchemes)
  {
    hide SchemaFromJson, ResponseFromJson, ParameterFromJson, RequestBodyFromJson, HeaderFromJson, SecuritySchemeFromJson;
  }

  // ---------- Document ----------

  datatype Document = Document(openapi: string, info: Info, servers: seq<Link>, paths: map<string, PathItem>,
                               components: Components, security: seq<Requirement>, tags: seq<Tag>,
                               externalDocs: Link)

  const NO_INFO := Info("", "", "", "", NO_CONTACT, NO_LICENSE)

  /** Components are left out when all their maps are empty. */
  function ComponentsSlot(c: Components): Option<Json> { If(ComponentsKept(c), ComponentsToJson(c)) }

  function ComponentsOf(f: Option<Json>): Components { One(ComponentsFromJson, NO_COMPONENTS, f) }

  lemma ComponentsSlotBack(c: Components)
    ensures ComponentsOf(ComponentsSlot(c)) == c <==> ComponentsOk(c)
    ensures ComponentsSlot(ComponentsOf(ComponentsSlot(c))) == ComponentsSlot(c)
  {
    assert ComponentsOk(NO_COMPONENTS);
    hide ComponentsToJson, ComponentsFromJson, ComponentsOk;
    ComponentsBack(c);
    SlotBack(ComponentsToJson, ComponentsFromJson, ComponentsOk, ComponentsKept, NO_COMPONENTS, c);
  }

  function PathsToJson(m: map<string, PathItem>): Json { JMap(Each(PathItemToJson, m)) }

  function PathsOf(f: Option<Json>): map<string, PathItem> { MapOf(PathItemFromJson, f) }

  ghost predicate PathsOk(m: map<string, PathItem>) { forall k :: k in m ==> PathItemOk(m[k]) }

  lemma PathsBack(m: map<string, PathItem>)
    ensures PathsOf(Some(PathsToJson(m))) == m <==> PathsOk(m)
    ensures PathsToJson(PathsOf(Some(PathsToJson(m)))) == PathsToJson(m)
  {
    hide PathItemToJson, PathItemFromJson, PathItemOk;
    forall k | k in m ensures Faithful(PathItemToJson, PathItemFromJson, PathItemOk, m[k]) {
      PathItemBack(m[k]);
    }
    EachBack(PathItemToJson, PathItemFromJson, PathItemOk, m);
  }

  lemma ServersBack(ls: seq<Link>)
    ensures ListOf(LinkFromJson, List(LinkToJson, ls)) == ls
  {
    forall i | 0 <= i < |ls| ensures Faithful(LinkToJson, LinkFromJson, (l: Link) => true, ls[i]) {
      LinkBack(ls[i]);
    }
    ListBack(LinkToJson, LinkFromJson, (l: Link) => true, ls);
  }

  ghost predicate TagsOk(ts: seq<Tag>) { forall i :: 0 <= i < |ts| ==> TagOk(ts[i]) }

  lemma TagsBack(ts: seq<Tag>)
    ensures ListOf(TagFromJson, List(TagToJson, ts)) == ts <==> TagsOk(ts)
    ensures List(TagToJson, ListOf(TagFromJson, List(TagToJson, ts))) == List(TagToJson, ts)
  {
    forall i | 0 <= i < |ts| ensures Faithful(TagToJson, TagFromJson, TagOk, ts[i]) {
      TagBack(ts[i]);
    }
    ListBack(TagToJson, TagFromJson, TagOk, ts);
  }

  function DocumentField(d: Document, n: Name): Option<Json> {
    if n.NOpenapi? then Some(JStr(d.openapi))
    else if n.NInfo? then Some(InfoToJson(d.info))
    else if n.NServers? then List(LinkToJson, d.servers)
    else if n.NPaths? then Some(PathsToJson(d.paths))
    else if n.NComponents? then ComponentsSlot(d.components)
    else if n.NSecurity? then SecurityField(d.security)
    else if n.NTags? then List(TagToJson, d.tags)
    else if n.NExternalDocs? then DocsField(d.externalDocs)
    else None
  }

  function DocumentToJson(d: Document): Json { JRec(Build(n => DocumentField(d, n))) }

  function DocumentFromJson(j: Json): Document {
    var o := Record(j);
    Document(Str(Get(o, NOpenapi)), One(InfoFromJson, NO_INFO, Get(o, NInfo)),
             ListOf(LinkFromJson, Get(o, NServers)), PathsOf(Get(o, NPaths)), ComponentsOf(Get(o, NComponents)),
             SecurityOf(Get(o, NSecurity)), ListOf(TagFromJson, Get(o, NTags)), DocsOf(Get(o, NExternalDocs)))
  }

  /**
   Nothing the serialiser leaves out carries information: no field beside a reference, no operation
   without responses, no schema without content, no nameless license, no body without content and
   no external documentation without address, unless it is the empty one.
   */
  ghost predicate Canonical(d: Document) {
    InfoOk(d.info) && PathsOk(d.paths) && ComponentsOk(d.components) && TagsOk(d.tags) && DocsOk(d.externalDocs)
  }

  lemma DocumentRead(d: Document)
    ensures DocumentFromJson(DocumentToJson(d)) ==
      Document(d.openapi, InfoFromJson(InfoToJson(d.info)), d.servers, PathsOf(Some(PathsToJson(d.paths))),
               ComponentsOf(ComponentsSlot(d.components)), d.security,
               ListOf(TagFromJson, List(TagToJson, d.tags)), DocsOf(DocsField(d.externalDocs)))
  {
    hide List, ListOf, PathsToJson, PathsOf, ComponentsSlot, ComponentsOf, SecurityField, SecurityOf;
    hide DocsField, DocsOf, InfoToJson, InfoFromJson;
    ServersBack(d.servers);
    SecurityBack(d.security);
  }

  /**
   Every document is read back exactly when it is canonical, and what is read back is written
   as it was written before.
   */
  lemma DocumentRoundTrip(d: Document)
    ensures DocumentFromJson(DocumentToJson(d)) == d <==> Canonical(d)
    ensures DocumentToJson(DocumentFromJson(DocumentToJson(d))) == DocumentToJson(d)
  {
    hide List, ListOf, PathsToJson, PathsOf, ComponentsSlot, ComponentsOf, SecurityField, DocsField, DocsOf;
    hide InfoToJson, InfoFromJson, DocumentFromJson, InfoOk, PathsOk, ComponentsOk, TagsOk, DocsOk;
    var d' := DocumentFromJson(DocumentToJson(d));
    DocumentRead(d);
    InfoBack(d.info);
    PathsBack(d.paths);
    ComponentsSlotBack(d.components);
    TagsBack(d.tags);
    DocsBack(d.externalDocs);
    BuildSame(n => DocumentField(d', n), n => DocumentField(d, n));
  }

  /** What stands for an absent object is what the empty object reads as. */
  lemma DefaultsAreEmpty()
    ensures SchemaFromJson(JRec(map[])) == NO_SCHEMA && ContactFromJson(JRec(map[])) == NO_CONTACT
    ensures LicenseFromJson(JRec(map[])) == NO_LICENSE && LinkFromJson(JRec(map[])) == NO_LINK
    ensures InfoFromJson(JRec(map[])) == NO_INFO && RequestBodyFromJson(JRec(map[])) == NO_BODY
    ensures OperationFromJson(JRec(map[])) == NO_OPERATION && ComponentsFromJson(JRec(map[])) == NO_COMPONENTS
  {
  }

  /** Version, info and paths are always written; components when any of their maps has an entry. */
  lemma DocumentLayout(d: Document)
    ensures var o := Record(DocumentToJson(d));
      && DocumentToJson(d).JRec?
      && OnlyFields(o, {NOpenapi, NInfo, NServers, NPaths, NComponents, NSecurity, NTags, NExternalDocs})
      && Field(o, NOpenapi, true, JStr(d.openapi)) && Field(o, NInfo, true, InfoToJson(d.info))
      && Field(o, NServers, d.servers != [], JArr(All(LinkToJson, d.servers)))
      && Field(o, NPaths, true, JMap(Each(PathItemToJson, d.paths)))
      && Field(o, NComponents, d.components != Components(map[], map[], map[], map[], map[], map[]),
               ComponentsToJson(d.components))
      && Field(o, NSecurity, d.security != [], JArr(All(RequirementToJson, d.security)))
      && Field(o, NTags, d.tags != [], JArr(All(TagToJson, d.tags)))
      && Field(o, NExternalDocs, d.externalDocs.url != "", LinkToJson(d.externalDocs))
  {
    hide InfoToJson, LinkToJson, PathItemToJson, ComponentsToJson, RequirementToJson, TagToJson;
  }

  lemma DocumentReads(o: Fields)
    ensures var d := DocumentFromJson(JRec(o));
      && ReadsText(o, NOpenapi, d.openapi) && ReadsOne(o, NInfo, InfoFromJson, NO_INFO, d.info)
      && ReadsList(o, NServers, LinkFromJson, d.servers) && ReadsMap(o, NPaths, PathItemFromJson, d.paths)
      && ReadsOne(o, NComponents, ComponentsFromJson, NO_COMPONENTS, d.components)
      && ReadsList(o, NSecurity, RequirementFromJson, d.security) && ReadsList(o, NTags, TagFromJson, d.tags)
      && ReadsOne(o, NExternalDocs, LinkFromJson, Link("", ""), d.externalDocs)
  {
    hide InfoFromJson, LinkFromJson, PathItemFromJson, ComponentsFromJson, RequirementFromJson, TagFromJson;
  }
}
