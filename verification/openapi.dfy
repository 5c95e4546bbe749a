/**
 * The request-time part of the WFS3 OpenAPI document builder: the info,
 * external documentation and server entries written over the template, and
 * the reconciliation of each GET endpoint's declared response media types
 * with the formats the service currently supports.
 *
 * The OpenAPI object model is reduced to what the builder touches: the
 * content map (media type to schema) of each path's GET "200" response.
 */
module OpenApiBuilder {
  import opened Wrappers
  import opened Strings

  /** The schema a media type entry declares. */
  datatype Schema =
    | JsonRef(ref: string)  // a reference into the template's components
    | StringSchema
    | BinarySchema
    | Opaque(name: string)  // any other schema the template declares

  /** A response's content: media type name to schema. */
  type Content = map<string, Schema>

  datatype ApiResponse = ApiResponse(content: Option<Content>)
  datatype Operation = Operation(responses: Option<map<string, ApiResponse>>)
  datatype PathItem = PathItem(get: Option<Operation>)

  datatype Contact = Contact(name: string, email: Option<string>, url: Option<string>)
  datatype Info = Info(contact: Contact, title: string, description: Option<string>, version: string)
  datatype ExternalDocs = ExternalDocs(description: string, url: string)
  datatype Server = Server(description: string, url: string)

  datatype OpenApi = OpenApi(
    info: Option<Info>,
    externalDocs: Option<ExternalDocs>,
    servers: seq<Server>,
    paths: map<string, PathItem>)

  /** The global contact settings; every field may be unset. */
  datatype ContactInfo = ContactInfo(
    person: Option<string>,
    organization: Option<string>,
    email: Option<string>,
    onlineResource: Option<string>)

  /** The WFS service settings the builder reads. */
  datatype WfsInfo = WfsInfo(title: Option<string>, abstractText: Option<string>)

  /** One jar manifest as listed by the version registry. */
  datatype Manifest = Manifest(name: string, entries: map<string, string>)

  /** The response classes whose output formats the format registry is asked for. */
  datatype Binding =
    | OpenApiDocument
    | ConformanceDocument
    | CollectionsDocument
    | FeatureCollectionResponse

  /** A GET endpoint whose response formats are reconciled, with its binding. */
  datatype DeclaredPath = DeclaredPath(path: string, binding: Binding)

  /** The exceptions `build` can end in. */
  datatype BuildError =
    | MissingContent(path: string)  // a null path item, GET, responses, "200" response or content
    | ManifestWithoutVersion        // the GeoServer manifest has no "Version" entry

  const Json: string := "application/json"
  const DefaultTitle: string := "WFS 3.0 server"
  const DefaultVersion: string := "1.0.0"
  const ContactSeparator: string := " - "
  const ServerDescription: string := "This server"
  const WfsSpecificationDocs: ExternalDocs :=
    ExternalDocs("WFS specification", "https://github.com/opengeospatial/WFS_FES")

  const DeclaredPaths: seq<DeclaredPath> := [
    DeclaredPath("/", OpenApiDocument),
    DeclaredPath("/conformance", ConformanceDocument),
    DeclaredPath("/collections", CollectionsDocument),
    DeclaredPath("/collections/{collectionId}", CollectionsDocument),
    DeclaredPath("/collections/{collectionId}/items", FeatureCollectionResponse),
    DeclaredPath("/collections/{collectionId}/items/{featureId}", FeatureCollectionResponse)
  ]

  // ---------------------------------------------------------------------
  // Contact name, title, version
  // ---------------------------------------------------------------------

  /** The stream's `filter(s -> s != null)`. */
  function NonNull(parts: seq<Option<string>>): (r: seq<string>)
    ensures |r| <= |parts|
    ensures forall s :: s in r <==> Some(s) in parts
    decreases |parts|
  {
    if |parts| == 0 then []
    else
      var rest := NonNull(parts[1..]);
      assert forall p :: p in parts <==> p == parts[0] || p in parts[1..];
      if parts[0].Some? then [parts[0].value] + rest else rest
  }

  /**
   * The filter keeps each set value where it stands: it distributes over
   * concatenation and keeps or drops a single element by whether it is set,
   * which fixes the order and multiplicity of its result.
   */
  lemma {:induction false} NonNullConcat(a: seq<Option<string>>, b: seq<Option<string>>)
    ensures NonNull(a + b) == NonNull(a) + NonNull(b)
    ensures forall x: string :: NonNull([Some(x)]) == [x]
    ensures NonNull([None]) == []
    decreases |a|
  {
    assert forall x: string :: [Some(x)][1..] == [];
    var none: seq<Option<string>> := [None];
    assert none[1..] == [];
    if |a| > 0 {
      assert (a + b)[0] == a[0];
      assert (a + b)[1..] == a[1..] + b;
      NonNullConcat(a[1..], b);
    } else {
      assert a + b == b;
    }
  }

  /** `Collectors.joining(sep)`: the strings in order, separated by `sep`. */
  function Join(xs: seq<string>, sep: string): string
    decreases |xs|
  {
    if |xs| == 0 then ""
    else if |xs| == 1 then xs[0]
    else xs[0] + sep + Join(xs[1..], sep)
  }

  /** The contact name: the set members of [person, organization], in that order, joined by " - ". */
  function ContactName(person: Option<string>, organization: Option<string>): (name: string)
    ensures person.None? && organization.None? ==> name == ""
    ensures person.Some? && organization.None? ==> name == person.value
    ensures person.None? && organization.Some? ==> name == organization.value
    ensures person.Some? && organization.Some? ==> name == person.value + ContactSeparator + organization.value
  {
    var parts := [person, organization];
    var present := NonNull(parts);
    assert parts[1..] == [organization];
    assert NonNull([organization]) == (if organization.Some? then [organization.value] else []) by {
      assert [organization][1..] == [];
    }
    assert person.Some? && organization.Some? ==> present == [person.value, organization.value];
    assert person.Some? && organization.Some? ==> Join(present[1..], ContactSeparator) == organization.value;
    Join(present, ContactSeparator)
  }

  /** The manifest's name equals "GeoServer", ignoring case. */
  predicate IsGeoServerManifest(m: Manifest) {
    EqualsIgnoreCase(m.name, "GeoServer")
  }

  /** The "Version" entry of a manifest; a missing entry is a null stream element, which `findFirst` rejects. */
  function VersionEntry(m: Manifest): Result<string, BuildError> {
    if "Version" in m.entries then Success(m.entries["Version"]) else Failure(ManifestWithoutVersion)
  }

  /**
   * The GeoServer version: the "Version" entry of the first manifest named
   * GeoServer (ignoring case), or "1.0.0" when there is none.
   */
  function GeoServerVersion(manifests: seq<Manifest>): (r: Result<string, BuildError>)
    ensures (forall i :: 0 <= i < |manifests| ==> !IsGeoServerManifest(manifests[i]))
            ==> r == Success(DefaultVersion)
    ensures forall i :: 0 <= i < |manifests| && IsGeoServerManifest(manifests[i])
                        && (forall j :: 0 <= j < i ==> !IsGeoServerManifest(manifests[j]))
                        ==> r == VersionEntry(manifests[i])
    ensures r.Failure? ==> r.error == ManifestWithoutVersion
    decreases |manifests|
  {
    if |manifests| == 0 then Success(DefaultVersion)
    else if IsGeoServerManifest(manifests[0]) then VersionEntry(manifests[0])
    else
      var r := GeoServerVersion(manifests[1..]);
      assert forall i :: 1 <= i < |manifests| ==> manifests[1..][i - 1] == manifests[i];
      r
  }

  // ---------------------------------------------------------------------
  // Response format reconciliation
  // ---------------------------------------------------------------------

  /** The formats of the registry's list, as a set. */
  function SetOf(formats: seq<string>): set<string> {
    set f | f in formats
  }

  /** Declared media types the registry no longer lists. */
  function Missing(content: Content, formats: seq<string>): set<string> {
    content.Keys - SetOf(formats)
  }

  /** Listed formats not yet declared. */
  function Extras(content: Content, formats: seq<string>): set<string> {
    SetOf(formats) - content.Keys
  }

  predicate IsYaml(format: string) {
    Contains(format, "yaml")
  }

  /** The schema of a new format that does not borrow the JSON one: string for text formats, binary otherwise. */
  function Fallback(format: string): Schema {
    if Contains(format, "text") then StringSchema else BinarySchema
  }

  /**
   * The schemas a newly declared `format` may receive. A yaml format copies
   * the schema "application/json" has when it is added; when JSON is itself
   * newly added, the unordered iteration decides whether the yaml format
   * sees the new JSON entry, so two outcomes are possible.
   */
  function AddedSchemas(format: string, content: Content, formats: seq<string>): set<Schema> {
    if IsYaml(format) && Json in content && Json in SetOf(formats) then {content[Json]}
    else if IsYaml(format) && Json in Extras(content, formats) then {Fallback(format), Fallback(Json)}
    else {Fallback(format)}
  }

  /**
   * `r` is a reconciliation of `content` with `formats`: it declares exactly
   * the listed formats, keeps every surviving entry as it was, and gives each
   * new entry one of its admissible schemas.
   */
  predicate Reconciled(content: Content, formats: seq<string>, r: Content) {
    && r.Keys == SetOf(formats)
    && (forall f :: f in content && f in r ==> r[f] == content[f])
    && (forall f :: f in r && f !in content ==> r[f] in AddedSchemas(f, content, formats))
  }

  lemma JsonIsNotYaml()
    ensures !IsYaml(Json)
  {
    assert 'y' !in Json;
    NotContainsFirstChar(Json, "yaml");
  }

  lemma JsonIsNotText()
    ensures !Contains(Json, "text")
  {
    assert forall i :: 0 <= i < |Json| - 1 ==> !(Json[i] == 't' && Json[i + 1] == 'e');
    NotContainsFirstPair(Json, "text");
  }

  /** "application/json" is neither a yaml nor a text format, so it falls back to binary. */
  lemma JsonFallsBackToBinary()
    ensures !IsYaml(Json)
    ensures Fallback(Json) == BinarySchema
  {
    JsonIsNotYaml();
    JsonIsNotText();
  }

  /**
   * The schema the loop gives a new format: the current JSON schema for a
   * yaml format when "application/json" is declared at that moment,
   * otherwise the text/binary fallback.
   */
  function NextSchema(r: Content, format: string): Schema {
    if IsYaml(format) && Json in r then r[Json] else Fallback(format)
  }

  /**
   * `r` is the content part way through the additions: the surviving
   * entries as they were, plus the new formats `done`, each with an
   * admissible schema.
   */
  predicate PartlyReconciled(content: Content, formats: seq<string>, r: Content, done: set<string>) {
    && done <= Extras(content, formats)
    && r.Keys == (content.Keys * SetOf(formats)) + done
    && (forall f :: f in content && f in r ==> r[f] == content[f])
    && (forall f :: f in r && f !in content ==> r[f] in AddedSchemas(f, content, formats))
  }

  /** The schema chosen for the next new format is admissible for it. */
  lemma NextSchemaAdmissible(content: Content, formats: seq<string>, r: Content, done: set<string>, format: string)
    requires PartlyReconciled(content, formats, r, done)
    requires format in Extras(content, formats)
    ensures NextSchema(r, format) in AddedSchemas(format, content, formats)
  {
  }

  /** Adding one more new format keeps the partial reconciliation. */
  lemma AddNextFormat(content: Content, formats: seq<string>, r: Content, done: set<string>, format: string)
    requires PartlyReconciled(content, formats, r, done)
    requires format in Extras(content, formats) - done
    ensures PartlyReconciled(content, formats, r[format := NextSchema(r, format)], done + {format})
  {
  }

  /** Removing the missing formats starts the partial reconciliation with nothing added. */
  lemma PrunedIsPartlyReconciled(content: Content, formats: seq<string>)
    ensures PartlyReconciled(content, formats, content - Missing(content, formats), {})
  {
  }

  /** Once every new format is added, the content is reconciled. */
  lemma FullyAddedIsReconciled(content: Content, formats: seq<string>, r: Content)
    requires PartlyReconciled(content, formats, r, Extras(content, formats))
    ensures Reconciled(content, formats, r)
  {
  }

  /**
   * `declareGetResponseFormats` on one content map: drop the missing
   * formats, then add each extra format, visiting them in an unspecified
   * order as the Java HashSet does.
   */
  method ReconcileContent(content: Content, formats: seq<string>) returns (r: Content)
    ensures Reconciled(content, formats, r)
  {
    // drop the declared media types the registry no longer lists
    r := content - Missing(content, formats);
    PrunedIsPartlyReconciled(content, formats);
    // declare each listed format that has no entry yet
    var extras := Extras(content, formats);
    var todo := extras;
    while todo != {}
      invariant todo <= extras
      invariant PartlyReconciled(content, formats, r, extras - todo)
      decreases todo
    {
      var format :| format in todo;
      AddNextFormat(content, formats, r, extras - todo, format);
      r := r[format := NextSchema(r, format)];
      assert extras - (todo - {format}) == (extras - todo) + {format};
      todo := todo - {format};
    }
    FullyAddedIsReconciled(content, formats, r);
  }

  /** Reconciling an already reconciled map with the same formats removes nothing and adds nothing. */
  lemma ReconcileIdempotent(content: Content, formats: seq<string>, r: Content, r2: Content)
    requires Reconciled(content, formats, r)
    requires Reconciled(r, formats, r2)
    ensures Missing(r, formats) == {} && Extras(r, formats) == {}
    ensures r2 == r
  {
  }

  /**
   * Unless "application/json" and some yaml format are both new, the
   * outcome does not depend on the iteration order.
   */
  lemma ReconcileDeterministic(content: Content, formats: seq<string>, r1: Content, r2: Content)
    requires Reconciled(content, formats, r1)
    requires Reconciled(content, formats, r2)
    requires Json !in Extras(content, formats) || forall f :: f in Extras(content, formats) ==> !IsYaml(f)
    ensures r1 == r2
  {
  }

  /** A new yaml format shares the schema of a surviving "application/json" entry. */
  lemma YamlSharesJsonSchema(content: Content, formats: seq<string>, r: Content, format: string)
    requires Reconciled(content, formats, r)
    requires format in Extras(content, formats) && IsYaml(format)
    requires Json in content && Json in formats
    ensures r[format] == content[Json] == r[Json]
  {
  }

  /**
   * A new format that is not yaml, or meets no JSON entry at all, gets a
   * string schema when it names text and a binary one otherwise; a yaml
   * format racing a new JSON entry gets that fallback or JSON's binary schema.
   */
  lemma NewFormatSchema(content: Content, formats: seq<string>, r: Content, format: string)
    requires Reconciled(content, formats, r)
    requires format in Extras(content, formats)
    ensures !IsYaml(format) || Json !in formats ==>
              r[format] == (if Contains(format, "text") then StringSchema else BinarySchema)
    ensures IsYaml(format) && Json in Extras(content, formats) ==>
              r[format] in {Fallback(format), BinarySchema}
  {
    JsonFallsBackToBinary();
  }

  /** Live formats {json, yaml} over declared {json, xml}: xml goes, yaml borrows the JSON schema. */
  lemma JsonYamlExample(r: Content)
    requires Reconciled(
               map["application/json" := JsonRef("#/components/schemas/root"), "application/xml" := BinarySchema],
               ["application/json", "application/x-yaml"], r)
    ensures r == map["application/json" := JsonRef("#/components/schemas/root"),
                     "application/x-yaml" := JsonRef("#/components/schemas/root")]
  {
    var content := map["application/json" := JsonRef("#/components/schemas/root"), "application/xml" := BinarySchema];
    var formats := ["application/json", "application/x-yaml"];
    assert IsYaml("application/x-yaml") by {
      assert OccursAt("application/x-yaml", "yaml", 14);
    }
    assert "application/x-yaml" in formats;
    assert "application/x-yaml" in Extras(content, formats);
    YamlSharesJsonSchema(content, formats, r, "application/x-yaml");
  }

  /** Live format text/plain over no declarations: a string schema. */
  lemma TextPlainExample(r: Content)
    requires Reconciled(map[], ["text/plain"], r)
    ensures r == map["text/plain" := StringSchema]
  {
    assert OccursAt("text/plain", "text", 0);
    NotContainsFirstChar("text/plain", "yaml");
    assert "text/plain" in SetOf(["text/plain"]);
    NewFormatSchema(map[], ["text/plain"], r, "text/plain");
  }

  // ---------------------------------------------------------------------
  // The template's GET 200 content, per path
  // ---------------------------------------------------------------------

  /** The content map of the GET "200" response of `path`, when every link of the chain is present. */
  function GetContent(api: OpenApi, path: string): Option<Content> {
    if path in api.paths
       && api.paths[path].get.Some?
       && api.paths[path].get.value.responses.Some?
       && "200" in api.paths[path].get.value.responses.value
       && api.paths[path].get.value.responses.value["200"].content.Some?
    then Some(api.paths[path].get.value.responses.value["200"].content.value)
    else None
  }

  /** `api` with the GET "200" content of `path` replaced by `c`, everything else kept. */
  function WithContent(api: OpenApi, path: string, c: Content): (r: OpenApi)
    requires GetContent(api, path).Some?
    ensures GetContent(r, path) == Some(c)
    ensures r.info == api.info && r.externalDocs == api.externalDocs && r.servers == api.servers
    ensures r.paths.Keys == api.paths.Keys
    ensures forall p :: p in api.paths && p != path ==> r.paths[p] == api.paths[p]
  {
    var item := api.paths[path];
    var get := item.get.value;
    var responses := get.responses.value;
    var ok := responses["200"].(content := Some(c));
    api.(paths := api.paths[path := item.(get := Some(get.(responses := Some(responses["200" := ok]))))])
  }

  /** `declareGetResponseFormats` for one path of the document. */
  method DeclareGetResponseFormats(api: OpenApi, path: string, formats: seq<string>)
    returns (r: Result<OpenApi, BuildError>)
    ensures GetContent(api, path).None? ==> r == Failure(MissingContent(path))
    ensures GetContent(api, path).Some? ==>
              && r.Success?
              && GetContent(r.value, path).Some?
              && Reconciled(GetContent(api, path).value, formats, GetContent(r.value, path).value)
              && r.value == WithContent(api, path, GetContent(r.value, path).value)
  {
    var content := GetContent(api, path);
    if content.None? {
      return Failure(MissingContent(path));
    }
    var reconciled := ReconcileContent(content.value, formats);
    r := Success(WithContent(api, path, reconciled));
  }

  /** The declared paths are pairwise distinct. */
  lemma DeclaredPathsDistinct()
    ensures forall j, k :: 0 <= j < k < |DeclaredPaths| ==> DeclaredPaths[j].path != DeclaredPaths[k].path
  {
  }

  predicate IsDeclaredPath(p: string) {
    exists i :: 0 <= i < |DeclaredPaths| && DeclaredPaths[i].path == p
  }

  /**
   * In `api`, the GET "200" content of `path` is a reconciliation of the
   * template's with `formats`, and the rest of the path item is the
   * template's.
   */
  predicate EndpointReconciled(template: OpenApi, api: OpenApi, path: string, formats: seq<string>) {
    && GetContent(template, path).Some?
    && GetContent(api, path).Some?
    && Reconciled(GetContent(template, path).value, formats, GetContent(api, path).value)
    && api.paths[path] == WithContent(template, path, GetContent(api, path).value).paths[path]
  }

  /** Declaring the formats of a path the loop has not touched yet reconciles that endpoint. */
  lemma DeclaredEndpointReconciled(template: OpenApi, api: OpenApi, path: string, formats: seq<string>, c: Content)
    requires GetContent(template, path).Some?
    requires path in api.paths && api.paths[path] == template.paths[path]
    requires Reconciled(GetContent(template, path).value, formats, c)
    ensures EndpointReconciled(template, WithContent(api, path, c), path, formats)
  {
  }

  /** An endpoint stays reconciled when its path item is left alone. */
  lemma EndpointReconciledFrame(template: OpenApi, api: OpenApi, api': OpenApi, path: string, formats: seq<string>)
    requires EndpointReconciled(template, api, path, formats)
    requires path in api'.paths && api'.paths[path] == api.paths[path]
    ensures EndpointReconciled(template, api', path, formats)
  {
    assert GetContent(api', path) == GetContent(api, path);
  }

  /** The `i`-th declared path is the first one whose GET "200" content the template lacks. */
  predicate FirstMissingPath(template: OpenApi, i: int) {
    && 0 <= i < |DeclaredPaths|
    && GetContent(template, DeclaredPaths[i].path).None?
    && forall j :: 0 <= j < i ==> GetContent(template, DeclaredPaths[j].path).Some?
  }

  /** Every declared path's GET "200" content is present in the template. */
  predicate TemplateComplete(template: OpenApi) {
    forall i :: 0 <= i < |DeclaredPaths| ==> GetContent(template, DeclaredPaths[i].path).Some?
  }

  /**
   * `build`: the info block (contact, title, abstract, version), the fixed
   * external documentation, the single server entry and the reconciled
   * response formats of the six GET endpoints, over a copy of the template.
   * `wfsUrl` is the service URL built from the request's base URL and
   * `availableFormats` is the format registry.
   */
  method Build(template: OpenApi, wfsUrl: string, wfs: WfsInfo, contact: ContactInfo,
               manifests: seq<Manifest>, availableFormats: Binding -> seq<string>)
    returns (r: Result<OpenApi, BuildError>)
    ensures GeoServerVersion(manifests).Failure? ==> r == Failure(ManifestWithoutVersion)
    ensures r.Success? <==> GeoServerVersion(manifests).Success? && TemplateComplete(template)
    ensures r.Failure? && GeoServerVersion(manifests).Success? ==>
              exists i :: FirstMissingPath(template, i) && r.error == MissingContent(DeclaredPaths[i].path)
    ensures r.Success? ==>
              && r.value.info.Some?
              && r.value.info.value.title == (if wfs.title.Some? then wfs.title.value else DefaultTitle)
              && r.value.info.value.description == wfs.abstractText
              && r.value.info.value.version == GeoServerVersion(manifests).value
              && r.value.info.value.contact
                 == Contact(ContactName(contact.person, contact.organization), contact.email, contact.onlineResource)
    ensures r.Success? ==>
              && r.value.externalDocs == Some(WfsSpecificationDocs)
              && r.value.servers == [Server(ServerDescription, wfsUrl)]
    ensures r.Success? ==>
              && r.value.paths.Keys == template.paths.Keys
              && (forall p :: p in template.paths && !IsDeclaredPath(p) ==> r.value.paths[p] == template.paths[p])
              && (forall i :: 0 <= i < |DeclaredPaths| ==>
                    EndpointReconciled(template, r.value, DeclaredPaths[i].path,
                                       availableFormats(DeclaredPaths[i].binding)))
  {
    var version := GeoServerVersion(manifests);
    if version.Failure? {
      return Failure(version.error);
    }
    var title := wfs.title.GetOr(DefaultTitle);
    var info := Info(Contact(ContactName(contact.person, contact.organization), contact.email, contact.onlineResource),
                     title, wfs.abstractText, version.value);
    var api := template.(info := Some(info), externalDocs := Some(WfsSpecificationDocs),
                         servers := [Server(ServerDescription, wfsUrl)]);
    DeclaredPathsDistinct();
    var i := 0;
    while i < |DeclaredPaths|
      invariant 0 <= i <= |DeclaredPaths|
      invariant api.info == Some(info) && api.externalDocs == Some(WfsSpecificationDocs)
      invariant api.servers == [Server(ServerDescription, wfsUrl)]
      invariant api.paths.Keys == template.paths.Keys
      invariant forall p :: p in template.paths && (forall j :: 0 <= j < i ==> DeclaredPaths[j].path != p)
                  ==> api.paths[p] == template.paths[p]
      invariant forall j :: 0 <= j < i ==>
                  EndpointReconciled(template, api, DeclaredPaths[j].path, availableFormats(DeclaredPaths[j].binding))
    {
      var dp := DeclaredPaths[i];
      assert dp.path in template.paths ==> api.paths[dp.path] == template.paths[dp.path];
      assert GetContent(api, dp.path) == GetContent(template, dp.path);
      var next := DeclareGetResponseFormats(api, dp.path, availableFormats(dp.binding));
      if next.Failure? {
        assert FirstMissingPath(template, i);
        return next;
      }
      DeclaredEndpointReconciled(template, api, dp.path, availableFormats(dp.binding),
                                 GetContent(next.value, dp.path).value);
      forall j | 0 <= j < i
        ensures EndpointReconciled(template, next.value, DeclaredPaths[j].path,
                                   availableFormats(DeclaredPaths[j].binding))
      {
        EndpointReconciledFrame(template, api, next.value, DeclaredPaths[j].path,
                                availableFormats(DeclaredPaths[j].binding));
      }
      api := next.value;
      i := i + 1;
    }
    r := Success(api);
  }
}
