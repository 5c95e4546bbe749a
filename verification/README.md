# Paging links for KML folders and the WFS3 OpenAPI builder, in Dafny

This project models two request-time helpers of GeoServer.

- **The KML relative-links decorator.** `FolderRelativeLinksDecoratorFactory` hands out a decorator only for feature-collection folders. It does so only when the GetMap request sets `maxFeatures` and the `relLinks` format option equals "true", ignoring case. The decorator then appends "prev" and "next" network links after the folder's existing children. Each link's href is `<feature type URL>.kml?startindex=<start>&maxfeatures=<max>`.
- **The WFS3 OpenAPI builder.** `OpenAPIBuilder.build` fills the template's info block. That block holds the contact name, the title with its default, the abstract, and the GeoServer version with its "1.0.0" fallback. It also sets the fixed external documentation and a single "This server" entry. Then `declareGetResponseFormats` reconciles the media types of six GET endpoints with the formats the service currently supports. Formats no longer supported are removed and surviving entries are kept as they were. A new yaml format gets the schema of the "application/json" entry when there is one. Otherwise, like every other new format, it gets a string schema if its name contains "text" and a binary schema if not.

Files:

- `wrappers.dfy`: `Option` (a nullable reference) and `Result` (a call that may throw).
- `strings.dfy`: Java's `String.contains`/`indexOf`, `equalsIgnoreCase` and the decimal form of an `int`, with a parser that reads it back.
- `int32.dfy`: Java `int` wrap-around.
- `kml_links.dfy`: module `FolderRelativeLinks`, the factory, `decorate` and the link format.
- `openapi.dfy`: module `OpenApiBuilder`, covering reconciliation, the info defaults and `build`.

Java iterates the new formats in `HashSet` order, which is unspecified. The model has `ReconcileContent` pick each next format with `:|`, and its contract is a relation, `Reconciled`, that holds for every iteration order. The order only matters for the schemas, and only when "application/json" is itself a new format and a yaml format is new too. In that case the yaml entry gets either its own fallback schema or the binary schema that the new JSON entry received. `ReconcileDeterministic` proves that every other case has exactly one outcome.

Two behaviours of the source are worth stating plainly; the model follows them:

- **Missing "Version" entry.** A manifest named GeoServer with no "Version" entry makes `findFirst` meet a null element, which throws, so there is no "1.0.0" fallback in that case. `GeoServerVersion` returns `Failure(ManifestWithoutVersion)` then, and "1.0.0" only when no manifest is named GeoServer.
- **Integer overflow.** `startIndex - maxFeatures` and `startIndex + maxFeatures` are Java `int` arithmetic and wrap. `PageLinks` uses the wrapped values. `PageLinksWithoutOverflow` states the unbounded reading for inputs where neither value overflows.

## Model

| member | source | states |
|---|---|---|
| FolderRelativeLinks.GetDecorator | src/community/kml2/src/main/java/org/geoserver/kml/decorator/FolderRelativeLinksDecoratorFactory.java:35-52 | No decorator unless the class is exactly Folder. Otherwise a decorator iff maxFeatures is set and the relLinks option is present and spells "true" in any mix of cases. |
| FolderRelativeLinks.Decorate | src/community/kml2/src/main/java/org/geoserver/kml/decorator/FolderRelativeLinksDecoratorFactory.java:58-93 | With no current layer or no current collection, the folder comes back unchanged. Otherwise the existing children stay as a prefix and the appended tail is exactly the page links. A null maxFeatures is the only failure. |
| FolderRelativeLinks.PageLinks | src/community/kml2/src/main/java/org/geoserver/kml/decorator/FolderRelativeLinksDecoratorFactory.java:74-92 | At most two links. "prev" is present iff the wrapped `start - max` is >= 0. "next" is present iff the collection size is >= max. Each link is the exact prev/next record (id, description, href), and prev comes before next. |
| FolderRelativeLinks.PageLinksWithoutOverflow | src/community/kml2/src/main/java/org/geoserver/kml/decorator/FolderRelativeLinksDecoratorFactory.java:76-90 | When neither `start - max` nor `start + max` overflows: prev is present iff `start - max >= 0`. The prev href targets `start - max` and the next href targets `start + max`, both with maxfeatures `max`. |
| FolderRelativeLinks.FactoryDecoratorSucceeds | src/community/kml2/src/main/java/org/geoserver/kml/decorator/FolderRelativeLinksDecoratorFactory.java:46-75 | A decorator the factory handed out for a request never fails on the null maxFeatures unboxing in `decorate`. |
| FolderRelativeLinks.SequentialLinkFormat | src/community/kml2/src/main/java/org/geoserver/kml/decorator/FolderRelativeLinksDecoratorFactory.java:95-101 | The encoded link is a network link with the given id and readable name, whose href is the link base followed by a query that parses back to exactly the requested start index and page size (its partners are `PagingQueryRoundTrip` and `HrefDeterminesPage`). |
| FolderRelativeLinks.PagingQueryRoundTrip | src/community/kml2/src/main/java/org/geoserver/kml/decorator/FolderRelativeLinksDecoratorFactory.java:95-98 | The query `?startindex=<start>&maxfeatures=<max>` of a link parses back to exactly (start, max). |
| FolderRelativeLinks.HrefDeterminesPage | src/community/kml2/src/main/java/org/geoserver/kml/decorator/FolderRelativeLinksDecoratorFactory.java:95-98 | Two links with the same link base and the same href target the same start index and page size. |
| FolderRelativeLinks.FirstFullPageExample | src/community/kml2/src/main/java/org/geoserver/kml/decorator/FolderRelativeLinksDecoratorFactory.java:76-90 | start=0, max=10, size=10 gives only the next link, with href `...?startindex=10&maxfeatures=10`. |
| FolderRelativeLinks.LastShortPageExample | src/community/kml2/src/main/java/org/geoserver/kml/decorator/FolderRelativeLinksDecoratorFactory.java:76-90 | start=10, max=10, size=5 gives only the prev link, with href `...?startindex=0&maxfeatures=10`. |
| Int32.Wrap | src/community/kml2/src/main/java/org/geoserver/kml/decorator/FolderRelativeLinksDecoratorFactory.java:77-78 | A Java int result is congruent to the exact result modulo 2^32, and equals it when the exact result fits in an int. |
| Strings.EqualsIgnoreCaseIff | src/community/kml2/src/main/java/org/geoserver/kml/decorator/FolderRelativeLinksDecoratorFactory.java:47 | Java's per-character ignore-case comparison holds iff the strings have equal length and agree position by position after lower-casing. |
| Strings.EqualsIgnoreCaseTrue | src/community/kml2/src/main/java/org/geoserver/kml/decorator/FolderRelativeLinksDecoratorFactory.java:46-47 | A value equals "true" ignoring case iff it is four characters t/T, r/R, u/U, e/E. |
| Strings.NatToDecimal | src/community/kml2/src/main/java/org/geoserver/kml/decorator/FolderRelativeLinksDecoratorFactory.java:98 | The decimal rendering of a non-negative int is non-empty, all digits and has no leading zero. |
| Strings.IntToDecimalRoundTrip | src/community/kml2/src/main/java/org/geoserver/kml/decorator/FolderRelativeLinksDecoratorFactory.java:98 | A rendered int has a '-' sign exactly when it is negative, and it parses back to itself. |
| Strings.IndexOfSubstring | src/community/wfs3/src/main/java/org/geoserver/wfs3/OpenAPIBuilder.java:113-116 | The left-to-right scan returns a position where the substring occurs with no occurrence before it, and returns none iff the string does not contain it. |
| OpenApiBuilder.NonNull | src/community/wfs3/src/main/java/org/geoserver/wfs3/OpenAPIBuilder.java:56-59 | A string is in the filtered list iff it is one of the set values, and the list is no longer than the input. |
| OpenApiBuilder.NonNullConcat | src/community/wfs3/src/main/java/org/geoserver/wfs3/OpenAPIBuilder.java:56-59 | The null filter distributes over concatenation, keeps a set value as itself and drops a null, so it keeps the set values in their order and with their multiplicity. |
| OpenApiBuilder.ContactName | src/community/wfs3/src/main/java/org/geoserver/wfs3/OpenAPIBuilder.java:55-60 | The contact name is `person - organization` when both are set, the one that is set when only one is, and "" when neither is. |
| OpenApiBuilder.GeoServerVersion | src/community/wfs3/src/main/java/org/geoserver/wfs3/OpenAPIBuilder.java:139-148 | "1.0.0" when no manifest is named GeoServer (ignoring case). Otherwise the "Version" entry of the first such manifest, or a failure when that entry is missing. |
| OpenApiBuilder.ReconcileContent | src/community/wfs3/src/main/java/org/geoserver/wfs3/OpenAPIBuilder.java:104-122 | For every iteration order, the result declares exactly the available formats. A surviving entry keeps its schema, and each new entry gets an admissible schema under the yaml/text/binary rule. |
| OpenApiBuilder.JsonFallsBackToBinary | src/community/wfs3/src/main/java/org/geoserver/wfs3/OpenAPIBuilder.java:113-120 | "application/json" is neither a yaml nor a text format, so a newly added JSON entry gets a binary schema. |
| OpenApiBuilder.ReconcileIdempotent | src/community/wfs3/src/main/java/org/geoserver/wfs3/OpenAPIBuilder.java:104-122 | Reconciling a reconciled map again with the same formats finds nothing missing and nothing extra, and returns the map unchanged. |
| OpenApiBuilder.ReconcileDeterministic | src/community/wfs3/src/main/java/org/geoserver/wfs3/OpenAPIBuilder.java:109-121 | Unless "application/json" and some yaml format are both newly added, every iteration order gives the same result. |
| OpenApiBuilder.YamlSharesJsonSchema | src/community/wfs3/src/main/java/org/geoserver/wfs3/OpenAPIBuilder.java:113-115 | A new yaml format gets the schema of the surviving "application/json" entry, which is itself unchanged. |
| OpenApiBuilder.NewFormatSchema | src/community/wfs3/src/main/java/org/geoserver/wfs3/OpenAPIBuilder.java:113-120 | A new format that is not yaml, or that has no JSON format to borrow from, gets a string schema if it contains "text" and a binary one otherwise. A yaml format racing a new JSON entry gets that fallback or binary. |
| OpenApiBuilder.JsonYamlExample | src/community/wfs3/src/main/java/org/geoserver/wfs3/OpenAPIBuilder.java:104-121 | Declared {json, xml} reconciled with live {json, x-yaml} gives exactly {json, x-yaml}: xml is removed and yaml carries the JSON schema. |
| OpenApiBuilder.TextPlainExample | src/community/wfs3/src/main/java/org/geoserver/wfs3/OpenAPIBuilder.java:108-121 | No declarations reconciled with live {text/plain} gives exactly {text/plain: string schema}. |
| OpenApiBuilder.DeclareGetResponseFormats | src/community/wfs3/src/main/java/org/geoserver/wfs3/OpenAPIBuilder.java:99-123 | Fails iff the path's GET "200" content is missing. Otherwise only that content changes, and it is a reconciliation of the old one. |
| OpenApiBuilder.Build | src/community/wfs3/src/main/java/org/geoserver/wfs3/OpenAPIBuilder.java:47-97 | The title is "WFS 3.0 server" when unset. The info carries the contact, abstract and version, the external docs are fixed and there is exactly one "This server" entry. Each of the six endpoints is reconciled with its binding's formats, the rest of each of their path items is the template's, and other paths are untouched. Fails on the version error first, then on the first missing endpoint. |

## Left out

- Template loading (`OpenAPIBuilder.java:39-45`) and YAML parsing (`OpenAPIBuilder.java:131-137`) are I/O and a third-party object model. The parsed template is an input of `Build`, and a parse failure is not modelled.
- The format registry `DefaultWebFeatureService30.getAvailableFormats` is external. `Build` takes it as a function from binding to format list.
- `ResponseUtils.buildURL` for the server URL is a foreign call. `Build` takes its result `wfsUrl` as an input.
- The feature type URL (`getFeatureTypeURL`, catalog and namespace lookups, `URLMangler`) is foreign code. The layer carries the resulting URL as an opaque string, and the IOException wrapping at lines 70-71 is not modelled.
- `ManifestLoader` is external. The manifests are an input sequence in the registry's iteration order.
- Strings.EqualsIgnoreCaseIff: folds ASCII case pairs only, so the iff is weaker than Java beyond ASCII; Java's Unicode case mapping is not modelled. This is exact for "true". For "GeoServer" it misses names spelled with U+017F (long s), which Java equates with 's'.
- The `relLinks` lookup treats the format options as a map from string to string with exact keys. A non-string option value (a ClassCastException in Java) and the options map's own key handling are not modelled.
- The OpenAPI document is reduced to info, external docs, servers and the GET "200" content maps. A media type entry is reduced to its schema, so "kept untouched" is stated for the schema.
- Null settings objects (the global settings, the contact info, the paths map) are not modelled. Null fields inside them are modelled as `Option`.
- The cast of the decorated feature to Folder (line 64) is not modelled: the factory hands out the decorator only for folders, and `Decorate` takes a folder.
- The content map is a `LinkedHashMap` in the source; the model uses a map without entry order, so the order in which media types appear in the document is not modelled.
- Deep-copy and thread-safety concerns disappear because every value in the model is immutable. So building twice never changes the template.
