/**
 * Previous/next paging links that the KML output adds to the folder of a
 * layer's feature collection when the request asks for relative links and
 * sets a page size (`maxFeatures`).
 *
 * The KML object model is reduced to a folder holding a sequence of child
 * features; a network link child keeps its id, description and link href.
 */
module FolderRelativeLinks {
  import opened Wrappers
  import opened Strings
  import opened Int32

  /** The runtime class of the KML feature the factory is asked to decorate. */
  datatype FeatureClass =
    | FolderClass
    | DocumentClass
    | PlacemarkClass
    | NetworkLinkClass
    | OtherClass(name: string)

  /** A child of a folder. */
  datatype KmlFeature =
    | NetworkLink(id: string, description: string, href: string)
    | OtherFeature(id: string)

  datatype Folder = Folder(features: seq<KmlFeature>)

  /** The parts of a GetMap request the decorator reads; `maxFeatures` and `startIndex` are nullable Integers. */
  datatype GetMapRequest = GetMapRequest(
    maxFeatures: Option<int32>,
    startIndex: Option<int32>,
    formatOptions: map<string, string>)

  /**
   * The layer being encoded, reduced to the URL of its feature type resource
   * (what the catalog and URL-building lookups compute for it).
   */
  datatype Layer = Layer(featureTypeUrl: string)

  /** The encoding state: the request, and the layer and feature collection being written, if any. */
  datatype EncodingContext = EncodingContext(
    request: GetMapRequest,
    currentLayer: Option<Layer>,
    currentCollectionSize: Option<int32>)

  /** The stateless decorator the factory hands out. */
  datatype Decorator = RelativeLinksDecorator

  /** Unboxing a null `maxFeatures` inside `decorate` throws. */
  datatype DecorateError = NullMaxFeatures

  const RelLinksOption: string := "relLinks"
  const PrevId: string := "prev"
  const NextId: string := "next"
  const PrevDescription: string := "Previous page"
  const NextDescription: string := "Next page"

  /** The request opted in to relative links: the `relLinks` format option equals "true", ignoring case. */
  predicate RelLinksRequested(request: GetMapRequest) {
    RelLinksOption in request.formatOptions && SpellsTrue(request.formatOptions[RelLinksOption])
  }

  /**
   * The factory: a decorator only for folders, and only when a page size is
   * set and relative links were requested.
   */
  function GetDecorator(featureClass: FeatureClass, request: GetMapRequest): (r: Option<Decorator>)
    ensures featureClass != FolderClass ==> r == None
    ensures r.Some? <==> featureClass == FolderClass && request.maxFeatures.Some? && RelLinksRequested(request)
  {
    if featureClass != FolderClass then None
    else if RelLinksOption !in request.formatOptions then None
    else
      var relLinks := request.formatOptions[RelLinksOption];
      EqualsIgnoreCaseTrue(relLinks);
      if request.maxFeatures.Some? && EqualsIgnoreCase(relLinks, "true") then Some(RelativeLinksDecorator)
      else None
  }

  /** The start index of the request, 0 when absent. */
  function StartIndex(request: GetMapRequest): int32 {
    request.startIndex.GetOr(0)
  }

  /** Start index of the previous page, computed in Java `int` arithmetic. */
  function PrevStart(start: int32, max: int32): int32 {
    Wrap(start as int - max as int)
  }

  /** Start index of the next page, computed in Java `int` arithmetic. */
  function NextStart(start: int32, max: int32): int32 {
    Wrap(start as int + max as int)
  }

  /** The href of a paging link: the layer's KML link base followed by the paging query. */
  function Href(linkbase: string, start: int, max: int): string {
    linkbase + PagingQuery(start, max)
  }

  function PagingQuery(start: int, max: int): string {
    "?startindex=" + IntToDecimal(start) + "&maxfeatures=" + IntToDecimal(max)
  }

  const StartParam: string := "?startindex="
  const MaxParam: string := "&maxfeatures="

  /** What a client reads back from a paging query: the start index and the page size. */
  function ParsePagingQuery(q: string): Option<(int, int)> {
    if !(StartParam <= q) then None
    else
      var rest := q[|StartParam|..];
      match IndexOf(rest, '&')
      case None => None
      case Some(k) =>
        var start := rest[..k];
        var tail := rest[k..];
        if MaxParam <= tail && IsDecimal(start) && IsDecimal(tail[|MaxParam|..])
        then Some((ParseInt(start), ParseInt(tail[|MaxParam|..])))
        else None
  }

  /** A rendered signed decimal never contains '&'. */
  lemma DecimalHasNoAmpersand(n: int)
    ensures IsDecimal(IntToDecimal(n)) && '&' !in IntToDecimal(n)
  {
  }

  /** Any query shaped like a paging query parses into its two decimals. */
  lemma ParseShapedQuery(a: string, b: string)
    requires IsDecimal(a) && '&' !in a && IsDecimal(b)
    ensures ParsePagingQuery(StartParam + a + MaxParam + b) == Some((ParseInt(a), ParseInt(b)))
  {
    var q := StartParam + a + MaxParam + b;
    var rest := q[|StartParam|..];
    assert rest == a + (MaxParam + b);
    IndexOfAfterPrefix(a, '&', MaxParam + b);
    assert rest[..|a|] == a;
    assert rest[|a|..] == MaxParam + b;
    assert (MaxParam + b)[|MaxParam|..] == b;
  }

  /** The paging query reads back as the start index and page size it was built from. */
  lemma PagingQueryRoundTrip(start: int, max: int)
    ensures ParsePagingQuery(PagingQuery(start, max)) == Some((start, max))
  {
    DecimalHasNoAmpersand(start);
    DecimalHasNoAmpersand(max);
    IntToDecimalRoundTrip(start);
    IntToDecimalRoundTrip(max);
    ParseShapedQuery(IntToDecimal(start), IntToDecimal(max));
  }

  /** Two paging links of one layer with the same href point at the same page. */
  lemma HrefDeterminesPage(linkbase: string, s1: int, m1: int, s2: int, m2: int)
    requires Href(linkbase, s1, m1) == Href(linkbase, s2, m2)
    ensures s1 == s2 && m1 == m2
  {
    var h := Href(linkbase, s1, m1);
    assert h[|linkbase|..] == PagingQuery(s1, m1);
    assert h[|linkbase|..] == PagingQuery(s2, m2);
    PagingQueryRoundTrip(s1, m1);
    PagingQueryRoundTrip(s2, m2);
  }

  /** `encodeSequentialNetworkLink`: the network link a sequential paging link is encoded as. */
  function SequentialLink(linkbase: string, start: int32, max: int32, id: string, readableName: string): KmlFeature {
    NetworkLink(id, readableName, Href(linkbase, start as int, max as int))
  }

  /**
   * A sequential link carries the given id and description, and its href is
   * the link base followed by a query that reads back as exactly its start
   * index and page size.
   */
  lemma SequentialLinkFormat(linkbase: string, start: int32, max: int32, id: string, readableName: string)
    ensures var link := SequentialLink(linkbase, start, max, id, readableName);
            && link.NetworkLink? && link.id == id && link.description == readableName
            && linkbase <= link.href
            && ParsePagingQuery(link.href[|linkbase|..]) == Some((start as int, max as int))
  {
    var href := Href(linkbase, start as int, max as int);
    PagingQueryRoundTrip(start as int, max as int);
    assert href[|linkbase|..] == PagingQuery(start as int, max as int);
  }

  function PrevLink(linkbase: string, start: int32, max: int32): KmlFeature {
    SequentialLink(linkbase, PrevStart(start, max), max, PrevId, PrevDescription)
  }

  function NextLink(linkbase: string, start: int32, max: int32): KmlFeature {
    SequentialLink(linkbase, NextStart(start, max), max, NextId, NextDescription)
  }

  /** Some feature of `fs` carries the id `id`. */
  predicate HasLink(fs: seq<KmlFeature>, id: string) {
    exists i :: 0 <= i < |fs| && fs[i].id == id
  }

  /**
   * The links added for a page starting at `start` of size `max` whose
   * collection holds `size` features: previous when the previous start is
   * not negative, next when the page is full, previous first.
   */
  function PageLinks(linkbase: string, start: int32, max: int32, size: int32): (links: seq<KmlFeature>)
    ensures |links| <= 2
    ensures HasLink(links, PrevId) <==> PrevStart(start, max) >= 0
    ensures HasLink(links, NextId) <==> size >= max
    ensures forall i :: 0 <= i < |links| ==>
              links[i] == PrevLink(linkbase, start, max) || links[i] == NextLink(linkbase, start, max)
    ensures forall i, j :: 0 <= i < j < |links| ==> links[i].id == PrevId && links[j].id == NextId
  {
    var prev := if PrevStart(start, max) >= 0 then [PrevLink(linkbase, start, max)] else [];
    var next := if size >= max then [NextLink(linkbase, start, max)] else [];
    var links := prev + next;
    assert PrevId != NextId by { assert PrevId[0] != NextId[0]; }
    assert HasLink(links, PrevId) <==> |prev| == 1 by {
      if |prev| == 1 { assert links[0].id == PrevId; }
    }
    assert HasLink(links, NextId) <==> |next| == 1 by {
      if |next| == 1 { assert links[|links| - 1].id == NextId; }
    }
    links
  }

  /** The decorator is active: there is a current layer and a current feature collection. */
  predicate HasLayerContext(ctx: EncodingContext) {
    ctx.currentLayer.Some? && ctx.currentCollectionSize.Some?
  }

  /** The link base: the feature type URL with the ".kml" extension. */
  function LinkBase(layer: Layer): string {
    layer.featureTypeUrl + ".kml"
  }

  /**
   * `decorate`: outside a layer context the folder passes through; otherwise
   * the paging links are appended after the folder's existing children.
   */
  function Decorate(folder: Folder, ctx: EncodingContext): (r: Result<Folder, DecorateError>)
    ensures !HasLayerContext(ctx) ==> r == Success(folder)
    ensures r.Failure? <==> HasLayerContext(ctx) && ctx.request.maxFeatures.None?
    ensures r.Success? ==> folder.features <= r.value.features
    ensures r.Success? && HasLayerContext(ctx) ==>
              r.value.features[|folder.features|..]
              == PageLinks(LinkBase(ctx.currentLayer.value), StartIndex(ctx.request),
                           ctx.request.maxFeatures.value, ctx.currentCollectionSize.value)
  {
    if !HasLayerContext(ctx) then Success(folder)
    else
      var linkbase := LinkBase(ctx.currentLayer.value);
      if ctx.request.maxFeatures.None? then Failure(NullMaxFeatures)
      else
        var maxFeatures := ctx.request.maxFeatures.value;
        var startIndex := StartIndex(ctx.request);
        var withPrev :=
          if PrevStart(startIndex, maxFeatures) >= 0
          then folder.features + [SequentialLink(linkbase, PrevStart(startIndex, maxFeatures), maxFeatures, PrevId, PrevDescription)]
          else folder.features;
        var withNext :=
          if ctx.currentCollectionSize.value >= maxFeatures
          then withPrev + [SequentialLink(linkbase, NextStart(startIndex, maxFeatures), maxFeatures, NextId, NextDescription)]
          else withPrev;
        assert withNext[|folder.features|..] == PageLinks(linkbase, startIndex, maxFeatures, ctx.currentCollectionSize.value);
        Success(Folder(withNext))
  }

  /** A decorator handed out by the factory for a request never hits the null page size. */
  lemma FactoryDecoratorSucceeds(featureClass: FeatureClass, folder: Folder, ctx: EncodingContext)
    requires GetDecorator(featureClass, ctx.request).Some?
    ensures Decorate(folder, ctx).Success?
  {
  }

  /**
   * Without `int` overflow the rules read as written: previous iff
   * `start - max >= 0`, targeting `start - max`; next targets `start + max`.
   */
  lemma PageLinksWithoutOverflow(linkbase: string, start: int32, max: int32, size: int32)
    requires Min <= start as int - max as int <= Max
    requires Min <= start as int + max as int <= Max
    ensures var links := PageLinks(linkbase, start, max, size);
            && (HasLink(links, PrevId) <==> start as int - max as int >= 0)
            && (forall i :: 0 <= i < |links| && links[i].id == PrevId ==>
                  links[i].href == Href(linkbase, start as int - max as int, max as int))
            && (forall i :: 0 <= i < |links| && links[i].id == NextId ==>
                  links[i].href == Href(linkbase, start as int + max as int, max as int))
  {
  }

  /** First page, full: only a next link, to start index 10. */
  lemma FirstFullPageExample(linkbase: string)
    ensures PageLinks(linkbase, 0, 10, 10)
            == [NetworkLink("next", "Next page", linkbase + "?startindex=10&maxfeatures=10")]
  {
    assert IntToDecimal(10) == "10" by {
      assert NatToDecimal(10) == NatToDecimal(1) + [DigitChar(0)];
    }
    assert PrevStart(0, 10) < 0;
    assert NextStart(0, 10) == 10;
    assert Href(linkbase, 10, 10) == linkbase + "?startindex=10&maxfeatures=10";
  }

  /** Second page, short: only a previous link, to start index 0. */
  lemma LastShortPageExample(linkbase: string)
    ensures PageLinks(linkbase, 10, 10, 5)
            == [NetworkLink("prev", "Previous page", linkbase + "?startindex=0&maxfeatures=10")]
  {
    assert IntToDecimal(10) == "10" by {
      assert NatToDecimal(10) == NatToDecimal(1) + [DigitChar(0)];
    }
    assert IntToDecimal(0) == "0";
    assert PrevStart(10, 10) == 0;
    assert Href(linkbase, 0, 10) == linkbase + "?startindex=0&maxfeatures=10";
  }
}
