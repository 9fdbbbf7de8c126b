/**
 * The runtime of the documentation site (crate/src/lib.rs): the two-valued
 * toggles, the stored configuration, routes and pages, the guide search and
 * the `update` function of the model-view-update loop.
 */
module App {
  import opened Wrappers
  import opened Strings
  import opened Sequences
  import Guides

  const TitleSuffix: string := "Seed"
  const StorageKey: string := "seed"
  const UserAgentForPrerendering: string := "ReactSnap"

  // ------ Visibility ------

  datatype Visibility = Visible | Hidden
  {
    /** The value `Visibility::toggle` writes over `*self`. */
    function Toggled(): (v: Visibility)
      ensures v != this
    {
      match this
      case Visible => Hidden
      case Hidden => Visible
    }
  }

  /** Toggling twice restores the original visibility. */
  lemma VisibilityToggleInvolution(v: Visibility)
    ensures v.Toggled().Toggled() == v
  {
  }

  // ------ Mode ------

  datatype Mode = Light | Dark
  {
    /** The value `Mode::toggle` writes over `*self`. */
    function Toggled(): (m: Mode)
      ensures m != this
    {
      match this
      case Light => Dark
      case Dark => Light
    }
  }

  /** `Mode::default()`. */
  const DefaultMode: Mode := Light

  /** Toggling the mode twice restores it. */
  lemma ModeToggleInvolution(m: Mode)
    ensures m.Toggled().Toggled() == m
  {
  }

  // ------ Config ------

  /** The configuration kept in local storage; its default has the default mode. */
  datatype Config = Config(mode: Mode)

  /** The JSON text `serde_json` writes for a configuration. */
  function ConfigJson(c: Config): string
  {
    match c.mode
    case Light => "{\"mode\":\"Light\"}"
    case Dark => "{\"mode\":\"Dark\"}"
  }

  /** Reads back a stored configuration; text in any other form does not parse. */
  function ParseConfig(s: string): (r: Option<Config>)
    ensures r.Some? ==> ConfigJson(r.value) == s
    ensures (exists c :: ConfigJson(c) == s) ==> r.Some?
  {
    if s == ConfigJson(Config(Light)) then Some(Config(Light))
    else if s == ConfigJson(Config(Dark)) then Some(Config(Dark))
    else None
  }

  /**
   * `load_config`: the stored text under the storage key, if the storage has
   * one (`stored`), parsed; anything absent or unparseable gives the default.
   */
  function LoadConfig(stored: Option<string>): (c: Config)
    ensures stored.None? ==> c.mode == DefaultMode
    ensures stored.Some? && ParseConfig(stored.value).None? ==> c.mode == DefaultMode
    ensures stored.Some? && ParseConfig(stored.value).Some? ==> ConfigJson(c) == stored.value
  {
    match stored
    case None => Config(DefaultMode)
    case Some(s) =>
      match ParseConfig(s)
      case None => Config(DefaultMode)
      case Some(c) => c
  }

  /** What `ToggleMode` stores is what the next start loads. */
  lemma StoredConfigRoundTrip(c: Config)
    ensures ParseConfig(ConfigJson(c)) == Some(c)
    ensures LoadConfig(Some(ConfigJson(c))) == c
  {
  }

  /** `is_in_prerendering`: the user agent is the prerendering crawler's. */
  function IsInPrerendering(userAgent: string): bool
  {
    userAgent == UserAgentForPrerendering
  }

  // ------ Route ------

  datatype Route = Root | Guide(slug: string) | Unknown
  {
    /** `Route::path`: the URL path segments of the route. */
    function Path(): (p: seq<string>)
      ensures p == [] <==> this.Root?
      ensures |p| > 0 ==> p[0] != ""
    {
      match this
      case Root => []
      case Guide(slug) => ["guide", slug]
      case Unknown => ["404"]
    }

    /** `impl Display for Route`: `/` followed by the segments joined with `/`. */
    function Display(): (s: string)
      ensures |s| >= 1 && s[0] == '/'
      ensures this.Root? ==> s == "/"
    {
      "/" + Join(Path(), "/")
    }
  }

  /** `impl From<Url> for Route`: decodes the path segments of a URL. */
  function RouteFromUrl(path: seq<string>): (r: Route)
    ensures |path| == 0 || path[0] == "" ==> r == Root
    ensures r.Guide? <==> |path| >= 2 && path[0] == "guide"
    ensures r.Guide? ==> r.slug == path[1]
    ensures r == Unknown <==> |path| > 0 && path[0] != "" &&
                              (path[0] != "guide" || |path| == 1)
  {
    if |path| == 0 || path[0] == "" then Root
    else if path[0] == "guide" then (if |path| >= 2 then Route.Guide(path[1]) else Unknown)
    else Unknown
  }

  /** Decoding the path of a route gives the route back, for every route. */
  lemma RoutePathRoundTrip(r: Route)
    ensures RouteFromUrl(r.Path()) == r
  {
  }

  /** The segments of an absolute path such as `/guide/events`; `/` has none. */
  function PathSegments(href: string): seq<string>
  {
    if href == "/" then []
    else if |href| > 0 && href[0] == '/' then Split(href[1..], '/')
    else Split(href, '/')
  }

  /**
   * Displaying a route and reading the displayed path back gives the route,
   * as long as its slug contains no `/`.
   */
  lemma {:induction false} RouteDisplayRoundTrip(r: Route)
    requires r.Guide? ==> '/' !in r.slug
    ensures RouteFromUrl(PathSegments(r.Display())) == r
  {
    var path := r.Path();
    if |path| > 0 {
      SplitJoin(path, '/');
      assert r.Display()[1..] == Join(path, "/");
    }
  }

  // ------ Page ------

  datatype Page = Guide(guide: Guides.Guide, showIntro: bool) | NotFound

  /** `Page::to_href`. */
  function ToHref(p: Page): (href: string)
    ensures |href| >= 1 && href[0] == '/'
    ensures href == "/404" <==> p.NotFound?
  {
    match p
    case Guide(g, _) => "/guide/" + g.slug
    case NotFound => "/404"
  }

  /** The link of a page is the displayed form of the route that names it. */
  lemma ToHrefIsRouteDisplay(p: Page)
    ensures p.Guide? ==> ToHref(p) == Route.Guide(p.guide.slug).Display()
    ensures p.NotFound? ==> ToHref(p) == Unknown.Display()
  {
    if p.Guide? {
      var slug := p.guide.slug;
      assert Join(["guide", slug], "/") == "guide" + "/" + slug;
      assert "/guide/" + slug == "/" + ("guide" + "/" + slug);
    }
  }

  /** The guide test of `find(|guide| guide.slug == slug)`. */
  function HasSlug(slug: string): Guides.Guide -> bool
  {
    (g: Guides.Guide) => g.slug == slug
  }

  /** `Page::from_route_and_replace_history`: the page a route shows. */
  function FromRoute(route: Route, guides: seq<Guides.Guide>): (p: Page)
    ensures p.Guide? ==> p.guide in guides
    ensures route.Root? ==> (p.NotFound? <==> |guides| == 0)
    ensures route.Root? && p.Guide? ==> p.guide == guides[0] && p.showIntro
    ensures route.Guide? ==>
      (p.NotFound? <==> forall g :: g in guides ==> g.slug != route.slug)
    ensures route.Guide? && p.Guide? ==>
      !p.showIntro && p.guide.slug == route.slug &&
      exists i :: 0 <= i < |guides| && guides[i] == p.guide &&
                  forall j :: 0 <= j < i ==> guides[j].slug != route.slug
    ensures route.Unknown? ==> p.NotFound?
  {
    if route.Root? then
      if |guides| > 0 then Page.Guide(guides[0], true) else NotFound
    else if route.Guide? then
      match Find(guides, HasSlug(route.slug))
      case Some(g) => Page.Guide(g, false)
      case None => NotFound
    else NotFound
  }

  /**
   * Following the link of a guide page leads back to that guide: the page
   * shown has the same slug, without the intro, and when slugs are unique in
   * the catalog it is the very same guide.
   */
  lemma {:induction false} LinkRoundTrip(g: Guides.Guide, showIntro: bool, guides: seq<Guides.Guide>)
    requires g in guides
    requires '/' !in g.slug
    ensures var p := FromRoute(RouteFromUrl(PathSegments(ToHref(Page.Guide(g, showIntro)))), guides);
            p.Guide? && Guides.SameGuide(p.guide, g) && !p.showIntro
    ensures (forall i, j :: 0 <= i < j < |guides| ==> guides[i].slug != guides[j].slug) ==>
            FromRoute(RouteFromUrl(PathSegments(ToHref(Page.Guide(g, showIntro)))), guides) == Page.Guide(g, false)
  {
    ToHrefIsRouteDisplay(Page.Guide(g, showIntro));
    RouteDisplayRoundTrip(Route.Guide(g.slug));
  }

  /** The root of the site shows the first catalog guide, "quickstart", with the intro. */
  lemma RootShowsQuickstart(embed: string -> string, extra: string -> Guides.Extra)
    ensures var p := FromRoute(Root, Guides.Catalog(embed, extra));
            p.Guide? && p.guide.slug == "quickstart" && p.showIntro
  {
  }

  /** The document title `update` sets for a page. */
  function Title(p: Page): (t: string)
    ensures |t| >= |TitleSuffix| && t[|t| - |TitleSuffix|..] == TitleSuffix
    ensures p.Guide? ==> |t| >= |p.guide.menuTitle| && t[..|p.guide.menuTitle|] == p.guide.menuTitle
  {
    match p
    case Guide(g, _) => g.menuTitle + " - " + TitleSuffix
    case NotFound => "404 - " + TitleSuffix
  }

  // ------ Search ------

  /** The guide test of `search`: its lower-case text contains the lowered query. */
  function TextContains(loweredQuery: string): Guides.Guide -> bool
  {
    (g: Guides.Guide) => Contains(g.lowercaseText, loweredQuery)
  }

  /** A guide matches a query when its lower-case text contains the lower-cased query. */
  predicate Matches(g: Guides.Guide, query: string)
  {
    query != "" && Contains(g.lowercaseText, Lower(query))
  }

  /**
   * `search`: the guides whose lower-case text contains the lower-cased query;
   * an empty query matches nothing.
   */
  function Search(guides: seq<Guides.Guide>, query: string): (r: seq<Guides.Guide>)
    ensures query == "" ==> r == []
    ensures forall g :: g in r ==> g in guides && Matches(g, query)
    ensures forall g :: g in guides && Matches(g, query) ==> g in r
  {
    if query == "" then []
    else Filter(guides, TextContains(Lower(query)))
  }

  /**
   * The search result lists the matching guides in catalog order: it picks,
   * in increasing order, exactly the catalog positions whose guide matches.
   */
  lemma SearchKeepsCatalogOrder(guides: seq<Guides.Guide>, query: string)
    ensures exists idx :: Embedding(idx, Search(guides, query), guides) &&
                          forall i :: 0 <= i < |guides| ==> (i in idx <==> Matches(guides[i], query))
  {
    if query == "" {
      assert Embedding([], Search(guides, query), guides);
    } else {
      var contains := TextContains(Lower(query));
      FilterKeepsOrder(guides, contains);
      var idx :| Embedding(idx, Filter(guides, contains), guides) &&
                 forall i :: 0 <= i < |guides| ==> (i in idx <==> contains(guides[i]));
      assert Embedding(idx, Search(guides, query), guides);
    }
  }

  /** The query's case does not matter: searching for its lower-cased form gives the same guides. */
  lemma SearchIgnoresQueryCase(guides: seq<Guides.Guide>, query: string)
    ensures Search(guides, Lower(query)) == Search(guides, query)
  {
    LowerIsLower(query);
  }

  // ------ Update ------

  datatype Msg =
    | RouteChanged(route: Route)
    | UpdatePageTitle
    | ScrollToTop
    | ToggleGuideList
    | HideGuideList
    | ToggleMenu
    | HideMenu
    | SearchQueryChanged(query: string)
    | ToggleMode

  /** What a handler asks of the browser and of the framework, as data. */
  datatype Effect =
    | SendMsg(msg: Msg)
    | SetDocumentTitle(title: string)
    | ScrollWindowToTop
    | StoreData(key: string, value: string)

  /** The effects `update` requests for `msg`, given the page and mode it leaves. */
  function UpdateEffects(msg: Msg, page: Page, mode: Mode): (e: seq<Effect>)
    ensures |e| <= 2
    ensures e == [] <==> msg.ToggleGuideList? || msg.HideGuideList? || msg.ToggleMenu? ||
                         msg.HideMenu? || msg.SearchQueryChanged?
    ensures msg.ToggleMode? ==> |e| == 1 && e[0].StoreData? && e[0].key == StorageKey &&
                                LoadConfig(Some(e[0].value)) == Config(mode)
  {
    match msg
    case RouteChanged(_) => [SendMsg(ScrollToTop), SendMsg(UpdatePageTitle)]
    case UpdatePageTitle => [SetDocumentTitle(Title(page))]
    case ScrollToTop => [ScrollWindowToTop]
    case ToggleMode => [StoreData(StorageKey, ConfigJson(Config(mode)))]
    case _ => []
  }

  /** The application state (`struct Model`). */
  class Model {
    var page: Page
    var guideListVisibility: Visibility
    var menuVisibility: Visibility
    var inPrerendering: bool
    var guides: seq<Guides.Guide>
    var searchQuery: string
    var matchedGuides: seq<Guides.Guide>
    var mode: Mode

    /** The matched guides always answer the current query; the page shows a catalog guide. */
    ghost predicate Valid()
      reads this
    {
      && matchedGuides == Search(guides, searchQuery)
      && (page.Guide? ==> page.guide in guides)
    }

    /**
     * The model `after_mount` builds from the start URL's path, the catalog,
     * the browser's user agent and the stored configuration text.
     */
    constructor (url: seq<string>, embed: string -> string, extra: string -> Guides.Extra,
                 userAgent: string, stored: Option<string>)
      ensures Valid()
      ensures guides == Guides.Catalog(embed, extra)
      ensures page == FromRoute(RouteFromUrl(url), guides)
      ensures guideListVisibility == Hidden && menuVisibility == Hidden
      ensures inPrerendering == IsInPrerendering(userAgent)
      ensures searchQuery == "" && matchedGuides == []
      ensures mode == LoadConfig(stored).mode
    {
      var catalog := Guides.Catalog(embed, extra);
      page := FromRoute(RouteFromUrl(url), catalog);
      guideListVisibility := Hidden;
      menuVisibility := Hidden;
      inPrerendering := IsInPrerendering(userAgent);
      guides := catalog;
      searchQuery := "";
      matchedGuides := [];
      mode := LoadConfig(stored).mode;
    }

    /**
     * `update`: the fields `msg` changes, every other field as it was, and
     * the effects requested of the browser and the framework.
     */
    method Update(msg: Msg) returns (effects: seq<Effect>)
      requires Valid()
      modifies this
      ensures Valid()
      ensures guides == old(guides) && inPrerendering == old(inPrerendering)
      ensures page == if msg.RouteChanged? then FromRoute(msg.route, guides) else old(page)
      ensures guideListVisibility ==
              match msg
              case ToggleGuideList => old(guideListVisibility).Toggled()
              case HideGuideList => Hidden
              case _ => old(guideListVisibility)
      ensures menuVisibility ==
              match msg
              case ToggleMenu => old(menuVisibility).Toggled()
              case HideMenu => Hidden
              case _ => old(menuVisibility)
      ensures searchQuery == if msg.SearchQueryChanged? then msg.query else old(searchQuery)
      ensures matchedGuides ==
              if msg.SearchQueryChanged? then Search(guides, msg.query) else old(matchedGuides)
      ensures mode == if msg.ToggleMode? then old(mode).Toggled() else old(mode)
      ensures effects == UpdateEffects(msg, page, mode)
    {
      effects := [];
      match msg {
        case RouteChanged(route) =>
          page := FromRoute(route, guides);
          effects := [SendMsg(ScrollToTop), SendMsg(UpdatePageTitle)];
        case UpdatePageTitle =>
          effects := [SetDocumentTitle(Title(page))];
        case ScrollToTop =>
          effects := [ScrollWindowToTop];
        case ToggleGuideList =>
          guideListVisibility := guideListVisibility.Toggled();
        case HideGuideList =>
          guideListVisibility := Hidden;
        case ToggleMenu =>
          menuVisibility := menuVisibility.Toggled();
        case HideMenu =>
          menuVisibility := Hidden;
        case SearchQueryChanged(query) =>
          matchedGuides := Search(guides, query);
          searchQuery := query;
        case ToggleMode =>
          mode := mode.Toggled();
          effects := [StoreData(StorageKey, ConfigJson(Config(mode)))];
      }
    }
  }

  /**
   * `after_mount`: the initial model, and the one message it sends, which
   * sets the page title.
   */
  method AfterMount(url: seq<string>, embed: string -> string, extra: string -> Guides.Extra,
                    userAgent: string, stored: Option<string>)
    returns (model: Model, orders: seq<Msg>)
    ensures fresh(model) && model.Valid()
    ensures model.guides == Guides.Catalog(embed, extra)
    ensures model.page == FromRoute(RouteFromUrl(url), Guides.Catalog(embed, extra))
    ensures model.guideListVisibility == Hidden && model.menuVisibility == Hidden
    ensures model.inPrerendering == IsInPrerendering(userAgent)
    ensures model.searchQuery == "" && model.matchedGuides == []
    ensures model.mode == LoadConfig(stored).mode
    ensures orders == [UpdatePageTitle]
  {
    model := new Model(url, embed, extra, userAgent, stored);
    orders := [UpdatePageTitle];
  }

  /**
   * Toggling the mode twice brings it back and stores the two opposite
   * configurations, the second being the original one.
   */
  method ToggleModeTwice(model: Model) returns (first: seq<Effect>, second: seq<Effect>)
    requires model.Valid()
    modifies model
    ensures model.Valid() && model.mode == old(model.mode)
    ensures first == [StoreData(StorageKey, ConfigJson(Config(old(model.mode).Toggled())))]
    ensures second == [StoreData(StorageKey, ConfigJson(Config(old(model.mode))))]
    ensures LoadConfig(Some(second[0].value)).mode == old(model.mode)
  {
    first := model.Update(ToggleMode);
    second := model.Update(ToggleMode);
    StoredConfigRoundTrip(Config(model.mode));
  }
}
