/**
 * The guide record and the fixed, ordered guide catalog (crate/src/guide.rs).
 *
 * Guide identity is the slug alone: `SameGuide` is the Rust `PartialEq`, while
 * Dafny's `==` on the datatype compares every field.
 */
module Guides {

  /**
   * One documentation page. guide.rs defines slug, menu title and content;
   * the runtime also reads the seed version, the precomputed lower-case text
   * and the edit URL of a guide, so the record carries all six.
   */
  datatype Guide = Guide(
    slug: string,
    menuTitle: string,
    content: string,
    seedVersion: string,
    lowercaseText: string,
    editUrl: string)

  /** The fields of a catalog entry that guide.rs does not spell out. */
  datatype Extra = Extra(seedVersion: string, lowercaseText: string, editUrl: string)

  /** `impl PartialEq for Guide`: two guides are equal when their slugs are. */
  predicate SameGuide(a: Guide, b: Guide)
  {
    a.slug == b.slug
  }

  /** Guide equality ignores every field except the slug. */
  lemma SameGuideIgnoresContent(g: Guide, title: string, content: string, extra: Extra)
    ensures SameGuide(g, Guide(g.slug, title, content, extra.seedVersion, extra.lowercaseText, extra.editUrl))
    ensures forall h: Guide :: SameGuide(g, h) <==> h.slug == g.slug
  {
  }

  /** Slug equality is an equivalence relation, inherited from string equality. */
  lemma SameGuideIsEquivalence(a: Guide, b: Guide, c: Guide)
    ensures SameGuide(a, a)
    ensures SameGuide(a, b) ==> SameGuide(b, a)
    ensures SameGuide(a, b) && SameGuide(b, c) ==> SameGuide(a, c)
  {
  }

  /** The directory `include_str!` reads the generated HTML from. */
  const GeneratedHtmlDir: string := "../guides/generated_html/"

  /** One catalog entry: `content` is the embedded file `file`. */
  function Entry(slug: string, menuTitle: string, file: string,
                 embed: string -> string, extra: string -> Extra): Guide
  {
    Guide(slug, menuTitle, embed(GeneratedHtmlDir + file),
          extra(slug).seedVersion, extra(slug).lowercaseText, extra(slug).editUrl)
  }

  /** The slug, menu title and generated file of each guide, in menu order. */
  const CatalogEntries: seq<(string, string, string)> :=
    [ ("quickstart", "Quickstart", "quickstart.html"),
      ("prereqs", "Prereqs", "prereqs.html"),
      ("structure", "Structure", "structure.html"),
      ("events", "Events", "events.html"),
      ("components", "Components", "components.html"),
      ("http-requests-and-state", "Http requests and state", "fetch.html"),
      ("routing", "Routing", "routing.html"),
      ("misc-features", "Misc features", "misc.html"),
      ("release-and-debugging", "Release and debugging", "release_and_debugging.html"),
      ("complex-apps", "Complex apps", "complex_apps.html"),
      ("server-integration", "Server integration", "server_integration.html"),
      ("about", "About", "about.html") ]

  /**
   * `guides()`: the twelve guides in menu order. `embed` stands for the
   * compile-time `include_str!` and `extra` for the fields of later revisions.
   */
  function Catalog(embed: string -> string, extra: string -> Extra): (c: seq<Guide>)
    ensures |c| == 12
    ensures c[0].slug == "quickstart" && c[11].slug == "about"
    ensures forall i, j :: 0 <= i < j < |c| ==> c[i].slug != c[j].slug
    ensures forall i :: 0 <= i < |c| ==> c[i].seedVersion == extra(c[i].slug).seedVersion
  {
    var c := seq(|CatalogEntries|, i requires 0 <= i < |CatalogEntries| =>
                 Entry(CatalogEntries[i].0, CatalogEntries[i].1, CatalogEntries[i].2, embed, extra));
    assert forall i :: 0 <= i < |c| ==> c[i].slug == CatalogEntries[i].0;
    c
  }
}
