# seed-rs.org core, modelled in Dafny

This project models the logic of the seed-rs.org documentation site: a
single-page application that shows versioned guides, rendered from Markdown
at build time, with a guide menu, full-text search, light/dark mode and
previous/next navigation. The view code is not modelled; what is modelled is:

- **Runtime** (`crate/src/lib.rs`, module `App` in `app.dfy`): the `Visibility`
  and `Mode` toggles, the stored `Config` and its fallback to the default mode,
  URL path to `Route` decoding and `Route` to path/string encoding, `Page`
  resolution against the ordered catalog, the substring `search`, and the
  `update` function of the model-view-update loop as a `Model` class whose
  `Update` method changes the fields the message names and returns the
  requested browser/framework effects as data.
- **Previous/next navigation** (`crate/src/page/partial/content_control_panel.rs`,
  module `ContentControlPanel`): `previous_guide` and `next_guide` over the
  version-filtered catalog.
- **Build script** (`crate/build.rs`, module `Build`): the code-block rewrite
  and the lower-case text extraction over an abstract Markdown event stream,
  the file-name rules (`file_stem`, `extension`, the `.md` and `.html`/`.txt`
  filters) and the naming and content of the generated `.html`/`.txt` files.
- **Guide identity and catalog** (`crate/src/guide.rs`, module `Guides`):
  slug-only equality and the twelve-entry catalog in menu order.
- `SearchIndex` (`search_index.dfy`) connects the build's `.txt` output to the
  runtime search.

Shared helpers live in `strings.dfy`: `Wrappers` (Option), `Strings` (ASCII
lower-casing, substring containment, join and split) and `Sequences` (the
iterator adaptors `filter`, `position` and `find`, with the proof that
`filter` keeps exactly the satisfying positions in order).

Routes are `/guide/<slug>`, and `/` shows the first catalog guide; lookup is
by slug alone. The code-block rewrite emits `<code-block>` or
`<code-block lang="L">` and a separate `</code-block>`, and leaves the code's
Text events in between.

The guide record carries the union of the fields the runtime reads across the
files: `slug`, `menu_title` and `content` from `crate/src/guide.rs`, and
`seed_version` and `lowercase_text`, which the navigation and the search
read, and `edit_url`, which only the panel's "edit this page" link reads and
which is carried so that the record is complete. The catalog takes the
embedded files (`include_str!`) and those three later fields as function
parameters.

## Model

| member | source | states |
|---|---|---|
| `App.Visibility.Toggled` | crate/src/lib.rs:42-47 | toggling always yields the other visibility |
| `App.VisibilityToggleInvolution` | crate/src/lib.rs:42-47 | toggling a visibility twice restores it |
| `App.Mode.Toggled` | crate/src/lib.rs:95-100 | toggling always yields the other mode |
| `App.ModeToggleInvolution` | crate/src/lib.rs:95-100 | toggling the mode twice restores it |
| `App.ConfigJson` | crate/src/lib.rs:297-300 | the compact JSON text `store_data` writes for a configuration, `{"mode":"Light"}` or `{"mode":"Dark"}` |
| `App.ParseConfig` | crate/src/lib.rs:188-190 | a parsed configuration is the one whose JSON is the stored text, and every JSON the site writes parses |
| `App.LoadConfig` | crate/src/lib.rs:182-192 | absent or unparseable stored text gives the default mode (Light); otherwise the stored configuration |
| `App.StoredConfigRoundTrip` | crate/src/lib.rs:294-301 | what ToggleMode stores is what the next start loads |
| `App.IsInPrerendering` | crate/src/lib.rs:194-197 | the page is being prerendered exactly when the user agent is `ReactSnap` |
| `App.Route.Path` | crate/src/lib.rs:229-235 | the path segments of a route: none exactly for Root, and a non-empty first segment otherwise |
| `App.Route.Display` | crate/src/lib.rs:238-242 | the route's URL string: a leading `/` then the segments joined with `/`; Root is `/` |
| `App.RouteFromUrl` | crate/src/lib.rs:214-225 | empty path or empty first segment is Root; `guide` followed by a slug is Guide(slug); `guide` alone and every other first segment is Unknown |
| `App.RoutePathRoundTrip` | crate/src/lib.rs:229-235 | decoding `Route::path` gives the route back, for all three routes |
| `App.RouteDisplayRoundTrip` | crate/src/lib.rs:238-242 | reading back the segments of a route's Display string decodes to the same route when its slug has no `/` |
| `App.ToHref` | crate/src/lib.rs:121-129 | a page's href: `/guide/<slug>` for a guide page, `/404` exactly for NotFound; always starting with `/` |
| `App.ToHrefIsRouteDisplay` | crate/src/lib.rs:121-128 | a guide page's href is the Display of `Route::Guide(slug)`; NotFound's is the Display of Unknown |
| `App.FromRoute` | crate/src/lib.rs:131-154 | Root shows the first catalog guide with the intro, or NotFound for an empty catalog; Guide(slug) shows the first guide with that slug without the intro, or NotFound when none has it; Unknown is NotFound; a shown guide is a catalog guide |
| `App.LinkRoundTrip` | crate/src/lib.rs:121-153 | following a guide page's href shows a guide equal to it (same slug), and the very same guide when slugs are unique |
| `App.RootShowsQuickstart` | crate/src/lib.rs:135-140 | the root of the site shows the catalog's "quickstart" guide with the intro |
| `App.Search` | crate/src/lib.rs:305-320 | an empty query gives nothing; otherwise exactly the catalog guides whose lower-case text contains the lower-cased query |
| `App.SearchKeepsCatalogOrder` | crate/src/lib.rs:309-319 | the result is the subsequence of the catalog at exactly the matching positions, in catalog order |
| `App.SearchIgnoresQueryCase` | crate/src/lib.rs:309 | searching for the lower-cased query gives the same guides as the query itself |
| `App.Title` | crate/src/lib.rs:269-276 | the document title: the guide's menu title or `404`, then ` - Seed` |
| `App.UpdateEffects` | crate/src/lib.rs:263-301 | the effects each message requests: at most two; none exactly for the toggle, hide and search messages; for ToggleMode one StoreData under key `seed` whose text loads back as the new mode |
| `App.Model.constructor` | crate/src/lib.rs:166-175 | the initial model: page from the start URL, both lists hidden, empty query and matches, mode from the stored configuration |
| `App.AfterMount` | crate/src/lib.rs:161-180 | the initial model holds the catalog, the page of the start URL, both lists hidden, an empty query with no matches, the prerendering flag from the user agent and the stored mode; the one message sent is UpdatePageTitle |
| `App.Model.Update` | crate/src/lib.rs:261-303 | each message changes only its fields (route to page, toggles and hides, query and matches, mode), keeps the matches equal to the search of the query, and requests scroll/title/store effects |
| `App.ToggleModeTwice` | crate/src/lib.rs:294-301 | toggling twice restores the mode and stores the two opposite configurations, the last loading back as the original |
| `ContentControlPanel.PreviousGuide` | crate/src/page/partial/content_control_panel.rs:223-238 | a previous guide is a catalog guide of the selected guide's version |
| `ContentControlPanel.NextGuide` | crate/src/page/partial/content_control_panel.rs:240-255 | a next guide is a catalog guide of the selected guide's version |
| `ContentControlPanel.NotInVersionHasNoNeighbours` | crate/src/page/partial/content_control_panel.rs:232-233 | with no same-slug guide in its version, both neighbours are None |
| `ContentControlPanel.SelectedPosition` | crate/src/page/partial/content_control_panel.rs:227-233 | the selected guide's index in its version's list is the number of same-version guides before its first catalog occurrence |
| `ContentControlPanel.PreviousInCatalog` | crate/src/page/partial/content_control_panel.rs:235-237 | previous is the last same-version catalog guide before the selected one, and None when there is none |
| `ContentControlPanel.NextInCatalog` | crate/src/page/partial/content_control_panel.rs:252-254 | next is the first same-version catalog guide after the selected one, and None when there is none |
| `ContentControlPanel.NextThenPrevious` | crate/src/page/partial/content_control_panel.rs:223-255 | with slugs unique per version, going forward then back returns to a guide equal to the selected one |
| `ContentControlPanel.PreviousThenNext` | crate/src/page/partial/content_control_panel.rs:223-255 | with slugs unique per version, going back then forward returns to a guide equal to the selected one |
| `ContentControlPanel.TwoVersionScenario` | crate/src/page/partial/content_control_panel.rs:223-255 | in a two-version catalog, navigation stays within the first version and stops at its ends |
| `ContentControlPanel.OtherVersionScenario` | crate/src/page/partial/content_control_panel.rs:227-230 | a guide alone in its version has no neighbours, though another version has a guide of the same slug |
| `Build.TransformCodeBlock` | crate/build.rs:127-138 | a fenced code-block start or any code-block end becomes raw HTML; every other event is unchanged |
| `Build.TransformCodeBlocks` | crate/build.rs:123-139 | the stream with every event rewritten by the code-block rule, of the same length |
| `Build.TransformCodeBlocksAt` | crate/build.rs:127-138 | the rewrite keeps the length; empty language gives `<code-block>`, language L gives `<code-block lang="L">`, every end gives `</code-block>`, an indented start passes unchanged |
| `Build.TransformCodeBlocksIdempotent` | crate/build.rs:127-138 | no code-block marker is left, so a second rewrite changes nothing |
| `Build.CodeBlockOpenTagInjective` | crate/build.rs:129-134 | the open tag determines the language it was made from |
| `Build.TextPayload` | crate/build.rs:106-119 | exactly Text, Code and FootnoteReference events contribute text |
| `Build.TextParts` | crate/build.rs:102-119 | the lower-cased payloads of the Text, Code and FootnoteReference events, in stream order |
| `Build.TextPartsAppend` | crate/build.rs:102-104 | collected text over a concatenated stream is the concatenation of the collected texts |
| `Build.TextPartsFromPayloads` | crate/build.rs:102-119 | every collected part is lower-case, there are at most as many parts as events, and each text-bearing event's lowered payload is collected |
| `Build.ExtractLowercaseText` | crate/build.rs:95-121 | every event passes through unchanged and the accumulator holds the lowered payloads in stream order |
| `Build.TransformKeepsTextParts` | crate/build.rs:88-89 | rewriting code blocks first changes no collected text: markers contribute nothing and text inside code blocks still does |
| `Build.MarkdownToHtmlAndTextParts` | crate/build.rs:82-93 | the HTML is the rendering of the rewritten stream and the parts are the text of the parsed stream |
| `Build.LastDot` | crate/build.rs:26 | the index of the last dot of a file name, or none when it has no dot |
| `Build.FileStem` | crate/build.rs:26 | `Path::file_stem`: a prefix of the name, up to its last dot unless that dot leads the name; empty only for the empty name |
| `Build.Extension` | crate/build.rs:73 | `Path::extension`: the dot-free text after the last dot, when that dot does not lead the name; the name is then stem, dot, extension |
| `Build.IsMarkdownFile` | crate/build.rs:73-77 | the source filter of `markdown_files`: the extension is `md` |
| `Build.IsGeneratedFile` | crate/build.rs:51-54 | the cleanup filter of `html_and_text_files`: the extension is `html` or `txt` |
| `Build.StemAndExtension` | crate/build.rs:26 | a non-empty stem plus a dot and a dot-free extension splits back into that stem and extension |
| `Build.MarkdownFileNames` | crate/build.rs:51-77 | a name the source filter keeps is a non-empty stem plus `.md`, and is not one the cleanup filter removes |
| `Build.MarkdownFileOfStem` | crate/build.rs:73-77 | every non-empty stem plus `.md` passes the source filter and keeps that stem |
| `Build.HtmlOutputPath` | crate/build.rs:28 | the HTML output path `generated_guides/<version>/<stem>.html` |
| `Build.TextOutputPath` | crate/build.rs:31 | the text output path `generated_guides/<version>/<stem>.txt` |
| `Build.TextFileContent` | crate/build.rs:32 | the `.txt` content: the text parts joined by one space |
| `Build.BuildGuide` | crate/build.rs:14-33 | for a source `<v>/<name>` the outputs are `generated_guides/<v>/<stem>.html` and `.txt`, holding the rendered HTML and the text parts joined by one space |
| `Build.OutputsOfMarkdownFile` | crate/build.rs:18-32 | the output names are `<stem>.html` and `<stem>.txt`, both kept by the cleanup filter, and the `.txt` content contains every part |
| `Guides.SameGuide` | crate/src/guide.rs:9-13 | `impl PartialEq for Guide`: two guides are equal exactly when their slugs are |
| `Guides.SameGuideIgnoresContent` | crate/src/guide.rs:9-13 | guide equality depends on the slug alone |
| `Guides.SameGuideIsEquivalence` | crate/src/guide.rs:9-13 | guide equality is reflexive, symmetric and transitive |
| `Guides.Catalog` | crate/src/guide.rs:15-78 | twelve guides, first "quickstart" and last "about", with pairwise distinct slugs |
| `SearchIndex.FoundThroughItsTextEvents` | crate/src/lib.rs:309-319 | a guide whose text is its build `.txt` is found by any query occurring in a Text, Code or FootnoteReference event of its Markdown |

## Left out

- View and DOM construction (`view` functions, headers, menus, images, the
  intro and not-found pages): markup, not logic.
- `set_keys_to_code_blocks` in crate/src/page/guide.rs: depends on a hasher and
  the framework's node types.
- Browser and storage access (`local_storage`, `document().set_title`, window
  scrolling, `store_data`): `Update` returns these as `Effect` values instead
  of performing them; the user agent and the stored text are parameters.
- App.ParseConfig: accepts only the compact JSON that `serde_json` writes for
  the configuration; `serde_json` also accepts whitespace and other spellings.
- Strings.Lower: `to_lowercase` is modelled for ASCII letters only; Unicode
  case mapping (which can change a string's length) is not modelled.
- The URL parser of the Seed framework is not part of this model; the route
  decoder takes the path segments, and `App.PathSegments` is a plain reading
  of an absolute path used to state the Display round trip.
- The CommonMark parser (`pulldown_cmark::Parser`) and `push_html` are the
  parameters `parse` and `render`. `Event` keeps all ten variants of the
  parser's event type; `Tag` is reduced to `CodeBlock` and `OtherTag`, the
  only distinction the rewrite makes.
- `extract_lowercase_text` runs lazily while `push_html` consumes the stream;
  the model collects eagerly, which gives the same parts in the same order.
- The directory walks of `html_and_text_files` and `markdown_files`, file
  removal, directory creation, reading and writing in `main`, and the panics
  of their `unwrap` calls: only the name filters, the output naming and the
  file contents are modelled (`BuildGuide` requires the two path components
  whose absence would panic).
- `checked_add(1)` in `next_guide` cannot overflow, since the index is below
  the list's length; the model uses unbounded integers.
- crate/src/guide/mod.rs and crate/src/article/mod.rs hold copies of the same
  catalog with other include paths; the catalog is modelled once.
- The default-guide lookup in crate/src/page/partial/intro.rs lives in view
  code and panics when the guide is missing.
- web_components/code-block.ts is a UI component calling an external
  highlighter.
