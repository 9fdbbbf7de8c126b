/**
 * How the build script's text extract and the runtime search fit together:
 * a guide whose lower-case text is the `.txt` file the build wrote for it is
 * found by any query occurring in one of its text-bearing Markdown events.
 */
module SearchIndex {
  import opened Wrappers
  import opened Strings
  import Guides
  import App
  import Build

  /**
   * If the query, lower-cased, occurs in the lower-cased payload of a Text,
   * Code or FootnoteReference event of a guide's Markdown, the search lists
   * that guide.
   */
  lemma FoundThroughItsTextEvents(guides: seq<Guides.Guide>, g: Guides.Guide,
                                  events: seq<Build.Event>, i: int, query: string)
    requires g in guides
    requires g.lowercaseText == Build.TextFileContent(Build.TextParts(events))
    requires 0 <= i < |events| && Build.TextPayload(events[i]).Some?
    requires query != "" && Contains(Lower(Build.TextPayload(events[i]).value), Lower(query))
    ensures g in App.Search(guides, query)
  {
    var parts := Build.TextParts(events);
    var part := Lower(Build.TextPayload(events[i]).value);
    Build.TextPartsFromPayloads(events);
    var k :| 0 <= k < |parts| && parts[k] == part;
    JoinContainsParts(parts, " ", k);
    ContainsTransitive(g.lowercaseText, part, Lower(query));
  }
}
