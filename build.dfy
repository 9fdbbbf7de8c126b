/**
 * The build script (crate/build.rs): rewriting the Markdown event stream,
 * collecting the lower-case search text, and naming the generated files.
 *
 * The Markdown parser and the HTML renderer are a CommonMark implementation
 * outside this crate; here they are the parameters `parse` and `render`, and
 * the events they exchange are the abstract `Event` type below.
 */
module Build {
  import opened Wrappers
  import opened Strings
  import opened Sequences

  // ------ Markdown events ------

  datatype CodeBlockKind = Indented | Fenced(lang: string)

  /** The container a Start/End pair delimits; only code blocks are told apart. */
  datatype Tag = CodeBlock(kind: CodeBlockKind) | OtherTag(name: string)

  datatype Event =
    | Start(tag: Tag)
    | End(tag: Tag)
    | Text(text: string)
    | Code(code: string)
    | Html(html: string)
    | FootnoteReference(reference: string)
    | SoftBreak
    | HardBreak
    | Rule
    | TaskListMarker(checked: bool)

  // ------ transform_code_blocks ------

  /** The raw HTML that opens a code block: the language attribute only when there is one. */
  function CodeBlockOpenTag(lang: string): string
  {
    "<code-block" + (if lang == "" then "" else " lang=\"" + lang + "\"") + ">"
  }

  const CodeBlockCloseTag: string := "</code-block>"

  /** The events the rewrite replaces: a fenced code-block start, and every code-block end. */
  predicate IsRewrittenMarker(e: Event)
  {
    (e.Start? && e.tag.CodeBlock? && e.tag.kind.Fenced?) || (e.End? && e.tag.CodeBlock?)
  }

  /** The per-event map of `transform_code_blocks`. */
  function TransformCodeBlock(e: Event): (r: Event)
    ensures !IsRewrittenMarker(e) ==> r == e
    ensures IsRewrittenMarker(e) ==> r.Html? && !IsRewrittenMarker(r)
  {
    match e
    case Start(CodeBlock(Fenced(lang))) => Html(CodeBlockOpenTag(lang))
    case End(CodeBlock(_)) => Html(CodeBlockCloseTag)
    case _ => e
  }

  /** `transform_code_blocks`: the stream with each event mapped in place. */
  function TransformCodeBlocks(events: seq<Event>): (r: seq<Event>)
    ensures |r| == |events|
  {
    seq(|events|, i requires 0 <= i < |events| => TransformCodeBlock(events[i]))
  }

  /**
   * The rewrite is one-to-one: same length, every other event unchanged, a
   * fenced start becomes the open tag with its language, an end the close tag.
   */
  lemma TransformCodeBlocksAt(events: seq<Event>, i: int)
    requires 0 <= i < |events|
    ensures |TransformCodeBlocks(events)| == |events|
    ensures !IsRewrittenMarker(events[i]) ==> TransformCodeBlocks(events)[i] == events[i]
    ensures events[i].Start? && events[i].tag == CodeBlock(Fenced("")) ==>
            TransformCodeBlocks(events)[i] == Html("<code-block>")
    ensures events[i].Start? && events[i].tag.CodeBlock? && events[i].tag.kind.Fenced? &&
            events[i].tag.kind.lang != "" ==>
            TransformCodeBlocks(events)[i] == Html("<code-block lang=\"" + events[i].tag.kind.lang + "\">")
    ensures events[i].End? && events[i].tag.CodeBlock? ==>
            TransformCodeBlocks(events)[i] == Html("</code-block>")
    ensures events[i] == Start(CodeBlock(Indented)) ==>
            TransformCodeBlocks(events)[i] == Start(CodeBlock(Indented))
  {
  }

  /** After the rewrite no marker is left to rewrite, so running it again changes nothing. */
  lemma TransformCodeBlocksIdempotent(events: seq<Event>)
    ensures forall e :: e in TransformCodeBlocks(events) ==> !IsRewrittenMarker(e)
    ensures TransformCodeBlocks(TransformCodeBlocks(events)) == TransformCodeBlocks(events)
  {
  }

  /** Different languages give different open tags: the tag determines the language. */
  lemma {:induction false} CodeBlockOpenTagInjective(a: string, b: string)
    requires CodeBlockOpenTag(a) == CodeBlockOpenTag(b)
    ensures a == b
  {
    var prefix := "<code-block lang=\"";
    if a != "" && b != "" {
      var ta, tb := CodeBlockOpenTag(a), CodeBlockOpenTag(b);
      assert ta == prefix + a + "\">";
      assert tb == prefix + b + "\">";
      assert a == ta[|prefix|..|ta| - 2];
      assert b == tb[|prefix|..|tb| - 2];
    }
  }

  // ------ extract_lowercase_text ------

  /** The text an event adds to the search index: Text, Code and FootnoteReference carry some. */
  function TextPayload(e: Event): (r: Option<string>)
    ensures r.Some? <==> e.Text? || e.Code? || e.FootnoteReference?
  {
    match e
    case Text(t) => Some(t)
    case Code(c) => Some(c)
    case FootnoteReference(r) => Some(r)
    case _ => None
  }

  /** The lower-cased payloads of the stream's text-bearing events, in stream order. */
  function TextParts(events: seq<Event>): seq<string>
  {
    if |events| == 0 then [] else EventText(events[0]) + TextParts(events[1..])
  }

  /** The lower-cased payload of one event, if it carries text. */
  function EventText(e: Event): seq<string>
  {
    match TextPayload(e)
    case Some(t) => [Lower(t)]
    case None => []
  }

  /** Collecting text distributes over concatenating streams. */
  lemma {:induction false} TextPartsAppend(a: seq<Event>, b: seq<Event>)
    ensures TextParts(a + b) == TextParts(a) + TextParts(b)
  {
    if |a| == 0 {
      assert a + b == b;
    } else {
      var ab := a + b;
      assert ab[0] == a[0] && ab[1..] == a[1..] + b;
      TextPartsAppend(a[1..], b);
      var head := EventText(a[0]);
      calc {
        TextParts(ab);
        head + TextParts(a[1..] + b);
        head + (TextParts(a[1..]) + TextParts(b));
        (head + TextParts(a[1..])) + TextParts(b);
      }
    }
  }

  /**
   * Each collected part is lower-case, there are no more parts than events,
   * and the lowered payload of every text-bearing event is among the parts.
   */
  lemma {:induction false} TextPartsFromPayloads(events: seq<Event>)
    ensures |TextParts(events)| <= |events|
    ensures forall p :: p in TextParts(events) ==> IsLower(p)
    ensures forall i :: 0 <= i < |events| && TextPayload(events[i]).Some? ==>
                        Lower(TextPayload(events[i]).value) in TextParts(events)
  {
    if |events| > 0 {
      TextPartsFromPayloads(events[1..]);
      match TextPayload(events[0])
      case Some(t) => LowerIsLower(t);
      case None =>
      forall i | 1 <= i < |events| && TextPayload(events[i]).Some?
        ensures Lower(TextPayload(events[i]).value) in TextParts(events)
      {
        assert events[1..][i - 1] == events[i];
      }
    }
  }

  /**
   * `extract_lowercase_text` together with the shared accumulator it fills:
   * every event passes through unchanged, and the accumulator ends up holding
   * the lower-cased payloads of the Text, Code and FootnoteReference events.
   */
  method ExtractLowercaseText(events: seq<Event>) returns (passed: seq<Event>, textParts: seq<string>)
    ensures passed == events
    ensures textParts == TextParts(events)
  {
    passed, textParts := [], [];
    for i := 0 to |events|
      invariant passed == events[..i]
      invariant textParts == TextParts(events[..i])
    {
      var event := events[i];
      ghost var collected := textParts;
      match event {
        case Text(text) => textParts := textParts + [Lower(text)];
        case Code(code) => textParts := textParts + [Lower(code)];
        case FootnoteReference(reference) => textParts := textParts + [Lower(reference)];
        case _ =>
      }
      assert textParts == collected + EventText(event);
      assert [event][1..] == [];
      assert TextParts([event]) == EventText(event);
      TextPartsAppend(events[..i], [event]);
      assert events[..i + 1] == events[..i] + [event];
      passed := passed + [event];
    }
    assert events[..|events|] == events;
  }

  /**
   * The code-block rewrite contributes no text: its markers carry none, and
   * the Text events inside a code block are still collected.
   */
  lemma {:induction false} TransformKeepsTextParts(events: seq<Event>)
    ensures TextParts(TransformCodeBlocks(events)) == TextParts(events)
  {
    if |events| > 0 {
      TransformKeepsTextParts(events[1..]);
      assert TransformCodeBlocks(events)[1..] == TransformCodeBlocks(events[1..]);
      assert TextPayload(TransformCodeBlock(events[0])) == TextPayload(events[0]);
    }
  }

  /**
   * `markdown_to_html_and_text_parts`: parse, rewrite the code blocks, collect
   * the text while the renderer consumes the stream, and hand back both.
   */
  method MarkdownToHtmlAndTextParts(markdown: string, parse: string -> seq<Event>,
                                    render: seq<Event> -> string)
    returns (html: string, textParts: seq<string>)
    ensures html == render(TransformCodeBlocks(parse(markdown)))
    ensures textParts == TextParts(parse(markdown))
  {
    var events := TransformCodeBlocks(parse(markdown));
    var passed;
    passed, textParts := ExtractLowercaseText(events);
    html := render(passed);
    TransformKeepsTextParts(parse(markdown));
  }

  // ------ file names ------

  /** The index of the last `.` in a file name. */
  function LastDot(name: string): (r: Option<nat>)
    ensures r.Some? ==> r.value < |name| && name[r.value] == '.' &&
                        forall j :: r.value < j < |name| ==> name[j] != '.'
    ensures r.None? ==> '.' !in name
  {
    if |name| == 0 then None
    else if name[|name| - 1] == '.' then Some(|name| - 1)
    else LastDot(name[..|name| - 1])
  }

  /** `Path::file_stem`: the name up to its last dot, unless that dot leads the name. */
  function FileStem(name: string): (stem: string)
    ensures |stem| <= |name| && stem == name[..|stem|]
    ensures stem == "" ==> name == ""
  {
    if name == ".." then name
    else match LastDot(name)
      case None => name
      case Some(i) => if i == 0 then name else name[..i]
  }

  /** `Path::extension`: what follows the last dot, unless that dot leads the name. */
  function Extension(name: string): (ext: Option<string>)
    ensures ext.Some? ==> FileStem(name) != "" && '.' !in ext.value &&
                          name == FileStem(name) + "." + ext.value
  {
    if name == ".." then None
    else match LastDot(name)
      case None => None
      case Some(i) => if i == 0 then None else Some(name[i + 1..])
  }

  /** The source filter of `markdown_files`. */
  predicate IsMarkdownFile(name: string)
  {
    Extension(name) == Some("md")
  }

  /** The cleanup filter of `html_and_text_files`. */
  predicate IsGeneratedFile(name: string)
  {
    Extension(name) == Some("html") || Extension(name) == Some("txt")
  }

  /** A non-empty stem followed by a dot and a dot-free extension splits back into the two. */
  lemma StemAndExtension(stem: string, ext: string)
    requires stem != "" && ext != "" && '.' !in ext
    ensures FileStem(stem + "." + ext) == stem
    ensures Extension(stem + "." + ext) == Some(ext)
  {
    var name := stem + "." + ext;
    assert name[|stem|] == '.';
    assert forall j :: |stem| < j < |name| ==> name[j] == ext[j - |stem| - 1];
    assert LastDot(name) == Some(|stem|);
    assert |name| > 2;
    assert name[..|stem|] == stem;
    assert name[|stem| + 1..] == ext;
  }

  /** The source filter keeps exactly the names that are a non-empty stem plus `.md`. */
  lemma MarkdownFileNames(name: string)
    ensures IsMarkdownFile(name) ==> FileStem(name) != "" && name == FileStem(name) + ".md"
    ensures IsMarkdownFile(name) ==> !IsGeneratedFile(name)
  {
    if IsMarkdownFile(name) {
      var i := LastDot(name).value;
      assert name != "..";
      assert name == name[..i] + "." + name[i + 1..];
    }
  }

  /** Conversely, every non-empty stem plus `.md` passes the source filter, with that stem. */
  lemma MarkdownFileOfStem(stem: string)
    requires stem != ""
    ensures IsMarkdownFile(stem + ".md") && FileStem(stem + ".md") == stem
  {
    assert stem + ".md" == stem + "." + "md";
    StemAndExtension(stem, "md");
  }

  /** The folder `main` writes a guide's outputs to. */
  function OutputFolder(version: string): string
  {
    "generated_guides/" + version
  }

  /** `format!("{}/{}.html", parent_folder, file_stem)`. */
  function HtmlOutputPath(version: string, stem: string): string
  {
    OutputFolder(version) + "/" + stem + ".html"
  }

  /** `format!("{}/{}.txt", parent_folder, file_stem)`. */
  function TextOutputPath(version: string, stem: string): string
  {
    OutputFolder(version) + "/" + stem + ".txt"
  }

  /** `text_parts.join(" ")`: the content of a guide's `.txt` file. */
  function TextFileContent(textParts: seq<string>): string
  {
    Join(textParts, " ")
  }

  /**
   * One iteration of the second loop of `main`, for the Markdown file at
   * `path` (its components) holding `markdown`: the two files to write and
   * their contents.
   */
  method BuildGuide(path: seq<string>, markdown: string, parse: string -> seq<Event>,
                    render: seq<Event> -> string)
    returns (htmlPath: string, html: string, textPath: string, text: string)
    requires |path| >= 2
    ensures htmlPath == HtmlOutputPath(path[|path| - 2], FileStem(path[|path| - 1]))
    ensures textPath == TextOutputPath(path[|path| - 2], FileStem(path[|path| - 1]))
    ensures html == render(TransformCodeBlocks(parse(markdown)))
    ensures text == TextFileContent(TextParts(parse(markdown)))
  {
    var textParts;
    html, textParts := MarkdownToHtmlAndTextParts(markdown, parse, render);
    var parentFolder := OutputFolder(path[|path| - 2]);
    var fileStem := FileStem(path[|path| - 1]);
    htmlPath := parentFolder + "/" + fileStem + ".html";
    textPath := parentFolder + "/" + fileStem + ".txt";
    text := Join(textParts, " ");
  }

  /**
   * For a source `guides/<v>/<stem>.md` the outputs are
   * `generated_guides/<v>/<stem>.html` and `.txt`, both of which the cleanup
   * filter of the next build recognises, and the `.txt` file contains every
   * collected part.
   */
  lemma OutputsOfMarkdownFile(version: string, name: string, textParts: seq<string>)
    requires IsMarkdownFile(name)
    ensures var stem := FileStem(name);
            && HtmlOutputPath(version, stem) == "generated_guides/" + version + "/" + stem + ".html"
            && TextOutputPath(version, stem) == "generated_guides/" + version + "/" + stem + ".txt"
            && IsGeneratedFile(stem + ".html") && FileStem(stem + ".html") == stem
            && IsGeneratedFile(stem + ".txt") && FileStem(stem + ".txt") == stem
    ensures forall k :: 0 <= k < |textParts| ==> Contains(TextFileContent(textParts), textParts[k])
  {
    MarkdownFileNames(name);
    var stem := FileStem(name);
    StemAndExtension(stem, "html");
    StemAndExtension(stem, "txt");
    assert stem + ".html" == stem + "." + "html";
    assert stem + ".txt" == stem + "." + "txt";
    forall k | 0 <= k < |textParts|
      ensures Contains(TextFileContent(textParts), textParts[k])
    {
      JoinContainsParts(textParts, " ", k);
    }
  }
}
