/**
 * The blog content pipeline (lib/blog.ts): the custom block converters that
 * turn a Lexical rich-text tree into HTML, the whole-document degradation
 * policy, the derived fields of a post (plain text, word count, reading time,
 * excerpt, authors), and the decisions the queries take once the CMS has
 * answered.
 *
 * The rich-text library is not part of this model. What it contributes is a
 * `Library` value: which node types and block types its default converters
 * handle, and what those converters return, `None` standing for a converter
 * that throws. Fetching is a parameter `fetch` from URL to `FetchResult`.
 */
module Blog {
  import opened Wrappers
  import opened Strings
  import Payload

  /** A relation the CMS returns either as a bare ID or populated, depending on the query depth. */
  datatype Relation<T> = Unresolved(id: string) | Resolved(value: T)

  datatype CmsAuthor = CmsAuthor(id: string, name: string)

  datatype CmsMedia = CmsMedia(id: string, url: Option<string>, filename: Option<string>, alt: Option<string>)

  /** A node of a Lexical rich-text tree. */
  datatype LexNode =
    /** A node of type `block`; a missing `fields` object reads as one with every field absent. */
    | Block(fields: BlockFields)
    /** Any other node: its type, its own data (text, URL, tag, ...) and its children. */
    | Element(nodeType: string, data: string, children: seq<LexNode>)

  /**
   * A string field that may be missing or JSON `null`. A destructuring
   * default replaces only a missing field; `null` is kept.
   */
  datatype JsonString = Missing | Null | JString(value: string)

  /** The fields of a block node that the custom converters read. */
  datatype BlockFields = BlockFields(
    blockType: Option<string>,
    code: Option<string>,
    language: JsonString,
    content: Option<NestedContent>,
    style: Option<string>,
    media: Option<Relation<CmsMedia>>,
    caption: Option<NestedContent>)

  /** A rich-text value held in a block's fields; nothing guarantees its `root`. */
  datatype NestedContent = NestedContent(root: Option<Root>)

  datatype Root = Root(children: seq<LexNode>)

  /**
   * The rich-text library: its default converters (the node types and block
   * types they handle, and their output given a node and its children's HTML,
   * `None` when the converter throws), and the container its
   * `convertLexicalToHTML` puts around the HTML of a document's children.
   */
  datatype Library = Library(
    nodeTypes: set<string>,
    renderNode: (LexNode, string) -> Option<string>,
    blockTypes: set<string>,
    renderBlock: BlockFields -> Option<string>,
    container: string -> string)

  // ---------------------------------------------------------------------------
  // Code block

  const DefaultLanguage: string := "typescript"

  /** The code converter's escaping: five global replacements, `&` first. */
  function EscapeHtml(s: string): string {
    var amp := ReplaceAll(s, "&", "&amp;");
    var lt := ReplaceAll(amp, "<", "&lt;");
    var gt := ReplaceAll(lt, ">", "&gt;");
    var quot := ReplaceAll(gt, "\"", "&quot;");
    ReplaceAll(quot, "'", "&#039;")
  }

  /** The entity one character escapes to. */
  function EscapeChar(c: char): string {
    match c
    case '&' => "&amp;"
    case '<' => "&lt;"
    case '>' => "&gt;"
    case '"' => "&quot;"
    case '\'' => "&#039;"
    case _ => [c]
  }

  /** Escaping character by character: the reference the replacement chain is checked against. */
  function EscapeEach(s: string): string
    decreases |s|
  {
    if s == [] then [] else EscapeChar(s[0]) + EscapeEach(s[1..])
  }

  /** What an HTML parser does to the five entities: decode them, left to right. */
  function UnescapeHtml(s: string): string
    decreases |s|
  {
    if s == [] then []
    else if StartsWith(s, "&amp;") then "&" + UnescapeHtml(s[5..])
    else if StartsWith(s, "&lt;") then "<" + UnescapeHtml(s[4..])
    else if StartsWith(s, "&gt;") then ">" + UnescapeHtml(s[4..])
    else if StartsWith(s, "&quot;") then "\"" + UnescapeHtml(s[6..])
    else if StartsWith(s, "&#039;") then "'" + UnescapeHtml(s[6..])
    else [s[0]] + UnescapeHtml(s[1..])
  }

  /** None of the characters that are special in HTML text and attributes. */
  predicate HtmlSafe(s: string) {
    forall k :: 0 <= k < |s| ==> s[k] != '<' && s[k] != '>' && s[k] != '"' && s[k] != '\''
  }

  lemma EscapeHtmlAppend(a: string, b: string)
    ensures EscapeHtml(a + b) == EscapeHtml(a) + EscapeHtml(b)
  {
    ReplaceCharAppend(a, b, '&', "&amp;");
    var a1, b1 := ReplaceAll(a, "&", "&amp;"), ReplaceAll(b, "&", "&amp;");
    ReplaceCharAppend(a1, b1, '<', "&lt;");
    var a2, b2 := ReplaceAll(a1, "<", "&lt;"), ReplaceAll(b1, "<", "&lt;");
    ReplaceCharAppend(a2, b2, '>', "&gt;");
    var a3, b3 := ReplaceAll(a2, ">", "&gt;"), ReplaceAll(b2, ">", "&gt;");
    ReplaceCharAppend(a3, b3, '"', "&quot;");
    var a4, b4 := ReplaceAll(a3, "\"", "&quot;"), ReplaceAll(b3, "\"", "&quot;");
    ReplaceCharAppend(a4, b4, '\'', "&#039;");
  }

  lemma EscapeHtmlChar(c: char)
    ensures EscapeHtml([c]) == EscapeChar(c)
  {
    if c == '&' {
      EscapeAmpChar();
    } else if c == '<' {
      EscapeLtChar();
    } else if c == '>' {
      EscapeGtChar();
    } else if c == '"' {
      EscapeQuotChar();
    } else if c == '\'' {
      EscapeAposChar();
    } else {
      EscapeOtherChar(c);
    }
  }

  /** Once the special characters are gone, the stages after `&` change nothing. */
  lemma LaterStagesKeep(t: string)
    requires '<' !in t && '>' !in t && '"' !in t && '\'' !in t
    ensures ReplaceAll(ReplaceAll(ReplaceAll(ReplaceAll(t, "<", "&lt;"), ">", "&gt;"), "\"", "&quot;"), "'", "&#039;") == t
  {
    ReplaceAbsentChar(t, '<', "&lt;");
    ReplaceAbsentChar(t, '>', "&gt;");
    ReplaceAbsentChar(t, '"', "&quot;");
    ReplaceAbsentChar(t, '\'', "&#039;");
  }

  lemma EscapeAmpChar()
    ensures EscapeHtml("&") == "&amp;"
  {
    assert ReplaceAll("&", "&", "&amp;") == "&amp;";
    LaterStagesKeep("&amp;");
  }

  lemma EscapeLtChar()
    ensures EscapeHtml("<") == "&lt;"
  {
    ReplaceAbsentChar("<", '&', "&amp;");
    assert ReplaceAll("<", "<", "&lt;") == "&lt;";
    ReplaceAbsentChar("&lt;", '>', "&gt;");
    ReplaceAbsentChar("&lt;", '"', "&quot;");
    ReplaceAbsentChar("&lt;", '\'', "&#039;");
  }

  lemma EscapeGtChar()
    ensures EscapeHtml(">") == "&gt;"
  {
    ReplaceAbsentChar(">", '&', "&amp;");
    ReplaceAbsentChar(">", '<', "&lt;");
    assert ReplaceAll(">", ">", "&gt;") == "&gt;";
    ReplaceAbsentChar("&gt;", '"', "&quot;");
    ReplaceAbsentChar("&gt;", '\'', "&#039;");
  }

  lemma EscapeQuotChar()
    ensures EscapeHtml("\"") == "&quot;"
  {
    ReplaceAbsentChar("\"", '&', "&amp;");
    ReplaceAbsentChar("\"", '<', "&lt;");
    ReplaceAbsentChar("\"", '>', "&gt;");
    assert ReplaceAll("\"", "\"", "&quot;") == "&quot;";
    ReplaceAbsentChar("&quot;", '\'', "&#039;");
  }

  lemma EscapeAposChar()
    ensures EscapeHtml("'") == "&#039;"
  {
    ReplaceAbsentChar("'", '&', "&amp;");
    ReplaceAbsentChar("'", '<', "&lt;");
    ReplaceAbsentChar("'", '>', "&gt;");
    ReplaceAbsentChar("'", '"', "&quot;");
    assert ReplaceAll("'", "'", "&#039;") == "&#039;";
  }

  lemma EscapeOtherChar(c: char)
    requires c != '&' && c != '<' && c != '>' && c != '"' && c != '\''
    ensures EscapeHtml([c]) == [c]
  {
    ReplaceAbsentChar([c], '&', "&amp;");
    LaterStagesKeep([c]);
  }

  /** The replacement chain escapes each character on its own: `&` going first keeps entities intact. */
  lemma {:induction false} EscapeHtmlIsPerChar(s: string)
    ensures EscapeHtml(s) == EscapeEach(s)
    decreases |s|
  {
    if s == [] {
    } else {
      assert s == [s[0]] + s[1..];
      EscapeHtmlAppend([s[0]], s[1..]);
      EscapeHtmlChar(s[0]);
      EscapeHtmlIsPerChar(s[1..]);
    }
  }

  lemma UnescapeAmp(rest: string)
    ensures UnescapeHtml("&amp;" + rest) == "&" + UnescapeHtml(rest)
  {
    var s := "&amp;" + rest;
    assert s[..5] == "&amp;" && s[5..] == rest;
  }

  lemma UnescapeLt(rest: string)
    ensures UnescapeHtml("&lt;" + rest) == "<" + UnescapeHtml(rest)
  {
    var s := "&lt;" + rest;
    assert s[1] == 'l' && s[..4] == "&lt;" && s[4..] == rest;
  }

  lemma UnescapeGt(rest: string)
    ensures UnescapeHtml("&gt;" + rest) == ">" + UnescapeHtml(rest)
  {
    var s := "&gt;" + rest;
    assert s[1] == 'g' && s[..4] == "&gt;" && s[4..] == rest;
    assert !StartsWith(s, "&amp;") && !StartsWith(s, "&lt;") by {
      assert |s| < 5 || s[..5][1] != "&amp;"[1];
      assert s[..4][1] != "&lt;"[1];
    }
  }

  lemma UnescapeQuot(rest: string)
    ensures UnescapeHtml("&quot;" + rest) == "\"" + UnescapeHtml(rest)
  {
    var s := "&quot;" + rest;
    assert s[1] == 'q' && s[..6] == "&quot;" && s[6..] == rest;
  }

  lemma UnescapeApos(rest: string)
    ensures UnescapeHtml("&#039;" + rest) == "'" + UnescapeHtml(rest)
  {
    var s := "&#039;" + rest;
    assert s[1] == '#' && s[..6] == "&#039;" && s[6..] == rest;
  }

  lemma UnescapePlain(c: char, rest: string)
    requires c != '&'
    ensures UnescapeHtml([c] + rest) == [c] + UnescapeHtml(rest)
  {
    var s := [c] + rest;
    assert s[0] == c && s[1..] == rest;
    assert !StartsWith(s, "&amp;") && !StartsWith(s, "&lt;") && !StartsWith(s, "&gt;") by {
      assert |s| < 5 || s[..5][0] != "&amp;"[0];
      assert |s| < 4 || s[..4][0] != "&lt;"[0];
    }
    assert !StartsWith(s, "&quot;") && !StartsWith(s, "&#039;") by {
      assert |s| < 6 || s[..6][0] != "&quot;"[0];
    }
  }

  lemma UnescapeEscapeChar(c: char, rest: string)
    ensures UnescapeHtml(EscapeChar(c) + rest) == [c] + UnescapeHtml(rest)
  {
    if c == '&' {
      UnescapeAmp(rest);
    } else if c == '<' {
      UnescapeLt(rest);
    } else if c == '>' {
      UnescapeGt(rest);
    } else if c == '"' {
      UnescapeQuot(rest);
    } else if c == '\'' {
      UnescapeApos(rest);
    } else {
      UnescapePlain(c, rest);
    }
  }

  lemma {:induction false} UnescapeEscapeEach(s: string)
    ensures UnescapeHtml(EscapeEach(s)) == s
    decreases |s|
  {
    if s != [] {
      UnescapeEscapeChar(s[0], EscapeEach(s[1..]));
      UnescapeEscapeEach(s[1..]);
    }
  }

  /** Decoding the five entities recovers the code exactly. */
  lemma EscapeRoundTrip(s: string)
    ensures UnescapeHtml(EscapeHtml(s)) == s
  {
    EscapeHtmlIsPerChar(s);
    UnescapeEscapeEach(s);
  }

  lemma {:induction false} EscapeEachSafe(s: string)
    ensures HtmlSafe(EscapeEach(s))
    decreases |s|
  {
    if s != [] {
      EscapeEachSafe(s[1..]);
      var e := EscapeChar(s[0]);
      assert HtmlSafe(e);
    }
  }

  /** The escaped code holds none of `<`, `>`, `"`, `'`. */
  lemma EscapedIsSafe(s: string)
    ensures HtmlSafe(EscapeHtml(s))
  {
    EscapeHtmlIsPerChar(s);
    EscapeEachSafe(s);
  }

  /** The opening tags of a rendered code block, naming the language in a `language-` class. */
  function CodeOpen(language: string): string {
    "<pre class=\"not-prose\"><code class=\"language-" + language + "\">"
  }

  const CodeClose: string := "</code></pre>"

  /**
   * The language the code converter names: `typescript` for a missing field,
   * the text `null` for a `null` one, as a template literal prints it.
   */
  function LanguageName(language: JsonString): string {
    match language
    case Missing => DefaultLanguage
    case Null => "null"
    case JString(l) => l
  }

  /**
   * The `code` block converter: nothing for missing or empty code, otherwise
   * the escaped code inside `<pre><code>` tagged with the language, which
   * defaults to `typescript` only when missing.
   */
  function CodeBlockHtml(code: Option<string>, language: JsonString): (html: string)
    ensures code.None? || code.value == "" ==> html == ""
    ensures code.Some? && code.value != "" && language.JString? ==>
      html == CodeOpen(language.value) + EscapeHtml(code.value) + CodeClose
    ensures code.Some? && code.value != "" && language.Missing? ==>
      html == CodeOpen(DefaultLanguage) + EscapeHtml(code.value) + CodeClose
    ensures code.Some? && code.value != "" && language.Null? ==>
      html == CodeOpen("null") + EscapeHtml(code.value) + CodeClose
  {
    if code.None? || code.value == "" then ""
    else CodeOpen(LanguageName(language)) + EscapeHtml(code.value) + CodeClose
  }

  // ---------------------------------------------------------------------------
  // Banner block

  /** The banner styles and their CSS classes. */
  const StyleClasses: map<string, string> := map[
    "info" := "border-border bg-card",
    "error" := "border-error bg-error/30",
    "success" := "border-success bg-success/30",
    "warning" := "border-warning bg-warning/30"]

  /** The CSS classes for a banner style: `info` when absent, and the info classes for an unknown style. */
  function BannerClasses(style: Option<string>): (classes: string)
    ensures classes in StyleClasses.Values
    ensures style.GetOr("info") in StyleClasses ==> classes == StyleClasses[style.GetOr("info")]
    ensures style.GetOr("info") !in StyleClasses ==> classes == StyleClasses["info"]
  {
    var key := style.GetOr("info");
    if key in StyleClasses then StyleClasses[key] else StyleClasses["info"]
  }

  /** The banner's containers around its already rendered content. */
  function BannerHtml(style: Option<string>, contentHtml: string): string {
    "<div class=\"mx-auto my-8 w-full\"><div class=\"border py-3 px-6 flex items-center rounded "
      + BannerClasses(style) + "\">" + contentHtml + "</div></div>"
  }

  // ---------------------------------------------------------------------------
  // Media block

  /** The origin the media converter puts in front of every image URL. */
  const MediaOrigin: string := "http://localhost:3001"

  /** The `alt` attribute: the alt text, else the file name, else empty, with `"` escaped. */
  function AltText(m: CmsMedia): string {
    var raw := if m.alt.Some? && m.alt.value != "" then m.alt.value else m.filename.GetOr("");
    ReplaceAll(raw, "\"", "&quot;")
  }

  function ImgTag(m: CmsMedia): string {
    "<img src=\"" + MediaOrigin + m.url.GetOr("") + "\" alt=\"" + AltText(m)
      + "\" class=\"border border-border rounded-[0.8rem]\" />"
  }

  function CaptionDiv(captionHtml: string): string {
    "<div class=\"mt-6\">" + captionHtml + "</div>"
  }

  /**
   * The `mediaBlock` converter's output, given the caption already rendered:
   * always one `<div>`; an image only for a populated media object; the
   * caption only when it rendered to something.
   */
  function MediaBlockHtml(media: Option<Relation<CmsMedia>>, captionHtml: string): (html: string)
    ensures StartsWith(html, "<div>") && EndsWith(html, "</div>")
    ensures !(media.Some? && media.value.Resolved?) ==> html == "<div></div>"
    ensures media.Some? && media.value.Resolved? && captionHtml == "" ==>
      html == "<div>" + ImgTag(media.value.value) + "</div>"
    ensures media.Some? && media.value.Resolved? && captionHtml != "" ==>
      html == "<div>" + ImgTag(media.value.value) + CaptionDiv(captionHtml) + "</div>"
  {
    var inner :=
      if media.Some? && media.value.Resolved? then
        ImgTag(media.value.value) + (if captionHtml != "" then CaptionDiv(captionHtml) else "")
      else "";
    "<div>" + inner + "</div>"
  }

  /** The converter as the source writes it: a string built up with `+=`. */
  method RenderMediaBlock(media: Option<Relation<CmsMedia>>, captionHtml: string) returns (html: string)
    ensures html == MediaBlockHtml(media, captionHtml)
  {
    html := "<div>";
    if media.Some? && media.value.Resolved? {
      html := html + ImgTag(media.value.value);
      if captionHtml != "" {
        html := html + CaptionDiv(captionHtml);
      }
    }
    html := html + "</div>";
  }

  /** The alt attribute can never close itself early: it holds no `"`. */
  lemma {:induction false} QuoteEscapedHasNoQuote(s: string)
    ensures '"' !in ReplaceAll(s, "\"", "&quot;")
    decreases |s|
  {
    if s != [] {
      QuoteEscapedHasNoQuote(s[1..]);
    }
  }

  /** Decoding `&quot;` recovers an alt text that holds no `&`. */
  lemma {:induction false} QuoteEscapeRoundTrip(s: string)
    requires '&' !in s
    ensures UnescapeHtml(ReplaceAll(s, "\"", "&quot;")) == s
    decreases |s|
  {
    if s != [] {
      var rest := ReplaceAll(s[1..], "\"", "&quot;");
      assert s == [s[0]] + s[1..];
      assert '&' !in s[1..];
      QuoteEscapeRoundTrip(s[1..]);
      QuoteEscapeStep(s);
      UnescapeQuoteEscaped(s[0], rest);
    }
  }

  /** The quote-only escape of one character. */
  function QuoteEscape(c: char): string {
    if c == '"' then "&quot;" else [c]
  }

  lemma QuoteEscapeStep(s: string)
    requires s != []
    ensures ReplaceAll(s, "\"", "&quot;") == QuoteEscape(s[0]) + ReplaceAll(s[1..], "\"", "&quot;")
  {
  }

  lemma UnescapeQuoteEscaped(c: char, rest: string)
    requires c != '&'
    ensures UnescapeHtml(QuoteEscape(c) + rest) == [c] + UnescapeHtml(rest)
  {
    if c == '"' {
      UnescapeQuot(rest);
    } else {
      UnescapePlain(c, rest);
    }
  }

  // ---------------------------------------------------------------------------
  // Serialisation

  /**
   * One node's HTML, or `None` when a converter throws. Blocks go to the
   * custom converters first, then to the library's; any node nobody handles
   * goes to the custom `unknown` converter, which renders nothing.
   */
  function RenderNode(lib: Library, n: LexNode): (h: Option<string>)
    decreases n, 1
    ensures n.Block? && n.fields.blockType == Some("code") ==> h == Some(CodeBlockHtml(n.fields.code, n.fields.language))
    ensures n.Block? && n.fields.blockType == Some("banner") && n.fields.content.None? ==> h == Some("")
    ensures h.None? ==>
      (n.Element? && n.nodeType in lib.nodeTypes) ||
      (n.Block? && n.fields.blockType.Some? &&
       (n.fields.blockType.value in lib.blockTypes || n.fields.blockType.value == "banner" || n.fields.blockType.value == "mediaBlock"))
  {
    match n
    case Block(f) =>
      if f.blockType == Some("code") then Some(CodeBlockHtml(f.code, f.language))
      else if f.blockType == Some("banner") then
        if f.content.None? then Some("")
        else
          match RenderNested(lib, f.content.value)
          case None => None
          case Some(h) => Some(BannerHtml(f.style, h))
      else if f.blockType == Some("mediaBlock") then
        if f.media.Some? && f.media.value.Resolved? && f.caption.Some? then
          match RenderNested(lib, f.caption.value)
          case None => None
          case Some(h) => Some(MediaBlockHtml(f.media, h))
        else Some(MediaBlockHtml(f.media, ""))
      else if f.blockType.Some? && f.blockType.value in lib.blockTypes then lib.renderBlock(f)
      else Some("")
    case Element(t, _, kids) =>
      if t !in lib.nodeTypes then Some("")
      else
        match RenderNodes(lib, kids)
        case None => None
        case Some(h) => lib.renderNode(n, h)
  }

  /** `serializeNestedContent`: nothing when the nested value has no root. */
  function RenderNested(lib: Library, c: NestedContent): (h: Option<string>)
    decreases c, 1
    ensures c.root.None? ==> h == Some("")
    ensures c.root.Some? ==> (h.Some? <==> RenderNodes(lib, c.root.value.children).Some?)
    ensures c.root.Some? && h.Some? ==> h.value == lib.container(RenderNodes(lib, c.root.value.children).value)
  {
    match c.root
    case None => Some("")
    case Some(r) => RenderConverted(lib, r)
  }

  /** `convertLexicalToHTML`: the children's HTML inside the library's container. */
  function RenderConverted(lib: Library, r: Root): (h: Option<string>)
    decreases r, 0
    ensures h.Some? <==> RenderNodes(lib, r.children).Some?
  {
    match RenderNodes(lib, r.children)
    case None => None
    case Some(body) => Some(lib.container(body))
  }

  /** Sibling nodes' HTML, in order; one throwing converter makes the whole sequence throw. */
  function RenderNodes(lib: Library, ns: seq<LexNode>): Option<string>
    decreases ns, 0
  {
    if ns == [] then Some("")
    else
      match RenderNode(lib, ns[0])
      case None => None
      case Some(h) =>
        match RenderNodes(lib, ns[1..])
        case None => None
        case Some(t) => Some(h + t)
  }

  /** `serializeLexicalContent`: the document's HTML, or `""` when any converter throws. */
  function SerializeLexicalContent(lib: Library, content: Root): (html: string)
    ensures RenderNodes(lib, content.children).None? ==> html == ""
    ensures RenderNodes(lib, content.children).Some? ==> html == lib.container(RenderNodes(lib, content.children).value)
  {
    RenderConverted(lib, content).GetOr("")
  }

  /** A node the custom `unknown` converter receives. */
  predicate IsUnknown(lib: Library, n: LexNode) {
    match n
    case Block(f) =>
      f.blockType !in {Some("code"), Some("banner"), Some("mediaBlock")}
      && (f.blockType.None? || f.blockType.value !in lib.blockTypes)
    case Element(t, _, _) => t !in lib.nodeTypes
  }

  /** An unknown node renders as the empty string and never throws. */
  lemma UnknownRendersEmpty(lib: Library, n: LexNode)
    requires IsUnknown(lib, n)
    ensures RenderNode(lib, n) == Some("")
  {
  }

  /** Rendering siblings is compositional. */
  lemma {:induction false} RenderNodesAppend(lib: Library, a: seq<LexNode>, b: seq<LexNode>)
    ensures RenderNodes(lib, a + b) ==
      if RenderNodes(lib, a).Some? && RenderNodes(lib, b).Some?
      then Some(RenderNodes(lib, a).value + RenderNodes(lib, b).value)
      else None
    decreases |a|
  {
    if a == [] {
      assert a + b == b;
      if RenderNodes(lib, b).Some? {
        assert "" + RenderNodes(lib, b).value == RenderNodes(lib, b).value;
      }
    } else {
      var ab := a + b;
      assert ab != [] && ab[0] == a[0] && ab[1..] == a[1..] + b;
      RenderNodesAppend(lib, a[1..], b);
      match RenderNode(lib, a[0])
      case None =>
      case Some(h) =>
        match RenderNodes(lib, a[1..])
        case None =>
        case Some(t) =>
          if RenderNodes(lib, b).Some? {
            assert h + (t + RenderNodes(lib, b).value) == (h + t) + RenderNodes(lib, b).value;
          }
    }
  }

  /** Unknown nodes leave no trace in their siblings' HTML. */
  lemma UnknownNodeVanishes(lib: Library, a: seq<LexNode>, u: LexNode, b: seq<LexNode>)
    requires IsUnknown(lib, u)
    ensures RenderNodes(lib, a + [u] + b) == RenderNodes(lib, a + b)
  {
    RenderNodesAppend(lib, a, [u] + b);
    assert a + [u] + b == a + ([u] + b);
    RenderNodesAppend(lib, [u], b);
    assert [u][0] == u && [u][1..] == [];
    UnknownRendersEmpty(lib, u);
    assert RenderNodes(lib, [u][1..]) == Some("");
    assert "" + "" == "";
    assert RenderNodes(lib, [u]) == Some("");
    if RenderNodes(lib, b).Some? {
      assert "" + RenderNodes(lib, b).value == RenderNodes(lib, b).value;
    }
    RenderNodesAppend(lib, a, b);
  }

  /** A single throwing converter anywhere among the children blanks the whole document. */
  lemma {:induction false} FailingNodeBlanksDocument(lib: Library, content: Root, i: nat)
    requires i < |content.children| && RenderNode(lib, content.children[i]).None?
    ensures RenderNodes(lib, content.children).None?
    ensures SerializeLexicalContent(lib, content) == ""
    decreases i
  {
    var ns := content.children;
    if i > 0 && RenderNode(lib, ns[0]).Some? {
      FailingNodeBlanksDocument(lib, Root(ns[1..]), i - 1);
    }
  }

  /** A document without children serialises to the library's empty container. */
  lemma EmptyDocument(lib: Library)
    ensures SerializeLexicalContent(lib, Root([])) == lib.container("")
  {
  }

  /** A banner whose content has no root renders empty containers, and so does one with no children. */
  lemma BannerWithoutRoot(lib: Library, f: BlockFields)
    requires f.blockType == Some("banner") && f.content == Some(NestedContent(None))
    ensures RenderNode(lib, Block(f)) == Some(BannerHtml(f.style, ""))
  {
  }

  // ---------------------------------------------------------------------------
  // Posts

  datatype Meta = Meta(title: Option<string>, description: Option<string>)

  /** A post as the CMS returns it. */
  datatype CmsPost = CmsPost(
    id: string,
    title: string,
    slug: string,
    content: Root,
    publishedAt: string,
    createdAt: string,
    updatedAt: string,
    /** `None` when the field is not an array. */
    authors: Option<seq<Relation<CmsAuthor>>>,
    populatedAuthors: Option<seq<CmsAuthor>>,
    meta: Option<Meta>)

  /**
   * A post ready for the pages. `meta` and `cover` are read by the JSON-LD
   * schema although the post type does not declare them.
   */
  datatype BlogPost = BlogPost(
    id: string,
    title: string,
    slug: string,
    content: string,
    publishedAt: string,
    createdAt: string,
    updatedAt: string,
    authors: seq<Relation<CmsAuthor>>,
    readingTime: nat,
    excerpt: Option<string>,
    meta: Option<Meta>,
    cover: Option<Relation<CmsMedia>>)

  const WordsPerMinute: nat := 200
  const ExcerptLength: nat := 200

  /** The serialised HTML with every tag replaced by a blank, trimmed. */
  function PlainText(html: string): (text: string)
    ensures NoTag(text)
  {
    var stripped := StripTags(html);
    StrippedHasNoTag(html);
    NoTagTrim(stripped);
    Trim(stripped)
  }

  /** Trimming keeps a text free of tags. */
  lemma NoTagTrim(s: string)
    requires NoTag(s)
    ensures NoTag(Trim(s))
  {
    var u := TrimStart(s);
    assert u == s[|s| - |u|..|s|];
    NoTagSlice(s, |s| - |u|, |s|);
    var t := TrimEnd(u);
    assert t == u[0..|t|];
    NoTagSlice(u, 0, |t|);
  }

  lemma NoTagSlice(s: string, from: nat, to: nat)
    requires NoTag(s) && from <= to <= |s|
    ensures NoTag(s[from..to])
  {
    var r := s[from..to];
    forall i, j | 0 <= i < j < |r| && r[i] == '<'
      ensures r[j] != '>'
    {
      assert s[from + i] == '<' && r[j] == s[from + j];
    }
  }

  /** The number of non-empty white-space separated tokens: the maximal runs of non-white-space characters. */
  function WordCount(text: string): (n: nat)
    ensures n == RunStarts(text, true)
  {
    |Words(text)|
  }

  /**
   * Reading time in whole minutes at 200 words a minute: the least number of
   * minutes, at least one, in which the words can be read.
   */
  function ReadingTime(wordCount: nat): (minutes: nat)
    ensures minutes >= 1
    ensures wordCount <= minutes * WordsPerMinute
    ensures minutes == 1 || (minutes - 1) * WordsPerMinute < wordCount
  {
    var ceil := (wordCount + WordsPerMinute - 1) / WordsPerMinute;
    if ceil < 1 then 1 else ceil
  }

  /** More words never take less time. */
  lemma ReadingTimeMonotone(a: nat, b: nat)
    requires a <= b
    ensures ReadingTime(a) <= ReadingTime(b)
  {
  }

  lemma ReadingTimeExamples()
    ensures ReadingTime(0) == 1 && ReadingTime(200) == 1 && ReadingTime(201) == 2
    ensures ReadingTime(400) == 2 && ReadingTime(401) == 3
  {
  }

  /** The first 200 characters of the plain text, each white-space run collapsed to one blank. */
  function ExcerptBody(text: string): (body: string)
    ensures |body| <= ExcerptLength
  {
    CollapseWs(Take(text, ExcerptLength))
  }

  /** The excerpt: its body, followed by `...` when the body is shorter than the plain text. */
  function Excerpt(text: string): (excerpt: string)
    ensures excerpt == ExcerptBody(text) || excerpt == ExcerptBody(text) + "..."
  {
    var body := ExcerptBody(text);
    if |body| < |text| then body + "..." else body
  }

  /**
   * `...` is appended exactly when the text is longer than 200 characters or
   * its first 200 characters hold a white-space run of two or more, so also
   * to some short texts that were not cut.
   */
  lemma ExcerptEllipsis(text: string)
    ensures Excerpt(text) == ExcerptBody(text) + "..." <==>
      |text| > ExcerptLength || HasSpaceRun(Take(text, ExcerptLength))
  {
    CollapseShortens(Take(text, ExcerptLength));
  }

  /**
   * The authors: a present `populatedAuthors` wins even when empty; otherwise
   * `authors` when it is an array whose first entry is populated; otherwise none.
   */
  function NormalizeAuthors(populated: Option<seq<CmsAuthor>>, authors: Option<seq<Relation<CmsAuthor>>>)
    : (r: seq<Relation<CmsAuthor>>)
    ensures populated.Some? ==>
      |r| == |populated.value| && forall i :: 0 <= i < |r| ==> r[i] == Resolved(populated.value[i])
    ensures populated.None? && authors.Some? && |authors.value| > 0 && authors.value[0].Resolved? ==>
      r == authors.value
    ensures populated.None? && !(authors.Some? && |authors.value| > 0 && authors.value[0].Resolved?) ==>
      r == []
  {
    if populated.Some? then seq(|populated.value|, i requires 0 <= i < |populated.value| => Resolved(populated.value[i]))
    else if authors.Some? && |authors.value| > 0 && authors.value[0].Resolved? then authors.value
    else []
  }

  /** An array of bare IDs, with nothing populated beside it, yields no authors at all. */
  lemma BareIdAuthorsVanish(authors: seq<Relation<CmsAuthor>>)
    requires forall i :: 0 <= i < |authors| ==> authors[i].Unresolved?
    ensures NormalizeAuthors(None, Some(authors)) == []
  {
  }

  /** When the raw array is all of one kind, as the CMS's type promises, no bare ID survives. */
  lemma NormalizedAuthorsArePopulated(populated: Option<seq<CmsAuthor>>, authors: Option<seq<Relation<CmsAuthor>>>)
    requires authors.Some? ==>
      (forall i :: 0 <= i < |authors.value| ==> authors.value[i].Resolved?) ||
      (forall i :: 0 <= i < |authors.value| ==> authors.value[i].Unresolved?)
    ensures forall a :: a in NormalizeAuthors(populated, authors) ==> a.Resolved?
  {
  }

  /**
   * `transformPost`: the serialised content and what is derived from it; the
   * identity fields and timestamps are copied unchanged.
   */
  function TransformPost(lib: Library, post: CmsPost): (p: BlogPost)
    ensures p.id == post.id && p.title == post.title && p.slug == post.slug
    ensures p.publishedAt == post.publishedAt && p.createdAt == post.createdAt && p.updatedAt == post.updatedAt
    ensures p.content == SerializeLexicalContent(lib, post.content)
    ensures p.authors == NormalizeAuthors(post.populatedAuthors, post.authors)
    ensures p.readingTime == ReadingTime(WordCount(PlainText(p.content))) && p.readingTime >= 1
    ensures p.excerpt == Some(Excerpt(PlainText(p.content)))
    ensures p.meta.None? && p.cover.None?
  {
    var html := SerializeLexicalContent(lib, post.content);
    var text := PlainText(html);
    BlogPost(
      post.id, post.title, post.slug, html,
      post.publishedAt, post.createdAt, post.updatedAt,
      NormalizeAuthors(post.populatedAuthors, post.authors),
      ReadingTime(WordCount(text)),
      Some(Excerpt(text)),
      None, None)
  }

  /**
   * A post whose content is empty gets the library's empty container; when
   * that container holds no text, one minute and an empty excerpt.
   */
  lemma EmptyPost(lib: Library, post: CmsPost)
    requires post.content.children == []
    ensures TransformPost(lib, post).content == lib.container("")
    ensures PlainText(lib.container("")) == "" ==>
      TransformPost(lib, post).readingTime == 1 && TransformPost(lib, post).excerpt == Some("")
  {
    assert StripTags("") == "";
    assert Take("", ExcerptLength) == "";
    assert SplitWs("") == [""];
  }

  // ---------------------------------------------------------------------------
  // Queries

  /** What a fetch produced: a thrown error (network, unreadable JSON), or a response. */
  datatype FetchResult = Failed | Response(ok: bool, docs: seq<CmsPost>)

  const PublishedQuery: string := "where[_status][equals]=published&depth=1&sort=-publishedAt"

  function AllPostsUrl(apiBase: string): string {
    Payload.CollectionUrl(apiBase, "posts", Some(PublishedQuery))
  }

  function LatestPostUrl(apiBase: string): string {
    Payload.CollectionUrl(apiBase, "posts", Some(PublishedQuery + "&limit=1"))
  }

  /** The slug goes into the query verbatim. */
  function PostBySlugUrl(apiBase: string, slug: string): string {
    Payload.CollectionUrl(apiBase, "posts",
      Some("where[slug][equals]=" + slug + "&where[_status][equals]=published&depth=1"))
  }

  /** `getAllPosts` after the fetch: every returned post transformed, or none on any failure. */
  function PostsOf(lib: Library, r: FetchResult): (posts: seq<BlogPost>)
    ensures r.Failed? || !r.ok ==> posts == []
    ensures r.Response? && r.ok ==>
      |posts| == |r.docs| && forall i :: 0 <= i < |posts| ==> posts[i] == TransformPost(lib, r.docs[i])
  {
    if r.Failed? || !r.ok then []
    else seq(|r.docs|, i requires 0 <= i < |r.docs| => TransformPost(lib, r.docs[i]))
  }

  /** `getLatestPost` and `getPostBySlug` after the fetch: the first post, or `null` on failure or no match. */
  function FirstPostOf(lib: Library, r: FetchResult): (post: Option<BlogPost>)
    ensures post.Some? <==> r.Response? && r.ok && |r.docs| > 0
    ensures post.Some? ==> post.value == TransformPost(lib, r.docs[0])
  {
    if r.Failed? || !r.ok || |r.docs| == 0 then None else Some(TransformPost(lib, r.docs[0]))
  }

  function GetAllPosts(lib: Library, fetch: string -> FetchResult, apiBase: string): (posts: seq<BlogPost>)
    ensures var r := fetch(AllPostsUrl(apiBase));
      (r.Failed? || !r.ok ==> posts == []) &&
      (r.Response? && r.ok ==> |posts| == |r.docs| && forall i :: 0 <= i < |posts| ==> posts[i] == TransformPost(lib, r.docs[i]))
  {
    PostsOf(lib, fetch(AllPostsUrl(apiBase)))
  }

  function GetLatestPost(lib: Library, fetch: string -> FetchResult, apiBase: string): (post: Option<BlogPost>)
    ensures var r := fetch(LatestPostUrl(apiBase));
      (post.Some? <==> r.Response? && r.ok && |r.docs| > 0) &&
      (post.Some? ==> post.value == TransformPost(lib, r.docs[0]))
  {
    FirstPostOf(lib, fetch(LatestPostUrl(apiBase)))
  }

  function GetPostBySlug(lib: Library, fetch: string -> FetchResult, apiBase: string, slug: string): (post: Option<BlogPost>)
    ensures var r := fetch(PostBySlugUrl(apiBase, slug));
      (post.Some? <==> r.Response? && r.ok && |r.docs| > 0) &&
      (post.Some? ==> post.value == TransformPost(lib, r.docs[0]))
  {
    FirstPostOf(lib, fetch(PostBySlugUrl(apiBase, slug)))
  }

  /** `getAllPostSlugs`: the slugs of all posts, in the same order. */
  function GetAllPostSlugs(lib: Library, fetch: string -> FetchResult, apiBase: string): (slugs: seq<string>)
    ensures var posts := GetAllPosts(lib, fetch, apiBase);
      |slugs| == |posts| && forall i :: 0 <= i < |slugs| ==> slugs[i] == posts[i].slug
  {
    var posts := GetAllPosts(lib, fetch, apiBase);
    seq(|posts|, i requires 0 <= i < |posts| => posts[i].slug)
  }

  /** The slugs are those of the CMS's documents, in the CMS's order. */
  lemma SlugsFollowDocs(lib: Library, fetch: string -> FetchResult, apiBase: string)
    requires fetch(AllPostsUrl(apiBase)).Response? && fetch(AllPostsUrl(apiBase)).ok
    ensures var docs := fetch(AllPostsUrl(apiBase)).docs;
      var slugs := GetAllPostSlugs(lib, fetch, apiBase);
      |slugs| == |docs| && forall i :: 0 <= i < |slugs| ==> slugs[i] == docs[i].slug
  {
  }

  /** The slug reaches the CMS as the start of the query of the posts collection. */
  lemma SlugQueryReachesCms(apiBase: string, slug: string)
    requires '?' !in apiBase
    ensures Payload.SplitQuery(PostBySlugUrl(apiBase, slug)) ==
      (Payload.CollectionPath(apiBase, "posts"),
       Some("where[slug][equals]=" + slug + "&where[_status][equals]=published&depth=1"))
  {
    Payload.CollectionUrlRoundTrip(apiBase, "posts",
      Some("where[slug][equals]=" + slug + "&where[_status][equals]=published&depth=1"));
  }
}
