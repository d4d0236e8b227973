/**
 * The blog body component (components/blog-content.tsx): it parses the
 * serialised HTML and replaces every `<pre>` that holds a `<code>` element by
 * a code block, reading the language back from the `language-` class and the
 * code from the text of the `<code>` element.
 *
 * The HTML parser is not part of this model; its output is a `DomNode` tree.
 */
module BlogContent {
  import opened Wrappers
  import opened Strings
  import Blog
  import CodeBlock

  /** A node of the parsed document. */
  datatype DomNode =
    /** A text node; its `data` may be missing. */
    | Text(data: Option<string>)
    /** A node of type `tag`, with its `class` attribute. */
    | Tag(name: string, classAttr: Option<string>, children: seq<DomNode>)
    /** Any other node with children (`script`, `style`, CDATA). */
    | Container(children: seq<DomNode>)
    /** A node without children (comment, directive). */
    | Leaf

  /**
   * `extractText`: a text node's data, or the text of the children in order.
   * It reads the text nodes' data off in document order, missing data as `""`.
   */
  function ExtractText(n: DomNode): (text: string)
    decreases n, 1
    ensures text == ConcatData(TextLeaves(n))
  {
    match n
    case Text(data) => data.GetOr("")
    case Tag(_, _, kids) => ExtractAll(kids)
    case Container(kids) => ExtractAll(kids)
    case Leaf => ""
  }

  /** `nodes.map(extractText).join("")`. */
  function ExtractAll(ns: seq<DomNode>): (text: string)
    decreases ns, 0
    ensures text == ConcatData(TextLeavesAll(ns))
  {
    if ns == [] then ""
    else
      ConcatDataAppend(TextLeaves(ns[0]), TextLeavesAll(ns[1..]));
      ExtractText(ns[0]) + ExtractAll(ns[1..])
  }

  /** The text of a node sequence is the text of its parts, in order. */
  lemma {:induction false} ExtractAllAppend(a: seq<DomNode>, b: seq<DomNode>)
    ensures ExtractAll(a + b) == ExtractAll(a) + ExtractAll(b)
    decreases |a|
  {
    if a == [] {
      assert a + b == b;
    } else {
      assert (a + b)[0] == a[0] && (a + b)[1..] == a[1..] + b;
      ExtractAllAppend(a[1..], b);
    }
  }

  /** The text of a tree is the data of its text nodes, left to right. */
  function TextLeaves(n: DomNode): seq<Option<string>>
    decreases n, 1
  {
    match n
    case Text(data) => [data]
    case Tag(_, _, kids) => TextLeavesAll(kids)
    case Container(kids) => TextLeavesAll(kids)
    case Leaf => []
  }

  function TextLeavesAll(ns: seq<DomNode>): seq<Option<string>>
    decreases ns, 0
  {
    if ns == [] then [] else TextLeaves(ns[0]) + TextLeavesAll(ns[1..])
  }

  function ConcatData(ds: seq<Option<string>>): string {
    if ds == [] then "" else ds[0].GetOr("") + ConcatData(ds[1..])
  }

  lemma {:induction false} ConcatDataAppend(a: seq<Option<string>>, b: seq<Option<string>>)
    ensures ConcatData(a + b) == ConcatData(a) + ConcatData(b)
    decreases |a|
  {
    if a == [] {
      assert a + b == b;
    } else {
      assert (a + b)[0] == a[0] && (a + b)[1..] == a[1..] + b;
      ConcatDataAppend(a[1..], b);
    }
  }

  const LanguagePrefix: string := "language-"

  /** The index of the first token that starts with `language-`. */
  function FirstLanguageToken(tokens: seq<string>): (i: Option<nat>)
    ensures i.Some? ==> i.value < |tokens| && StartsWith(tokens[i.value], LanguagePrefix)
    ensures i.Some? ==> forall k :: 0 <= k < i.value ==> !StartsWith(tokens[k], LanguagePrefix)
    ensures i.None? ==> forall k :: 0 <= k < |tokens| ==> !StartsWith(tokens[k], LanguagePrefix)
  {
    if tokens == [] then None
    else if StartsWith(tokens[0], LanguagePrefix) then Some(0)
    else match FirstLanguageToken(tokens[1..])
      case None => None
      case Some(j) => Some(j + 1)
  }

  /**
   * `getLanguage`: `text` for a missing or empty class; otherwise the first
   * blank-separated token starting with `language-`, without that prefix,
   * or `text` when there is no such token.
   */
  function GetLanguage(className: Option<string>): (lang: string)
    ensures className.None? || className.value == "" ==> lang == "text"
    ensures className.Some? && className.value != "" ==>
      var tokens := SplitOn(className.value, " ");
      match FirstLanguageToken(tokens)
      case None => lang == "text"
      case Some(i) => lang == tokens[i][|LanguagePrefix|..]
  {
    if className.None? || className.value == "" then "text"
    else
      var tokens := SplitOn(className.value, " ");
      match FirstLanguageToken(tokens)
      case None => "text"
      case Some(i) =>
        ReplaceFirstOfPrefix(LanguagePrefix, tokens[i][|LanguagePrefix|..], "");
        assert tokens[i] == LanguagePrefix + tokens[i][|LanguagePrefix|..];
        ReplaceFirst(tokens[i], LanguagePrefix, "")
  }

  /**
   * Among blank-separated classes, the first `language-L` one supplies the
   * language `L`.
   */
  lemma GetLanguageOfClassList(before: seq<string>, name: string, after: seq<string>)
    requires ' ' !in name
    requires forall i :: 0 <= i < |before| ==> ' ' !in before[i] && !StartsWith(before[i], LanguagePrefix)
    requires forall i :: 0 <= i < |after| ==> ' ' !in after[i]
    ensures GetLanguage(Some(Join(before + [LanguagePrefix + name] + after, " "))) == name
  {
    var tokens := before + [LanguagePrefix + name] + after;
    ClassTokensHaveNoBlank(before, name, after);
    SplitJoinRoundTrip(tokens, ' ');
    JoinLongerThanPart(tokens, " ", |before|);
    FirstLanguageTokenOfClassList(before, name, after);
    assert tokens[|before|] == LanguagePrefix + name;
  }

  lemma ClassTokensHaveNoBlank(before: seq<string>, name: string, after: seq<string>)
    requires ' ' !in name
    requires forall i :: 0 <= i < |before| ==> ' ' !in before[i]
    requires forall i :: 0 <= i < |after| ==> ' ' !in after[i]
    ensures var tokens := before + [LanguagePrefix + name] + after;
      forall i :: 0 <= i < |tokens| ==> ' ' !in tokens[i]
  {
    var tokens := before + [LanguagePrefix + name] + after;
    forall i | 0 <= i < |tokens|
      ensures ' ' !in tokens[i]
    {
      if i < |before| {
        assert tokens[i] == before[i];
      } else if i > |before| {
        assert tokens[i] == after[i - |before| - 1];
      } else {
        assert tokens[i] == LanguagePrefix + name;
      }
    }
  }

  lemma {:induction false} FirstLanguageTokenOfClassList(before: seq<string>, name: string, after: seq<string>)
    requires forall i :: 0 <= i < |before| ==> !StartsWith(before[i], LanguagePrefix)
    ensures FirstLanguageToken(before + [LanguagePrefix + name] + after) == Some(|before|)
    decreases |before|
  {
    var tokens := before + [LanguagePrefix + name] + after;
    if before == [] {
      assert tokens[0] == LanguagePrefix + name;
      assert StartsWith(tokens[0], LanguagePrefix);
    } else {
      FirstLanguageTokenOfClassList(before[1..], name, after);
      assert tokens[0] == before[0];
      assert tokens[1..] == before[1..] + [LanguagePrefix + name] + after;
    }
  }

  /** The class the code converter writes, `language-L` with no blank in `L`, reads back as `L`. */
  lemma GetLanguageRoundTrip(name: string)
    requires ' ' !in name
    ensures GetLanguage(Some("language-" + name)) == name
  {
    GetLanguageOfClassList([], name, []);
    assert [] + [LanguagePrefix + name] + [] == [LanguagePrefix + name];
  }

  /** The props the replacement code block receives. */
  datatype CodeBlockProps = CodeBlockProps(code: string, language: string)

  /** The index of the first child that is a `code` tag. */
  function CodeChild(children: seq<DomNode>): (i: Option<nat>)
    ensures i.Some? ==> i.value < |children| && children[i.value].Tag? && children[i.value].name == "code"
    ensures i.Some? ==> forall k :: 0 <= k < i.value ==> !(children[k].Tag? && children[k].name == "code")
    ensures i.None? ==> forall k :: 0 <= k < |children| ==> !(children[k].Tag? && children[k].name == "code")
  {
    if children == [] then None
    else if children[0].Tag? && children[0].name == "code" then Some(0)
    else match CodeChild(children[1..])
      case None => None
      case Some(j) => Some(j + 1)
  }

  /**
   * The parser's `replace` callback: a `pre` tag with a `code` child becomes
   * a code block whose language and code come from the first such child;
   * every other node is left alone (`None`).
   */
  function Replacement(n: DomNode): (r: Option<CodeBlockProps>)
    ensures r.Some? <==> n.Tag? && n.name == "pre" && CodeChild(n.children).Some?
    ensures r.Some? ==>
      var code := n.children[CodeChild(n.children).value];
      r.value == CodeBlockProps(ExtractAll(code.children), GetLanguage(code.classAttr))
  {
    if !n.Tag? || n.name != "pre" then None
    else match CodeChild(n.children)
      case None => None
      case Some(i) =>
        var code := n.children[i];
        Some(CodeBlockProps(ExtractAll(code.children), GetLanguage(code.classAttr)))
  }

  /** What the component renders for each node. */
  datatype Rendered =
    | RText(data: Option<string>)
    | RTag(name: string, classAttr: Option<string>, children: seq<Rendered>)
    | RContainer(children: seq<Rendered>)
    | RLeaf
    | RCodeBlock(props: CodeBlockProps)

  /** The rendering of a node with no replacement at all. */
  function Plain(n: DomNode): Rendered
    decreases n, 1
  {
    match n
    case Text(d) => RText(d)
    case Tag(name, cls, kids) => RTag(name, cls, PlainAll(kids))
    case Container(kids) => RContainer(PlainAll(kids))
    case Leaf => RLeaf
  }

  function PlainAll(ns: seq<DomNode>): (r: seq<Rendered>)
    ensures |r| == |ns|
    decreases ns, 0
  {
    if ns == [] then [] else [Plain(ns[0])] + PlainAll(ns[1..])
  }

  /**
   * `BlogContent`: a replaced node becomes a code block; any other is kept,
   * its children rendered likewise. A tree without a `pre`/`code` pair is
   * rendered exactly as parsed.
   */
  function Render(n: DomNode): (r: Rendered)
    decreases n, 1
    ensures Replacement(n).Some? ==> r == RCodeBlock(Replacement(n).value)
    ensures r.RCodeBlock? ==> Replacement(n).Some?
    ensures !HasCodePre(n) ==> r == Plain(n)
    ensures n.Tag? && Replacement(n).None? ==> r == RTag(n.name, n.classAttr, RenderAll(n.children))
    ensures n.Container? ==> r == RContainer(RenderAll(n.children))
    ensures n.Text? ==> r == RText(n.data)
    ensures n.Leaf? ==> r == RLeaf
  {
    match Replacement(n)
    case Some(props) => RCodeBlock(props)
    case None =>
      match n
      case Text(d) => RText(d)
      case Tag(name, cls, kids) => RTag(name, cls, RenderAll(kids))
      case Container(kids) => RContainer(RenderAll(kids))
      case Leaf => RLeaf
  }

  function RenderAll(ns: seq<DomNode>): (r: seq<Rendered>)
    decreases ns, 0
    ensures |r| == |ns|
    ensures !HasCodePreAll(ns) ==> r == PlainAll(ns)
    ensures forall i :: 0 <= i < |ns| ==> r[i] == Render(ns[i])
  {
    if ns == [] then [] else [Render(ns[0])] + RenderAll(ns[1..])
  }

  /** Some `pre` tag with a `code` child occurs in the tree. */
  predicate HasCodePre(n: DomNode)
    decreases n, 1
  {
    Replacement(n).Some? ||
    match n
    case Tag(_, _, kids) => HasCodePreAll(kids)
    case Container(kids) => HasCodePreAll(kids)
    case _ => false
  }

  predicate HasCodePreAll(ns: seq<DomNode>)
    decreases ns, 0
  {
    ns != [] && (HasCodePre(ns[0]) || HasCodePreAll(ns[1..]))
  }

  /**
   * The tree the parser builds from the code converter's output: a `pre`
   * holding one `code` element whose single text node is the body with its
   * entities decoded (the escaped body holds no `<`, so no tag starts in it).
   * The language is written into the class attribute unescaped, so this is
   * the parse only for a language without `"` or `&`.
   */
  function ParsedCodeBlock(language: string, escapedBody: string): DomNode {
    Tag("pre", Some("not-prose"),
      [Tag("code", Some("language-" + language), [Text(Some(Blog.UnescapeHtml(escapedBody)))])])
  }

  /**
   * End to end: code rendered by the code converter and parsed back reaches
   * the code block component with the original code and language.
   */
  lemma CodeBlockRoundTrip(code: string, language: string)
    requires ' ' !in language && '"' !in language && '&' !in language
    ensures Render(ParsedCodeBlock(language, Blog.EscapeHtml(code))) ==
      RCodeBlock(CodeBlockProps(code, language))
  {
    Blog.EscapeRoundTrip(code);
    GetLanguageRoundTrip(language);
    var inner := [Text(Some(Blog.UnescapeHtml(Blog.EscapeHtml(code))))];
    assert ExtractAll(inner) == code by {
      assert inner[1..] == [];
    }
  }

  /**
   * A converted code block nested among the children of any element other
   * than `pre` becomes a code block in place; the element keeps its name and
   * class, and each other child is rendered on its own.
   */
  lemma NestedCodeBlockRoundTrip(name: string, cls: Option<string>, kids: seq<DomNode>, i: nat, code: string, language: string)
    requires name != "pre" && i < |kids|
    requires kids[i] == ParsedCodeBlock(language, Blog.EscapeHtml(code))
    requires ' ' !in language && '"' !in language && '&' !in language
    ensures Render(Tag(name, cls, kids)).RTag?
    ensures Render(Tag(name, cls, kids)).name == name && Render(Tag(name, cls, kids)).classAttr == cls
    ensures |Render(Tag(name, cls, kids)).children| == |kids|
    ensures Render(Tag(name, cls, kids)).children[i] == RCodeBlock(CodeBlockProps(code, language))
    ensures forall j :: 0 <= j < |kids| && j != i ==> Render(Tag(name, cls, kids)).children[j] == Render(kids[j])
  {
    CodeBlockRoundTrip(code, language);
  }

  /**
   * A code block whose language is JSON `null` is tagged `language-null`;
   * the component reads the language `null` back, and no grammar is
   * registered under that name, so the code is shown unhighlighted.
   */
  lemma NullLanguageIsUnhighlighted(code: string)
    requires code != ""
    ensures Blog.CodeBlockHtml(Some(code), Blog.Null) ==
      Blog.CodeOpen("null") + Blog.EscapeHtml(code) + Blog.CodeClose
    ensures GetLanguage(Some("language-null")) == "null"
    ensures CodeBlock.GrammarOf("null").None?
  {
    assert ' ' !in "null";
    GetLanguageRoundTrip("null");
    assert "language-" + "null" == "language-null";
    CodeBlock.NullIsUnregistered();
  }
}
