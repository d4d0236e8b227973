/**
 * The MDX component overrides (components/mdx-components.tsx): the text
 * extraction over an MDX node tree and the `pre` handler that turns a code
 * fence into a code block. The other overrides only wrap their children in
 * fixed markup.
 */
module MdxComponents {
  import opened Wrappers
  import opened Strings
  import BlogContent
  import CodeBlock

  /** A value reaching `extractText`, by the branch it takes. */
  datatype MdxNode =
    /** `null` or `undefined`. */
    | Nullish
    | Str(s: string)
    /** A number, carried as its `String(...)` form. */
    | Num(repr: string)
    | Arr(items: seq<MdxNode>)
    /** A valid React element; `props.className` and `props.children` (missing children are `Nullish`). */
    | Element(className: Option<string>, children: MdxNode)
    /** A non-element object with a `value` field, carried as `String(value)`. */
    | ValueObject(valueRepr: string)
    /** Anything else: booleans, functions, objects without `value`. */
    | Other

  /**
   * `extractText`: it reads off the leaves' strings in document order and
   * drops nothing else.
   */
  function ExtractText(n: MdxNode): (text: string)
    decreases n, 1
    ensures text == Concat(Leaves(n))
  {
    match n
    case Nullish => ""
    case Str(s) => assert [s][1..] == []; s
    case Num(repr) => assert [repr][1..] == []; repr
    case Arr(items) => ExtractAll(items)
    case Element(_, kids) => ExtractText(kids)
    case ValueObject(v) => assert [v][1..] == []; v
    case Other => ""
  }

  /** `items.map(extractText).join("")`. */
  function ExtractAll(items: seq<MdxNode>): (text: string)
    decreases items, 0
    ensures text == Concat(LeavesAll(items))
  {
    if items == [] then ""
    else
      ConcatAppend(Leaves(items[0]), LeavesAll(items[1..]));
      ExtractText(items[0]) + ExtractAll(items[1..])
  }

  /** The text of an array is the text of its halves, in order. */
  lemma {:induction false} ExtractAllAppend(a: seq<MdxNode>, b: seq<MdxNode>)
    ensures ExtractText(Arr(a + b)) == ExtractText(Arr(a)) + ExtractText(Arr(b))
    decreases |a|
  {
    if a == [] {
      assert a + b == b;
    } else {
      assert (a + b)[0] == a[0] && (a + b)[1..] == a[1..] + b;
      ExtractAllAppend(a[1..], b);
    }
  }

  /** Wrapping in an element or a one-element array does not change the text. */
  lemma ExtractTextWrapping(n: MdxNode, className: Option<string>)
    ensures ExtractText(Element(className, n)) == ExtractText(n)
    ensures ExtractText(Arr([n])) == ExtractText(n)
  {
    assert [n][0] == n && [n][1..] == [];
    assert ExtractAll([n]) == ExtractText(n) + ExtractAll([]);
  }

  /** The text of a tree of strings is the concatenation of its strings, left to right. */
  function Leaves(n: MdxNode): seq<string>
    decreases n, 1
  {
    match n
    case Nullish => []
    case Str(s) => [s]
    case Num(repr) => [repr]
    case Arr(items) => LeavesAll(items)
    case Element(_, kids) => Leaves(kids)
    case ValueObject(v) => [v]
    case Other => []
  }

  function LeavesAll(items: seq<MdxNode>): seq<string>
    decreases items, 0
  {
    if items == [] then [] else Leaves(items[0]) + LeavesAll(items[1..])
  }

  function Concat(ss: seq<string>): string {
    if ss == [] then "" else ss[0] + Concat(ss[1..])
  }

  lemma {:induction false} ConcatAppend(a: seq<string>, b: seq<string>)
    ensures Concat(a + b) == Concat(a) + Concat(b)
    decreases |a|
  {
    if a == [] {
      assert a + b == b;
    } else {
      assert (a + b)[0] == a[0] && (a + b)[1..] == a[1..] + b;
      ConcatAppend(a[1..], b);
    }
  }

  /** The props the `pre` handler gives the code block. */
  datatype CodeBlockProps = CodeBlockProps(code: string, language: string)

  /** `children?.props?.className || ""`: only an element child has props. */
  function ChildClass(child: MdxNode): (c: string)
    ensures child.Element? && child.className.Some? ==> c == child.className.value
    ensures !child.Element? || child.className.None? ==> c == ""
  {
    if child.Element? && child.className.Some? then child.className.value else ""
  }

  /** `className.replace("language-", "") || "text"`: the first `language-` anywhere goes. */
  function PreLanguage(className: string): (lang: string)
    ensures lang != ""
    ensures IndexOf(className, "language-").None? && className != "" ==> lang == className
    ensures ReplaceFirst(className, "language-", "") != "" ==> lang == ReplaceFirst(className, "language-", "")
    ensures ReplaceFirst(className, "language-", "") == "" ==> lang == "text"
  {
    var replaced := ReplaceFirst(className, "language-", "");
    if replaced == "" then "text" else replaced
  }

  /** The `pre` handler: the code is the text of the inner element's children. */
  function Pre(child: MdxNode): (p: CodeBlockProps)
    ensures child.Element? ==> p.code == ExtractText(child.children)
    ensures !child.Element? ==> p.code == ""
    ensures p.language == PreLanguage(ChildClass(child)) && p.language != ""
  {
    var code := if child.Element? then ExtractText(child.children) else "";
    CodeBlockProps(code, PreLanguage(ChildClass(child)))
  }

  /** A fence tagged `language-L` gives the language `L`, and `text` when `L` is empty. */
  lemma PreLanguageOfPrefixed(name: string)
    ensures PreLanguage("language-" + name) == if name == "" then "text" else name
  {
    ReplaceFirstOfPrefix("language-", name, "");
  }

  /**
   * For a single `language-L` class the MDX handler and the blog body agree
   * on the grammar the highlighter uses: they differ only on an empty `L`,
   * which both end up showing as `text`.
   */
  lemma PreAgreesWithBlogContent(name: string)
    requires ' ' !in name
    ensures name != "" ==> PreLanguage("language-" + name) == BlogContent.GetLanguage(Some("language-" + name))
    ensures CodeBlock.HighlighterLanguage(PreLanguage("language-" + name)) ==
      CodeBlock.HighlighterLanguage(BlogContent.GetLanguage(Some("language-" + name)))
  {
    PreLanguageOfPrefixed(name);
    BlogContent.GetLanguageRoundTrip(name);
    if name == "" {
      assert CodeBlock.NormalizeLanguage("") == "";
      assert ToLower("text") == "text";
      assert !StartsWith("text", CodeBlock.LanguagePrefix);
    }
  }

  /**
   * Unlike the blog body, the MDX handler keeps the other classes: the class
   * list `a language-L` gives `a L`, where the blog body gives `L`.
   */
  lemma PreKeepsOtherClasses(other: string, name: string)
    requires ' ' !in other && ' ' !in name && other != ""
    requires IndexOf(other, "language-").None?
    ensures PreLanguage(other + " language-" + name) == other + " " + name
    ensures BlogContent.GetLanguage(Some(other + " language-" + name)) == name
  {
    PreReplacesAfterBlank(other, name);
    BlogContentTakesLanguageClass(other, name);
  }

  lemma PreReplacesAfterBlank(other: string, name: string)
    requires IndexOf(other, "language-").None?
    ensures ReplaceFirst(other + " language-" + name, "language-", "") == other + " " + name
  {
    var c := other + " language-" + name;
    IndexOfAfterBlank(other, name);
    assert c[..|other| + 1] == other + " ";
    assert c[|other| + 1 + 9..] == name;
  }

  lemma BlogContentTakesLanguageClass(other: string, name: string)
    requires ' ' !in other && ' ' !in name
    requires IndexOf(other, "language-").None?
    ensures BlogContent.GetLanguage(Some(other + " language-" + name)) == name
  {
    assert !OccursAt(other, "language-", 0);
    var tokens := [other] + ["language-" + name] + [];
    assert tokens == [other, "language-" + name];
    assert Join(tokens[1..], " ") == "language-" + name;
    assert Join(tokens, " ") == other + " language-" + name;
    BlogContent.GetLanguageOfClassList([other], name, []);
  }

  /** The first `language-` in `other + " language-" + rest` is right after the blank, when `other` has none. */
  lemma IndexOfAfterBlank(other: string, rest: string)
    requires IndexOf(other, "language-").None?
    ensures IndexOf(other + " language-" + rest, "language-") == Some(|other| + 1)
  {
    var pat := "language-";
    var s := other + " language-" + rest;
    assert OccursAt(s, pat, |other| + 1) by {
      assert s[|other| + 1..|other| + 1 + |pat|] == pat;
    }
    forall i | 0 <= i < |other| + 1
      ensures !OccursAt(s, pat, i)
    {
      if i + |pat| <= |other| {
        assert s[i..i + |pat|] == other[i..i + |pat|];
        assert !OccursAt(other, pat, i);
      } else {
        assert s[|other|] == ' ';
        assert s[i..i + |pat|][|other| - i] == ' ';
      }
    }
  }
}
