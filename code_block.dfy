/**
 * The code block component (components/code-block.tsx): how it normalises
 * the language name it is given, which grammars it registers, and what it
 * hands to the highlighter and to the clipboard.
 */
module CodeBlock {
  import opened Wrappers
  import opened Strings

  const LanguagePrefix: string := "language-"

  /** `language.toLowerCase().replace(/^language-/, "")`: lower-case, then drop one leading `language-`. */
  function NormalizeLanguage(language: string): (r: string)
    ensures StartsWith(ToLower(language), LanguagePrefix) ==> r == ToLower(language)[|LanguagePrefix|..]
    ensures !StartsWith(ToLower(language), LanguagePrefix) ==> r == ToLower(language)
  {
    var lower := ToLower(language);
    if StartsWith(lower, LanguagePrefix) then lower[|LanguagePrefix|..] else lower
  }

  /** The language the highlighter receives: the normalised name, or `text` when that is empty. */
  function HighlighterLanguage(language: string): (r: string)
    ensures r != ""
    ensures NormalizeLanguage(language) != "" ==> r == NormalizeLanguage(language)
    ensures NormalizeLanguage(language) == "" ==> r == "text"
  {
    var normalized := NormalizeLanguage(language);
    if normalized == "" then "text" else normalized
  }

  predicate IsLower(s: string) {
    forall k :: 0 <= k < |s| ==> !('A' <= s[k] <= 'Z')
  }

  lemma ToLowerOfLower(s: string)
    requires IsLower(s)
    ensures ToLower(s) == s
  {
  }

  /**
   * The class the code converter emits, `language-L`, gives back `L` (in
   * lower case), whatever the case of the prefix.
   */
  lemma NormalizePrefixed(prefix: string, name: string)
    requires ToLower(prefix) == LanguagePrefix
    ensures NormalizeLanguage(prefix + name) == ToLower(name)
  {
    var lower := ToLower(prefix + name);
    assert lower[..|prefix|] == ToLower(prefix);
    assert lower[|prefix|..] == ToLower(name);
  }

  /** A name already in lower case that does not start with `language-` passes unchanged. */
  lemma NormalizeKeepsPlainName(name: string)
    requires IsLower(name) && !StartsWith(name, LanguagePrefix)
    ensures NormalizeLanguage(name) == name
  {
    ToLowerOfLower(name);
  }

  /** Only a leading `language-` goes: the prefix is removed once, so a doubled prefix leaves one. */
  lemma NormalizeRemovesOnce(name: string)
    requires IsLower(name)
    ensures NormalizeLanguage(LanguagePrefix + LanguagePrefix + name) == LanguagePrefix + name
  {
    ToLowerOfLower(LanguagePrefix + LanguagePrefix + name);
    assert (LanguagePrefix + LanguagePrefix + name)[|LanguagePrefix|..] == LanguagePrefix + name;
  }

  /** The grammars the highlighter is built with. */
  datatype Grammar = Tsx | TypeScript | JavaScript | Jsx | Json | Css | Bash | Markdown

  /** The registered language names: the eight grammars, plus `shell` for the bash grammar. */
  const Registered: map<string, Grammar> := map[
    "tsx" := Tsx, "typescript" := TypeScript, "javascript" := JavaScript, "jsx" := Jsx,
    "json" := Json, "css" := Css, "bash" := Bash, "shell" := Bash, "markdown" := Markdown]

  /**
   * The grammar a language name selects, if any. An unregistered name, the
   * `text` fallback among them, is still accepted by the highlighter and is
   * rendered without highlighting (`None`).
   */
  function GrammarOf(language: string): (g: Option<Grammar>)
    ensures g.Some? <==> HighlighterLanguage(language) in Registered
    ensures g.Some? ==> g.value == Registered[HighlighterLanguage(language)]
  {
    var name := HighlighterLanguage(language);
    if name in Registered then Some(Registered[name]) else None
  }

  /**
   * The fallback `text` and every spelling of it select no grammar, `shell`
   * selects the same grammar as `bash` whatever the case or prefix, and a
   * `language-`-prefixed registered name selects its grammar.
   */
  lemma GrammarOfExamples()
    ensures GrammarOf("").None? && GrammarOf("text").None? && GrammarOf("language-text").None?
    ensures GrammarOf("Shell") == GrammarOf("language-bash") == Some(Bash)
    ensures GrammarOf("language-TSX") == Some(Tsx)
    ensures GrammarOf("python").None?
  {
    assert ToLower("") == "";
    assert ToLower("text") == "text";
    assert ToLower("language-text") == "language-text";
    assert ToLower("Shell") == "shell";
    assert ToLower("language-bash") == "language-bash";
    assert ToLower("language-TSX") == "language-tsx";
    assert ToLower("python") == "python";
  }

  /** The name `null` is not registered, so it selects no grammar. */
  lemma NullIsUnregistered()
    ensures GrammarOf("null").None?
  {
    assert ToLower("null") == "null";
    assert !StartsWith("null", LanguagePrefix);
    assert HighlighterLanguage("null") == "null";
  }

  /** What the component passes on: the highlighter's language and text, and the text the copy button writes. */
  datatype CodeBlockView = CodeBlockView(highlighterLanguage: string, highlighted: string, copied: string)

  /** The code string reaches the highlighter and the clipboard unchanged. */
  function Render(code: string, language: string): (v: CodeBlockView)
    ensures v.highlighted == code && v.copied == code
    ensures v.highlighterLanguage == HighlighterLanguage(language) && v.highlighterLanguage != ""
  {
    CodeBlockView(HighlighterLanguage(language), code, code)
  }
}
