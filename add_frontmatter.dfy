/**
 * The documentation script that gives every `.mdx` page without one a YAML
 * frontmatter block (scripts/add-frontmatter.ts): which files it touches,
 * the title it derives from the file name, the description it takes from the
 * first qualifying line, and the block it writes in front of the content.
 * The docs folder is a map from file name to content.
 */
module AddFrontmatter {
  import opened Wrappers
  import opened Strings

  const Extension: string := ".mdx"
  const IndexPage: string := "index.mdx"
  const Fence: string := "---"
  /** Descriptions are cut to this many characters. */
  const MaxDescription: nat := 160

  /** The directory listing keeps only names ending in `.mdx`. */
  predicate Listed(file: string) {
    EndsWith(file, Extension)
  }

  /** A listed file other than the index page is a candidate. */
  predicate Eligible(file: string) {
    Listed(file) && file != IndexPage
  }

  /** Content whose trimmed form starts with `---` already has a frontmatter block. */
  predicate HasFrontmatter(content: string) {
    StartsWith(Trim(content), Fence)
  }

  // ---------------------------------------------------------------------------
  // The title

  /**
   * The first `.mdx` goes, every `-` becomes a blank, every `vs` becomes
   * `vs.`. The title holds no hyphen, and with `vs.` read back as `vs` it is
   * the stripped name with its hyphens as blanks.
   */
  function Title(file: string): (t: string)
    ensures '-' !in t
    ensures UndoVs(t) == Spaced(ReplaceFirst(file, Extension, ""))
  {
    var stripped := ReplaceFirst(file, Extension, "");
    HyphensToSpaces(stripped);
    VsDotAddsOnlyDots(ReplaceAll(stripped, "-", " "), '-');
    VsDotRoundTrip(Spaced(stripped));
    ReplaceAll(ReplaceAll(stripped, "-", " "), "vs", "vs.")
  }

  /** A name with each hyphen read as a blank. */
  function Spaced(name: string): (r: string)
    ensures |r| == |name|
  {
    seq(|name|, k requires 0 <= k < |name| => if name[k] == '-' then ' ' else name[k])
  }

  /** Reading `vs.` back as `vs`, left to right. */
  function UndoVs(t: string): string
    decreases |t|
  {
    if t == [] then []
    else if StartsWith(t, "vs.") then "vs" + UndoVs(t[3..])
    else [t[0]] + UndoVs(t[1..])
  }

  /** For a page `name.mdx` whose name holds no `.mdx`, the extension is what goes. */
  lemma StripExtension(name: string)
    requires IndexOf(name, Extension).None?
    ensures ReplaceFirst(name + Extension, Extension, "") == name
  {
    var s := name + Extension;
    forall k | 0 <= k < |name|
      ensures !OccursAt(s, Extension, k)
    {
      if k + |Extension| <= |name| {
        assert s[k..k + |Extension|] == name[k..k + |Extension|];
        assert !OccursAt(name, Extension, k);
      } else {
        assert s[|name|] == '.';
        assert Extension[|name| - k] != '.';
        assert s[k..k + |Extension|][|name| - k] == '.';
      }
    }
    assert OccursAt(s, Extension, |name|) by {
      assert s[|name|..|name| + |Extension|] == Extension;
    }
    assert s[..|name|] == name;
  }

  /** Every hyphen becomes a blank and nothing else changes. */
  lemma {:induction false} HyphensToSpaces(s: string)
    ensures ReplaceAll(s, "-", " ") == Spaced(s)
    decreases |s|
  {
    if s != [] {
      HyphensToSpaces(s[1..]);
      assert Spaced(s) == Spaced([s[0]]) + Spaced(s[1..]);
    }
  }

  /** The first character `vs` → `vs.` produces, which is never the start of a `vs.` it did not write. */
  lemma VsDotHead(s: string)
    requires s != [] && !StartsWith(s, "vs")
    ensures !StartsWith(ReplaceAll(s, "vs", "vs."), "vs.")
  {
    var r := ReplaceAll(s, "vs", "vs.");
    assert r == [s[0]] + ReplaceAll(s[1..], "vs", "vs.");
    if s[0] != 'v' {
      assert |r| < 3 || r[..3][0] != "vs."[0];
    } else if |s| == 1 {
      assert |r| == 1;
    } else {
      var t := s[1..];
      assert t[0] != 's';
      if StartsWith(t, "vs") {
        assert ReplaceAll(t, "vs", "vs.")[0] == 'v';
      } else {
        assert ReplaceAll(t, "vs", "vs.")[0] == t[0];
      }
      assert |r| < 3 || r[..3][1] != "vs."[1];
    }
  }

  /** `vs` → `vs.` can be undone: no information is lost. */
  lemma {:induction false} VsDotRoundTrip(s: string)
    ensures UndoVs(ReplaceAll(s, "vs", "vs.")) == s
    decreases |s|
  {
    if s != [] {
      var r := ReplaceAll(s, "vs", "vs.");
      if StartsWith(s, "vs") {
        VsDotRoundTrip(s[2..]);
        assert r == "vs." + ReplaceAll(s[2..], "vs", "vs.");
        assert r[3..] == ReplaceAll(s[2..], "vs", "vs.");
        assert s == "vs" + s[2..];
      } else {
        VsDotRoundTrip(s[1..]);
        VsDotHead(s);
        assert r[1..] == ReplaceAll(s[1..], "vs", "vs.");
        assert s == [s[0]] + s[1..];
      }
    }
  }

  /** `vs` → `vs.` adds dots and no other character. */
  lemma {:induction false} VsDotAddsOnlyDots(s: string, c: char)
    requires c !in s && c != '.'
    ensures c !in ReplaceAll(s, "vs", "vs.")
    decreases |s|
  {
    if s != [] {
      if StartsWith(s, "vs") {
        VsDotAddsOnlyDots(s[2..], c);
      } else {
        VsDotAddsOnlyDots(s[1..], c);
      }
    }
  }

  /** The title of `name.mdx` reads back, `vs.` undone, as the name with hyphens as blanks. */
  lemma TitleOfFileName(name: string)
    requires IndexOf(name, Extension).None?
    ensures UndoVs(Title(name + Extension)) == Spaced(name)
  {
    StripExtension(name);
  }

  // ---------------------------------------------------------------------------
  // The description

  /** A line the scan stops at: non-blank once trimmed and not a heading. */
  predicate Qualifies(line: string) {
    var t := Trim(line);
    t != [] && !StartsWith(t, "#")
  }

  /**
   * What a line gives the description: a quotation loses its `>` and the
   * white space after it, any other qualifying line is taken trimmed; both
   * are cut to 160 characters.
   */
  function LineDescription(line: string): (d: Option<string>)
    ensures d.Some? <==> Qualifies(line)
    ensures d.Some? ==> |d.value| <= MaxDescription
    ensures d.Some? && StartsWith(Trim(line), ">") ==>
      d.value == Take(TrimStart(Trim(line)[1..]), MaxDescription)
    ensures d.Some? && !StartsWith(Trim(line), ">") ==> d.value == Take(Trim(line), MaxDescription)
  {
    var t := Trim(line);
    if StartsWith(t, ">") then Some(Take(TrimStart(t[1..]), MaxDescription))
    else if t != [] && !StartsWith(t, "#") then Some(Take(t, MaxDescription))
    else None
  }

  /**
   * The description the scan ends with, before the fallback: at most 160
   * characters, and when not empty, what some line of the content gives.
   */
  function DescriptionOf(lines: seq<string>): (d: string)
    ensures |d| <= MaxDescription
    ensures d != "" ==> exists i :: 0 <= i < |lines| && LineDescription(lines[i]) == Some(d)
    decreases |lines|
  {
    if lines == [] then ""
    else match LineDescription(lines[0])
      case Some(d) => d
      case None =>
        var rest := DescriptionOf(lines[1..]);
        assert rest != "" ==> exists i :: 0 <= i < |lines| && LineDescription(lines[i]) == Some(rest) by {
          if rest != "" {
            var i :| 0 <= i < |lines[1..]| && LineDescription(lines[1..][i]) == Some(rest);
            assert lines[i + 1] == lines[1..][i];
          }
        }
        rest
  }

  /** The description comes from the first qualifying line, whatever follows it. */
  lemma {:induction false} DescriptionAtFirstQualifying(lines: seq<string>, i: nat)
    requires i < |lines| && Qualifies(lines[i])
    requires forall j :: 0 <= j < i ==> !Qualifies(lines[j])
    ensures DescriptionOf(lines) == LineDescription(lines[i]).value
    decreases i
  {
    if i > 0 {
      assert !Qualifies(lines[0]);
      DescriptionAtFirstQualifying(lines[1..], i - 1);
    }
  }

  /** Without a qualifying line the description is empty. */
  lemma {:induction false} DescriptionWithoutQualifying(lines: seq<string>)
    requires forall j :: 0 <= j < |lines| ==> !Qualifies(lines[j])
    ensures DescriptionOf(lines) == ""
    decreases |lines|
  {
    if lines != [] {
      assert !Qualifies(lines[0]);
      DescriptionWithoutQualifying(lines[1..]);
    }
  }

  /** A bare `>` ends the scan with an empty description, even when later lines would qualify. */
  lemma BareQuoteEndsScan(line: string, rest: seq<string>)
    requires Trim(line) == ">"
    ensures DescriptionOf([line] + rest) == ""
  {
    assert ([line] + rest)[0] == line;
    assert Trim(line)[1..] == [];
  }

  /** The scan over the lines, stopping at the first one that qualifies. */
  method ExtractDescription(lines: seq<string>) returns (description: string)
    ensures description == DescriptionOf(lines)
  {
    description := "";
    var i := 0;
    while i < |lines|
      invariant 0 <= i <= |lines|
      invariant DescriptionOf(lines[i..]) == DescriptionOf(lines)
    {
      assert lines[i..][0] == lines[i] && lines[i..][1..] == lines[i + 1..];
      var trimmed := Trim(lines[i]);
      if StartsWith(trimmed, ">") {
        description := Take(TrimStart(trimmed[1..]), MaxDescription);
        break;
      }
      if trimmed != "" && !StartsWith(trimmed, "#") {
        description := Take(trimmed, MaxDescription);
        break;
      }
      i := i + 1;
    }
  }

  /** The scanned description, or `Documentation for <title>` when it is empty. */
  function FullDescription(content: string, title: string): (d: string)
    ensures d != ""
    ensures DescriptionOf(SplitOn(content, "\n")) != "" ==> d == DescriptionOf(SplitOn(content, "\n"))
    ensures DescriptionOf(SplitOn(content, "\n")) == "" ==> d == "Documentation for " + title
  {
    var d := DescriptionOf(SplitOn(content, "\n"));
    if d == "" then "Documentation for " + title else d
  }

  // ---------------------------------------------------------------------------
  // The written file

  /** A YAML line `key: "value"`, the value quoted as written, without escaping. */
  function QuotedLine(key: string, value: string): string {
    key + ": \"" + value + "\""
  }

  /** The block written in front of the content. */
  function Frontmatter(title: string, description: string): (block: string)
    ensures StartsWith(block, Fence + "\n")
  {
    Fence + "\n" + QuotedLine("title", title) + "\n" + QuotedLine("description", description) + "\n" + Fence + "\n\n"
  }

  /**
   * Read line by line, the block is the opening fence, the quoted title, the
   * quoted description, the closing fence and a blank line, when neither
   * value holds a line break.
   */
  lemma FrontmatterLines(title: string, description: string)
    requires '\n' !in title && '\n' !in description
    ensures SplitOn(Frontmatter(title, description), "\n") ==
      [Fence, QuotedLine("title", title), QuotedLine("description", description), Fence, "", ""]
  {
    var parts := [Fence, QuotedLine("title", title), QuotedLine("description", description), Fence, "", ""];
    NoBreakInQuotedLine("title", title);
    NoBreakInQuotedLine("description", description);
    JoinOfBlock(parts[1], parts[2]);
    assert forall i :: 0 <= i < |parts| ==> '\n' !in parts[i] by {
      assert '\n' !in Fence;
    }
    SplitJoinRoundTrip(parts, '\n');
  }

  lemma NoBreakInQuotedLine(key: string, value: string)
    requires '\n' !in key && '\n' !in value
    ensures '\n' !in QuotedLine(key, value)
  {
  }

  lemma JoinOfBlock(titleLine: string, descriptionLine: string)
    ensures Join([Fence, titleLine, descriptionLine, Fence, "", ""], "\n") ==
      Fence + "\n" + titleLine + "\n" + descriptionLine + "\n" + Fence + "\n\n"
  {
    var parts := [Fence, titleLine, descriptionLine, Fence, "", ""];
    assert parts[5..] == [""];
    assert Join(parts[4..], "\n") == "\n" by {
      assert parts[4..][1..] == parts[5..];
    }
    assert Join(parts[3..], "\n") == Fence + "\n\n" by {
      assert parts[3..][1..] == parts[4..];
    }
    assert Join(parts[2..], "\n") == descriptionLine + "\n" + Fence + "\n\n" by {
      assert parts[2..][1..] == parts[3..];
    }
    assert Join(parts[1..], "\n") == titleLine + "\n" + descriptionLine + "\n" + Fence + "\n\n" by {
      assert parts[1..][1..] == parts[2..];
    }
  }

  /** A file's content after the script has seen it. */
  function Processed(file: string, content: string): (r: string)
    ensures !Eligible(file) || HasFrontmatter(content) ==> r == content
    ensures Eligible(file) && !HasFrontmatter(content) ==>
      r == Frontmatter(Title(file), FullDescription(content, Title(file))) + content
  {
    if !Eligible(file) || HasFrontmatter(content) then content
    else
      var title := Title(file);
      Frontmatter(title, FullDescription(content, title)) + content
  }

  /** A processed file is left alone the next time: it now has a frontmatter block. */
  lemma ProcessedIdempotent(file: string, content: string)
    ensures HasFrontmatter(Processed(file, content)) || !Eligible(file)
    ensures Processed(file, Processed(file, content)) == Processed(file, content)
  {
    if Eligible(file) && !HasFrontmatter(content) {
      var title := Title(file);
      FrontedHasFrontmatter(Frontmatter(title, FullDescription(content, title)), content);
    }
  }

  /** Content behind a block that opens with the fence has frontmatter. */
  lemma FrontedHasFrontmatter(block: string, content: string)
    requires StartsWith(block, Fence + "\n")
    ensures HasFrontmatter(block + content)
  {
    var r := block + content;
    assert StartsWith(r, Fence) by {
      assert r[..|Fence|] == block[..|Fence|] == (Fence + "\n")[..|Fence|];
    }
    TrimKeepsPrefix(r, Fence);
  }

  /** One file of the listing: a listed name is read, processed and written back. */
  function Step(files: map<string, string>, file: string): (r: map<string, string>)
    ensures r.Keys == files.Keys
  {
    if file in files then files[file := Processed(file, files[file])] else files
  }

  /** The whole listing, in order. */
  function RunAll(files: map<string, string>, listing: seq<string>): (r: map<string, string>)
    ensures r.Keys == files.Keys
    decreases |listing|
  {
    if listing == [] then files
    else Step(RunAll(files, listing[..|listing| - 1]), listing[|listing| - 1])
  }

  /** Running one more file of the listing is one more `Step`. */
  lemma RunAllExtend(files: map<string, string>, listing: seq<string>, i: nat)
    requires i < |listing|
    ensures RunAll(files, listing[..i + 1]) == Step(RunAll(files, listing[..i]), listing[i])
  {
    assert listing[..i + 1][..i] == listing[..i];
  }

  /** Each file ends up processed once if it is listed and untouched otherwise. */
  lemma {:induction false} RunAllAt(files: map<string, string>, listing: seq<string>, k: string)
    requires k in files
    ensures RunAll(files, listing)[k] == if k in listing then Processed(k, files[k]) else files[k]
    decreases |listing|
  {
    if listing != [] {
      var init := listing[..|listing| - 1];
      RunAllAt(files, init, k);
      assert listing == init + [listing[|listing| - 1]];
      if k == listing[|listing| - 1] && k in init {
        ProcessedIdempotent(k, files[k]);
      }
    }
  }

  /** Running the script a second time changes nothing. */
  lemma RunTwice(files: map<string, string>, listing: seq<string>)
    ensures RunAll(RunAll(files, listing), listing) == RunAll(files, listing)
  {
    var once := RunAll(files, listing);
    forall k | k in once
      ensures RunAll(once, listing)[k] == once[k]
    {
      RunAllAt(files, listing, k);
      RunAllAt(once, listing, k);
      if k in listing {
        ProcessedIdempotent(k, files[k]);
      }
    }
  }

  /** The docs folder the script rewrites. */
  class DocsFolder {
    var files: map<string, string>

    constructor(initial: map<string, string>)
      ensures files == initial
    {
      files := initial;
    }

    /** The script's loop over the directory listing. */
    method AddFrontmatter(listing: seq<string>)
      requires forall i :: 0 <= i < |listing| ==> listing[i] in files
      modifies this
      ensures files == RunAll(old(files), listing)
    {
      var i := 0;
      while i < |listing|
        invariant 0 <= i <= |listing|
        invariant files == RunAll(old(files), listing[..i])
      {
        var file := listing[i];
        RunAllExtend(old(files), listing, i);
        var written := ProcessFile(file, files[file]);
        if written.Some? {
          files := files[file := written.value];
        }
        i := i + 1;
      }
      assert listing[..|listing|] == listing;
    }
  }

  /** One file of the listing: `None` when it is skipped, otherwise the content written. */
  method ProcessFile(file: string, content: string) returns (written: Option<string>)
    ensures written.None? <==> !Eligible(file) || HasFrontmatter(content)
    ensures written.Some? ==> written.value == Processed(file, content)
  {
    if !Listed(file) || file == IndexPage {
      return None;
    }
    if StartsWith(Trim(content), Fence) {
      return None;
    }
    var title := Title(file);
    var description := ExtractDescription(SplitOn(content, "\n"));
    if description == "" {
      description := "Documentation for " + title;
    }
    return Some(Frontmatter(title, description) + content);
  }
}
