/**
 * The translation toggle (components/google-translate-toggle.tsx): reading
 * the `googtrans` cookie out of `document.cookie`, deciding whether the page
 * is shown in Ukrainian, what a click writes, and the guard that keeps the
 * translation script from being added twice.
 */
module GoogleTranslateToggle {
  import opened Wrappers
  import opened Strings

  const CookieName: string := "googtrans"
  const ScriptId: string := "google-translate-script"
  const ScriptSrc: string := "https://translate.google.com/translate_a/element.js?cb=googleTranslateElementInit"

  // ---------------------------------------------------------------------------
  // Reading a cookie

  /** The marker a cookie's value follows: `; name=`. */
  function Key(name: string): (key: string)
    ensures |key| == |name| + 3 && key[0] == ';'
  {
    "; " + name + "="
  }

  /**
   * The text after the last `; name=` in `searched`, up to the next `;`, or
   * `None` when `; name=` does not occur.
   */
  function ValueAfterLastKey(searched: string, name: string): (r: Option<string>)
    ensures r.None? <==> IndexOf(searched, Key(name)).None?
    ensures r.Some? ==> ';' !in r.value
  {
    var parts := SplitOn(searched, Key(name));
    SplitOnSingle(searched, Key(name));
    if |parts| < 2 then None
    else
      var value := SplitOn(parts[|parts| - 1], ";")[0];
      FirstPieceHasNoSeparator(parts[|parts| - 1], ';');
      Some(value)
  }

  /**
   * `getCookie`: `None` without a document (server rendering); otherwise
   * the value after the last `; name=` in `"; " + document.cookie`.
   */
  function GetCookie(documentCookie: Option<string>, name: string): (r: Option<string>)
    ensures documentCookie.None? ==> r.None?
    ensures documentCookie.Some? ==> (r.None? <==> IndexOf("; " + documentCookie.value, Key(name)).None?)
    ensures r.Some? ==> ';' !in r.value
  {
    if documentCookie.None? then None
    else ValueAfterLastKey("; " + documentCookie.value, name)
  }

  /** The first piece of a split at a character does not hold that character. */
  lemma FirstPieceHasNoSeparator(s: string, c: char)
    ensures c !in SplitOn(s, [c])[0]
  {
    match IndexOf(s, [c])
    case None =>
      forall k | 0 <= k < |s|
        ensures s[k] != c
      {
        assert !OccursAt(s, [c], k);
      }
    case Some(i) =>
      forall k | 0 <= k < i
        ensures s[k] != c
      {
        assert !OccursAt(s, [c], k);
      }
  }

  /** One `name=value` pair of a cookie header. */
  datatype CookiePair = CookiePair(name: string, value: string)

  /**
   * A pair as section 4.2.1 of RFC 6265 writes it: the name holds neither
   * `;` nor `=`, the value holds no `;`.
   */
  predicate WellFormed(p: CookiePair) {
    ';' !in p.name && '=' !in p.name && ';' !in p.value
  }

  function PairText(p: CookiePair): string {
    p.name + "=" + p.value
  }

  /** `document.cookie`: the pairs joined by `; `. */
  function CookieHeader(pairs: seq<CookiePair>): string {
    if pairs == [] then ""
    else if |pairs| == 1 then PairText(pairs[0])
    else PairText(pairs[0]) + "; " + CookieHeader(pairs[1..])
  }

  /** The value of the last pair with the given name: a later pair shadows an earlier one. */
  function LastValue(pairs: seq<CookiePair>, name: string): Option<string> {
    if pairs == [] then None
    else match LastValue(pairs[1..], name)
      case Some(v) => Some(v)
      case None => if pairs[0].name == name then Some(pairs[0].value) else None
  }

  /** Each pair preceded by `; `: the header as `getCookie` searches it. */
  function Segments(pairs: seq<CookiePair>): string {
    if pairs == [] then "" else "; " + PairText(pairs[0]) + Segments(pairs[1..])
  }

  lemma {:induction false} SegmentsOfHeader(pairs: seq<CookiePair>)
    requires pairs != []
    ensures "; " + CookieHeader(pairs) == Segments(pairs)
    decreases |pairs|
  {
    if |pairs| == 1 {
      assert Segments(pairs[1..]) == "";
    } else {
      SegmentsOfHeader(pairs[1..]);
    }
  }

  /** A string that opens with the pattern splits into an empty piece and the split of the rest. */
  lemma SplitOnAtStart(pat: string, rest: string)
    requires |pat| > 0
    ensures SplitOn(pat + rest, pat) == [""] + SplitOn(rest, pat)
  {
    var s := pat + rest;
    assert OccursAt(s, pat, 0);
    assert s[|pat|..] == rest;
  }

  /** No `; name=` starts inside a value: a value holds no `;`. */
  lemma NoKeyInValue(v: string, rest: string, name: string)
    requires ';' !in v
    ensures forall k :: 0 <= k < |v| ==> !OccursAt(v + rest, Key(name), k)
  {
    forall k | 0 <= k < |v|
      ensures !OccursAt(v + rest, Key(name), k)
    {
      assert (v + rest)[k] == v[k];
      assert v[k] in v;
    }
  }

  /** A pair with another name does not open with `; name=`. */
  lemma OtherNameIsNotKey(p: CookiePair, rest: string, name: string)
    requires WellFormed(p) && p.name != name
    requires '=' !in name
    ensures !OccursAt("; " + PairText(p) + rest, Key(name), 0)
  {
    var s := "; " + PairText(p) + rest;
    var key := Key(name);
    assert s[2..2 + |p.name|] == p.name && s[2 + |p.name|] == '=';
    if |p.name| < |name| {
      var d := 2 + |p.name|;
      assert key[d] == name[|p.name|] && name[|p.name|] in name;
      assert s[d] != key[d];
    } else if |p.name| > |name| {
      var d := 2 + |name|;
      assert s[d] == p.name[|name|] && p.name[|name|] in p.name;
      assert s[d] != key[d];
    } else {
      var j :| 0 <= j < |name| && p.name[j] != name[j];
      assert s[2 + j] == p.name[j] && key[2 + j] == name[j];
    }
  }

  /** No `; name=` starts inside the segment of a pair with another name. */
  lemma NoKeyInOtherSegment(p: CookiePair, rest: string, name: string)
    requires WellFormed(p) && p.name != name
    requires '=' !in name
    ensures forall k :: 0 <= k < |"; " + PairText(p)| ==> !OccursAt("; " + PairText(p) + rest, Key(name), k)
  {
    var seg := "; " + PairText(p);
    var s := seg + rest;
    var key := Key(name);
    OtherNameIsNotKey(p, rest, name);
    forall k | 1 <= k < |seg|
      ensures s[k] != ';'
    {
      assert s[k] == seg[k];
      if k >= 3 + |p.name| {
        assert seg[k] == p.value[k - 3 - |p.name|];
        assert p.value[k - 3 - |p.name|] in p.value;
      } else if 2 <= k < 2 + |p.name| {
        assert seg[k] == p.name[k - 2];
        assert p.name[k - 2] in p.name;
      }
    }
  }

  /** The value then nothing, or the value then `;`: what the `;` split cuts back to the value. */
  predicate ValueThenSemicolon(last: string, v: string) {
    StartsWith(last, v) && (|last| == |v| || last[|v|] == ';')
  }

  /** `SplitOn(Segments(pairs), Key(name))`. */
  function Pieces(pairs: seq<CookiePair>, name: string): seq<string> {
    SplitOn(Segments(pairs), Key(name))
  }

  /** A segments string is empty or opens with `;`. */
  lemma SegmentsOpen(pairs: seq<CookiePair>)
    ensures Segments(pairs) == "" || Segments(pairs)[0] == ';'
  {
  }

  /** The first pair has the wanted name: one more piece, and the last piece is its value when no later pair has the name. */
  lemma PiecesOfMatchingPair(pairs: seq<CookiePair>, name: string)
    requires pairs != [] && WellFormed(pairs[0]) && pairs[0].name == name
    ensures var restPieces := Pieces(pairs[1..], name);
      Pieces(pairs, name) == [""] + ([pairs[0].value + restPieces[0]] + restPieces[1..])
  {
    var p := pairs[0];
    var rest := Segments(pairs[1..]);
    var key := Key(name);
    assert Segments(pairs) == key + (p.value + rest);
    SplitOnAtStart(key, p.value + rest);
    NoKeyInValue(p.value, rest, name);
    SplitOnShift(p.value, rest, key);
  }

  lemma PiecesOfOtherPair(pairs: seq<CookiePair>, name: string)
    requires pairs != [] && WellFormed(pairs[0]) && pairs[0].name != name
    requires '=' !in name
    ensures var restPieces := Pieces(pairs[1..], name);
      Pieces(pairs, name) == ["; " + PairText(pairs[0]) + restPieces[0]] + restPieces[1..]
  {
    var p := pairs[0];
    var rest := Segments(pairs[1..]);
    assert Segments(pairs) == "; " + PairText(p) + rest;
    NoKeyInOtherSegment(p, rest, name);
    SplitOnShift("; " + PairText(p), rest, Key(name));
  }

  /** Gluing text onto the first piece keeps the number of pieces and, past the first, the last piece. */
  lemma GluedFirstPiece(x: string, pieces: seq<string>)
    requires |pieces| >= 1
    ensures |[x + pieces[0]] + pieces[1..]| == |pieces|
    ensures |pieces| >= 2 ==> ([x + pieces[0]] + pieces[1..])[|pieces| - 1] == pieces[|pieces| - 1]
  {
  }

  /** An empty piece in front of the glued pieces adds one piece and keeps the last. */
  lemma EmptyThenGlued(x: string, pieces: seq<string>)
    requires |pieces| >= 1
    ensures |[""] + ([x + pieces[0]] + pieces[1..])| == |pieces| + 1
    ensures |pieces| >= 2 ==> ([""] + ([x + pieces[0]] + pieces[1..]))[|pieces|] == pieces[|pieces| - 1]
    ensures |pieces| == 1 ==> ([""] + ([x + pieces[0]] + pieces[1..]))[1] == x + pieces[0]
  {
  }

  /**
   * What a split at `; name=` says about the value: more than one piece
   * exactly when there is a value, and then the last piece is that value
   * followed by nothing or by `;`.
   */
  predicate LastPieceIsValue(pieces: seq<string>, value: Option<string>) {
    (|pieces| >= 2 <==> value.Some?) &&
    (value.Some? ==> ValueThenSemicolon(pieces[|pieces| - 1], value.value))
  }

  /** The split of the segments at `; name=` shows the value of the last pair with that name. */
  lemma {:induction false} SplitSegments(pairs: seq<CookiePair>, name: string)
    requires forall i :: 0 <= i < |pairs| ==> WellFormed(pairs[i])
    requires '=' !in name
    ensures LastPieceIsValue(Pieces(pairs, name), LastValue(pairs, name))
    decreases |pairs|
  {
    if pairs == [] {
      assert !OccursAt("", Key(name), 0);
    } else {
      var p := pairs[0];
      SplitSegments(pairs[1..], name);
      var restPieces := Pieces(pairs[1..], name);
      var later := LastValue(pairs[1..], name);
      if p.name == name {
        PiecesOfMatchingPair(pairs, name);
        var rest := Segments(pairs[1..]);
        if later.None? {
          assert restPieces[0] == rest;
          SegmentsOpen(pairs[1..]);
        }
        MatchingStep(p.value, rest, restPieces, later);
      } else {
        PiecesOfOtherPair(pairs, name);
        OtherStep("; " + PairText(p), restPieces, later);
      }
    }
  }

  /** A matching pair in front: an empty piece, then its value glued on the first later piece. */
  lemma MatchingStep(v: string, rest: string, restPieces: seq<string>, later: Option<string>)
    requires |restPieces| >= 1 && LastPieceIsValue(restPieces, later)
    requires later.None? ==> restPieces[0] == rest && (rest == "" || rest[0] == ';')
    ensures LastPieceIsValue([""] + ([v + restPieces[0]] + restPieces[1..]), if later.Some? then later else Some(v))
  {
    EmptyThenGlued(v, restPieces);
    if later.None? {
      assert ValueThenSemicolon(v + rest, v);
    }
  }

  /** A pair with another name in front: its text glued on the first later piece, the rest unchanged. */
  lemma OtherStep(x: string, restPieces: seq<string>, later: Option<string>)
    requires |restPieces| >= 1 && LastPieceIsValue(restPieces, later)
    ensures LastPieceIsValue([x + restPieces[0]] + restPieces[1..], later)
  {
    GluedFirstPiece(x, restPieces);
  }

  /** The first `;`-piece of a value followed by nothing or by `;` is that value. */
  lemma CutAtSemicolon(last: string, v: string)
    requires ';' !in v && ValueThenSemicolon(last, v)
    ensures SplitOn(last, ";")[0] == v
  {
    if |last| == |v| {
      assert last == v;
      forall k | 0 <= k <= |last|
        ensures !OccursAt(last, ";", k)
      {
        if k < |last| {
          assert last[k] in v;
        }
      }
    } else {
      assert last == v + [';'] + last[|v| + 1..];
      IndexOfAfterHead(v, ';', last[|v| + 1..]);
      assert last[..|v|] == v;
    }
  }

  /** The value of a pair that `LastValue` returns comes from a well-formed pair. */
  lemma LastValueWellFormed(pairs: seq<CookiePair>, name: string)
    requires forall i :: 0 <= i < |pairs| ==> WellFormed(pairs[i])
    ensures LastValue(pairs, name).Some? ==> ';' !in LastValue(pairs, name).value
  {
    if pairs != [] {
      LastValueWellFormed(pairs[1..], name);
    }
  }

  /**
   * Over a header of well-formed pairs, `getCookie` finds the value of the
   * last pair with exactly the wanted name. A pair whose name only ends with
   * the wanted name does not match, because the search includes the `; `
   * before the name.
   */
  lemma GetCookieFindsLastPair(pairs: seq<CookiePair>, name: string)
    requires forall i :: 0 <= i < |pairs| ==> WellFormed(pairs[i])
    requires '=' !in name
    ensures GetCookie(Some(CookieHeader(pairs)), name) == LastValue(pairs, name)
  {
    if pairs == [] {
      EmptyHeaderHasNoKey(name);
    } else {
      SegmentsOfHeader(pairs);
      ValueInSegments(pairs, name);
    }
  }

  /** The empty cookie string, searched as `; `, holds no `; name=`. */
  lemma EmptyHeaderHasNoKey(name: string)
    ensures ValueAfterLastKey("; ", name).None?
  {
    var key := Key(name);
    forall k | 0 <= k <= 2
      ensures !OccursAt("; ", key, k)
    {
    }
  }

  lemma ValueInSegments(pairs: seq<CookiePair>, name: string)
    requires forall i :: 0 <= i < |pairs| ==> WellFormed(pairs[i])
    requires '=' !in name
    ensures ValueAfterLastKey(Segments(pairs), name) == LastValue(pairs, name)
  {
    SplitSegments(pairs, name);
    LastValueWellFormed(pairs, name);
    ValueFromPieces(Segments(pairs), name, LastValue(pairs, name));
  }

  /** What `ValueAfterLastKey` returns, given how the split at `; name=` looks. */
  lemma ValueFromPieces(searched: string, name: string, expected: Option<string>)
    requires LastPieceIsValue(SplitOn(searched, Key(name)), expected)
    requires expected.Some? ==> ';' !in expected.value
    ensures ValueAfterLastKey(searched, name) == expected
  {
    var parts := SplitOn(searched, Key(name));
    if expected.Some? {
      CutAtSemicolon(parts[|parts| - 1], expected.value);
    }
  }

  /** `xgoogtrans=...` is not read as `googtrans`. */
  lemma SuffixNameDoesNotMatch(value: string)
    requires ';' !in value
    ensures GetCookie(Some("x" + CookieName + "=" + value), CookieName).None?
  {
    var p := CookiePair("x" + CookieName, value);
    assert CookieHeader([p]) == "x" + CookieName + "=" + value;
    GetCookieFindsLastPair([p], CookieName);
  }

  // ---------------------------------------------------------------------------
  // The toggle

  /**
   * `isUkrainian`: false before the component is mounted; otherwise whether
   * the decoded, lower-cased cookie value (empty when missing) contains
   * `/uk`. `decodeURIComponent` is a parameter; its failure (a malformed
   * escape, which throws) is `None`.
   */
  function IsUkrainian(mounted: bool, documentCookie: Option<string>, decode: string -> Option<string>)
    : (r: Option<bool>)
    ensures !mounted ==> r == Some(false)
    ensures mounted ==> (r.None? <==> decode(GetCookie(documentCookie, CookieName).GetOr("")).None?)
    ensures mounted && r.Some? ==>
      (r.value <==> Contains(ToLower(decode(GetCookie(documentCookie, CookieName).GetOr("")).value), "/uk"))
  {
    if !mounted then Some(false)
    else
      var v := GetCookie(documentCookie, CookieName).GetOr("");
      match decode(v)
      case None => None
      case Some(decoded) => Some(Contains(ToLower(decoded), "/uk"))
  }

  /** A missing cookie reads as English, whatever the decoder does with no escapes. */
  lemma MissingCookieIsEnglish(documentCookie: Option<string>, decode: string -> Option<string>)
    requires GetCookie(documentCookie, CookieName).None?
    requires decode("") == Some("")
    ensures IsUkrainian(true, documentCookie, decode) == Some(false)
  {
    assert !OccursAt("", "/uk", 0);
  }

  /** The value a click writes: back to English from Ukrainian, to Ukrainian otherwise. */
  function NextCookieValue(isUkrainian: bool): (v: string)
    ensures isUkrainian ==> v == "/en/en"
    ensures !isUkrainian ==> v == "/en/uk"
  {
    if isUkrainian then "/en/en" else "/en/uk"
  }

  /** The button's text: the language a click switches to. */
  function Label(isUkrainian: bool): (text: string)
    ensures isUkrainian <==> text == "EN"
    ensures !isUkrainian <==> text == "UA"
  {
    if isUkrainian then "EN" else "UA"
  }

  /** The button's accessible name, saying the same as its text. */
  function AriaLabel(isUkrainian: bool): (text: string)
    ensures isUkrainian <==> text == "Switch language to English"
    ensures !isUkrainian <==> text == "Translate to Ukrainian"
    ensures text == "Switch language to English" <==> Label(isUkrainian) == "EN"
  {
    if isUkrainian then "Switch language to English" else "Translate to Ukrainian"
  }

  /**
   * A click flips the language: once the value it wrote is the last
   * `googtrans` pair of the header, the reloaded page reads the other
   * language (the decoder leaves text without `%` alone).
   */
  lemma ToggleFlips(isUkrainian: bool, pairs: seq<CookiePair>, decode: string -> Option<string>)
    requires forall i :: 0 <= i < |pairs| ==> WellFormed(pairs[i])
    requires LastValue(pairs, CookieName) == Some(NextCookieValue(isUkrainian))
    requires forall s :: '%' !in s ==> decode(s) == Some(s)
    ensures IsUkrainian(true, Some(CookieHeader(pairs)), decode) == Some(!isUkrainian)
  {
    CookieNameIsToken();
    GetCookieFindsLastPair(pairs, CookieName);
    var v := NextCookieValue(isUkrainian);
    NoEscapeInCookieValue(isUkrainian);
    IsUkrainianOfValue(v, Some(CookieHeader(pairs)), decode);
    if isUkrainian {
      EnglishValueIsNotUkrainian();
    } else {
      UkrainianValueIsUkrainian();
    }
  }

  lemma CookieNameIsToken()
    ensures '=' !in CookieName && ';' !in CookieName
  {
    forall k | 0 <= k < |CookieName|
      ensures CookieName[k] != '=' && CookieName[k] != ';'
    {
    }
  }

  /** A cookie value the decoder leaves alone is read as Ukrainian exactly when it holds `/uk`. */
  lemma IsUkrainianOfValue(v: string, documentCookie: Option<string>, decode: string -> Option<string>)
    requires GetCookie(documentCookie, CookieName) == Some(v)
    requires '%' !in v
    requires forall s :: '%' !in s ==> decode(s) == Some(s)
    ensures IsUkrainian(true, documentCookie, decode) == Some(Contains(ToLower(v), "/uk"))
  {
    assert decode(v) == Some(v);
  }

  /** The values a click writes hold no `%` escape. */
  lemma NoEscapeInCookieValue(isUkrainian: bool)
    ensures '%' !in NextCookieValue(isUkrainian)
  {
    var v := NextCookieValue(isUkrainian);
    forall k | 0 <= k < |v|
      ensures v[k] != '%'
    {
    }
  }

  lemma EnglishValueIsNotUkrainian()
    ensures !Contains(ToLower("/en/en"), "/uk")
  {
    var v := "/en/en";
    assert ToLower(v) == v;
    forall k | 0 <= k <= |v|
      ensures !OccursAt(v, "/uk", k)
    {
      if k + 3 <= |v| {
        assert v[k..k + 3][1] == v[k + 1] != 'u';
      }
    }
  }

  lemma UkrainianValueIsUkrainian()
    ensures Contains(ToLower("/en/uk"), "/uk")
  {
    var v := "/en/uk";
    assert ToLower(v) == v;
    assert OccursAt(v, "/uk", 3);
  }

  // ---------------------------------------------------------------------------
  // Effects on the document

  /** An element of the page, as far as the guard looks at it. */
  datatype PageElement = PageElement(tag: string, id: string, src: string, async: bool)

  /** The browser document the component writes to. */
  class Document {
    /** Every assignment to `document.cookie`, in order. */
    var cookieWrites: seq<string>
    /** The elements of the page, in document order. */
    var elements: seq<PageElement>

    constructor(elements: seq<PageElement>)
      ensures this.elements == elements && cookieWrites == []
    {
      this.elements := elements;
      cookieWrites := [];
    }

    /** `document.getElementById(id)` finds an element. */
    predicate HasElement(id: string)
      reads this
    {
      exists i :: 0 <= i < |elements| && elements[i].id == id
    }

    /** `setGoogTransCookie`: the raw value written twice, the second time for the page's host. */
    method SetGoogTransCookie(value: string, hostname: string)
      modifies this
      ensures cookieWrites == old(cookieWrites) + [
        CookieName + "=" + value + "; path=/",
        CookieName + "=" + value + "; path=/; domain=" + hostname]
      ensures elements == old(elements)
    {
      cookieWrites := cookieWrites + [CookieName + "=" + value + "; path=/"];
      cookieWrites := cookieWrites + [CookieName + "=" + value + "; path=/; domain=" + hostname];
    }

    /** `ensureGoogleTranslateScript`: the script is appended only when no element has its id. */
    method EnsureGoogleTranslateScript()
      modifies this
      ensures old(HasElement(ScriptId)) ==> elements == old(elements)
      ensures !old(HasElement(ScriptId)) ==> elements == old(elements) + [PageElement("script", ScriptId, ScriptSrc, true)]
      ensures HasElement(ScriptId)
      ensures CountId(elements, ScriptId) == if old(HasElement(ScriptId)) then CountId(old(elements), ScriptId) else 1
      ensures cookieWrites == old(cookieWrites)
    {
      var i := 0;
      while i < |elements|
        invariant 0 <= i <= |elements|
        invariant forall k :: 0 <= k < i ==> elements[k].id != ScriptId
      {
        if elements[i].id == ScriptId {
          return;
        }
        i := i + 1;
      }
      NoIdCountsZero(elements, ScriptId);
      var script := PageElement("script", ScriptId, ScriptSrc, true);
      CountIdAppend(elements, script, ScriptId);
      elements := elements + [script];
      assert elements[|elements| - 1].id == ScriptId;
    }
  }

  /** How many elements carry the id. */
  function CountId(elements: seq<PageElement>, id: string): nat {
    if elements == [] then 0
    else CountId(elements[..|elements| - 1], id) + (if elements[|elements| - 1].id == id then 1 else 0)
  }

  lemma CountIdAppend(elements: seq<PageElement>, e: PageElement, id: string)
    ensures CountId(elements + [e], id) == CountId(elements, id) + (if e.id == id then 1 else 0)
  {
    assert (elements + [e])[..|elements|] == elements;
  }

  lemma {:induction false} NoIdCountsZero(elements: seq<PageElement>, id: string)
    requires forall k :: 0 <= k < |elements| ==> elements[k].id != id
    ensures CountId(elements, id) == 0
    decreases |elements|
  {
    if elements != [] {
      NoIdCountsZero(elements[..|elements| - 1], id);
    }
  }

  /**
   * React's strict mode runs the effect twice: starting from a page without
   * the script, the page ends with exactly one.
   */
  method MountTwice(doc: Document)
    requires !doc.HasElement(ScriptId)
    modifies doc
    ensures CountId(doc.elements, ScriptId) == 1
    ensures doc.elements == old(doc.elements) + [PageElement("script", ScriptId, ScriptSrc, true)]
  {
    doc.EnsureGoogleTranslateScript();
    doc.EnsureGoogleTranslateScript();
  }
}
