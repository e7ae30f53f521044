/** String handling the client relies on: JavaScript's `String.prototype.trim`
    (for the empty-title check) and the sidebar's title and snippet rules. */
module Text {

  /** The characters `trim` strips: ECMAScript's WhiteSpace (tab, vertical
      tab, form feed, space, no-break space, the byte order mark and the
      Unicode space separators) and LineTerminator (line feed, carriage
      return, line and paragraph separators). */
  predicate IsWhiteSpace(c: char) {
    c == '\t' || c == '\n' || c == '\U{000B}' || c == '\U{000C}' || c == '\r' ||
    c == ' ' || c == '\U{00A0}' || c == '\U{1680}' ||
    ('\U{2000}' <= c <= '\U{200A}') ||
    c == '\U{2028}' || c == '\U{2029}' || c == '\U{202F}' || c == '\U{205F}' ||
    c == '\U{3000}' || c == '\U{FEFF}'
  }

  /** `s[lo..hi]` is a slice of `s` made only of white space. */
  predicate AllWhite(s: string, lo: int, hi: int) {
    0 <= lo <= hi <= |s| && forall i :: lo <= i < hi ==> IsWhiteSpace(s[i])
  }

  /** Every character of `s` is white space (the empty string included). */
  predicate IsBlank(s: string) {
    AllWhite(s, 0, |s|)
  }

  /** `s` with its leading white space removed. */
  function TrimStart(s: string): string {
    if s == [] || !IsWhiteSpace(s[0]) then s else TrimStart(s[1..])
  }

  /** `s` with its trailing white space removed. */
  function TrimEnd(s: string): string {
    if s == [] || !IsWhiteSpace(s[|s| - 1]) then s else TrimEnd(s[..|s| - 1])
  }

  /** `s.trim()`. */
  function Trim(s: string): string {
    TrimEnd(TrimStart(s))
  }

  /** `r` is the part of `s` that starts at index `k`. */
  ghost predicate OccursAt(r: string, s: string, k: int) {
    0 <= k <= |s| - |r| && r == s[k..k + |r|]
  }

  /** TrimStart drops exactly the longest all-white prefix. */
  lemma {:induction false} TrimStartDropsWhitePrefix(s: string)
    ensures |TrimStart(s)| <= |s| && TrimStart(s) == s[|s| - |TrimStart(s)|..]
    ensures TrimStart(s) == [] || !IsWhiteSpace(TrimStart(s)[0])
    ensures AllWhite(s, 0, |s| - |TrimStart(s)|)
  {
    if s != [] && IsWhiteSpace(s[0]) {
      var t := s[1..];
      TrimStartDropsWhitePrefix(t);
      var r := TrimStart(s);
      assert r == TrimStart(t);
      assert t[|t| - |r|..] == s[|s| - |r|..];
      forall i | 0 <= i < |s| - |r| ensures IsWhiteSpace(s[i]) {
        if i > 0 { assert s[i] == t[i - 1]; }
      }
    }
  }

  /** TrimEnd drops exactly the longest all-white suffix. */
  lemma {:induction false} TrimEndDropsWhiteSuffix(s: string)
    ensures |TrimEnd(s)| <= |s| && TrimEnd(s) == s[..|TrimEnd(s)|]
    ensures TrimEnd(s) == [] || !IsWhiteSpace(TrimEnd(s)[|TrimEnd(s)| - 1])
    ensures AllWhite(s, |TrimEnd(s)|, |s|)
  {
    if s != [] && IsWhiteSpace(s[|s| - 1]) {
      var t := s[..|s| - 1];
      TrimEndDropsWhiteSuffix(t);
      var r := TrimEnd(s);
      assert r == TrimEnd(t);
      assert t[..|r|] == s[..|r|];
      forall i | |r| <= i < |s| ensures IsWhiteSpace(s[i]) {
        if i < |s| - 1 { assert s[i] == t[i]; }
      }
    }
  }

  /** `s.trim()` is a piece of `s` that neither starts nor ends with white
      space, and everything around it is white space. */
  lemma TrimIsInnerPiece(s: string)
    ensures Trim(s) == [] || (!IsWhiteSpace(Trim(s)[0]) && !IsWhiteSpace(Trim(s)[|Trim(s)| - 1]))
    ensures exists k :: OccursAt(Trim(s), s, k) && AllWhite(s, 0, k) && AllWhite(s, k + |Trim(s)|, |s|)
  {
    var t := TrimStart(s);
    var r := TrimEnd(t);
    TrimStartDropsWhitePrefix(s);
    TrimEndDropsWhiteSuffix(t);
    var k := |s| - |t|;
    assert r == s[k..k + |r|];
    assert r != [] ==> r[0] == t[0];
    forall i | k + |r| <= i < |s| ensures IsWhiteSpace(s[i]) {
      assert s[i] == t[i - k];
    }
    assert OccursAt(r, s, k) && AllWhite(s, 0, k) && AllWhite(s, k + |r|, |s|);
  }

  /** `!s.trim()` holds exactly when the string is blank. */
  lemma TrimEmptyIffBlank(s: string)
    ensures Trim(s) == "" <==> IsBlank(s)
  {
    TrimIsInnerPiece(s);
    var r := Trim(s);
    var k :| OccursAt(r, s, k) && AllWhite(s, 0, k) && AllWhite(s, k + |r|, |s|);
    if r == "" {
      forall i | 0 <= i < |s| ensures IsWhiteSpace(s[i]) {
        if i >= k { assert AllWhite(s, k + |r|, |s|); }
      }
    } else {
      assert s[k] == r[0];
    }
  }

  /** How many characters of the content the sidebar shows. */
  const SnippetLength := 30

  /** `(content || "").slice(0, 30)` followed by `"..."` when the content is
      longer than 30 characters. */
  function Snippet(content: string): (r: string)
    ensures |content| <= SnippetLength ==> r == content
    ensures |content| > SnippetLength ==>
      |r| == SnippetLength + 3 && r[..SnippetLength] == content[..SnippetLength] &&
      r[SnippetLength..] == "..."
  {
    var shown := if |content| < SnippetLength then content else content[..SnippetLength];
    if |content| > SnippetLength then shown + "..." else shown
  }

  /** The sidebar's title cell: the title, or "(Untitled)" when it is empty. */
  datatype TitleLabel = Titled(text: string) | Untitled

  /** `note.title || <em>(Untitled)</em>`. */
  function TitleOf(title: string): (r: TitleLabel)
    ensures r.Untitled? <==> title == ""
    ensures r.Titled? ==> r.text == title
  {
    if title == "" then Untitled else Titled(title)
  }
}
