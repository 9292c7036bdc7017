/** The pure text functions of the search page: HTML escaping, regular-
    expression escaping, truncation, the two highlight passes and the
    document-name label. The regular expressions the page builds are all of
    one shape: an escaped literal, matched case-insensitively and globally,
    optionally between `\b` word boundaries. `replace` with such a pattern
    is modelled as a left-to-right scan that wraps every non-overlapping
    match, which is what the global flag does. */
module TextRender {
  import opened Js
  import Uri
  import opened SearchRoute

  // ---------------------------------------------------------------------
  // escapeHtml
  // ---------------------------------------------------------------------

  /** A text node serialised as HTML: `&`, `<`, `>` and the no-break space
      become character references; every other character is kept. */
  function EscapeHtmlChar(c: char): string
  {
    if c == '&' then "&amp;"
    else if c == '<' then "&lt;"
    else if c == '>' then "&gt;"
    else if c == '\U{00A0}' then "&nbsp;"
    else [c]
  }

  predicate IsHtmlSpecial(c: char)
  {
    c == '&' || c == '<' || c == '>' || c == '\U{00A0}'
  }

  /** `escapeHtml`: the result holds no angle bracket, and text without
      special characters is kept as it is. */
  function EscapeHtml(s: string): (r: string)
    ensures forall i :: 0 <= i < |r| ==> r[i] != '<' && r[i] != '>'
    ensures |r| >= |s|
    ensures (forall i :: 0 <= i < |s| ==> !IsHtmlSpecial(s[i])) ==> r == s
  {
    if s == [] then []
    else
      assert forall i :: 0 <= i < |s[1..]| ==> s[1..][i] == s[i + 1];
      EscapeHtmlChar(s[0]) + EscapeHtml(s[1..])
  }

  /** Reading the four character references back. */
  function UnescapeHtml(s: string): string
    decreases |s|
  {
    if s == [] then []
    else if "&amp;" <= s then ['&'] + UnescapeHtml(s[5..])
    else if "&lt;" <= s then ['<'] + UnescapeHtml(s[4..])
    else if "&gt;" <= s then ['>'] + UnescapeHtml(s[4..])
    else if "&nbsp;" <= s then ['\U{00A0}'] + UnescapeHtml(s[6..])
    else [s[0]] + UnescapeHtml(s[1..])
  }

  lemma UnescapeHtmlChar(c: char, rest: string)
    ensures UnescapeHtml(EscapeHtmlChar(c) + rest) == [c] + UnescapeHtml(rest)
  {
    var code := EscapeHtmlChar(c);
    var e := code + rest;
    PrefixOfConcat(code, rest);
    if c == '&' {
      assert e[5..] == rest;
    } else if c == '<' {
      NotPrefixAt("&amp;", e, 1);
      assert e[4..] == rest;
    } else if c == '>' {
      NotPrefixAt("&amp;", e, 1);
      NotPrefixAt("&lt;", e, 1);
      assert e[4..] == rest;
    } else if c == '\U{00A0}' {
      NotPrefixAt("&amp;", e, 1);
      NotPrefixAt("&lt;", e, 1);
      NotPrefixAt("&gt;", e, 1);
      assert e[6..] == rest;
    } else {
      NotPrefixAt("&amp;", e, 0);
      NotPrefixAt("&lt;", e, 0);
      NotPrefixAt("&gt;", e, 0);
      NotPrefixAt("&nbsp;", e, 0);
      assert e[0] == c && e[1..] == rest;
    }
  }

  lemma PrefixOfConcat(a: string, b: string)
    ensures a <= a + b
  {
    assert (a + b)[..|a|] == a;
  }

  lemma NotPrefixAt(p: string, s: string, k: nat)
    requires k < |p| && k < |s| && p[k] != s[k]
    ensures !(p <= s)
  {
  }

  /** Escaping loses nothing: the original text can be read back. */
  lemma {:induction false} UnescapeEscapeHtml(s: string)
    ensures UnescapeHtml(EscapeHtml(s)) == s
  {
    if s != [] {
      UnescapeHtmlChar(s[0], EscapeHtml(s[1..]));
      UnescapeEscapeHtml(s[1..]);
      assert s == [s[0]] + s[1..];
    }
  }

  // ---------------------------------------------------------------------
  // escapeRegex and the literal an escaped pattern matches
  // ---------------------------------------------------------------------

  /** The characters of the class `[.*+?^${}()|[\]\\]`. */
  predicate IsRegexSyntax(c: char)
  {
    c == '.' || c == '*' || c == '+' || c == '?' || c == '^' || c == '$' || c == '{' || c == '}'
    || c == '(' || c == ')' || c == '|' || c == '[' || c == ']' || c == '\\'
  }

  /** `escapeRegex`: a backslash before every syntax character. */
  function EscapeRegex(s: string): (r: string)
    ensures |r| >= |s|
    ensures (forall i :: 0 <= i < |s| ==> !IsRegexSyntax(s[i])) ==> r == s
  {
    if s == [] then []
    else
      assert forall i :: 0 <= i < |s[1..]| ==> s[1..][i] == s[i + 1];
      (if IsRegexSyntax(s[0]) then ['\\', s[0]] else [s[0]]) + EscapeRegex(s[1..])
  }

  /** The text a pattern made of ordinary characters and escaped syntax
      characters matches, or `None` for a pattern with an unescaped syntax
      character (one that is not a plain literal). */
  function RegexLiteral(p: string): Option<string>
    decreases |p|
  {
    if p == [] then Some([])
    else if p[0] == '\\' then
      if |p| >= 2 && IsRegexSyntax(p[1]) then
        var rest := RegexLiteral(p[2..]);
        if rest.Some? then Some([p[1]] + rest.value) else None
      else None
    else if IsRegexSyntax(p[0]) then None
    else
      var rest := RegexLiteral(p[1..]);
      if rest.Some? then Some([p[0]] + rest.value) else None
  }

  /** The pattern built from `escapeRegex(s)` matches exactly the literal `s`. */
  lemma {:induction false} RegexLiteralOfEscape(s: string)
    ensures RegexLiteral(EscapeRegex(s)) == Some(s)
  {
    if s != [] {
      RegexLiteralOfEscape(s[1..]);
      var e := EscapeRegex(s);
      if IsRegexSyntax(s[0]) {
        assert e[2..] == EscapeRegex(s[1..]);
      } else {
        assert e[1..] == EscapeRegex(s[1..]);
      }
      assert s == [s[0]] + s[1..];
    }
  }

  // ---------------------------------------------------------------------
  // truncateText
  // ---------------------------------------------------------------------

  const Ellipsis: string := "..."

  lemma {:induction false} EscapeHtmlConcat(a: string, b: string)
    ensures EscapeHtml(a + b) == EscapeHtml(a) + EscapeHtml(b)
  {
    if a != [] {
      var ab := a + b;
      assert ab[0] == a[0] && ab[1..] == a[1..] + b;
      EscapeHtmlConcat(a[1..], b);
      AppendAssoc(EscapeHtmlChar(a[0]), EscapeHtml(a[1..]), EscapeHtml(b));
    } else {
      assert a + b == b;
    }
  }

  /** Truncation works on the escaped text and may cut a character
      reference: a text whose `&` falls on the last kept position is shown
      with a bare `&` before the ellipsis. */
  lemma TruncationCanCutReference(a: string, maxLength: nat)
    requires |a| + 1 == maxLength
    requires forall i :: 0 <= i < |a| ==> !IsHtmlSpecial(a[i])
    ensures Truncate(EscapeHtml(a + "&"), maxLength) == a + "&" + Ellipsis
  {
    EscapeHtmlConcat(a, "&");
    EscapeAmpersand();
    var e := a + "&amp;";
    assert EscapeHtml(a + "&") == e;
    TakeOneMore(a, "&amp;");
  }

  lemma EscapeAmpersand()
    ensures EscapeHtml("&") == "&amp;"
  {
    assert "&"[1..] == [];
  }

  lemma TakeOneMore(x: string, y: string)
    requires |y| >= 1
    ensures (x + y)[..|x| + 1] == x + [y[0]]
  {
  }

  /** `truncateText`: short text is kept; longer text keeps its first
      `maxLength` characters and gains an ellipsis. */
  function Truncate(text: string, maxLength: nat): (r: string)
    ensures |text| <= maxLength ==> r == text
    ensures |text| > maxLength ==> |r| == maxLength + 3 && r[..maxLength] == text[..maxLength] && r[maxLength..] == Ellipsis
    ensures |r| <= Max(|text|, maxLength + 3)
  {
    if |text| <= maxLength then text else text[..maxLength] + Ellipsis
  }

  // ---------------------------------------------------------------------
  // replace(/(literal)/gi, ...) and replace(/\b(literal)\b/gi, ...)
  // ---------------------------------------------------------------------

  /** A piece of a scanned text: a character copied as it is, or a match. */
  datatype Piece = Plain(c: char) | Hit(s: string)

  /** `\b` at index `i`: exactly one of the neighbours is a word character
      (outside the text counts as a non-word character). */
  predicate IsBoundary(t: string, i: nat)
    requires i <= |t|
  {
    (i > 0 && IsWordChar(t[i - 1])) != (i < |t| && IsWordChar(t[i]))
  }

  /** The pattern matches at index `i`, ignoring ASCII case, and, for a
      whole-word pattern, with a word boundary on both sides. */
  predicate MatchAt(t: string, pat: string, wholeWord: bool, i: nat)
    requires i <= |t|
  {
    i + |pat| <= |t| && Lower(t[i..i + |pat|]) == Lower(pat)
    && (wholeWord ==> IsBoundary(t, i) && IsBoundary(t, i + |pat|))
  }

  /** The scan of the global flag from index `i`: the first match is taken
      and the search resumes after it (see `Step`); an empty match at the
      very end is taken too. */
  function Pieces(t: string, pat: string, wholeWord: bool, i: nat): seq<Piece>
    requires i <= |t|
    decreases |t| - i
  {
    if i == |t| then (if MatchAt(t, pat, wholeWord, i) then [Hit([])] else [])
    else
      var (emitted, next) := Step(t, pat, wholeWord, i);
      emitted + Pieces(t, pat, wholeWord, next)
  }

  /** What the scan emits at index `i` and where it goes on: a match, or
      one copied character; an empty match is followed by one copied
      character, so that the scan moves on. */
  function Step(t: string, pat: string, wholeWord: bool, i: nat): (r: (seq<Piece>, nat))
    requires i < |t|
    ensures i < r.1 <= |t|
  {
    if MatchAt(t, pat, wholeWord, i) then
      if pat == [] then ([Hit([]), Plain(t[i])], i + 1)
      else ([Hit(t[i..i + |pat|])], i + |pat|)
    else ([Plain(t[i])], i + 1)
  }

  /** One step emits exactly the text it passes over, and only
      occurrences of the pattern are marked as matches. */
  lemma StepShape(t: string, pat: string, wholeWord: bool, i: nat)
    requires i < |t|
    ensures Erase(Step(t, pat, wholeWord, i).0) == t[i..Step(t, pat, wholeWord, i).1]
    ensures HitsAre(Step(t, pat, wholeWord, i).0, pat)
  {
    var (emitted, next) := Step(t, pat, wholeWord, i);
    var plain := [Plain(t[i])];
    assert Erase(plain) == [t[i]] + Erase(plain[1..]) && plain[1..] == [];
    assert t[i..i + 1] == [t[i]];
    if MatchAt(t, pat, wholeWord, i) {
      if pat == [] {
        assert emitted == [Hit([])] + plain;
        EraseConcat([Hit([])], plain);
        assert [Hit([])][1..] == [];
      } else {
        var hit := [Hit(t[i..i + |pat|])];
        assert emitted == hit;
        assert hit[1..] == [];
      }
    } else {
      assert emitted == plain;
    }
  }

  function PieceText(p: Piece): string
  {
    match p
    case Plain(c) => [c]
    case Hit(s) => s
  }

  /** The text of the pieces without the wrappers. */
  function Erase(ps: seq<Piece>): string
  {
    if ps == [] then [] else PieceText(ps[0]) + Erase(ps[1..])
  }

  /** `$1` inside the replacement: each match between the two wrappers. */
  function Render(ps: seq<Piece>, open: string, close: string): string
  {
    if ps == [] then []
    else (match ps[0] case Plain(c) => [c] case Hit(s) => open + s + close) + Render(ps[1..], open, close)
  }

  /** `text.replace(regex, open + '$1' + close)` for the regular expression
      of an escaped literal `pat`, with `\b` on both sides when `wholeWord`. */
  function ReplaceAll(t: string, pat: string, wholeWord: bool, open: string, close: string): string
  {
    Render(Pieces(t, pat, wholeWord, 0), open, close)
  }

  lemma {:induction false} EraseConcat(a: seq<Piece>, b: seq<Piece>)
    ensures Erase(a + b) == Erase(a) + Erase(b)
  {
    if a == [] {
      assert a + b == b;
    } else {
      var ab := a + b;
      assert ab[0] == a[0] && ab[1..] == a[1..] + b;
      EraseConcat(a[1..], b);
      assert Erase(ab) == PieceText(a[0]) + Erase(a[1..] + b);
    }
  }

  lemma {:induction false} RenderConcat(a: seq<Piece>, b: seq<Piece>, open: string, close: string)
    ensures Render(a + b, open, close) == Render(a, open, close) + Render(b, open, close)
  {
    if a == [] {
      assert a + b == b;
    } else {
      var ab := a + b;
      assert ab[0] == a[0] && ab[1..] == a[1..] + b;
      RenderConcat(a[1..], b, open, close);
    }
  }

  /** The scan keeps the text: with the wrappers taken out, the pieces spell
      the scanned text exactly. */
  lemma {:induction false} ErasePieces(t: string, pat: string, wholeWord: bool, i: nat)
    requires i <= |t|
    ensures Erase(Pieces(t, pat, wholeWord, i)) == t[i..]
    decreases |t| - i
  {
    if i < |t| {
      var (emitted, next) := Step(t, pat, wholeWord, i);
      var rest := Pieces(t, pat, wholeWord, next);
      assert Pieces(t, pat, wholeWord, i) == emitted + rest;
      StepShape(t, pat, wholeWord, i);
      ErasePieces(t, pat, wholeWord, next);
      EraseSplit(emitted, rest, t, i, next);
    }
  }

  lemma EraseSplit(a: seq<Piece>, b: seq<Piece>, t: string, i: nat, j: nat)
    requires i <= j <= |t|
    requires Erase(a) == t[i..j] && Erase(b) == t[j..]
    ensures Erase(a + b) == t[i..]
  {
    EraseConcat(a, b);
    SliceSplit(t, i, j);
  }

  lemma SliceSplit(t: string, i: nat, j: nat)
    requires i <= j <= |t|
    ensures t[i..j] + t[j..] == t[i..]
  {
  }

  /** Every match among `ps` is an occurrence of `pat`, up to ASCII case. */
  predicate HitsAre(ps: seq<Piece>, pat: string)
  {
    forall k :: 0 <= k < |ps| && ps[k].Hit? ==> Lower(ps[k].s) == Lower(pat)
  }

  /** Every wrapped piece is an occurrence of the pattern, up to ASCII case. */
  lemma {:induction false} HitsMatchPattern(t: string, pat: string, wholeWord: bool, i: nat)
    requires i <= |t|
    ensures HitsAre(Pieces(t, pat, wholeWord, i), pat)
    decreases |t| - i
  {
    if i < |t| {
      var step := Step(t, pat, wholeWord, i);
      var emitted, next := step.0, step.1;
      StepShape(t, pat, wholeWord, i);
      HitsMatchPattern(t, pat, wholeWord, next);
      var rest := Pieces(t, pat, wholeWord, next);
      var ps := emitted + rest;
      assert ps == Pieces(t, pat, wholeWord, i);
      forall k | 0 <= k < |ps| && ps[k].Hit?
        ensures Lower(ps[k].s) == Lower(pat)
      {
        if k >= |emitted| {
          assert ps[k] == rest[k - |emitted|];
        } else {
          assert ps[k] == emitted[k];
          assert emitted[k].Hit?;
        }
      }
    }
  }

  /** Where the pattern never matches, the scan copies every character. */
  lemma {:induction false} PiecesWithoutMatch(t: string, pat: string, wholeWord: bool, i: nat)
    requires i <= |t|
    requires forall j :: i <= j <= |t| ==> !MatchAt(t, pat, wholeWord, j)
    ensures Render(Pieces(t, pat, wholeWord, i), "", "") == t[i..]
    ensures forall open, close :: Render(Pieces(t, pat, wholeWord, i), open, close) == t[i..]
    decreases |t| - i
  {
    if i < |t| {
      PiecesWithoutMatch(t, pat, wholeWord, i + 1);
      assert t[i..] == [t[i]] + t[i + 1..];
    }
  }

  /** `replace` with a pattern that occurs nowhere leaves the text unchanged. */
  lemma ReplaceWithoutMatch(t: string, pat: string, wholeWord: bool, open: string, close: string)
    requires forall j :: 0 <= j <= |t| ==> !MatchAt(t, pat, wholeWord, j)
    ensures ReplaceAll(t, pat, wholeWord, open, close) == t
  {
    PiecesWithoutMatch(t, pat, wholeWord, 0);
  }

  /** The pieces that copy `s` character by character. */
  function Plains(s: string): (ps: seq<Piece>)
    ensures |ps| == |s| && forall k :: 0 <= k < |s| ==> ps[k] == Plain(s[k])
  {
    seq(|s|, k requires 0 <= k < |s| => Plain(s[k]))
  }

  lemma PlainsCons(t: string, i: nat, j: nat)
    requires i < j <= |t|
    ensures Plains(t[i..j]) == [Plain(t[i])] + Plains(t[i + 1..j])
  {
    var a, b := Plains(t[i..j]), [Plain(t[i])] + Plains(t[i + 1..j]);
    assert forall k :: 0 <= k < j - i ==> a[k] == b[k];
  }

  /** Where the pattern does not match from `i` up to `j`, the scan copies
      those characters and then goes on at `j`. */
  lemma {:induction false} ScanCopiesUpTo(t: string, pat: string, wholeWord: bool, i: nat, j: nat)
    requires i <= j <= |t|
    requires forall k :: i <= k < j ==> !MatchAt(t, pat, wholeWord, k)
    ensures Pieces(t, pat, wholeWord, i) == Plains(t[i..j]) + Pieces(t, pat, wholeWord, j)
    decreases j - i
  {
    if i < j {
      assert Step(t, pat, wholeWord, i) == ([Plain(t[i])], i + 1);
      assert Pieces(t, pat, wholeWord, i) == [Plain(t[i])] + Pieces(t, pat, wholeWord, i + 1);
      ScanCopiesUpTo(t, pat, wholeWord, i + 1, j);
      PlainsCons(t, i, j);
      AppendAssoc([Plain(t[i])], Plains(t[i + 1..j]), Pieces(t, pat, wholeWord, j));
    } else {
      assert Plains(t[i..j]) == [];
    }
  }

  /** The global scan of a non-empty pattern takes the leftmost match: the
      text before it is copied, the match is wrapped, and the scan resumes
      right after it. */
  lemma ScanTakesFirstMatch(t: string, pat: string, wholeWord: bool, i: nat, j: nat)
    requires pat != [] && i <= j <= |t| && MatchAt(t, pat, wholeWord, j)
    requires forall k :: i <= k < j ==> !MatchAt(t, pat, wholeWord, k)
    ensures Pieces(t, pat, wholeWord, i)
         == Plains(t[i..j]) + [Hit(t[j..j + |pat|])] + Pieces(t, pat, wholeWord, j + |pat|)
  {
    ScanCopiesUpTo(t, pat, wholeWord, i, j);
    assert Step(t, pat, wholeWord, j) == ([Hit(t[j..j + |pat|])], j + |pat|);
    assert Pieces(t, pat, wholeWord, j) == [Hit(t[j..j + |pat|])] + Pieces(t, pat, wholeWord, j + |pat|);
    AppendAssoc(Plains(t[i..j]), [Hit(t[j..j + |pat|])], Pieces(t, pat, wholeWord, j + |pat|));
  }

  /** With no match of a non-empty pattern from `i` on, the scan copies the
      rest of the text and wraps nothing. */
  lemma ScanAfterLastMatch(t: string, pat: string, wholeWord: bool, i: nat)
    requires pat != [] && i <= |t|
    requires forall k :: i <= k < |t| ==> !MatchAt(t, pat, wholeWord, k)
    ensures Pieces(t, pat, wholeWord, i) == Plains(t[i..])
  {
    ScanCopiesUpTo(t, pat, wholeWord, i, |t|);
    assert !MatchAt(t, pat, wholeWord, |t|);
    assert t[i..|t|] == t[i..];
  }

  /** Copied pieces render as the text they copy. */
  lemma {:induction false} RenderPlains(s: string, open: string, close: string)
    ensures Render(Plains(s), open, close) == s
  {
    if s != [] {
      assert Plains(s)[1..] == Plains(s[1..]);
      RenderPlains(s[1..], open, close);
      assert s == [s[0]] + s[1..];
    }
  }

  /** A match between the two wrappers. */
  function Wrap(s: string, open: string, close: string): string
  {
    open + s + close
  }

  /** A non-empty match at `i` is wrapped and skipped. */
  lemma RenderAtMatch(t: string, pat: string, wholeWord: bool, open: string, close: string, i: nat)
    requires pat != [] && i <= |t| && MatchAt(t, pat, wholeWord, i)
    ensures Render(Pieces(t, pat, wholeWord, i), open, close)
         == Wrap(t[i..i + |pat|], open, close) + Render(Pieces(t, pat, wholeWord, i + |pat|), open, close)
  {
    var hit := [Hit(t[i..i + |pat|])];
    assert Step(t, pat, wholeWord, i) == (hit, i + |pat|);
    assert Pieces(t, pat, wholeWord, i) == hit + Pieces(t, pat, wholeWord, i + |pat|);
    RenderConcat(hit, Pieces(t, pat, wholeWord, i + |pat|), open, close);
    assert hit[1..] == [];
  }

  /** Without a match at `i`, the character at `i` is copied. */
  lemma RenderAtPlain(t: string, pat: string, wholeWord: bool, open: string, close: string, i: nat)
    requires i < |t| && !MatchAt(t, pat, wholeWord, i)
    ensures Render(Pieces(t, pat, wholeWord, i), open, close)
         == [t[i]] + Render(Pieces(t, pat, wholeWord, i + 1), open, close)
  {
    var plain := [Plain(t[i])];
    assert Step(t, pat, wholeWord, i) == (plain, i + 1);
    assert Pieces(t, pat, wholeWord, i) == plain + Pieces(t, pat, wholeWord, i + 1);
    RenderConcat(plain, Pieces(t, pat, wholeWord, i + 1), open, close);
    assert plain[1..] == [];
  }

  /** Where the pattern does not match before `j`, the scan copies the
      text up to `j`. */
  lemma CopiedUpTo(t: string, pat: string, wholeWord: bool, open: string, close: string, j: nat)
    requires j <= |t|
    requires forall k :: 0 <= k < j ==> !MatchAt(t, pat, wholeWord, k)
    ensures Render(Pieces(t, pat, wholeWord, 0), open, close) == t[..j] + Render(Pieces(t, pat, wholeWord, j), open, close)
  {
    var rest := Render(Pieces(t, pat, wholeWord, j), open, close);
    var k := j;
    while k > 0
      invariant 0 <= k <= j
      invariant Render(Pieces(t, pat, wholeWord, k), open, close) == t[k..j] + rest
    {
      RenderAtPlain(t, pat, wholeWord, open, close, k - 1);
      Cons(t[k - 1], t[k..j], rest);
      assert [t[k - 1]] + t[k..j] == t[k - 1..j];
      k := k - 1;
    }
    assert t[..j] == t[0..j];
  }

  lemma WrapKeepsPrefix(h: string, open: string, s: string, close: string, r: string)
    ensures h + open <= h + Wrap(s, open, close) + r
  {
    assert h + Wrap(s, open, close) + r == (h + open) + (s + close + r);
  }

  lemma Cons(c: char, s: string, rest: string)
    ensures [c] + (s + rest) == ([c] + s) + rest
  {
  }

  /** Up to the first match the scan copies the text, and then the opening
      wrapper follows. */
  lemma CopiedUpToFirstMatch(t: string, pat: string, wholeWord: bool, open: string, close: string, j: nat)
    requires pat != [] && j <= |t| && MatchAt(t, pat, wholeWord, j)
    requires forall k :: 0 <= k < j ==> !MatchAt(t, pat, wholeWord, k)
    ensures t[..j] + open <= ReplaceAll(t, pat, wholeWord, open, close)
  {
    CopiedUpTo(t, pat, wholeWord, open, close, j);
    RenderAtMatch(t, pat, wholeWord, open, close, j);
    WrapKeepsPrefix(t[..j], open, t[j..j + |pat|], close, Render(Pieces(t, pat, wholeWord, j + |pat|), open, close));
  }

  // ---------------------------------------------------------------------
  // The two highlight passes
  // ---------------------------------------------------------------------

  const HighlightOpen: string := "<span class=\"highlight\">"
  const HighlightClose: string := "</span>"
  const TermOpen: string := "<strong class=\"search-term\">"
  const TermClose: string := "</strong>"

  /** The passes do not keep the markup well formed: in any text that
      starts with a tag the field pass inserted, the term `class` matches, as
      a whole word, inside that tag, so the term pass puts its opening
      wrapper inside the tag, right after `<span `. */
  lemma TermMatchesInsideInsertedTag(t: string, open: string, close: string)
    requires HighlightOpen <= t
    ensures t[..6] == "<span "
    ensures t[..6] + open <= ReplaceAll(t, "class", true, open, close)
  {
    NoTermInTagName(t);
    TermIsAttributeName(t);
    CopiedUpToFirstMatch(t, "class", true, open, close, 6);
    assert t[..6] == HighlightOpen[..6];
  }

  /** `class` does not match in the first six characters of the tag. */
  lemma NoTermInTagName(t: string)
    requires HighlightOpen <= t
    ensures forall k :: 0 <= k < 6 ==> !MatchAt(t, "class", true, k)
  {
    var head := "<span ";
    assert t[..6] == HighlightOpen[..6] == head;
    assert Lower("class")[0] == 'c';
    forall k | 0 <= k < 6
      ensures !MatchAt(t, "class", true, k)
    {
      assert t[k] == head[k] && head[k] != 'c' && head[k] != 'C';
      assert Lower(t[k..k + 5])[0] == LowerChar(t[k]) != 'c';
    }
  }

  /** `class`, the attribute name, is a whole word of the tag at index 6. */
  lemma TermIsAttributeName(t: string)
    requires HighlightOpen <= t
    ensures MatchAt(t, "class", true, 6)
  {
    assert t[5..12] == HighlightOpen[5..12] == " class=";
    assert t[6..11] == "class";
  }

  /** One `replace` per pattern, in order, each on the previous result. */
  function ApplyAll(t: string, pats: seq<string>, wholeWord: bool, open: string, close: string): string
    decreases |pats|
  {
    if pats == [] then t
    else ApplyAll(ReplaceAll(t, pats[0], wholeWord, open, close), pats[1..], wholeWord, open, close)
  }

  /** Running the patterns of `a` and then those of `b` is running `a + b`. */
  lemma {:induction false} ApplyAllConcat(t: string, a: seq<string>, b: seq<string>, wholeWord: bool, open: string, close: string)
    ensures ApplyAll(t, a + b, wholeWord, open, close)
         == ApplyAll(ApplyAll(t, a, wholeWord, open, close), b, wholeWord, open, close)
    decreases |a|
  {
    if a != [] {
      assert (a + b)[1..] == a[1..] + b;
      ApplyAllConcat(ReplaceAll(t, a[0], wholeWord, open, close), a[1..], b, wholeWord, open, close);
    } else {
      assert a + b == b;
    }
  }

  /** The highlight strings of every array-valued entry, in key order;
      entries whose value is not an array are skipped. */
  function HighlightValues(entries: seq<HighlightEntry>): (r: seq<string>)
    ensures |entries| == 1 && entries[0].value.Arr? ==> r == entries[0].value.items
    ensures |entries| == 1 && !entries[0].value.Arr? ==> r == []
  {
    if entries == [] then []
    else
      (if entries[0].value.Arr? then entries[0].value.items else [])
      + HighlightValues(entries[1..])
  }

  lemma {:induction false} HighlightValuesConcat(a: seq<HighlightEntry>, b: seq<HighlightEntry>)
    ensures HighlightValues(a + b) == HighlightValues(a) + HighlightValues(b)
  {
    if a != [] {
      var ab := a + b;
      assert ab[0] == a[0] && ab[1..] == a[1..] + b;
      HighlightValuesConcat(a[1..], b);
      var h := if a[0].value.Arr? then a[0].value.items else [];
      assert HighlightValues(ab) == h + HighlightValues(a[1..] + b);
      assert HighlightValues(a) == h + HighlightValues(a[1..]);
      AppendAssoc(h, HighlightValues(a[1..]), HighlightValues(b));
    } else {
      assert a + b == b;
    }
  }

  lemma AppendAssoc<T>(x: seq<T>, y: seq<T>, z: seq<T>)
    ensures x + (y + z) == (x + y) + z
  {
  }

  /** `highlightText`: the backend's highlight strings wrapped, one pass per
      string; nothing happens without a highlights object. */
  function FieldPass(text: string, highlights: Option<seq<HighlightEntry>>): string
  {
    if highlights.None? then text
    else ApplyAll(text, HighlightValues(highlights.value), false, HighlightOpen, HighlightClose)
  }

  /** The field pass changes nothing without a highlights object, nor when
      none of its values is an array. */
  lemma FieldPassWithoutArrays(text: string, entries: seq<HighlightEntry>)
    requires forall k :: 0 <= k < |entries| ==> !entries[k].value.Arr?
    ensures FieldPass(text, None) == text
    ensures FieldPass(text, Some(entries)) == text
  {
    NoHighlightValues(entries);
  }

  lemma {:induction false} NoHighlightValues(entries: seq<HighlightEntry>)
    requires forall k :: 0 <= k < |entries| ==> !entries[k].value.Arr?
    ensures HighlightValues(entries) == []
  {
    if entries != [] {
      assert forall k :: 0 <= k < |entries[1..]| ==> entries[1..][k] == entries[k + 1];
      NoHighlightValues(entries[1..]);
    }
  }

  /** The word split of the query, cut at every white-space character: the
      pieces are the maximal runs without white space, in input order
      (`SplitWsRejoins`, `RejoinSplits`). `split(/\s+/)` cuts at runs of
      white space instead, so it yields the same pieces without the empty
      ones between two adjacent white-space characters; the terms keep only
      pieces longer than two characters, and dropping an empty piece does
      not change them (`LongTermsSkipEmpty`). */
  function SplitWs(s: string): (r: seq<string>)
    ensures |r| >= 1
    ensures forall k, j :: 0 <= k < |r| && 0 <= j < |r[k]| ==> !IsSpace(r[k][j]) && r[k][j] in s
  {
    if s == [] then [[]]
    else
      var rest := SplitWs(s[1..]);
      if IsSpace(s[0]) then [[]] + rest
      else [[s[0]] + rest[0]] + rest[1..]
  }

  /** The white-space characters of `s`, in order. */
  function Spaces(s: string): (r: string)
    ensures forall k :: 0 <= k < |r| ==> IsSpace(r[k])
  {
    if s == [] then [] else (if IsSpace(s[0]) then [s[0]] else []) + Spaces(s[1..])
  }

  /** Pieces glued together with one separator character between each two. */
  function JoinAt(ps: seq<string>, seps: string): string
    requires |ps| == |seps| + 1
    decreases |seps|
  {
    if seps == [] then ps[0] else ps[0] + [seps[0]] + JoinAt(ps[1..], seps[1..])
  }

  lemma JoinAtCons(c: char, ps: seq<string>, seps: string)
    requires |ps| == |seps| + 1
    ensures JoinAt([[c] + ps[0]] + ps[1..], seps) == [c] + JoinAt(ps, seps)
  {
    var qs := [[c] + ps[0]] + ps[1..];
    assert qs[0] == [c] + ps[0] && qs[1..] == ps[1..];
    if seps != [] {
      var j := JoinAt(ps[1..], seps[1..]);
      assert JoinAt(qs, seps) == ([c] + ps[0]) + [seps[0]] + j;
      assert JoinAt(ps, seps) == ps[0] + [seps[0]] + j;
      Assoc3([c], ps[0], [seps[0]], j);
    }
  }

  lemma Assoc3<T>(w: seq<T>, x: seq<T>, y: seq<T>, z: seq<T>)
    ensures (w + x) + y + z == w + (x + y + z)
  {
  }

  /** Gluing the pieces back with the white space they were cut at gives
      the input again. */
  lemma {:induction false} SplitWsRejoins(s: string)
    ensures |SplitWs(s)| == |Spaces(s)| + 1 && JoinAt(SplitWs(s), Spaces(s)) == s
  {
    if s != [] {
      SplitWsRejoins(s[1..]);
      var rest, sp := SplitWs(s[1..]), Spaces(s[1..]);
      if IsSpace(s[0]) {
        var ps, seps := [[]] + rest, [s[0]] + sp;
        assert ps[1..] == rest && seps[1..] == sp;
        assert JoinAt(ps, seps) == [] + [s[0]] + JoinAt(rest, sp);
        assert s == [s[0]] + s[1..];
      } else {
        assert Spaces(s) == sp;
        JoinAtCons(s[0], rest, sp);
        assert s == [s[0]] + s[1..];
      }
    }
  }

  /** A leading run without white space joins the first piece. */
  lemma {:induction false} SplitWsWord(w: string, x: string)
    requires forall j :: 0 <= j < |w| ==> !IsSpace(w[j])
    ensures SplitWs(w + x) == [w + SplitWs(x)[0]] + SplitWs(x)[1..]
  {
    var sx := SplitWs(x);
    if w == [] {
      assert w + x == x && w + sx[0] == sx[0];
    } else {
      var wx := w + x;
      assert wx[0] == w[0] && wx[1..] == w[1..] + x;
      SplitWsWord(w[1..], x);
      AppendAssoc([w[0]], w[1..], sx[0]);
      assert [w[0]] + w[1..] == w;
    }
  }

  /** Pieces without white space, glued with white-space characters, split
      back into exactly those pieces. */
  lemma {:induction false} RejoinSplits(ps: seq<string>, seps: string)
    requires |ps| == |seps| + 1
    requires forall k, j :: 0 <= k < |ps| && 0 <= j < |ps[k]| ==> !IsSpace(ps[k][j])
    requires forall k :: 0 <= k < |seps| ==> IsSpace(seps[k])
    ensures SplitWs(JoinAt(ps, seps)) == ps
    decreases |seps|
  {
    if seps == [] {
      SplitWsWord(ps[0], []);
      assert ps[0] + [] == ps[0];
      assert ps == [ps[0]];
    } else {
      var rest := JoinAt(ps[1..], seps[1..]);
      var x := [seps[0]] + rest;
      assert JoinAt(ps, seps) == ps[0] + x;
      RejoinSplits(ps[1..], seps[1..]);
      assert x[0] == seps[0] && x[1..] == rest;
      assert SplitWs(x) == [[]] + ps[1..];
      SplitWsWord(ps[0], x);
      assert ps[0] + [] == ps[0];
      assert ps == [ps[0]] + ps[1..];
    }
  }

  function Concat(ws: seq<string>): string
  {
    if ws == [] then [] else ws[0] + Concat(ws[1..])
  }

  function NonSpace(s: string): string
  {
    if s == [] then [] else (if IsSpace(s[0]) then [] else [s[0]]) + NonSpace(s[1..])
  }

  /** Splitting drops the white space and nothing else. */
  lemma {:induction false} SplitWsKeepsText(s: string)
    ensures Concat(SplitWs(s)) == NonSpace(s)
  {
    if s != [] {
      SplitWsKeepsText(s[1..]);
      var rest := SplitWs(s[1..]);
      if !IsSpace(s[0]) {
        var r := [[s[0]] + rest[0]] + rest[1..];
        assert r[1..] == rest[1..];
        assert Concat(rest) == rest[0] + Concat(rest[1..]);
      } else {
        assert ([[]] + rest)[1..] == rest;
      }
    }
  }

  /** `filter(term => term.length > 2)`. */
  function LongTerms(ws: seq<string>): (r: seq<string>)
    ensures |r| <= |ws|
  {
    if ws == [] then []
    else (if |ws[0]| > 2 then [ws[0]] else []) + LongTerms(ws[1..])
  }

  /** The filter keeps exactly the pieces longer than two characters. */
  lemma {:induction false} LongTermsMembers(ws: seq<string>)
    ensures var r := LongTerms(ws);
      && (forall k :: 0 <= k < |r| ==> |r[k]| > 2 && r[k] in ws)
      && (forall w :: w in ws && |w| > 2 ==> w in r)
      && ((forall w :: w in ws ==> |w| <= 2) ==> r == [])
  {
    if ws != [] {
      LongTermsMembers(ws[1..]);
      assert forall w :: w in ws ==> w == ws[0] || w in ws[1..];
    }
  }

  /** The filter works piece by piece, keeping order and repeats. */
  lemma {:induction false} LongTermsConcat(a: seq<string>, b: seq<string>)
    ensures LongTerms(a + b) == LongTerms(a) + LongTerms(b)
  {
    if a != [] {
      var ab := a + b;
      assert ab[0] == a[0] && ab[1..] == a[1..] + b;
      LongTermsConcat(a[1..], b);
      var h := if |a[0]| > 2 then [a[0]] else [];
      assert LongTerms(ab) == h + LongTerms(a[1..] + b);
      assert LongTerms(a) == h + LongTerms(a[1..]);
      AppendAssoc(h, LongTerms(a[1..]), LongTerms(b));
    } else {
      assert a + b == b;
    }
  }

  /** One piece is kept exactly when it is longer than two characters. */
  lemma LongTermsSingle(w: string)
    ensures LongTerms([w]) == if |w| > 2 then [w] else []
  {
    assert [w][1..] == [];
  }

  /** An empty piece contributes no term. */
  lemma LongTermsSkipEmpty(a: seq<string>, b: seq<string>)
    ensures LongTerms(a + [[]] + b) == LongTerms(a + b)
  {
    LongTermsConcat(a + [[]], b);
    LongTermsConcat(a, [[]]);
    LongTermsSingle([]);
    LongTermsConcat(a, b);
    assert LongTerms(a) + [] == LongTerms(a);
  }

  /** The terms of the query-term pass: lower-cased, without white space,
      longer than two characters, each a word of the query, and every such
      word of the query. */
  function SearchTerms(query: string): (r: seq<string>)
    ensures forall k :: 0 <= k < |r| ==> |r[k]| > 2 && Lower(r[k]) == r[k]
    ensures forall k :: 0 <= k < |r| ==> r[k] in SplitWs(Lower(query))
    ensures forall k, j :: 0 <= k < |r| && 0 <= j < |r[k]| ==> !IsSpace(r[k][j])
    ensures forall w :: w in SplitWs(Lower(query)) && |w| > 2 ==> w in r
    ensures (forall w :: w in SplitWs(Lower(query)) ==> |w| <= 2) ==> r == []
  {
    var q := Lower(query);
    var ws := SplitWs(q);
    var r := LongTerms(ws);
    LongTermsMembers(ws);
    forall k | 0 <= k < |r|
      ensures Lower(r[k]) == r[k]
    {
      var w := r[k];
      forall j | 0 <= j < |w|
        ensures LowerChar(w[j]) == w[j]
      {
        var m :| 0 <= m < |ws| && ws[m] == w;
        assert w[j] in q;
      }
    }
    r
  }

  /** For a query that lower-cases to words glued with white space, the
      terms are the words longer than two characters, in query order and
      with their repeats. */
  lemma SearchTermsOfWords(query: string, ws: seq<string>, seps: string)
    requires |ws| == |seps| + 1 && Lower(query) == JoinAt(ws, seps)
    requires forall k, j :: 0 <= k < |ws| && 0 <= j < |ws[k]| ==> !IsSpace(ws[k][j])
    requires forall k :: 0 <= k < |seps| ==> IsSpace(seps[k])
    ensures SearchTerms(query) == LongTerms(ws)
  {
    RejoinSplits(ws, seps);
  }

  /** `highlightSearchTerms`: no query, no change; otherwise each term's
      whole-word occurrences are wrapped, one pass per term. */
  function TermPass(text: string, query: Option<string>): string
  {
    if !Truthy(query) then text
    else ApplyAll(text, SearchTerms(query.value), true, TermOpen, TermClose)
  }

  /** A query without any word longer than two characters changes nothing. */
  lemma TermPassWithoutTerms(text: string, query: Option<string>)
    requires Truthy(query) ==> forall w :: w in SplitWs(Lower(query.value)) ==> |w| <= 2
    ensures TermPass(text, query) == text
  {
  }

  // ---------------------------------------------------------------------
  // getDocumentName
  // ---------------------------------------------------------------------

  /** `url.split('/')` and its last element: the text after the last `/`. */
  function LastSegment(url: string): (r: string)
    ensures |r| <= |url| && url[|url| - |r|..] == r
    ensures forall i :: 0 <= i < |r| ==> r[i] != '/'
    ensures |r| < |url| ==> url[|url| - |r| - 1] == '/'
  {
    if url == [] then []
    else if url[|url| - 1] == '/' then []
    else
      var init, c := url[..|url| - 1], url[|url| - 1];
      var seg := LastSegment(init);
      assert url == init + [c];
      SuffixSnoc(init, seg, c);
      seg + [c]
  }

  lemma SuffixSnoc(init: string, seg: string, c: char)
    requires |seg| <= |init| && init[|init| - |seg|..] == seg
    ensures (init + [c])[|init| - |seg|..] == seg + [c]
    ensures |seg| < |init| ==> (init + [c])[|init| - |seg| - 1] == init[|init| - |seg| - 1]
  {
    assert forall i :: 0 <= i < |seg| ==> (init + [c])[|init| - |seg| + i] == seg[i];
  }

  const UnknownDocument: string := "Unknown Document"
  const DocumentFallback: string := "Document"

  /** `getDocumentName`: never empty; no URL gives "Unknown Document"; a
      segment that needs no decoding is shown as it is. */
  function DocumentName(url: string): (r: string)
    ensures r != ""
    ensures url == "" || url == "#" ==> r == UnknownDocument
    ensures url != "" && url != "#" && LastSegment(url) != "" && '%' !in LastSegment(url) ==> r == LastSegment(url)
  {
    if url == "" || url == "#" then UnknownDocument
    else
      var filename := LastSegment(url);
      assert '%' !in filename ==> Uri.Decode(filename) == Some(filename) by {
        if '%' !in filename {
          Uri.DecodeWithoutPercent(filename);
        }
      }
      match Uri.Decode(filename)
      case Some(decoded) => if decoded == "" then DocumentFallback else decoded
      case None => if filename == "" then DocumentFallback else filename
  }

  /** The last segment is everything after the last slash. */
  lemma {:induction false} LastSegmentAfterSlash(pre: string, seg: string)
    requires '/' !in seg
    ensures LastSegment(pre + "/" + seg) == seg
  {
    var url := pre + "/" + seg;
    if seg != [] {
      var init := seg[..|seg| - 1];
      assert '/' !in init;
      LastSegmentAfterSlash(pre, init);
      assert url[..|url| - 1] == pre + "/" + init;
      assert url[|url| - 1] == seg[|seg| - 1];
      assert init + [seg[|seg| - 1]] == seg;
    }
  }

  /** The name is cut at the last literal slash before it is decoded, so an
      encoded slash (`%2F`) in the last segment comes out as a slash of the
      shown name: `.../a%2Fb` is shown as `a/b`, not as `b`. */
  lemma EncodedSlashStaysInName(pre: string, a: string, b: string)
    requires '/' !in a && '%' !in a && '/' !in b && '%' !in b
    ensures DocumentName(pre + "/" + (a + "%2F" + b)) == a + "/" + b
  {
    var seg := a + "%2F" + b;
    assert '/' !in seg by {
      assert forall i :: 0 <= i < |seg| ==> seg[i] == (if i < |a| then a[i] else if i < |a| + 3 then "%2F"[i - |a|] else b[i - |a| - 3]);
    }
    LastSegmentAfterSlash(pre, seg);
    Uri.EscapedSlash(b);
    assert seg == a + ("%2F" + b);
    Uri.DecodePlainPrefix(a, "%2F" + b);
    assert a + ("/" + b) == a + "/" + b;
    var url := pre + "/" + seg;
    assert url[|pre|] == '/';
    assert url != "" && url != "#";
  }

  /** A url that ends with a slash has an empty last segment, which is
      shown as `Document`. */
  lemma DocumentNameOfFolder(url: string)
    requires url != "" && url != "#" && url[|url| - 1] == '/'
    ensures DocumentName(url) == DocumentFallback
  {
    assert LastSegment(url) == [];
  }

  /** Otherwise a last segment that decodes is shown decoded. */
  lemma DocumentNameDecoded(url: string)
    requires url != "" && url != "#" && url[|url| - 1] != '/'
    requires Uri.Decode(LastSegment(url)).Some?
    ensures DocumentName(url) == Uri.Decode(LastSegment(url)).value
  {
    assert LastSegment(url) != [];
  }

  /** A last segment with a `%` not followed by two hexadecimal digits makes
      `decodeURIComponent` throw, and is shown as it is. */
  lemma DocumentNameShowsRawSegment(url: string, i: nat)
    requires url != "" && url != "#" && Uri.BadEscapeAt(LastSegment(url), i)
    ensures DocumentName(url) == LastSegment(url)
  {
    Uri.MalformedEscapeFails(LastSegment(url), i);
  }
}
