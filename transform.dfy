/**
  The content transform of a rendered search match (src/main.ts:473-526):
  the matched text is cut out of its note, its indentation is removed, a
  code block is escaped, the matched words are highlighted, and fences and
  frontmatter markers are escaped so that the rendered result cannot start an
  embedded query of its own. Also `escapeRegExp` (src/main.ts:749-751).

  Every regular expression of the code is literal text once the word is
  escaped; each is modelled by a left-to-right scanner with the matching rule
  of that expression.
 */
module Transform {
  import opened Text
  import Views

  // ---------------------------------------------------------------------------
  // Indentation

  /** `content.match(/^\s+/g)?.first()`: the whitespace the content opens with (empty when none). */
  function LeadingWhitespace(content: string): (w: string)
    ensures StartsWith(content, w) && forall i :: 0 <= i < |w| ==> IsWhitespace(w[i])
    ensures |w| < |content| ==> !IsWhitespace(content[|w|])
  {
    content[..WhitespaceRun(content)]
  }

  /**
    `t.replace(new RegExp("^" + w, "gm"), "")`: every occurrence of `w` that
    starts a line is removed, scanning left to right. After a removal the scan
    is at a line start exactly when `w` ends with a line terminator.
   */
  function StripLinePrefix(t: string, w: string, bol: bool): string
    requires w != []
    decreases |t|
  {
    if t == [] then []
    else if bol && StartsWith(t, w) then StripLinePrefix(t[|w|..], w, IsLineTerminator(w[|w| - 1]))
    else [t[0]] + StripLinePrefix(t[1..], w, IsLineTerminator(t[0]))
  }

  /** The removal applied to a single line. */
  function DropPrefix(w: string): string -> string {
    line => if StartsWith(line, w) then line[|w|..] else line
  }

  /**
    The text before the end of the first line is copied through, unless the
    scan sits at a line start where the indentation occurs.
   */
  lemma StripCopiesLine(t: string, w: string, k: nat, bol: bool)
    requires w != [] && k <= LineEnd(t) && (bol ==> !StartsWith(t, w))
    ensures StripLinePrefix(t, w, bol) == t[..k] + StripLinePrefix(t[k..], w, bol && k == 0)
  {
    if k > 0 {
      assert StripLinePrefix(t, w, bol) == [t[0]] + StripLinePrefix(t[1..], w, false) by {
        assert !IsLineTerminator(t[0]);
      }
      StripCopiesRun(t, w, k);
    }
  }

  /** Inside a line, away from its start, the removal copies every character up to `k`. */
  lemma {:induction false} StripCopiesRun(t: string, w: string, k: nat)
    requires w != [] && 0 < k <= LineEnd(t)
    ensures [t[0]] + StripLinePrefix(t[1..], w, false) == t[..k] + StripLinePrefix(t[k..], w, false)
    decreases k
  {
    var u := t[1..];
    if k > 1 {
      StripInsideLine(u, w);
      StripCopiesRun(u, w, k - 1);
      SliceOfSuffix(t, 1, k - 1);
      ConsPrefix(t, k);
      AppendAssoc([t[0]], u[..k - 1], StripLinePrefix(t[k..], w, false));
    } else {
      assert t[..k] == [t[0]] && t[k..] == u;
    }
  }

  /** Away from a line start, a character that does not end the line is copied. */
  lemma StripInsideLine(t: string, w: string)
    requires w != [] && t != [] && !IsLineTerminator(t[0])
    ensures StripLinePrefix(t, w, false) == [t[0]] + StripLinePrefix(t[1..], w, false)
  {
  }

  /** The first line when it opens with the indentation: the indentation goes, the rest of the line stays. */
  lemma StripFirstLineHit(s: string, w: string, e: nat)
    requires w != [] && e == LineEnd(s) && |w| <= e && StartsWith(s, w)
    ensures StripLinePrefix(s, w, true) == s[|w|..e] + StripLinePrefix(s[e..], w, false)
  {
    var t := s[|w|..];
    var k := e - |w|;
    assert StripLinePrefix(s, w, true) == StripLinePrefix(t, w, false) by {
      assert !IsLineTerminator(w[|w| - 1]) by { assert w[|w| - 1] == s[|w| - 1]; }
    }
    assert StripLinePrefix(t, w, false) == t[..k] + StripLinePrefix(t[k..], w, false) by {
      LineEndSuffix(s, |w|);
      StripCopiesLine(t, w, k, false);
    }
    assert t[..k] == s[|w|..e] && t[k..] == s[e..];
  }

  lemma StripFirstLine(s: string, w: string)
    requires w != [] && SingleLine(w)
    ensures StripLinePrefix(s, w, true) == DropPrefix(w)(s[..LineEnd(s)]) + StripLinePrefix(s[LineEnd(s)..], w, false)
  {
    var e := LineEnd(s);
    PrefixWithinLine(s, w);
    if StartsWith(s, w) {
      assert |w| <= e;
      StripFirstLineHit(s, w, e);
      assert DropPrefix(w)(s[..e]) == s[..e][|w|..] == s[|w|..e];
    } else {
      StripCopiesLine(s, w, e, true);
      assert DropPrefix(w)(s[..e]) == s[..e];
    }
  }

  /** For an indentation without line ends, the removal works line by line. */
  lemma {:induction false} StripLinePrefixByLine(s: string, w: string)
    requires w != [] && SingleLine(w)
    ensures StripLinePrefix(s, w, true) == MapLines(s, DropPrefix(w))
    decreases |s|
  {
    var e := LineEnd(s);
    var first := DropPrefix(w)(s[..e]);
    StripFirstLine(s, w);
    if e < |s| {
      var next := s[e + 1..];
      assert StripLinePrefix(s[e..], w, false) == [s[e]] + StripLinePrefix(next, w, true) by {
        assert s[e..][0] == s[e] && s[e..][1..] == next;
      }
      StripLinePrefixByLine(next, w);
      MapLinesNext(s, DropPrefix(w), e);
    } else {
      assert s[..e] == s && s[e..] == [];
    }
  }

  /** The content after the indentation step, and the count of whitespace removed from its start. */
  function Unindent(content: string): (string, nat) {
    var w := LeadingWhitespace(content);
    if w == [] then (content, 0) else (StripLinePrefix(content, w, true), |w|)
  }

  /** A fence at a place where the indentation does not start is copied through. */
  lemma StripKeepsFence(t: string, w: string, bol: bool)
    requires w != [] && StartsWith(t, "```") && (bol ==> !StartsWith(t, w))
    ensures StartsWith(StripLinePrefix(t, w, bol), "```")
  {
    var t1 := t[1..];
    var t2 := t1[1..];
    assert StripLinePrefix(t, w, bol) == [t[0]] + StripLinePrefix(t1, w, false);
    assert StripLinePrefix(t1, w, false) == [t1[0]] + StripLinePrefix(t2, w, false);
    assert StripLinePrefix(t2, w, false) == [t2[0]] + StripLinePrefix(t2[1..], w, false);
  }

  /** Content whose first non-whitespace text is a fence still starts with a fence once unindented. */
  lemma UnindentStart(content: string)
    requires StartsWith(TrimStart(content), "```")
    ensures StartsWith(Unindent(content).0, "```")
  {
    var w := LeadingWhitespace(content);
    var rest := content[|w|..];
    if w != [] {
      assert rest[0] == '`' && IsWhitespace(w[0]);
      StripKeepsFence(rest, w, IsLineTerminator(w[|w| - 1]));
    }
  }

  // ---------------------------------------------------------------------------
  // Code blocks

  /** A character that the code-block escaping prefixes with a backslash (`/(\*|\`|\_|\$)/g`). */
  predicate IsMarkdownChar(c: char) {
    c == '*' || c == '`' || c == '_' || c == '$'
  }

  function EscapeMarkdownChars(s: string): (r: string)
    ensures |r| >= |s|
    decreases |s|
  {
    if s == [] then []
    else (if IsMarkdownChar(s[0]) then ['\\', s[0]] else [s[0]]) + EscapeMarkdownChars(s[1..])
  }

  /** The escaping applied to content that opens a code block. */
  function EscapeCodeBlock(s: string): string {
    if JsSubstring(s, 0, 3) == "```" then
      var s1 := ReplaceAll(s, "===", "\\=\\=\\=");
      var s2 := ReplaceAll(s1, "==", "\\=\\=");
      var s3 := EscapeMarkdownChars(s2);
      ReplaceAll(s3, "    ", "&nbsp;&nbsp;&nbsp;&nbsp;")
    else s
  }

  /** `substring(0, 3) === "```"` is the test that the content starts with a fence. */
  lemma CodeBlockTest(s: string)
    ensures JsSubstring(s, 0, 3) == "```" <==> StartsWith(s, "```")
  {
    if |s| < 3 {
      assert |JsSubstring(s, 0, 3)| < 3;
    }
  }

  /** Content that does not open a code block is left as it is. */
  lemma NoFenceNoEscape(s: string)
    requires !StartsWith(s, "```")
    ensures EscapeCodeBlock(s) == s
  {
    CodeBlockTest(s);
  }

  /** No two backticks in a row. */
  predicate NoDoubleTick(s: string) {
    forall i :: 0 <= i < |s| - 1 ==> !(s[i] == '`' && s[i + 1] == '`')
  }

  /** Every backtick of the escaped text is preceded by a backslash, so no two are adjacent. */
  lemma {:induction false} EscapeMarkdownNoDoubleTick(s: string)
    ensures NoDoubleTick(EscapeMarkdownChars(s))
    ensures EscapeMarkdownChars(s) != [] ==> EscapeMarkdownChars(s)[0] != '`'
    decreases |s|
  {
    if s != [] {
      EscapeMarkdownNoDoubleTick(s[1..]);
      var head := if IsMarkdownChar(s[0]) then ['\\', s[0]] else [s[0]];
      var tail := EscapeMarkdownChars(s[1..]);
      var r := head + tail;
      forall i | 0 <= i < |r| - 1
        ensures !(r[i] == '`' && r[i + 1] == '`')
      {
        if i >= |head| {
          assert r[i] == tail[i - |head|] && r[i + 1] == tail[i + 1 - |head|];
        }
      }
    }
  }

  /**
    Replacing a text by one without backticks at its ends keeps "no two
    backticks in a row", provided the replacement has none either (or the
    pattern never matches).
   */
  lemma {:induction false} ReplaceAllNoDoubleTick(s: string, p: string, r: string)
    requires NoDoubleTick(s) && NoDoubleTick(r) && r != [] && r[0] != '`' && r[|r| - 1] != '`'
    ensures NoDoubleTick(ReplaceAll(s, p, r))
    decreases |s|
  {
    var t := ReplaceAll(s, p, r);
    if p == [] {
      if s != [] {
        var tail := ReplaceAll(s[1..], p, r);
        NoDoubleTickTail(s);
        ReplaceAllNoDoubleTick(s[1..], p, r);
        assert tail != [] && tail[0] == r[0];
        NoDoubleTickJoin(r + [s[0]], tail);
        NoDoubleTickJoin(r, [s[0]]);
      }
    } else if s != [] {
      if StartsWith(s, p) {
        NoDoubleTickSuffix(s, |p|);
        ReplaceAllNoDoubleTick(s[|p|..], p, r);
        NoDoubleTickJoin(r, ReplaceAll(s[|p|..], p, r));
      } else {
        var tail := ReplaceAll(s[1..], p, r);
        NoDoubleTickTail(s);
        ReplaceAllNoDoubleTick(s[1..], p, r);
        if |s| > 1 {
          assert s[1..][0] == s[1];
        }
        NoDoubleTickJoin([s[0]], tail);
      }
    }
  }

  lemma NoDoubleTickTail(s: string)
    requires NoDoubleTick(s) && s != []
    ensures NoDoubleTick(s[1..])
  {
    forall i | 0 <= i < |s[1..]| - 1
      ensures !(s[1..][i] == '`' && s[1..][i + 1] == '`')
    {
      assert s[1..][i] == s[i + 1] && s[1..][i + 1] == s[i + 2];
    }
  }

  lemma NoDoubleTickSuffix(s: string, k: nat)
    requires NoDoubleTick(s) && k <= |s|
    ensures NoDoubleTick(s[k..])
  {
    forall i | 0 <= i < |s[k..]| - 1
      ensures !(s[k..][i] == '`' && s[k..][i + 1] == '`')
    {
      assert s[k..][i] == s[k + i] && s[k..][i + 1] == s[k + i + 1];
    }
  }

  lemma NoDoubleTickSlice(s: string, a: nat, b: nat)
    requires NoDoubleTick(s) && a <= b <= |s|
    ensures NoDoubleTick(s[a..b])
  {
    forall i | 0 <= i < |s[a..b]| - 1
      ensures !(s[a..b][i] == '`' && s[a..b][i + 1] == '`')
    {
      assert s[a..b][i] == s[a + i] && s[a..b][i + 1] == s[a + i + 1];
    }
  }

  lemma NoDoubleTickJoin(a: string, b: string)
    requires NoDoubleTick(a) && NoDoubleTick(b)
    requires a == [] || b == [] || a[|a| - 1] != '`' || b[0] != '`'
    ensures NoDoubleTick(a + b)
  {
    var r := a + b;
    forall i | 0 <= i < |r| - 1
      ensures !(r[i] == '`' && r[i + 1] == '`')
    {
      if i + 1 < |a| {
        assert r[i] == a[i] && r[i + 1] == a[i + 1];
      } else if i >= |a| {
        assert r[i] == b[i - |a|] && r[i + 1] == b[i + 1 - |a|];
      }
    }
  }

  /** Text without two backticks in a row holds no fence. */
  lemma {:induction false} NoDoubleTickNoFence(s: string, p: string)
    requires NoDoubleTick(s) && |p| >= 2 && p[0] == '`' && p[1] == '`'
    ensures !Contains(s, p)
    decreases |s|
  {
    assert |s| < |p| || s[..|p|][0] != p[0] || s[..|p|][1] != p[1];
    if s != [] {
      NoDoubleTickTail(s);
      NoDoubleTickNoFence(s[1..], p);
    }
  }

  /** After the code-block escaping of fenced content no two backticks are adjacent. */
  lemma EscapeCodeBlockNoDoubleTick(s: string)
    requires StartsWith(s, "```")
    ensures NoDoubleTick(EscapeCodeBlock(s))
  {
    CodeBlockTest(s);
    var s1 := ReplaceAll(s, "===", "\\=\\=\\=");
    var s2 := ReplaceAll(s1, "==", "\\=\\=");
    var s3 := EscapeMarkdownChars(s2);
    EscapeMarkdownNoDoubleTick(s2);
    ReplaceAllNoDoubleTick(s3, "    ", "&nbsp;&nbsp;&nbsp;&nbsp;");
  }

  // ---------------------------------------------------------------------------
  // escapeRegExp

  /** The characters `escapeRegExp` prefixes with a backslash. */
  predicate IsRegExpMeta(c: char) {
    || c == '-' || c == '[' || c == ']' || c == '{' || c == '}' || c == '(' || c == ')'
    || c == '*' || c == '+' || c == '?' || c == '.' || c == ',' || c == '\\' || c == '^'
    || c == '$' || c == '|' || c == '#'
  }

  /** `text.replace(/[\-\[\]\{\}\(\)\*\+\?\.\,\\\^\$\|\#]/g, '\\$&')`. */
  function EscapeRegExp(text: string): (r: string)
    ensures |r| >= |text|
    decreases |text|
  {
    if text == [] then []
    else (if IsRegExpMeta(text[0]) then ['\\', text[0]] else [text[0]]) + EscapeRegExp(text[1..])
  }

  /** Reading a regular expression source back as literal text: a backslash takes the next character. */
  function Unescape(t: string): string
    decreases |t|
  {
    if t == [] then []
    else if t[0] == '\\' && |t| >= 2 then [t[1]] + Unescape(t[2..])
    else [t[0]] + Unescape(t[1..])
  }

  /** The escaped pattern stands for exactly the original text. */
  lemma {:induction false} EscapeRegExpRoundTrip(text: string)
    ensures Unescape(EscapeRegExp(text)) == text
    decreases |text|
  {
    if text != [] {
      EscapeRegExpRoundTrip(text[1..]);
      var head := if IsRegExpMeta(text[0]) then ['\\', text[0]] else [text[0]];
      var t := head + EscapeRegExp(text[1..]);
      if IsRegExpMeta(text[0]) {
        assert t[2..] == EscapeRegExp(text[1..]);
      } else {
        assert t[1..] == EscapeRegExp(text[1..]);
      }
    }
  }

  /**
    Read as a regular expression, `t` has no metacharacter of its own: every
    backslash escapes a metacharacter right after it, and every other
    character is not a metacharacter.
   */
  predicate AllLiteral(t: string)
    decreases |t|
  {
    if t == [] then true
    else if t[0] == '\\' then |t| >= 2 && IsRegExpMeta(t[1]) && AllLiteral(t[2..])
    else !IsRegExpMeta(t[0]) && AllLiteral(t[1..])
  }

  lemma {:induction false} EscapeRegExpAllLiteral(text: string)
    ensures AllLiteral(EscapeRegExp(text))
    decreases |text|
  {
    if text != [] {
      EscapeRegExpAllLiteral(text[1..]);
      var t := EscapeRegExp(text);
      if IsRegExpMeta(text[0]) {
        assert t[2..] == EscapeRegExp(text[1..]);
      } else {
        assert t[1..] == EscapeRegExp(text[1..]);
      }
    }
  }

  /** A single character: a metacharacter gets a backslash, any other character is left as it is. */
  lemma EscapeRegExpChar(c: char)
    ensures EscapeRegExp([c]) == if IsRegExpMeta(c) then ['\\', c] else [c]
  {
  }

  /** The escape works character by character: the escape of a concatenation is the concatenation of the escapes. */
  lemma {:induction false} EscapeRegExpAppend(a: string, b: string)
    ensures EscapeRegExp(a + b) == EscapeRegExp(a) + EscapeRegExp(b)
    decreases |a|
  {
    if a == [] {
      assert a + b == b;
    } else {
      var head := if IsRegExpMeta(a[0]) then ['\\', a[0]] else [a[0]];
      assert (a + b)[0] == a[0] && (a + b)[1..] == a[1..] + b;
      assert EscapeRegExp(a + b) == head + EscapeRegExp(a[1..] + b);
      EscapeRegExpAppend(a[1..], b);
      assert head + (EscapeRegExp(a[1..]) + EscapeRegExp(b)) == (head + EscapeRegExp(a[1..])) + EscapeRegExp(b);
    }
  }

  // ---------------------------------------------------------------------------
  // Highlight words

  /** The word a match covers: offsets are taken relative to the match start and the removed indentation. */
  function HighlightWord(content: string, m: (int, int), start: int, spaces: nat): string {
    JsSubstring(content, m.0 - start - spaces, m.1 - start - spaces)
  }

  function MatchWords(content: string, matches: seq<(int, int)>, start: int, spaces: nat): (ws: seq<string>)
    ensures |ws| == |matches|
    ensures forall i :: 0 <= i < |matches| ==> ws[i] == HighlightWord(content, matches[i], start, spaces)
  {
    seq(|matches|, i requires 0 <= i < |matches| => HighlightWord(content, matches[i], start, spaces))
  }

  /**
    On the first line of the match content (and anywhere when the content has
    no indentation), the word cut from the unindented content is the note text
    the match covers: there the offsets shifted by the match start and by the
    indentation count land on the same characters.
   */
  lemma HighlightWordOnFirstLine(parentContent: string, start: nat, end: nat, m: (int, int))
    requires start <= end <= |parentContent|
    requires var c := parentContent[start..end];
             var u := Unindent(c);
             start + u.1 <= m.0 <= m.1 <= start + (if u.1 == 0 then |c| else LineEnd(c))
    ensures var u := Unindent(parentContent[start..end]);
            HighlightWord(u.0, m, start, u.1) == parentContent[m.0..m.1]
  {
    var c := parentContent[start..end];
    var u := Unindent(c);
    var x, y := m.0 - start - u.1, m.1 - start - u.1;
    FirstLineKept(c, x, y);
    ShiftedWord(parentContent, start, end, u.0, u.1, m, x, y);
  }

  /** A word cut at offsets shifted by `start` and `spaces` from a copy of the note's characters. */
  lemma ShiftedWord(parentContent: string, start: nat, end: nat, content: string, spaces: nat, m: (int, int), x: int, y: int)
    requires start <= end <= |parentContent| && x == m.0 - start - spaces && y == m.1 - start - spaces
    requires 0 <= x <= y <= |content| && spaces + y <= end - start
    requires content[x..y] == parentContent[start..end][spaces + x..spaces + y]
    ensures HighlightWord(content, m, start, spaces) == parentContent[m.0..m.1]
  {
    SliceOfSlice(parentContent, start, end, spaces + x, spaces + y);
    HighlightWordWithin(content, m, start, spaces);
  }

  /** Offsets that fall inside the content cut out exactly the characters between them. */
  lemma HighlightWordWithin(content: string, m: (int, int), start: int, spaces: nat)
    requires 0 <= m.0 - start - spaces <= m.1 - start - spaces <= |content|
    ensures HighlightWord(content, m, start, spaces) == content[m.0 - start - spaces..m.1 - start - spaces]
  {
  }

  /** The unindented content keeps the rest of the first line, at offsets shifted by the indentation. */
  lemma FirstLineKept(c: string, x: int, y: int)
    requires var u := Unindent(c);
             0 <= x <= y && u.1 + y <= (if u.1 == 0 then |c| else LineEnd(c))
    ensures var u := Unindent(c);
            y <= |u.0| && u.0[x..y] == c[u.1 + x..u.1 + y]
  {
    var w := LeadingWhitespace(c);
    if w != [] {
      var e := LineEnd(c);
      var u := StripLinePrefix(c, w, true);
      assert u == c[|w|..e] + StripLinePrefix(c[e..], w, false) by {
        StripFirstLineHit(c, w, e);
      }
      assert u[x..y] == c[|w|..e][x..y];
      SliceOfSlice(c, |w|, e, x, y);
    }
  }

  /**
    On a later line the offsets are skewed: the indentation is removed from
    every line, but its length is subtracted once. In `" ab\n cd"` the note
    text at 5..7 is "cd", while the word cut out is "d".
   */
  lemma IndentSkewsLaterLines()
    ensures var c := " ab\n cd";
            var u := Unindent(c);
            u == ("ab\ncd", 1) && c[5..7] == "cd" && MatchWords(u.0, [(5, 7)], 0, u.1) == ["d"]
  {
    UnindentTwoLines();
    var u := Unindent(" ab\n cd");
    assert HighlightWord(u.0, (5, 7), 0, u.1) == "d";
  }

  /** The indentation step on `" ab\n cd"`: one space goes from each line. */
  lemma UnindentTwoLines()
    ensures Unindent(" ab\n cd") == ("ab\ncd", 1)
  {
    var c := " ab\n cd";
    var w := " ";
    assert LeadingWhitespace(c) == w by {
      assert WhitespaceRun(c[1..]) == 0 by { assert !IsWhitespace(c[1]); }
    }
    assert LineEnd(c) == 3 by {
      assert LineEnd(c[3..]) == 0;
      LineEndSuffix(c, 3);
    }
    var d := c[5..];
    assert StripLinePrefix(d, w, false) == d by {
      assert LineEnd(d) == 2 by { LineEndSuffix(d, 2); }
      StripCopiesLine(d, w, 2, false);
    }
    assert StripLinePrefix(c[3..], w, false) == "\n" + d by {
      assert c[3..][1..] == c[4..] && c[4..][|w|..] == d;
    }
    assert StripLinePrefix(c, w, true) == "ab\ncd" by {
      StripFirstLineHit(c, w, 3);
    }
  }


  /** The words in the order `highlightWords.push` sees them, each kept once. */
  function Dedup(ws: seq<string>): seq<string>
    decreases |ws|
  {
    if ws == [] then []
    else
      var d := Dedup(ws[..|ws| - 1]);
      if ws[|ws| - 1] in d then d else d + [ws[|ws| - 1]]
  }

  predicate Distinct(ws: seq<string>) {
    forall i, j :: 0 <= i < j < |ws| ==> ws[i] != ws[j]
  }

  /** The position of the first occurrence of `w` in `ws`. */
  function FirstIndex(ws: seq<string>, w: string): (k: nat)
    requires w in ws
    ensures k < |ws| && ws[k] == w && forall j :: 0 <= j < k ==> ws[j] != w
    decreases |ws|
  {
    if ws[0] == w then 0 else 1 + FirstIndex(ws[1..], w)
  }

  lemma FirstIndexPrefix(ws: seq<string>, n: nat, w: string)
    requires n <= |ws| && w in ws[..n]
    ensures w in ws && FirstIndex(ws, w) == FirstIndex(ws[..n], w)
  {
    var k := FirstIndex(ws[..n], w);
    assert ws[k] == w;
    assert forall j :: 0 <= j < k ==> ws[..n][j] == ws[j];
  }

  /** The kept words are distinct and are exactly the words. */
  lemma {:induction false} DedupMembers(ws: seq<string>)
    ensures Distinct(Dedup(ws))
    ensures forall w :: w in Dedup(ws) <==> w in ws
    decreases |ws|
  {
    if ws != [] {
      var init := ws[..|ws| - 1];
      DedupMembers(init);
      assert ws == init + [ws[|ws| - 1]];
    }
  }

  /** Words of a prefix keep their first index in the whole sequence. */
  lemma FirstIndexPrefixAll(ws: seq<string>, n: nat)
    requires n <= |ws|
    ensures forall w :: w in ws[..n] ==> w in ws && FirstIndex(ws, w) == FirstIndex(ws[..n], w)
  {
    forall w | w in ws[..n]
      ensures w in ws && FirstIndex(ws, w) == FirstIndex(ws[..n], w)
    {
      FirstIndexPrefix(ws, n, w);
    }
  }

  /** A word first seen last comes after every word of the prefix. */
  lemma OrderAppend(ws: seq<string>, d: seq<string>)
    requires ws != [] && ws[|ws| - 1] !in ws[..|ws| - 1]
    requires forall i :: 0 <= i < |d| ==> d[i] in ws[..|ws| - 1]
    requires forall i, j :: 0 <= i < j < |d| ==> FirstIndex(ws[..|ws| - 1], d[i]) < FirstIndex(ws[..|ws| - 1], d[j])
    ensures var r := d + [ws[|ws| - 1]];
            && (forall i :: 0 <= i < |r| ==> r[i] in ws)
            && (forall i, j :: 0 <= i < j < |r| ==> FirstIndex(ws, r[i]) < FirstIndex(ws, r[j]))
  {
    var n := |ws| - 1;
    var last := ws[n];
    var r := d + [last];
    FirstIndexPrefixAll(ws, n);
    assert FirstIndex(ws, last) == n;
    forall i | 0 <= i < |r|
      ensures r[i] in ws && (i < |d| ==> FirstIndex(ws, r[i]) < n)
    {
      if i < |d| {
        assert r[i] == d[i];
      }
    }
    forall i, j | 0 <= i < j < |r|
      ensures FirstIndex(ws, r[i]) < FirstIndex(ws, r[j])
    {
      assert r[i] == d[i];
      if j < |d| {
        assert r[j] == d[j];
      }
    }
  }

  /** The kept words are in the order of their first occurrence. */
  lemma {:induction false} DedupOrder(ws: seq<string>)
    ensures forall i :: 0 <= i < |Dedup(ws)| ==> Dedup(ws)[i] in ws
    ensures forall i, j :: 0 <= i < j < |Dedup(ws)| ==> FirstIndex(ws, Dedup(ws)[i]) < FirstIndex(ws, Dedup(ws)[j])
    decreases |ws|
  {
    if ws != [] {
      var init := ws[..|ws| - 1];
      var last := ws[|ws| - 1];
      DedupOrder(init);
      DedupMembers(init);
      if last in Dedup(init) {
        FirstIndexPrefixAll(ws, |ws| - 1);
      } else {
        OrderAppend(ws, Dedup(init));
      }
    }
  }

  /** The distinct words are exactly the words, each once, in order of first occurrence. */
  lemma DedupProperties(ws: seq<string>)
    ensures Distinct(Dedup(ws))
    ensures forall w :: w in Dedup(ws) <==> w in ws
    ensures forall i, j :: 0 <= i < j < |Dedup(ws)| ==> FirstIndex(ws, Dedup(ws)[i]) < FirstIndex(ws, Dedup(ws)[j])
  {
    DedupMembers(ws);
    DedupOrder(ws);
  }

  /** One more word either is already kept or is kept last. */
  lemma DedupStep(ws: seq<string>, i: nat)
    requires i < |ws|
    ensures Dedup(ws[..i + 1]) == if ws[i] in Dedup(ws[..i]) then Dedup(ws[..i]) else Dedup(ws[..i]) + [ws[i]]
  {
    assert ws[..i + 1][..i] == ws[..i];
  }

  /** The word-collection loop of the render wrapper. */
  method CollectWords(content: string, matches: seq<(int, int)>, start: int, spaces: nat) returns (words: seq<string>)
    ensures words == Dedup(MatchWords(content, matches, start, spaces))
  {
    ghost var all := MatchWords(content, matches, start, spaces);
    words := [];
    for i := 0 to |matches|
      invariant words == Dedup(all[..i])
    {
      var word := HighlightWord(content, matches[i], start, spaces);
      assert all[i] == word;
      DedupStep(all, i);
      if word !in words {
        words := words + [word];
      }
    }
    assert all[..|matches|] == all;
  }

  // ---------------------------------------------------------------------------
  // Highlighting

  predicate IsBracket(c: char) {
    c == '[' || c == ']'
  }

  /** Number of leading characters of `t` matched by `[^\]\[]*`. */
  function BracketFreeRun(t: string): (n: nat)
    ensures n <= |t| && forall i :: 0 <= i < n ==> !IsBracket(t[i])
    ensures n < |t| ==> IsBracket(t[n])
    decreases |t|
  {
    if t != [] && !IsBracket(t[0]) then 1 + BracketFreeRun(t[1..]) else 0
  }

  /** `w` occurs in `t` at position `j`. */
  predicate OccursAt(t: string, w: string, j: int) {
    0 <= j && j + |w| <= |t| && t[j..j + |w|] == w
  }

  /**
    Backtracking of `\[\[([^\]\[]*` E `[^\[\]]*)\]\]` at the start of `t`, where
    the first run has given back characters down to position `q`: the end of
    the captured link name when some split at or before `q` succeeds.
   */
  function LinkSplit(t: string, w: string, q: nat): (r: Option<nat>)
    requires 2 <= q <= |t|
    ensures r.Some? ==> 2 <= r.value && r.value + 2 <= |t| && t[r.value..r.value + 2] == "]]"
    decreases q
  {
    var m := q + |w|;
    if OccursAt(t, w, q) && StartsWith(t[m + BracketFreeRun(t[m..])..], "]]") then
      Some(m + BracketFreeRun(t[m..]))
    else if q == 2 then None
    else LinkSplit(t, w, q - 1)
  }

  /** Where a link match of word `w` at the start of `t` ends its captured name (None when there is no match). */
  function LinkAt(t: string, w: string): (r: Option<nat>)
    ensures r.Some? ==> StartsWith(t, "[[") && 2 <= r.value && r.value + 2 <= |t| && t[r.value..r.value + 2] == "]]"
  {
    if StartsWith(t, "[[") then LinkSplit(t, w, 2 + BracketFreeRun(t[2..])) else None
  }

  /** A link bracket pair as escaped text. */
  const EscOpen: string := "\\[\\["
  const EscClose: string := "\\]\\]"

  /** A highlighted word. */
  function Mark(w: string): string {
    "==" + w + "=="
  }

  /** The first rewrite for a word: every `[[name]]` whose name contains the word becomes `\[\[name\]\]`. */
  function EscapeLinks(t: string, w: string): (r: string)
    ensures t != [] ==> r != [] && (r[0] == t[0] || r[0] == '\\')
    decreases |t|
  {
    if t == [] then []
    else match LinkAt(t, w)
      case Some(e) => EscOpen + t[2..e] + EscClose + EscapeLinks(t[e + 2..], w)
      case None => [t[0]] + EscapeLinks(t[1..], w)
  }

  predicate BracketFree(w: string) {
    forall i :: 0 <= i < |w| ==> !IsBracket(w[i])
  }

  lemma {:induction false} RunSuffix(u: string, k: nat)
    requires k <= BracketFreeRun(u)
    ensures BracketFreeRun(u[k..]) == BracketFreeRun(u) - k
    decreases k
  {
    if k > 0 {
      RunSuffix(u[1..], k - 1);
      assert u[1..][k - 1..] == u[k..];
    }
  }

  /** An occurrence of a bracket-free word inside a link lies within the bracket-free run. */
  lemma WordWithinRun(t: string, w: string, q: nat)
    requires 2 <= |t| && BracketFree(w) && 2 <= q <= 2 + BracketFreeRun(t[2..])
    ensures OccursAt(t, w, q) ==> q + |w| <= 2 + BracketFreeRun(t[2..])
  {
    var n := 2 + BracketFreeRun(t[2..]);
    assert q + |w| <= n || q + |w| > |t| || t[q..q + |w|][n - q] == t[2..][n - 2];
  }

  /** Some occurrence of `w` starts in `[2, q]` and ends by `n`. */
  predicate WordBefore(t: string, w: string, q: nat, n: nat) {
    exists j :: 2 <= j <= q && j + |w| <= n && OccursAt(t, w, j)
  }

  lemma WordBeforeStep(t: string, w: string, q: nat, n: nat)
    requires 2 <= q
    ensures WordBefore(t, w, q, n) <==> (q + |w| <= n && OccursAt(t, w, q)) || (q > 2 && WordBefore(t, w, q - 1, n))
  {
    if WordBefore(t, w, q, n) {
      var j :| 2 <= j <= q && j + |w| <= n && OccursAt(t, w, j);
      if j < q {
        assert WordBefore(t, w, q - 1, n);
      }
    }
  }

  /** The run after an occurrence inside the bracket-free run ends where that run ends. */
  lemma RunAfterWord(t: string, w: string, q: nat)
    requires 2 <= |t| && BracketFree(w) && 2 <= q <= 2 + BracketFreeRun(t[2..])
    requires OccursAt(t, w, q)
    ensures q + |w| + BracketFreeRun(t[q + |w|..]) == 2 + BracketFreeRun(t[2..])
  {
    var m := q + |w|;
    WordWithinRun(t, w, q);
    RunSuffix(t[2..], m - 2);
    assert t[2..][m - 2..] == t[m..];
  }

  lemma LinkSplitHit(t: string, w: string, q: nat, n: nat)
    requires 2 <= q <= |t| && OccursAt(t, w, q)
    requires n <= |t| && q + |w| + BracketFreeRun(t[q + |w|..]) == n
    ensures LinkSplit(t, w, q) == if StartsWith(t[n..], "]]") then Some(n) else if q == 2 then None else LinkSplit(t, w, q - 1)
  {
  }

  lemma LinkSplitMiss(t: string, w: string, q: nat)
    requires 2 <= q <= |t| && !OccursAt(t, w, q)
    ensures LinkSplit(t, w, q) == if q == 2 then None else LinkSplit(t, w, q - 1)
  {
  }

  /** One step of the split search for a bracket-free word. */
  lemma LinkSplitStep(t: string, w: string, q: nat)
    requires 2 <= |t| && BracketFree(w) && 2 <= q <= 2 + BracketFreeRun(t[2..])
    ensures var n := 2 + BracketFreeRun(t[2..]);
            LinkSplit(t, w, q) ==
              if OccursAt(t, w, q) && StartsWith(t[n..], "]]") then Some(n)
              else if q == 2 then None
              else LinkSplit(t, w, q - 1)
  {
    if OccursAt(t, w, q) {
      RunAfterWord(t, w, q);
      LinkSplitHit(t, w, q, 2 + BracketFreeRun(t[2..]));
    } else {
      LinkSplitMiss(t, w, q);
    }
  }

  /** For a bracket-free word, the split search succeeds exactly when some occurrence of the word fits before `q`. */
  lemma {:induction false} LinkSplitBracketFree(t: string, w: string, q: nat, n: nat)
    requires 2 <= |t| && BracketFree(w) && n == 2 + BracketFreeRun(t[2..]) && 2 <= q <= n
    ensures LinkSplit(t, w, q) == if StartsWith(t[n..], "]]") && WordBefore(t, w, q, n) then Some(n) else None
    decreases q
  {
    var occ := OccursAt(t, w, q);
    assert LinkSplit(t, w, q) == if occ && StartsWith(t[n..], "]]") then Some(n) else if q == 2 then None else LinkSplit(t, w, q - 1) by {
      LinkSplitStep(t, w, q);
    }
    assert WordBefore(t, w, q, n) <==> occ || (q > 2 && WordBefore(t, w, q - 1, n)) by {
      WordBeforeStep(t, w, q, n);
      WordWithinRun(t, w, q);
    }
    if q > 2 {
      LinkSplitBracketFree(t, w, q - 1, n);
      SearchStep(LinkSplit(t, w, q), LinkSplit(t, w, q - 1), occ, StartsWith(t[n..], "]]"),
                 WordBefore(t, w, q, n), WordBefore(t, w, q - 1, n), n);
    }
  }

  /** One step back of the split search, in terms of its outcomes. */
  lemma SearchStep(r: Option<nat>, prev: Option<nat>, occ: bool, close: bool, found: bool, foundBefore: bool, n: nat)
    requires r == (if occ && close then Some(n) else prev)
    requires found == (occ || foundBefore)
    requires prev == (if close && foundBefore then Some(n) else None)
    ensures r == (if close && found then Some(n) else None)
  {
  }

  lemma SliceOfSlice(t: string, a: nat, b: nat, i: nat, j: nat)
    requires a <= b <= |t| && i <= j <= b - a
    ensures t[a..b][i..j] == t[a + i..a + j]
  {
    assert forall k :: 0 <= k < j - i ==> t[a..b][i..j][k] == t[a + i + k];
  }

  /** Occurrences of `w` in the link name, as positions of the whole text. */
  lemma ContainsInName(t: string, w: string, b: nat)
    requires 2 <= b <= |t|
    ensures Contains(t[2..b], w) <==> WordBefore(t, w, b, b)
  {
    if Contains(t[2..b], w) {
      var i := ContainsWitness(t[2..b], w);
      SliceOfSlice(t, 2, b, i, i + |w|);
      assert OccursAt(t, w, 2 + i);
    }
    if WordBefore(t, w, b, b) {
      var j :| 2 <= j <= b && j + |w| <= b && OccursAt(t, w, j);
      SliceOfSlice(t, 2, b, j - 2, j - 2 + |w|);
      ContainsAt(t[2..b], w, j - 2);
    }
  }

  /**
    For a bracket-free word the link rule reads plainly: `t` opens with `[[`,
    a bracket-free name follows that contains the word, and `]]` closes it.
   */
  lemma LinkAtBracketFree(t: string, w: string)
    requires BracketFree(w)
    ensures StartsWith(t, "[[") ==>
      var n := 2 + BracketFreeRun(t[2..]);
      LinkAt(t, w) == if StartsWith(t[n..], "]]") && Contains(t[2..n], w) then Some(n) else None
  {
    if StartsWith(t, "[[") {
      var n := 2 + BracketFreeRun(t[2..]);
      LinkSplitBracketFree(t, w, n, n);
      ContainsInName(t, w, n);
    }
  }

  /** The three rewrites for one word. */
  function HighlightOne(t: string, w: string): string {
    var t1 := EscapeLinks(t, w);
    var t2 := ReplaceAll(t1, w, Mark(w));
    ReplaceAll(t2, EscOpen + Mark(w) + EscClose, Mark("[[" + w + "]]"))
  }

  /** The rewrites for every word, in order. */
  function HighlightAll(t: string, words: seq<string>): string
    decreases |words|
  {
    if words == [] then t else HighlightAll(HighlightOne(t, words[0]), words[1..])
  }

  lemma {:induction false} NotContainsFirstChar(s: string, p: string)
    requires p != [] && forall i :: 0 <= i < |s| ==> s[i] != p[0]
    ensures !Contains(s, p)
    decreases |s|
  {
    assert |s| < |p| || s[..|p|][0] != p[0];
    if s != [] {
      NotContainsFirstChar(s[1..], p);
    }
  }

  /** A prefix in which the pattern cannot start is copied by the replacement. */
  lemma FirstDiffers(s: string, p: string)
    requires p != [] && s != [] && s[0] != p[0]
    ensures !StartsWith(s, p)
  {
    assert |s| < |p| || s[..|p|][0] != p[0];
  }

  /** A character that cannot start the pattern is copied through. */
  lemma ReplaceAllSkip(x: char, s: string, p: string, r: string)
    requires p != [] && x != p[0]
    ensures ReplaceAll([x] + s, p, r) == [x] + ReplaceAll(s, p, r)
  {
    FirstDiffers([x] + s, p);
    assert ([x] + s)[1..] == s;
  }

  /** The pattern at the front of the text is replaced and the scan goes on after it. */
  lemma ReplaceAllFront(p: string, s: string, r: string)
    requires p != []
    ensures ReplaceAll(p + s, p, r) == r + ReplaceAll(s, p, r)
  {
    assert (p + s)[..|p|] == p && (p + s)[|p|..] == s;
  }

  /** A link whose name is exactly a bracket-free word is escaped as a whole. */
  lemma EscapeWholeLink(w: string)
    requires BracketFree(w)
    ensures EscapeLinks("[[" + w + "]]", w) == EscOpen + w + EscClose
  {
    var t := "[[" + w + "]]";
    var n := 2 + |w|;
    assert t[2..] == w + "]]";
    assert forall i :: 0 <= i < |w| ==> t[2..][i] == w[i];
    BracketFreeRunAtLeast(t[2..], |w|);
    assert t[n..] == "]]" && t[2..n] == w;
    ContainsAt(t[2..n], w, 0);
    LinkAtBracketFree(t, w);
    assert t[n + 2..] == [];
  }

  /** One occurrence of the pattern between texts in which it cannot start is the only one replaced. */
  lemma ReplaceAllAroundEmpty(p: string, c: string, r: string)
    requires p != [] && forall i :: 0 <= i < |c| ==> c[i] != p[0]
    ensures ReplaceAll(p + c, p, r) == r + c
  {
    ReplaceAllFront(p, c, r);
    NotContainsFirstChar(c, p);
    ReplaceAllWithoutMatch(c, p, r);
  }

  lemma {:induction false} ReplaceAllAround(a: string, p: string, c: string, r: string)
    requires p != [] && (forall i :: 0 <= i < |a| ==> a[i] != p[0]) && (forall i :: 0 <= i < |c| ==> c[i] != p[0])
    ensures ReplaceAll(a + p + c, p, r) == a + r + c
    decreases |a|
  {
    if a == [] {
      assert a + p + c == p + c && a + r + c == r + c;
      ReplaceAllAroundEmpty(p, c, r);
    } else {
      var a1 := a[1..];
      assert a + p + c == [a[0]] + (a1 + p + c) && a + r + c == [a[0]] + (a1 + r + c);
      ReplaceAllAround(a1, p, c, r);
      ReplaceAllSkip(a[0], a1 + p + c, p, r);
    }
  }

  /** Neither escaped bracket pair holds the first character of a word without brackets or backslashes. */
  lemma EscNoWordStart(w: string)
    requires w != [] && BracketFree(w) && forall i :: 0 <= i < |w| ==> w[i] != '\\'
    ensures forall i :: 0 <= i < |EscOpen| ==> EscOpen[i] != w[0]
    ensures forall i :: 0 <= i < |EscClose| ==> EscClose[i] != w[0]
  {
    assert !IsBracket(w[0]) && w[0] != '\\';
  }

  /**
    A link whose whole name is the word ends up highlighted as a whole:
    `[[w]]` becomes `==[[w]]==`.
   */
  lemma LinkHighlight(w: string)
    requires w != [] && BracketFree(w) && forall i :: 0 <= i < |w| ==> w[i] != '\\'
    ensures HighlightOne("[[" + w + "]]", w) == Mark("[[" + w + "]]")
  {
    EscapeWholeLink(w);
    EscNoWordStart(w);
    ReplaceAllAround(EscOpen, w, EscClose, Mark(w));
    var pat := EscOpen + Mark(w) + EscClose;
    ReplaceAllFront(pat, [], Mark("[[" + w + "]]"));
    assert pat + [] == pat;
  }

  lemma {:induction false} BracketFreeRunAtLeast(u: string, k: nat)
    requires k <= |u| && forall i :: 0 <= i < k ==> !IsBracket(u[i])
    requires k == |u| || IsBracket(u[k])
    ensures BracketFreeRun(u) == k
    decreases k
  {
    if k > 0 {
      BracketFreeRunAtLeast(u[1..], k - 1);
    }
  }

  // ---------------------------------------------------------------------------
  // Highlighting keeps "no two backticks in a row"

  /** A piece of a text without double backticks has none either. */
  lemma ContainedNoDoubleTick(s: string, p: string)
    ensures NoDoubleTick(s) && Contains(s, p) ==> NoDoubleTick(p)
  {
    if NoDoubleTick(s) && Contains(s, p) {
      var i := ContainsWitness(s, p);
      NoDoubleTickSlice(s, i, i + |p|);
    }
  }

  lemma MarkNoDoubleTick(x: string)
    requires NoDoubleTick(x)
    ensures NoDoubleTick(Mark(x)) && Mark(x)[0] == '=' && Mark(x)[|Mark(x)| - 1] == '='
  {
    NoDoubleTickJoin("==", x);
    NoDoubleTickJoin("==" + x, "==");
  }

  lemma {:induction false} EscapeLinksNoDoubleTick(t: string, w: string)
    requires NoDoubleTick(t)
    ensures NoDoubleTick(EscapeLinks(t, w))
    decreases |t|
  {
    if t != [] {
      match LinkAt(t, w)
      case Some(e) =>
        NoDoubleTickSuffix(t, e + 2);
        EscapeLinksNoDoubleTick(t[e + 2..], w);
        EscapedLinkNoDoubleTick(t, w, e);
      case None =>
        NoDoubleTickTail(t);
        EscapeLinksNoDoubleTick(t[1..], w);
        CopiedCharNoDoubleTick(t, w);
    }
  }

  /** An escaped link keeps the text free of a double backtick, given that the rest of the rewrite is. */
  lemma EscapedLinkNoDoubleTick(t: string, w: string, e: nat)
    requires t != [] && LinkAt(t, w) == Some(e) && NoDoubleTick(t) && NoDoubleTick(EscapeLinks(t[e + 2..], w))
    ensures NoDoubleTick(EscapeLinks(t, w))
  {
    NoDoubleTickSlice(t, 2, e);
    NoDoubleTickJoin(EscOpen, t[2..e]);
    NoDoubleTickJoin(EscOpen + t[2..e], EscClose);
    NoDoubleTickJoin(EscOpen + t[2..e] + EscClose, EscapeLinks(t[e + 2..], w));
  }

  /** A character copied in front keeps the text free of a double backtick, given that the rest of the rewrite is. */
  lemma CopiedCharNoDoubleTick(t: string, w: string)
    requires t != [] && LinkAt(t, w).None? && NoDoubleTick(t) && NoDoubleTick(EscapeLinks(t[1..], w))
    ensures NoDoubleTick(EscapeLinks(t, w))
  {
    assert |t| == 1 || t[1..][0] == t[1];
    NoDoubleTickJoin([t[0]], EscapeLinks(t[1..], w));
  }

  /** The second rewrite: the word itself becomes `==word==`. */
  lemma MarkWordNoDoubleTick(t: string, w: string)
    requires NoDoubleTick(t)
    ensures NoDoubleTick(ReplaceAll(t, w, Mark(w)))
  {
    if w != [] && !Contains(t, w) {
      ReplaceAllWithoutMatch(t, w, Mark(w));
    } else {
      ContainedNoDoubleTick(t, w);
      assert w == [] ==> Mark(w) == "====";
      MarkNoDoubleTick(w);
      ReplaceAllNoDoubleTick(t, w, Mark(w));
    }
  }

  /** The third rewrite: an escaped highlighted link becomes a highlighted link. */
  lemma MarkLinkNoDoubleTick(t: string, w: string)
    requires NoDoubleTick(t)
    ensures NoDoubleTick(ReplaceAll(t, EscOpen + Mark(w) + EscClose, Mark("[[" + w + "]]")))
  {
    var pat := EscOpen + Mark(w) + EscClose;
    if !Contains(t, pat) {
      ReplaceAllWithoutMatch(t, pat, Mark("[[" + w + "]]"));
    } else {
      ContainedNoDoubleTick(t, pat);
      assert pat[6..6 + |w|] == w;
      NoDoubleTickSlice(pat, 6, 6 + |w|);
      NoDoubleTickJoin("[[", w);
      NoDoubleTickJoin("[[" + w, "]]");
      MarkNoDoubleTick("[[" + w + "]]");
      ReplaceAllNoDoubleTick(t, pat, Mark("[[" + w + "]]"));
    }
  }

  lemma HighlightOneNoDoubleTick(t: string, w: string)
    requires NoDoubleTick(t)
    ensures NoDoubleTick(HighlightOne(t, w))
  {
    EscapeLinksNoDoubleTick(t, w);
    MarkWordNoDoubleTick(EscapeLinks(t, w), w);
    MarkLinkNoDoubleTick(ReplaceAll(EscapeLinks(t, w), w, Mark(w)), w);
  }

  /** However the words look, highlighting never puts two backticks side by side. */
  lemma {:induction false} HighlightAllNoDoubleTick(t: string, words: seq<string>)
    requires NoDoubleTick(t)
    ensures NoDoubleTick(HighlightAll(t, words))
    decreases |words|
  {
    if words != [] {
      HighlightOneNoDoubleTick(t, words[0]);
      HighlightAllNoDoubleTick(HighlightOne(t, words[0]), words[1..]);
    }
  }

  // ---------------------------------------------------------------------------
  // Fences and frontmatter

  const Fence: string := "```"
  const EscFence: string := "\\`\\`\\`"

  /**
    `replace(/```([\s\S]*?)(```|$)/, ...)`: the first fence is escaped, and so
    is the next fence after it; without one, an escaped fence is appended.
   */
  function EscapeFirstFence(t: string): (r: string)
    ensures !Contains(t, Fence) ==> r == t
    ensures Contains(t, Fence) ==> |r| == |t| + 6 || |r| == |t| + 9
  {
    match IndexOf(t, Fence)
    case None => t
    case Some(p) => t[..p] + EscFence + CloseFence(t[p + 3..])
  }

  /**
    What follows the first fence: the lazy group runs to the next fence, which
    is escaped, or to the end of the text, where an escaped fence is added.
   */
  function CloseFence(rest: string): (r: string)
    ensures |r| == |rest| + 3 || |r| == |rest| + 6
  {
    match IndexOf(rest, Fence)
    case Some(q) => rest[..q] + EscFence + rest[q + 3..]
    case None => rest + EscFence
  }

  lemma OccursAtStartsWith(t: string, w: string, j: nat)
    requires j <= |t|
    ensures OccursAt(t, w, j) <==> StartsWith(t[j..], w)
  {
    if j + |w| <= |t| {
      assert t[j..][..|w|] == t[j..j + |w|];
    }
  }

  lemma OccursShift(t: string, w: string, a: nat, j: nat)
    requires a <= |t|
    ensures OccursAt(t[a..], w, j) <==> OccursAt(t, w, a + j)
  {
    if a + j + |w| <= |t| {
      assert t[a..][j..j + |w|] == t[a + j..a + j + |w|];
    }
  }

  /** The search finds the least position of an occurrence. */
  lemma IndexOfLeast(s: string, w: string, k: nat)
    requires OccursAt(s, w, k) && forall j :: 0 <= j < k ==> !OccursAt(s, w, j)
    ensures IndexOf(s, w) == Some(k)
  {
    OccursAtStartsWith(s, w, k);
    ContainsAt(s, w, k);
    var r := IndexOf(s, w);
    OccursAtStartsWith(s, w, r.value);
  }

  lemma IndexOfAbsent(s: string, w: string)
    requires forall j :: 0 <= j <= |s| ==> !OccursAt(s, w, j)
    ensures IndexOf(s, w) == None
  {
    if Contains(s, w) {
      var i := ContainsWitness(s, w);
      assert OccursAt(s, w, i);
    }
  }

  /**
    The regular expression's own reading: the match starts at the first fence
    `p`, and the lazy group ends at the first later fence or, failing that, at
    the end of the text. The group is kept between two escaped fences.
   */
  lemma EscapeFirstFenceMatch(t: string, p: nat, k: nat)
    requires OccursAt(t, Fence, p) && forall j :: 0 <= j < p ==> !OccursAt(t, Fence, j)
    requires p + 3 + k <= |t| && (OccursAt(t, Fence, p + 3 + k) || p + 3 + k == |t|)
    requires forall j :: p + 3 <= j < p + 3 + k ==> !OccursAt(t, Fence, j)
    ensures EscapeFirstFence(t) ==
      t[..p] + EscFence + t[p + 3..p + 3 + k] + EscFence + (if OccursAt(t, Fence, p + 3 + k) then t[p + 6 + k..] else [])
  {
    if OccursAt(t, Fence, p + 3 + k) {
      FenceAfter(t, p + 3, k);
      EscapeClosedFence(t, p, k);
    } else {
      EscapeOpenFence(t, p, k);
    }
  }

  /** The first fence with a later fence: both are escaped, the group between them kept. */
  lemma EscapeClosedFence(t: string, p: nat, k: nat)
    requires OccursAt(t, Fence, p) && forall j :: 0 <= j < p ==> !OccursAt(t, Fence, j)
    requires p + 3 + k <= |t| && IndexOf(t[p + 3..], Fence) == Some(k)
    ensures EscapeFirstFence(t) == t[..p] + EscFence + t[p + 3..p + 3 + k] + EscFence + t[p + 6 + k..]
  {
    FirstFenceAt(t, p);
    CloseFenceAt(t[p + 3..], k);
    SliceOfSuffix(t, p + 3, k);
    SliceOfSuffix(t, p + 3, k + 3);
    assert p + 3 + (k + 3) == p + 6 + k;
    EscapedGroup(t[..p], CloseFence(t[p + 3..]), t[p + 3..p + 3 + k], t[p + 6 + k..]);
  }

  lemma EscapedGroup(x: string, c: string, a: string, b: string)
    requires c == a + EscFence + b
    ensures x + EscFence + c == x + EscFence + a + EscFence + b
  {
  }

  /** The first fence with no later fence: it is escaped, the rest kept, and an escaped fence added. */
  lemma EscapeOpenFence(t: string, p: nat, k: nat)
    requires OccursAt(t, Fence, p) && forall j :: 0 <= j < p ==> !OccursAt(t, Fence, j)
    requires p + 3 + k == |t|
    requires forall j :: p + 3 <= j < p + 3 + k ==> !OccursAt(t, Fence, j)
    ensures EscapeFirstFence(t) == t[..p] + EscFence + t[p + 3..p + 3 + k] + EscFence + []
  {
    FirstFenceAt(t, p);
    OpenGroup(t, p + 3);
    assert t[p + 3..] == t[p + 3..p + 3 + k];
    AppendAssoc(t[..p] + EscFence, t[p + 3..p + 3 + k], EscFence);
    assert t[..p] + EscFence + t[p + 3..p + 3 + k] + EscFence + [] == t[..p] + EscFence + t[p + 3..p + 3 + k] + EscFence;
  }

  /** The first fence is escaped, and what follows it is `CloseFence`. */
  lemma FirstFenceAt(t: string, p: nat)
    requires OccursAt(t, Fence, p) && forall j :: 0 <= j < p ==> !OccursAt(t, Fence, j)
    ensures EscapeFirstFence(t) == t[..p] + EscFence + CloseFence(t[p + 3..])
  {
    IndexOfLeast(t, Fence, p);
  }

  /** No later fence: the group runs to the end, and an escaped fence is added. */
  lemma OpenGroup(t: string, a: nat)
    requires a <= |t| && forall j :: a <= j < |t| ==> !OccursAt(t, Fence, j)
    ensures CloseFence(t[a..]) == t[a..] + EscFence
  {
    NoFenceAfter(t, a);
  }

  /** A later fence closes the group, and is escaped. */
  lemma CloseFenceAt(rest: string, k: nat)
    requires IndexOf(rest, Fence) == Some(k)
    ensures CloseFence(rest) == rest[..k] + EscFence + rest[k + 3..]
  {
  }

  /** The first fence in `t[a..]` is the first one in `t` at or after `a`. */
  lemma FenceAfter(t: string, a: nat, k: nat)
    requires a + k <= |t| && OccursAt(t, Fence, a + k)
    requires forall j :: a <= j < a + k ==> !OccursAt(t, Fence, j)
    ensures IndexOf(t[a..], Fence) == Some(k)
  {
    OccursShiftAll(t, Fence, a, k);
    IndexOfLeast(t[a..], Fence, k);
  }

  /** No fence at or after `a` in `t`: none in `t[a..]`. */
  lemma NoFenceAfter(t: string, a: nat)
    requires a <= |t| && forall j :: a <= j < |t| ==> !OccursAt(t, Fence, j)
    ensures IndexOf(t[a..], Fence) == None
  {
    OccursShiftAll(t, Fence, a, |t| - a);
    IndexOfAbsent(t[a..], Fence);
  }

  /** `OccursShift` at every position up to `n`. */
  lemma OccursShiftAll(t: string, w: string, a: nat, n: nat)
    requires a + n <= |t|
    ensures forall j :: 0 <= j <= n ==> (OccursAt(t[a..], w, j) <==> OccursAt(t, w, a + j))
  {
    forall j | 0 <= j <= n
      ensures OccursAt(t[a..], w, j) <==> OccursAt(t, w, a + j)
    {
      OccursShift(t, w, a, j);
    }
  }

  /** `replace("```query", ...)`: only the first embedded-query fence is escaped. */
  const QueryFence: string := "```query"
  const EscQueryFence: string := "\\`\\`\\`query"

  predicate EndsWith(s: string, p: string) {
    |p| <= |s| && s[|s| - |p|..] == p
  }

  const Dashes: string := "---"
  const EscDashes: string := "\\-\\-\\-"

  /**
    `replace(/^---|---$/g, "\\-\\-\\-")`: a marker at the very start and one at
    the very end are escaped; the end marker is found only after the start
    marker's match, so in "-----" the two overlap and the end one stays.
   */
  function EscapeFrontmatter(t: string): (r: string)
    ensures !StartsWith(t, Dashes) && !EndsWith(t, Dashes) ==> r == t
  {
    if StartsWith(t, Dashes) then
      var rest := t[3..];
      EscDashes + (if |t| >= 6 && EndsWith(t, Dashes) then rest[..|rest| - 3] + EscDashes else rest)
    else if EndsWith(t, Dashes) then t[..|t| - 3] + EscDashes
    else t
  }

  /** The escaped text never opens with a marker. */
  lemma FrontmatterStart(t: string)
    ensures !StartsWith(EscapeFrontmatter(t), Dashes)
  {
    var r := EscapeFrontmatter(t);
    if StartsWith(t, Dashes) {
      assert r[0] == '\\';
    } else if EndsWith(t, Dashes) {
      if |t| >= 6 {
        assert r[..3] == t[..3];
      } else {
        assert |t| == 3 ==> t == Dashes;
        assert r[|t| - 3] == '\\';
      }
    }
  }

  /** After an escaped start marker, a short remainder ends the text with a marker only when it is "--". */
  lemma ShortRemainder(rest: string)
    requires |rest| < 3
    ensures EndsWith(EscDashes + rest, Dashes) <==> rest == "--"
  {
    var r := EscDashes + rest;
    if |rest| == 2 {
      var tail := r[|r| - 3..];
      assert tail == [EscDashes[5]] + rest && EscDashes[5] == '-';
      assert (tail == Dashes) == (tail[1] == '-' && tail[2] == '-');
      assert (rest == "--") == (rest[0] == '-' && rest[1] == '-');
    } else if |rest| == 1 {
      assert r[|r| - 3..][0] == EscDashes[4];
    } else {
      assert r[|r| - 3..][1] == EscDashes[4];
    }
  }

  /** A long opened text that ends with a marker gets both markers escaped. */
  lemma OpenedClosed(t: string)
    requires StartsWith(t, Dashes) && |t| >= 6 && EndsWith(t, Dashes)
    ensures !EndsWith(EscapeFrontmatter(t), Dashes)
  {
    var r := EscapeFrontmatter(t);
    assert r[|r| - 3..] == EscDashes[3..];
    assert EscDashes[3..][1] != '-';
  }

  /** A long opened text that does not end with a marker keeps its end. */
  lemma OpenedOpen(t: string)
    requires StartsWith(t, Dashes) && |t| >= 6 && !EndsWith(t, Dashes)
    ensures !EndsWith(EscapeFrontmatter(t), Dashes)
  {
    var r := EscapeFrontmatter(t);
    assert r[|r| - 3..] == t[|t| - 3..];
  }

  lemma FrontmatterEndOpened(t: string)
    requires StartsWith(t, Dashes)
    ensures EndsWith(EscapeFrontmatter(t), Dashes) <==> t == "-----"
  {
    if |t| >= 6 {
      if EndsWith(t, Dashes) {
        OpenedClosed(t);
      } else {
        OpenedOpen(t);
      }
    } else {
      var rest := t[3..];
      assert t == Dashes + rest;
      ShortRemainder(rest);
      assert (t == "-----") == (rest == "--");
    }
  }

  /** A marker is left at the end exactly for "-----", where the start and end markers overlap. */
  lemma FrontmatterEnd(t: string)
    ensures EndsWith(EscapeFrontmatter(t), Dashes) <==> t == "-----"
  {
    var r := EscapeFrontmatter(t);
    assert StartsWith("-----", Dashes);
    if StartsWith(t, Dashes) {
      FrontmatterEndOpened(t);
    } else if EndsWith(t, Dashes) {
      assert r[|r| - 3..] == EscDashes[3..];
      assert EscDashes[3..][1] != '-';
    }
  }

  lemma FrontmatterNoDoubleTick(t: string)
    requires NoDoubleTick(t)
    ensures NoDoubleTick(EscapeFrontmatter(t))
  {
    assert NoDoubleTick(EscDashes);
    if StartsWith(t, Dashes) {
      var rest := t[3..];
      NoDoubleTickSuffix(t, 3);
      if |t| >= 6 && EndsWith(t, Dashes) {
        NoDoubleTickSlice(rest, 0, |rest| - 3);
        NoDoubleTickJoin(rest[..|rest| - 3], EscDashes);
        NoDoubleTickJoin(EscDashes, rest[..|rest| - 3] + EscDashes);
      } else {
        NoDoubleTickJoin(EscDashes, rest);
      }
    } else if EndsWith(t, Dashes) {
      NoDoubleTickSlice(t, 0, |t| - 3);
      NoDoubleTickJoin(t[..|t| - 3], EscDashes);
    }
  }

  /** A query fence is a fence followed by `query`. */
  lemma QueryFenceIsFence(s: string)
    ensures Contains(s, QueryFence) ==> Contains(s, Fence)
  {
    if Contains(s, QueryFence) {
      var i := ContainsWitness(s, QueryFence);
      assert s[i..i + 3] == s[i..i + 8][..3];
      ContainsAt(s, Fence, i);
    }
  }

  // ---------------------------------------------------------------------------
  // The whole transform

  /**
    The text handed to the markdown renderer for a match cut out as
    `content0`: the unindented content, code-block escaping, highlighting of
    each distinct matched word, then the fence, query-fence and frontmatter
    escapes. `start` is the match start the word offsets are relative to.
   */
  function RenderedText(content0: string, matches: seq<(int, int)>, start: int): string {
    var u := Unindent(content0);
    var words := Dedup(MatchWords(u.0, matches, start, u.1));
    var highlighted := HighlightAll(EscapeCodeBlock(u.0), words);
    EscapeFrontmatter(ReplaceFirst(EscapeFirstFence(highlighted), QueryFence, EscQueryFence))
  }

  /** How the wrapped `render` of a search match ends. */
  datatype RenderOutcome =
    | Native            // the host's own `render` runs
    | Markdown(text: string)  // the text is handed to a new markdown renderer
    | Thrown            // `component.addChild` on a missing render component throws

  /**
    The wrapped `render` of a search match: the content between `start` and
    `end` of its parent's text is rendered as markdown when the result view
    has a parent component and renders markdown, which first needs that
    parent component's render component; otherwise the host's own `render`
    runs.
   */
  function Render(parentContent: string, start: int, end: int, matches: seq<(int, int)>,
                  hasParentComponent: bool, hasRenderComponent: bool, renderMarkdown: bool): (r: RenderOutcome)
    ensures r.Native? <==> !(hasParentComponent && renderMarkdown)
    ensures r.Thrown? <==> hasParentComponent && renderMarkdown && !hasRenderComponent
  {
    if !(hasParentComponent && renderMarkdown) then Native
    else if !hasRenderComponent then Thrown
    else Markdown(RenderedText(JsSubstring(parentContent, start, end), matches, start))
  }

  /**
    The body of the wrapped `render`, step by step: on the markdown path a new
    renderer for the match element is attached to the render component before
    the text is built.
   */
  method RenderMatch(parentContent: string, start: int, end: int, matches: seq<(int, int)>,
                     hasParentComponent: bool, component: Views.RenderComponent?, el: Views.Element,
                     renderMarkdown: bool) returns (out: RenderOutcome)
    modifies component
    ensures out == Render(parentContent, start, end, matches, hasParentComponent, component != null, renderMarkdown)
    ensures out.Markdown? ==>
      && |component.children| == |old(component.children)| + 1
      && component.children[..|old(component.children)|] == old(component.children)
      && var r := component.children[|old(component.children)|];
         fresh(r) && r.containerEl == el && r.loaded == component.loaded
    ensures !out.Markdown? && component != null ==> component.children == old(component.children)
    ensures component != null ==> component.loaded == old(component.loaded)
  {
    var content := JsSubstring(parentContent, start, end);
    var leadingSpaces := LeadingWhitespace(content);
    var spacesCount := 0;
    if leadingSpaces != [] {
      spacesCount := |leadingSpaces|;
      content := StripLinePrefix(content, leadingSpaces, true);
    }
    if !(hasParentComponent && renderMarkdown) {
      return Native;
    }
    if component == null {
      return Thrown;
    }
    var renderer := new Views.Renderer(el);
    component.AddChild(renderer);
    var newContent := EscapeCodeBlock(content);
    var highlightWords := CollectWords(content, matches, start, spacesCount);
    ghost var escaped := newContent;
    for i := 0 to |highlightWords|
      invariant HighlightAll(newContent, highlightWords[i..]) == HighlightAll(escaped, highlightWords)
    {
      assert highlightWords[i..][1..] == highlightWords[i + 1..];
      newContent := HighlightOne(newContent, highlightWords[i]);
    }
    newContent := EscapeFirstFence(newContent);
    newContent := ReplaceFirst(newContent, QueryFence, EscQueryFence);
    newContent := EscapeFrontmatter(newContent);
    out := Markdown(newContent);
  }

  /**
    Content whose first non-blank text opens a code block can never embed a
    query once rendered: no two backticks of the result are adjacent, so it
    holds no fence at all, let alone a query fence.
   */
  lemma RecursionGuard(content0: string, matches: seq<(int, int)>, start: int)
    requires StartsWith(TrimStart(content0), Fence)
    ensures NoDoubleTick(RenderedText(content0, matches, start))
    ensures !Contains(RenderedText(content0, matches, start), QueryFence)
    ensures !Contains(RenderedText(content0, matches, start), Fence)
  {
    var u := Unindent(content0);
    UnindentStart(content0);
    EscapeCodeBlockNoDoubleTick(u.0);
    var words := Dedup(MatchWords(u.0, matches, start, u.1));
    var highlighted := HighlightAll(EscapeCodeBlock(u.0), words);
    HighlightAllNoDoubleTick(EscapeCodeBlock(u.0), words);
    NoDoubleTickNoFence(highlighted, Fence);
    NoDoubleTickNoFence(highlighted, QueryFence);
    FrontmatterNoDoubleTick(highlighted);
    NoDoubleTickNoFence(RenderedText(content0, matches, start), QueryFence);
    NoDoubleTickNoFence(RenderedText(content0, matches, start), Fence);
  }

  /** Unindented content without fences, frontmatter markers or matched words is rendered as it is. */
  lemma RenderedPlain(content0: string, start: int)
    requires WhitespaceRun(content0) == 0 && !Contains(content0, Fence)
    requires !StartsWith(content0, Dashes) && !EndsWith(content0, Dashes)
    ensures RenderedText(content0, [], start) == content0
  {
    NoFenceNoEscape(content0);
    QueryFenceIsFence(content0);
  }
}
