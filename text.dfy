/**
  String primitives with the semantics of the JavaScript built-ins and regular
  expression classes that the plugin relies on: line terminators and `\s`,
  `String.prototype.trim`, `split("\n")`, `substring`, `slice`, and literal
  global / first-occurrence replacement.
 */
module Text {

  datatype Option<T> = None | Some(value: T)

  /** The characters JavaScript regular expressions treat as line terminators. */
  predicate IsLineTerminator(c: char) {
    c == '\n' || c == '\r' || c == '\U{2028}' || c == '\U{2029}'
  }

  /** The class `\s` of JavaScript regular expressions (also what `trim` strips). */
  predicate IsWhitespace(c: char) {
    || c == ' ' || c == '\t' || c == '\n' || c == '\U{000B}' || c == '\U{000C}' || c == '\r'
    || c == '\U{00A0}' || c == '\U{1680}' || ('\U{2000}' <= c <= '\U{200A}')
    || c == '\U{2028}' || c == '\U{2029}' || c == '\U{202F}' || c == '\U{205F}'
    || c == '\U{3000}' || c == '\U{FEFF}'
  }

  predicate StartsWith(s: string, p: string) {
    |p| <= |s| && s[..|p|] == p
  }

  predicate Contains(s: string, p: string)
    decreases |s|
  {
    StartsWith(s, p) || (s != [] && Contains(s[1..], p))
  }

  lemma {:induction false} ContainsAt(s: string, p: string, i: nat)
    requires i + |p| <= |s| && s[i..i + |p|] == p
    ensures Contains(s, p)
    decreases i
  {
    if i > 0 {
      assert s[1..][i - 1..i - 1 + |p|] == s[i..i + |p|];
      ContainsAt(s[1..], p, i - 1);
    }
  }

  lemma {:induction false} ContainsWitness(s: string, p: string) returns (i: nat)
    requires Contains(s, p)
    ensures i + |p| <= |s| && s[i..i + |p|] == p
    decreases |s|
  {
    if StartsWith(s, p) {
      i := 0;
    } else {
      var j := ContainsWitness(s[1..], p);
      i := j + 1;
      assert s[i..i + |p|] == s[1..][j..j + |p|];
    }
  }

  /** Length of the first line of `s`: the index of its first line terminator, or `|s|`. */
  function LineEnd(s: string): (e: nat)
    ensures e <= |s|
    ensures forall i :: 0 <= i < e ==> !IsLineTerminator(s[i])
    ensures e < |s| ==> IsLineTerminator(s[e])
    decreases |s|
  {
    if s == [] || IsLineTerminator(s[0]) then 0 else 1 + LineEnd(s[1..])
  }

  /** Dropping part of the first line shortens it by as much. */
  lemma {:induction false} LineEndSuffix(s: string, k: nat)
    requires k <= LineEnd(s)
    ensures LineEnd(s[k..]) == LineEnd(s) - k
    decreases k
  {
    if k > 0 {
      LineEndSuffix(s[1..], k - 1);
      assert s[1..][k - 1..] == s[k..];
    }
  }

  /** A text without line terminators. */
  predicate SingleLine(x: string) {
    forall i :: 0 <= i < |x| ==> !IsLineTerminator(x[i])
  }

  /** Whether `t` opens with a one-line text depends only on the first line of `t`. */
  lemma PrefixWithinLine(t: string, x: string)
    requires SingleLine(x)
    ensures StartsWith(t, x) <==> StartsWith(t[..LineEnd(t)], x)
  {
    assert StartsWith(t, x) ==> forall i :: 0 <= i < |x| ==> t[i] == x[i];
  }

  /** Applies `f` to the text of every line of `s`, keeping every line terminator in place. */
  function MapLines(s: string, f: string -> string): string
    decreases |s|
  {
    var e := LineEnd(s);
    if e == |s| then f(s) else f(s[..e]) + [s[e]] + MapLines(s[e + 1..], f)
  }

  /** A text with a line terminator maps its first line, keeps the terminator and maps the rest. */
  lemma MapLinesNext(s: string, f: string -> string, e: nat)
    requires e == LineEnd(s) && e < |s|
    ensures MapLines(s, f) == f(s[..e]) + [s[e]] + MapLines(s[e + 1..], f)
  {
  }

  /** Number of leading characters of `s` that are in `\s`. */
  function WhitespaceRun(s: string): (n: nat)
    ensures n <= |s|
    ensures forall i :: 0 <= i < n ==> IsWhitespace(s[i])
    ensures n < |s| ==> !IsWhitespace(s[n])
    decreases |s|
  {
    if s != [] && IsWhitespace(s[0]) then 1 + WhitespaceRun(s[1..]) else 0
  }

  /** `String.prototype.trimStart`. */
  function TrimStart(s: string): (r: string)
    ensures |r| <= |s| && r == s[|s| - |r|..]
    ensures forall i :: 0 <= i < |s| - |r| ==> IsWhitespace(s[i])
    ensures r != [] ==> !IsWhitespace(r[0])
  {
    s[WhitespaceRun(s)..]
  }

  /** Number of trailing characters of `s` that are in `\s`. */
  function TrailingWhitespace(s: string): (n: nat)
    ensures n <= |s|
    ensures forall i :: |s| - n <= i < |s| ==> IsWhitespace(s[i])
    ensures n < |s| ==> !IsWhitespace(s[|s| - n - 1])
    decreases |s|
  {
    if s != [] && IsWhitespace(s[|s| - 1]) then 1 + TrailingWhitespace(s[..|s| - 1]) else 0
  }

  /** `String.prototype.trim`: the infix left after dropping `\s` characters at both ends. */
  function Trim(s: string): (r: string)
    ensures exists i, j :: 0 <= i <= j <= |s| && r == s[i..j]
                           && (forall k :: 0 <= k < i ==> IsWhitespace(s[k]))
                           && (forall k :: j <= k < |s| ==> IsWhitespace(s[k]))
    ensures r != [] ==> !IsWhitespace(r[0]) && !IsWhitespace(r[|r| - 1])
  {
    var i := WhitespaceRun(s);
    var t := s[i..];
    var n := TrailingWhitespace(t);
    assert t[..|t| - n] == s[i..|s| - n];
    s[i..|s| - n]
  }

  /** Index of the first occurrence of `c` in `s`, or `|s|`. */
  function IndexOfChar(s: string, c: char): (k: nat)
    ensures k <= |s|
    ensures forall i :: 0 <= i < k ==> s[i] != c
    ensures k < |s| ==> s[k] == c
    decreases |s|
  {
    if s == [] || s[0] == c then 0 else 1 + IndexOfChar(s[1..], c)
  }

  /** `s.split("\n")`. */
  function Split(s: string): (ls: seq<string>)
    ensures |ls| >= 1
    ensures forall i :: 0 <= i < |ls| ==> '\n' !in ls[i]
    decreases |s|
  {
    var k := IndexOfChar(s, '\n');
    if k == |s| then [s] else [s[..k]] + Split(s[k + 1..])
  }

  /** `ls.join("\n")`. */
  function Join(ls: seq<string>): string
    decreases |ls|
  {
    if |ls| == 0 then "" else if |ls| == 1 then ls[0] else ls[0] + "\n" + Join(ls[1..])
  }

  lemma {:induction false} JoinSplit(s: string)
    ensures Join(Split(s)) == s
    decreases |s|
  {
    var k := IndexOfChar(s, '\n');
    if k < |s| {
      var rest := s[k + 1..];
      assert Split(s) == [s[..k]] + Split(rest);
      JoinSplit(rest);
      assert Join([s[..k]] + Split(rest)) == s[..k] + "\n" + Join(Split(rest)) by {
        assert ([s[..k]] + Split(rest))[1..] == Split(rest);
      }
      assert s == s[..k] + "\n" + rest;
    }
  }

  lemma {:induction false} SplitJoin(ls: seq<string>)
    requires |ls| >= 1
    requires forall i :: 0 <= i < |ls| ==> '\n' !in ls[i]
    ensures Split(Join(ls)) == ls
    decreases |ls|
  {
    var s := Join(ls);
    if |ls| == 1 {
      NoNewlineIndex(ls[0]);
    } else {
      var rest := Join(ls[1..]);
      SplitJoin(ls[1..]);
      assert Split(s) == [ls[0]] + Split(rest) by {
        assert s == ls[0] + "\n" + rest;
        IndexPastPrefix(ls[0], rest);
        assert s[..|ls[0]|] == ls[0];
        assert s[|ls[0]| + 1..] == rest;
      }
      assert ls == [ls[0]] + ls[1..];
    }
  }

  lemma {:induction false} NoNewlineIndex(s: string)
    requires '\n' !in s
    ensures IndexOfChar(s, '\n') == |s|
    decreases |s|
  {
    if s != [] {
      assert s[0] != '\n' && s == [s[0]] + s[1..];
      NoNewlineIndex(s[1..]);
    }
  }

  lemma IndexPastPrefix(a: string, b: string)
    requires '\n' !in a
    ensures IndexOfChar(a + "\n" + b, '\n') == |a|
  {
    assert (a + "\n" + b)[|a|] == '\n';
  }

  lemma {:induction false} JoinAppend(ls: seq<string>, x: string)
    requires |ls| >= 1
    ensures Join(ls + [x]) == Join(ls) + "\n" + x
    decreases |ls|
  {
    if |ls| > 1 {
      assert (ls + [x])[1..] == ls[1..] + [x];
      JoinAppend(ls[1..], x);
    }
  }

  /** Joining one more line of a sequence appends a line break and that line. */
  lemma JoinPrefix(ls: seq<string>, i: nat)
    requires i < |ls|
    ensures Join(ls[..i + 1]) == (if i == 0 then "" else Join(ls[..i]) + "\n") + ls[i]
  {
    assert ls[..i + 1] == ls[..i] + [ls[i]];
    if i > 0 {
      JoinAppend(ls[..i], ls[i]);
    }
  }

  /** Clamps a JavaScript string index into `[0, len]`. */
  function Clamp(i: int, len: nat): (k: nat)
    ensures k <= len
  {
    if i < 0 then 0 else if i > len then len else i
  }

  /** `s.substring(a, b)`: indices are clamped, and swapped when `a > b`. */
  function JsSubstring(s: string, a: int, b: int): (r: string)
    ensures |r| <= |s|
    ensures 0 <= a <= b <= |s| ==> r == s[a..b]
    ensures 0 <= b <= a <= |s| ==> r == s[b..a]
    ensures a <= 0 && b <= 0 ==> r == []
    ensures a >= |s| && b >= |s| ==> r == []
    ensures a <= 0 && 0 <= b <= |s| ==> r == s[..b]
    ensures b <= 0 && 0 <= a <= |s| ==> r == s[..a]
    ensures 0 <= a <= |s| <= b ==> r == s[a..]
    ensures 0 <= b <= |s| <= a ==> r == s[b..]
    ensures (a <= 0 && b >= |s|) || (b <= 0 && a >= |s|) ==> r == s
  {
    var x, y := Clamp(a, |s|), Clamp(b, |s|);
    if x <= y then s[x..y] else s[y..x]
  }

  /** Resolves a `slice` index: a negative index counts from the end. */
  function SliceIndex(i: int, len: nat): (k: nat)
    ensures k <= len
    ensures 0 <= i <= len ==> k == i
  {
    if i < 0 then (if len + i < 0 then 0 else len + i) else if i > len then len else i
  }

  /** `s.slice(a, b)`: negative indices count from the end; an empty result when the end precedes the start. */
  function JsSlice(s: string, a: int, b: int): (r: string)
    ensures 0 <= a <= b <= |s| ==> r == s[a..b]
    ensures |r| <= |s|
  {
    var x, y := SliceIndex(a, |s|), SliceIndex(b, |s|);
    if x < y then s[x..y] else ""
  }

  /**
    Global replacement of the literal `p` by `r`, scanning left to right with
    non-overlapping matches (like `replace` with a `g`-flagged regular
    expression that matches `p` literally). An empty `p` matches at every
    position, before every character and at the end.
   */
  function ReplaceAll(s: string, p: string, r: string): (t: string)
    ensures r != [] && t != [] ==> (s != [] && t[0] == s[0]) || t[0] == r[0]
    decreases |s|
  {
    if p == [] then
      (if s == [] then r else r + [s[0]] + ReplaceAll(s[1..], p, r))
    else if s == [] then []
    else if StartsWith(s, p) then r + ReplaceAll(s[|p|..], p, r)
    else [s[0]] + ReplaceAll(s[1..], p, r)
  }

  /** Text without an occurrence of a non-empty pattern is left as it is. */
  lemma {:induction false} ReplaceAllWithoutMatch(s: string, p: string, r: string)
    requires p != [] && !Contains(s, p)
    ensures ReplaceAll(s, p, r) == s
    decreases |s|
  {
    if s != [] {
      ReplaceAllWithoutMatch(s[1..], p, r);
    }
  }

  /** Replacement of the first occurrence of the literal `p` (`replace` with a string pattern). */
  function ReplaceFirst(s: string, p: string, r: string): (t: string)
    ensures !Contains(s, p) ==> t == s
    decreases |s|
  {
    if StartsWith(s, p) then r + s[|p|..]
    else if s == [] then s
    else [s[0]] + ReplaceFirst(s[1..], p, r)
  }

  /** With a first occurrence of `p` at `k`, exactly that occurrence is replaced and the rest is kept. */
  lemma {:induction false} ReplaceFirstAt(s: string, p: string, r: string, k: nat)
    requires IndexOf(s, p) == Some(k)
    ensures ReplaceFirst(s, p, r) == s[..k] + r + s[k + |p|..]
    decreases |s|
  {
    if StartsWith(s, p) {
      assert k == 0;
      ReplaceFirstHere(s, p, r);
    } else {
      IndexOfTail(s, p, k);
      ReplaceFirstAt(s[1..], p, r, k - 1);
      ReplaceFirstStep(s, p, r, k);
    }
  }

  /** A first occurrence past the start is a first occurrence of the rest, one position earlier. */
  lemma IndexOfTail(s: string, p: string, k: nat)
    requires IndexOf(s, p) == Some(k) && !StartsWith(s, p)
    ensures s != [] && 0 < k && k + |p| <= |s| && IndexOf(s[1..], p) == Some(k - 1)
  {
  }

  /** The replacement in the rest, with the first character put back in front. */
  lemma ReplaceFirstStep(s: string, p: string, r: string, k: nat)
    requires s != [] && 0 < k && k + |p| <= |s| && !StartsWith(s, p)
    requires ReplaceFirst(s[1..], p, r) == s[1..][..k - 1] + r + s[1..][k - 1 + |p|..]
    ensures ReplaceFirst(s, p, r) == s[..k] + r + s[k + |p|..]
  {
    ReplaceFirstSkip(s, p, r);
    ConsSplice(s, r, k, |p|);
  }

  /** An occurrence at the start is replaced. */
  lemma ReplaceFirstHere(s: string, p: string, r: string)
    requires StartsWith(s, p)
    ensures ReplaceFirst(s, p, r) == s[..0] + r + s[0 + |p|..]
  {
    assert s[..0] == [];
  }

  /** No occurrence at the start: the first character is copied. */
  lemma ReplaceFirstSkip(s: string, p: string, r: string)
    requires s != [] && !StartsWith(s, p)
    ensures ReplaceFirst(s, p, r) == [s[0]] + ReplaceFirst(s[1..], p, r)
  {
  }

  /** Putting the first character back in front of a splice of the rest. */
  lemma ConsSplice(s: string, r: string, k: nat, n: nat)
    requires 0 < k && k + n <= |s|
    ensures [s[0]] + (s[1..][..k - 1] + r + s[1..][k - 1 + n..]) == s[..k] + r + s[k + n..]
  {
    assert s[..k] == [s[0]] + s[1..][..k - 1];
    assert s[k + n..] == s[1..][k - 1 + n..];
  }

  lemma AppendAssoc(x: string, y: string, z: string)
    ensures x + (y + z) == x + y + z
  {
  }

  lemma SliceOfSuffix(t: string, a: nat, i: nat)
    requires a + i <= |t|
    ensures t[a..][..i] == t[a..a + i] && t[a..][i..] == t[a + i..]
  {
  }

  lemma ConsPrefix(t: string, k: nat)
    requires 0 < k <= |t|
    ensures t[..k] == [t[0]] + t[1..][..k - 1]
  {
  }

  /** Index of the first occurrence of `p` in `s`. */
  function IndexOf(s: string, p: string): (k: Option<nat>)
    ensures k.Some? ==> k.value + |p| <= |s| && s[k.value..k.value + |p|] == p
                        && forall j :: 0 <= j < k.value ==> !StartsWith(s[j..], p)
    ensures k.None? <==> !Contains(s, p)
    decreases |s|
  {
    if StartsWith(s, p) then Some(0)
    else if s == [] then None
    else match IndexOf(s[1..], p)
      case None => None
      case Some(j) =>
        assert forall i :: 1 <= i <= j ==> s[i..] == s[1..][i - 1..];
        Some(j + 1)
  }
}
