/**
  Inline query directives (src/main.ts:572-587): lines such as `sort: byName`
  inside an embedded query are read into the view's settings and removed
  from the query text that is shown.

  The two regular expressions of the code are modelled by scanners over the
  rest of the text, with a flag saying whether the scan stands at the start
  of a line (the `^` of a multi-line expression).
 */
module Directives {
  import opened Text
  import opened Settings

  /** The directive keys the parser recognises. */
  const Keys: seq<string> := ["collapsed", "context", "hideTitle", "renderMarkdown", "hideResults", "sort", "title"]

  datatype Directive = Directive(key: string, value: string)

  /** The key that `t` opens with, followed by a colon (the alternation, tried in order). */
  function KeyAt(t: string): (k: Option<string>)
    ensures k.Some? ==> k.value in Keys && StartsWith(t, k.value + ":")
    ensures k.None? ==> forall key :: key in Keys ==> !StartsWith(t, key + ":")
  {
    if StartsWith(t, "collapsed:") then Some("collapsed")
    else if StartsWith(t, "context:") then Some("context")
    else if StartsWith(t, "hideTitle:") then Some("hideTitle")
    else if StartsWith(t, "renderMarkdown:") then Some("renderMarkdown")
    else if StartsWith(t, "hideResults:") then Some("hideResults")
    else if StartsWith(t, "sort:") then Some("sort")
    else if StartsWith(t, "title:") then Some("title")
    else None
  }

  /** The index of the last character of `u` that is not a line terminator. */
  function LastNonTerminator(u: string): (j: Option<nat>)
    ensures j.Some? ==> j.value < |u| && !IsLineTerminator(u[j.value])
                        && forall i :: j.value < i < |u| ==> IsLineTerminator(u[i])
    ensures j.None? ==> forall i :: 0 <= i < |u| ==> IsLineTerminator(u[i])
    decreases |u|
  {
    if u == [] then None
    else if !IsLineTerminator(u[|u| - 1]) then Some(|u| - 1)
    else LastNonTerminator(u[..|u| - 1])
  }

  /** A value read from `t` that ends just before position `v.1`: a non-empty piece of one line, ending where the line ends. */
  predicate ValueShape(t: string, v: (string, nat)) {
    && v.0 != [] && |v.0| <= v.1 <= |t| && v.0 == t[v.1 - |v.0|..v.1]
    && SingleLine(v.0) && (v.1 == |t| || IsLineTerminator(t[v.1]))
  }

  /** The value when `\s*` from `q` stops after `w` characters on a line: the rest of that line. */
  function RestOfLine(t: string, q: nat, w: nat): (r: (string, nat))
    requires q <= |t| && w == WhitespaceRun(t[q..]) && q + w < |t|
    ensures r.1 == q + w + LineEnd(t[q + w..]) && q < r.1 && |r.0| <= r.1 - q && r.0 == t[q + w..r.1]
    ensures ValueShape(t, r)
  {
    var p := q + w;
    var e := LineEnd(t[p..]);
    assert e > 0 by {
      assert t[p..][0] == t[q..][w];
      assert !IsWhitespace(t[p..][0]);
    }
    assert t[p..p + e] == t[p..][..e];
    (t[p..p + e], p + e)
  }

  /**
    The value when everything from `q` on is whitespace: `\s*` gives
    characters back, so `.+?` takes the last character that is not a line
    terminator, if there is one.
   */
  function LastValueChar(t: string, q: nat): (r: Option<(string, nat)>)
    requires q <= |t|
    ensures r.Some? ==> q < r.value.1 <= |t| && r.value.0 == [t[r.value.1 - 1]] && !IsLineTerminator(t[r.value.1 - 1])
    ensures r.Some? ==> |r.value.0| == 1 && ValueShape(t, r.value)
  {
    match LastNonTerminator(t[q..])
    case None => None
    case Some(j) =>
      assert forall i :: q + j + 1 <= i < |t| ==> t[i] == t[q..][i - q];
      Some(([t[q + j]], q + j + 1))
  }

  /** There is a last value character exactly when some character from `q` on is not a line terminator; only terminators follow it. */
  lemma LastValueCharTrailing(t: string, q: nat)
    requires q <= |t|
    ensures LastValueChar(t, q).None? <==> forall i :: q <= i < |t| ==> IsLineTerminator(t[i])
    ensures LastValueChar(t, q).Some? ==> forall i :: LastValueChar(t, q).value.1 <= i < |t| ==> IsLineTerminator(t[i])
  {
    assert forall i :: q <= i < |t| ==> t[i] == t[q..][i - q];
  }

  /**
    The `\s*(.+?)$` part of a directive from position `q` on: the value and
    the position after it. `\s*` is greedy and may run over line ends; when
    the rest of the text is all whitespace it gives characters back until
    `.+?` can take one that is not a line terminator.
   */
  function ValueAt(t: string, q: nat): (r: Option<(string, nat)>)
    requires q <= |t|
    ensures r.Some? ==> q < r.value.1 && |r.value.0| <= r.value.1 - q && ValueShape(t, r.value)
    ensures var w := WhitespaceRun(t[q..]);
            q + w < |t| ==> r.Some? && r.value.1 == q + w + LineEnd(t[q + w..]) && r.value.0 == t[q + w..r.value.1]
  {
    var w := WhitespaceRun(t[q..]);
    if q + w < |t| then Some(RestOfLine(t, q, w))
    else
      LastValueChar(t, q)
  }

  /** One match of `^(key):\s*(value.+?)$` at the start of a line: the directive and the length of text it consumes. */
  function MatchAt(t: string): (m: Option<(Directive, nat)>)
    ensures m.Some? ==> KeyAt(t) == Some(m.value.0.key)
    ensures m.Some? ==> |m.value.0.key| + 1 < m.value.1 <= |t|
    ensures m.Some? ==> m.value.0.value != [] && |m.value.0.value| < m.value.1 && m.value.0.value == t[m.value.1 - |m.value.0.value|..m.value.1]
    ensures m.Some? ==> SingleLine(m.value.0.value)
    ensures m.Some? ==> m.value.1 == |t| || IsLineTerminator(t[m.value.1])
  {
    var key := KeyAt(t);
    if key.None? then None
    else
      var v := ValueAt(t, |key.value| + 1);
      if v.None? then None else Some((Directive(key.value, v.value.0), v.value.1))
  }

  /** `query.matchAll(...)`: every directive, in order. */
  function Scan(t: string, bol: bool): (ds: seq<Directive>)
    ensures forall i :: 0 <= i < |ds| ==> ds[i].key in Keys && ds[i].value != []
    decreases |t|
  {
    if t == [] then []
    else if bol && MatchAt(t).Some? then
      var (d, n) := MatchAt(t).value;
      [d] + Scan(t[n..], false)
    else Scan(t[1..], IsLineTerminator(t[0]))
  }

  /** A line start where `^((key):.+?)$` matches: a key, a colon and at least one more character on the line. */
  predicate Removable(t: string) {
    KeyAt(t).Some? && LineEnd(t) > |KeyAt(t).value| + 1
  }

  /** `query.replace(/^((key):.+?)$/gm, "")`. */
  function StripDirectives(t: string, bol: bool): string
    decreases |t|
  {
    if t == [] then []
    else if bol && Removable(t) then StripDirectives(t[LineEnd(t)..], false)
    else [t[0]] + StripDirectives(t[1..], IsLineTerminator(t[0]))
  }

  /** `value.toLowerCase()` on the letters A-Z. */
  function LowerAscii(s: string): (r: string)
    ensures |r| == |s|
  {
    seq(|s|, i requires 0 <= i < |s| => if 'A' <= s[i] <= 'Z' then (s[i] as int + 32) as char else s[i])
  }

  /** A directive value: a boolean when it reads "true" or "false" in any letter case, else the text as written. */
  function Normalize(v: string): Setting {
    var lower := LowerAscii(v);
    if lower == "true" then Flag(true)
    else if lower == "false" then Flag(false)
    else Str(v)
  }

  /** Whether `v` spells the lower-case word `word` in some mix of letter cases. */
  predicate SpellsIgnoringCase(v: string, word: string) {
    |v| == |word| && forall i :: 0 <= i < |v| ==> v[i] == word[i] || v[i] as int == word[i] as int - 32
  }

  lemma NormalizeFlags(v: string)
    ensures Normalize(v) == Flag(true) <==> SpellsIgnoringCase(v, "true")
    ensures Normalize(v) == Flag(false) <==> SpellsIgnoringCase(v, "false")
    ensures Normalize(v).Str? ==> Normalize(v).s == v
  {
    var lower := LowerAscii(v);
    if SpellsIgnoringCase(v, "true") {
      assert lower == "true";
    }
    if SpellsIgnoringCase(v, "false") {
      assert lower == "false";
    }
  }

  /** `settings.title || this.query`, as text: a `true` title reads "true". */
  function HeaderText(settings: map<string, Setting>, query: string): string {
    if "title" !in settings then query
    else match settings["title"]
      case Str(t) => if t != "" then t else query
      case Flag(b) => if b then "true" else query
  }

  /** The settings object the loop builds: a later directive for the same key overwrites an earlier one. */
  function Collect(ds: seq<Directive>): map<string, Setting>
    decreases |ds|
  {
    if ds == [] then map[]
    else
      var d := ds[|ds| - 1];
      Collect(ds[..|ds| - 1])[d.key := Normalize(d.value)]
  }

  /** The keys collected are exactly the keys of the directives. */
  lemma {:induction false} CollectKeys(ds: seq<Directive>)
    ensures forall k :: k in Collect(ds) <==> exists i :: 0 <= i < |ds| && ds[i].key == k
    decreases |ds|
  {
    if ds != [] {
      var init := ds[..|ds| - 1];
      CollectKeys(init);
      forall k | k in Collect(ds)
        ensures exists i :: 0 <= i < |ds| && ds[i].key == k
      {
        if k != ds[|ds| - 1].key {
          assert k in Collect(init);
          var i :| 0 <= i < |init| && init[i].key == k;
          assert ds[i].key == k;
        }
      }
      forall k | exists i :: 0 <= i < |ds| && ds[i].key == k
        ensures k in Collect(ds)
      {
        var i :| 0 <= i < |ds| && ds[i].key == k;
        if i < |init| {
          assert init[i].key == k;
        }
      }
    }
  }

  /** The value of a key is the normalized value of its last directive. */
  lemma {:induction false} CollectLastWins(ds: seq<Directive>, i: nat)
    requires i < |ds|
    requires forall j :: i < j < |ds| ==> ds[j].key != ds[i].key
    ensures ds[i].key in Collect(ds) && Collect(ds)[ds[i].key] == Normalize(ds[i].value)
    decreases |ds|
  {
    if i < |ds| - 1 {
      var init := ds[..|ds| - 1];
      assert init[i] == ds[i];
      CollectLastWins(init, i);
    }
  }

  /**
    The directive part of the `onload` wrapper: reads the settings, strips the
    directive lines and picks the header text.
   */
  method ParseQuery(query: string) returns (settings: map<string, Setting>, shown: string, header: string)
    ensures settings == Collect(Scan(query, true))
    ensures forall k :: k in settings ==> k in Keys
    ensures forall k :: k in settings && settings[k].Str? ==> settings[k].s != []
    ensures shown == Trim(StripDirectives(query, true))
    ensures "title" in settings && settings["title"].Str? ==> header == settings["title"].s
    ensures "title" in settings && settings["title"] == Flag(true) ==> header == "true"
    ensures "title" !in settings || settings["title"] == Flag(false) ==> header == shown
    ensures header == HeaderText(settings, shown)
  {
    var ds := Scan(query, true);
    settings := map[];
    for i := 0 to |ds|
      invariant settings == Collect(ds[..i])
    {
      assert ds[..i + 1][..i] == ds[..i];
      settings := settings[ds[i].key := Normalize(ds[i].value)];
    }
    assert ds[..|ds|] == ds;
    CollectKeys(ds);
    CollectNonEmpty(ds);
    shown := Trim(StripDirectives(query, true));
    header := HeaderText(settings, shown);
  }

  /** Collected strings are never empty, because every directive value has a character. */
  lemma {:induction false} CollectNonEmpty(ds: seq<Directive>)
    requires forall i :: 0 <= i < |ds| ==> ds[i].value != []
    ensures forall k :: k in Collect(ds) && Collect(ds)[k].Str? ==> Collect(ds)[k].s != []
    decreases |ds|
  {
    if ds != [] {
      CollectNonEmpty(ds[..|ds| - 1]);
    }
  }

  // ---------------------------------------------------------------------------
  // Line-by-line view of the two scanners.

  /** A line that the removal empties: a key, a colon and at least one more character. */
  predicate IsDirectiveLine(line: string) {
    KeyAt(line).Some? && |line| > |KeyAt(line).value| + 1
  }

  function BlankDirective(line: string): string {
    if IsDirectiveLine(line) then "" else line
  }

  /** Whether a text opens with a key depends only on its first line. */
  lemma KeyAtFirstLine(t: string)
    ensures KeyAt(t) == KeyAt(t[..LineEnd(t)])
  {
    var l := t[..LineEnd(t)];
    assert StartsWith(t, "collapsed:") == StartsWith(l, "collapsed:") by { PrefixWithinLine(t, "collapsed:"); }
    assert StartsWith(t, "context:") == StartsWith(l, "context:") by { PrefixWithinLine(t, "context:"); }
    assert StartsWith(t, "hideTitle:") == StartsWith(l, "hideTitle:") by { PrefixWithinLine(t, "hideTitle:"); }
    assert StartsWith(t, "renderMarkdown:") == StartsWith(l, "renderMarkdown:") by { PrefixWithinLine(t, "renderMarkdown:"); }
    assert StartsWith(t, "hideResults:") == StartsWith(l, "hideResults:") by { PrefixWithinLine(t, "hideResults:"); }
    assert StartsWith(t, "sort:") == StartsWith(l, "sort:") by { PrefixWithinLine(t, "sort:"); }
    assert StartsWith(t, "title:") == StartsWith(l, "title:") by { PrefixWithinLine(t, "title:"); }
  }

  /**
    The text before the end of the first line is copied through, unless the
    scan sits at a line start where a directive line begins.
   */
  lemma StripCopiesLine(t: string, k: nat, bol: bool)
    requires k <= LineEnd(t) && (bol ==> !Removable(t))
    ensures StripDirectives(t, bol) == t[..k] + StripDirectives(t[k..], bol && k == 0)
  {
    if k > 0 {
      var u := t[1..];
      assert StripDirectives(t, bol) == [t[0]] + StripDirectives(u, false) by {
        assert !IsLineTerminator(t[0]);
      }
      StripCopiesRun(t, k);
    }
  }

  /** Inside a line, away from its start, the removal copies every character up to `k`. */
  lemma {:induction false} StripCopiesRun(t: string, k: nat)
    requires 0 < k <= LineEnd(t)
    ensures [t[0]] + StripDirectives(t[1..], false) == t[..k] + StripDirectives(t[k..], false)
    decreases k
  {
    var u := t[1..];
    if k > 1 {
      StripInsideLine(u);
      StripCopiesRun(u, k - 1);
      SliceOfSuffix(t, 1, k - 1);
      ConsPrefix(t, k);
      AppendAssoc([t[0]], u[..k - 1], StripDirectives(t[k..], false));
    } else {
      assert t[..k] == [t[0]] && t[k..] == u;
    }
  }

  /** Away from a line start, a character that does not end the line is copied. */
  lemma StripInsideLine(t: string)
    requires t != [] && !IsLineTerminator(t[0])
    ensures StripDirectives(t, false) == [t[0]] + StripDirectives(t[1..], false)
  {
  }

  /** A text is removable at its start exactly when its first line is a directive line. */
  lemma RemovableFirstLine(s: string)
    ensures Removable(s) <==> IsDirectiveLine(s[..LineEnd(s)])
  {
    KeyAtFirstLine(s);
  }

  /** The removal handles the first line of `s` on its own. */
  lemma StripFirstLine(s: string)
    ensures StripDirectives(s, true) == BlankDirective(s[..LineEnd(s)]) + StripDirectives(s[LineEnd(s)..], false)
  {
    var e := LineEnd(s);
    RemovableFirstLine(s);
    if s != [] && Removable(s) {
      assert BlankDirective(s[..e]) == [];
    } else {
      StripCopiesLine(s, e, true);
      assert BlankDirective(s[..e]) == s[..e];
    }
  }

  /** A first line that ends with a terminator: the line is handled, the terminator kept, and the scan restarts. */
  lemma StripNextLine(s: string, e: nat)
    requires e == LineEnd(s) && e < |s|
    ensures StripDirectives(s, true) == BlankDirective(s[..e]) + [s[e]] + StripDirectives(s[e + 1..], true)
  {
    StripFirstLine(s);
    StripTerminator(s, e);
    AppendAssoc(BlankDirective(s[..e]), [s[e]], StripDirectives(s[e + 1..], true));
  }

  /** A line terminator is copied, and the scan after it starts a line. */
  lemma StripTerminator(s: string, e: nat)
    requires e < |s| && IsLineTerminator(s[e])
    ensures StripDirectives(s[e..], false) == [s[e]] + StripDirectives(s[e + 1..], true)
  {
    assert s[e..][0] == s[e] && s[e..][1..] == s[e + 1..];
  }

  /** The removal, line by line: every directive line becomes empty, every other line stays as it is. */
  lemma {:induction false} StripDirectivesByLine(s: string)
    ensures StripDirectives(s, true) == MapLines(s, BlankDirective)
    decreases |s|
  {
    var e := LineEnd(s);
    if e < |s| {
      StripNextLine(s, e);
      MapLinesNext(s, BlankDirective, e);
      StripDirectivesByLine(s[e + 1..]);
    } else {
      StripFirstLine(s);
      assert s[e..] == [] && s[..e] == s;
    }
  }

  // ---------------------------------------------------------------------------
  // Line-by-line view of the directive scan.

  /**
    The directive the first line of `s` yields on its own: the key `s` opens
    with and its colon, then a value that starts after the whitespace and
    before the end of that line, and runs to the end of the line.
   */
  function FirstLineDirective(s: string): (ds: seq<Directive>)
    ensures |ds| <= 1
  {
    match KeyAt(s)
    case None => []
    case Some(k) =>
      var q := |k| + 1;
      var w := WhitespaceRun(s[q..]);
      var e := LineEnd(s);
      if q + w < e then [Directive(k, s[q + w..e])] else []
  }

  /** Every line that opens with a key has its value on that same line. */
  predicate ValuesOnTheirLines(s: string)
    decreases |s|
  {
    var e := LineEnd(s);
    (KeyAt(s).Some? ==> FirstLineDirective(s) != [])
    && (e < |s| ==> ValuesOnTheirLines(s[e + 1..]))
  }

  /** The directives of each line, in order. */
  function ScanLines(s: string): seq<Directive>
    decreases |s|
  {
    var e := LineEnd(s);
    FirstLineDirective(s) + (if e < |s| then ScanLines(s[e + 1..]) else [])
  }

  /** The scan passes over the text before the end of the first line when no directive starts there. */
  lemma {:induction false} ScanCopiesLine(t: string, k: nat, bol: bool)
    requires k <= LineEnd(t) && (bol ==> MatchAt(t).None?)
    ensures Scan(t, bol) == Scan(t[k..], bol && k == 0)
    decreases k
  {
    if k > 0 {
      assert Scan(t, bol) == Scan(t[1..], false) by {
        assert !IsLineTerminator(t[0]);
      }
      assert Scan(t[1..], false) == Scan(t[k..], false) by {
        LineEndSuffix(t, 1);
        ScanCopiesLine(t[1..], k - 1, false);
        assert t[1..][k - 1..] == t[k..];
      }
    }
  }

  /** After a line terminator the scan stands at a line start. */
  lemma ScanAtTerminator(t: string, bol: bool)
    requires t != [] && IsLineTerminator(t[0]) && (bol ==> MatchAt(t).None?)
    ensures Scan(t, bol) == Scan(t[1..], true)
  {
  }

  /** When `\s*` stops before the end of the text, the value is the rest of that line. */
  lemma ValueOnLine(t: string, q: nat, w: nat, e: nat)
    requires q <= |t| && w == WhitespaceRun(t[q..]) && q + w < |t| && e == q + w + LineEnd(t[q + w..])
    ensures ValueAt(t, q) == Some((t[q + w..e], e))
  {
    var v := ValueAt(t, q);
    assert v.Some? && v.value.1 == e && v.value.0 == t[q + w..e];
    assert v.value == (t[q + w..e], e);
  }

  /**
    When everything after `q` is whitespace, there is a value exactly when
    some character there is not a line terminator, and it is one character
    followed only by line terminators.
   */
  lemma ValueInTrailingSpace(t: string, q: nat)
    requires q <= |t| && q + WhitespaceRun(t[q..]) == |t|
    ensures ValueAt(t, q).None? <==> forall i :: q <= i < |t| ==> IsLineTerminator(t[i])
    ensures ValueAt(t, q).Some? ==> |ValueAt(t, q).value.0| == 1 && forall i :: ValueAt(t, q).value.1 <= i < |t| ==> IsLineTerminator(t[i])
  {
    assert ValueAt(t, q) == LastValueChar(t, q);
    LastValueCharTrailing(t, q);
  }

  /** A key followed by a value gives the directive of that key and value. */
  lemma MatchOfValue(s: string, k: string, v: string, e: nat)
    requires KeyAt(s) == Some(k) && |k| + 1 <= |s| && ValueAt(s, |k| + 1) == Some((v, e))
    ensures MatchAt(s) == Some((Directive(k, v), e))
  {
  }

  /** A key, then whitespace that stops before the end of the text: the directive runs to the end of that line. */
  lemma MatchToLineEnd(s: string, k: string, w: nat, e: nat)
    requires KeyAt(s) == Some(k) && |k| + 1 + w < |s| && WhitespaceRun(s[|k| + 1..]) == w
    requires e == |k| + 1 + w + LineEnd(s[|k| + 1 + w..])
    ensures MatchAt(s) == Some((Directive(k, s[|k| + 1 + w..e]), e))
  {
    var v := s[|k| + 1 + w..e];
    assert ValueAt(s, |k| + 1) == Some((v, e)) by {
      ValueOnLine(s, |k| + 1, w, e);
    }
    MatchOfValue(s, k, v, e);
  }

  /** A first line opening with a key and holding its value: the directive ends at the end of the line. */
  lemma MatchOnFirstLine(s: string)
    requires FirstLineDirective(s) != []
    ensures MatchAt(s) == Some((FirstLineDirective(s)[0], LineEnd(s)))
  {
    var k := KeyAt(s).value;
    var w := WhitespaceRun(s[|k| + 1..]);
    var e := LineEnd(s);
    assert |k| + 1 + w < e && FirstLineDirective(s)[0] == Directive(k, s[|k| + 1 + w..e]);
    assert |k| + 1 + w + LineEnd(s[|k| + 1 + w..]) == e by {
      LineEndSuffix(s, |k| + 1 + w);
    }
    MatchToLineEnd(s, k, w, e);
  }

  /** The scan after the first line: from the line terminator on, or nothing at the end of the text. */
  function ScanAfterFirstLine(s: string): seq<Directive> {
    var e := LineEnd(s);
    if e < |s| then Scan(s[e + 1..], true) else []
  }

  /** A first line that holds a directive: the scan yields it and goes on after the line terminator. */
  lemma ScanFirstLineDirective(s: string)
    requires FirstLineDirective(s) != []
    ensures Scan(s, true) == FirstLineDirective(s) + ScanAfterFirstLine(s)
  {
    var e := LineEnd(s);
    MatchOnFirstLine(s);
    assert Scan(s, true) == FirstLineDirective(s) + Scan(s[e..], false);
    if e < |s| {
      ScanAtTerminator(s[e..], false);
      assert s[e..][1..] == s[e + 1..];
    }
  }

  /** A first line that opens with no key: the scan yields nothing for it. */
  lemma ScanFirstLineNone(s: string)
    requires KeyAt(s).None?
    ensures Scan(s, true) == ScanAfterFirstLine(s)
  {
    var e := LineEnd(s);
    assert MatchAt(s).None?;
    ScanCopiesLine(s, e, true);
    if e < |s| {
      ScanAtTerminator(s[e..], e == 0);
      assert s[e..][1..] == s[e + 1..];
    }
  }

  /**
    The scan, line by line, for a query whose key lines hold their values: a
    line opening with a key and a colon yields that key with the rest of the
    line after the whitespace, and every other line yields nothing.
   */
  lemma {:induction false} ScanByLine(s: string)
    requires ValuesOnTheirLines(s)
    ensures Scan(s, true) == ScanLines(s)
    decreases |s|
  {
    var e := LineEnd(s);
    if FirstLineDirective(s) != [] {
      ScanFirstLineDirective(s);
    } else {
      ScanFirstLineNone(s);
    }
    if e < |s| {
      ScanByLine(s[e + 1..]);
    }
  }
}
