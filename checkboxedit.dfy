/**
  Toggling a task checkbox from a rendered search result
  (src/search-renderer.ts:59-105). The markdown renderer of a match calls
  `edit` with its re-serialised text after a checkbox was clicked; `edit`
  re-reads the note, finds the first line of the match whose checkbox state
  differs from the rendered one, writes that one state character back, and
  leaves the note alone in every other case.

  The cached note text, the match range and the rendered text are
  parameters; the vault write is the `Rewrite` outcome; an access to a
  rendered line that does not exist throws inside the async method, which
  is the `Crash` outcome (the note is not touched).
 */
module CheckboxEdit {
  import opened Text

  predicate IsListMarker(c: char) {
    c == '-' || c == '*'
  }

  /** `[\-\*] \[.\] ` matches at `k` (`.` is any character but a line terminator). */
  predicate CheckboxAt(s: string, k: nat) {
    k + 6 <= |s| && IsListMarker(s[k]) && s[k + 1] == ' ' && s[k + 2] == '['
    && !IsLineTerminator(s[k + 3]) && s[k + 4] == ']' && s[k + 5] == ' '
  }

  /**
    The first checkbox at or after `k`. The unanchored `[ ]*[\-\*] \[(.)\] `
    captures the state of this checkbox: a match that starts earlier can
    only start on the spaces right before it.
   */
  function FirstCheckboxFrom(s: string, k: nat): (r: Option<nat>)
    requires k <= |s|
    ensures r.Some? ==> k <= r.value && CheckboxAt(s, r.value)
                        && forall j :: k <= j < r.value ==> !CheckboxAt(s, j)
    ensures r.None? ==> forall j :: k <= j <= |s| ==> !CheckboxAt(s, j)
    decreases |s| - k
  {
    if CheckboxAt(s, k) then Some(k)
    else if k == |s| then None
    else FirstCheckboxFrom(s, k + 1)
  }

  function FirstCheckbox(s: string): Option<nat> {
    FirstCheckboxFrom(s, 0)
  }

  /** The state character of a line's first checkbox. */
  function CheckState(s: string): (c: char)
    requires FirstCheckbox(s).Some?
    ensures !IsLineTerminator(c)
  {
    s[FirstCheckbox(s).value + 3]
  }

  /** The number of leading spaces (`[ ]*` from the start). */
  function LeadingSpaces(s: string): (n: nat)
    ensures n <= |s| && forall i :: 0 <= i < n ==> s[i] == ' '
    ensures n < |s| ==> s[n] != ' '
    decreases |s|
  {
    if s != [] && s[0] == ' ' then 1 + LeadingSpaces(s[1..]) else 0
  }

  /** `^([ ]*[\-\*] )\[.\] `: the line opens with a checkbox after nothing but spaces. */
  predicate AnchoredCheckbox(s: string) {
    CheckboxAt(s, LeadingSpaces(s))
  }

  /**
    `replace(/^([ ]*[\-\*] )\[.\] /, "$1[c] ")`: the state character of an
    anchored checkbox becomes `c`; any other line is left as it is.
   */
  function SetCheck(s: string, c: char): (r: string)
    ensures |r| == |s|
    ensures !AnchoredCheckbox(s) ==> r == s
    ensures AnchoredCheckbox(s) ==> r == s[LeadingSpaces(s) + 3 := c]
  {
    if AnchoredCheckbox(s) then s[LeadingSpaces(s) + 3 := c] else s
  }

  /** After the anchored replacement the line still opens with a checkbox, and that checkbox reads `c`. */
  lemma SetCheckReads(s: string, c: char)
    requires AnchoredCheckbox(s) && !IsLineTerminator(c)
    ensures AnchoredCheckbox(SetCheck(s, c)) && FirstCheckbox(SetCheck(s, c)).Some?
    ensures CheckState(SetCheck(s, c)) == c
  {
    var r := SetCheck(s, c);
    assert LeadingSpaces(r) == LeadingSpaces(s) by {
      LeadingSpacesKept(s, r, LeadingSpaces(s) + 3);
    }
    AnchoredIsFirst(r);
  }

  /** Two strings that agree up to `k`, past the leading spaces of one, have the same leading spaces. */
  lemma {:induction false} LeadingSpacesKept(s: string, r: string, k: nat)
    requires LeadingSpaces(s) < k <= |s| && k <= |r| && r[..k] == s[..k]
    ensures LeadingSpaces(r) == LeadingSpaces(s)
    decreases |s|
  {
    if s[0] == ' ' {
      assert r[1..][..k - 1] == r[..k][1..] && s[1..][..k - 1] == s[..k][1..];
      LeadingSpacesKept(s[1..], r[1..], k - 1);
    } else {
      assert r[0] == s[..k][0];
    }
  }

  /** An anchored checkbox is the first checkbox of its line: only spaces come before it. */
  lemma AnchoredIsFirst(s: string)
    requires AnchoredCheckbox(s)
    ensures FirstCheckbox(s) == Some(LeadingSpaces(s))
  {
    var n := LeadingSpaces(s);
    forall j | 0 <= j < n
      ensures !CheckboxAt(s, j)
    {
      assert s[j] == ' ';
    }
    var r := FirstCheckbox(s);
    assert r.Some?;
  }

  /** How the loop over the lines ends. */
  datatype Scan = Changed(at: nat, state: char) | Unchanged | Missing

  /**
    A line decides the edit when it has a checkbox and either the rendered
    text has no such line or that line's checkbox state differs.
   */
  predicate Decisive(lines: seq<string>, rendered: seq<string>, i: nat)
    requires i < |lines|
  {
    FirstCheckbox(lines[i]).Some?
    && (i >= |rendered| || (FirstCheckbox(rendered[i]).Some? && CheckState(rendered[i]) != CheckState(lines[i])))
  }

  /** The lines from `i` on, until the first deciding line. */
  function FindChange(lines: seq<string>, rendered: seq<string>, i: nat): (r: Scan)
    requires i <= |lines|
    ensures r.Changed? ==> i <= r.at < |lines| && r.at < |rendered| && Decisive(lines, rendered, r.at)
                           && r.state == CheckState(rendered[r.at])
    decreases |lines| - i
  {
    if i == |lines| then Unchanged
    else if !Decisive(lines, rendered, i) then FindChange(lines, rendered, i + 1)
    else if i >= |rendered| then Missing
    else Changed(i, CheckState(rendered[i]))
  }

  /** The least deciding line from `i` on. */
  predicate FirstDecisive(lines: seq<string>, rendered: seq<string>, i: nat, j: nat) {
    i <= j < |lines| && Decisive(lines, rendered, j)
    && forall t :: i <= t < j ==> !Decisive(lines, rendered, t)
  }

  /**
    The loop's outcome read declaratively: the first deciding line changes
    when its rendered counterpart exists, the edit throws when it does not,
    and nothing changes when no line decides.
   */
  lemma {:induction false} FindChangeFirst(lines: seq<string>, rendered: seq<string>, i: nat)
    requires i <= |lines|
    ensures FindChange(lines, rendered, i) == Unchanged <==> forall t :: i <= t < |lines| ==> !Decisive(lines, rendered, t)
    ensures forall j: nat :: FirstDecisive(lines, rendered, i, j) ==>
              FindChange(lines, rendered, i) == if j < |rendered| then Changed(j, CheckState(rendered[j])) else Missing
    decreases |lines| - i
  {
    if i < |lines| {
      FindChangeFirst(lines, rendered, i + 1);
      forall j: nat | FirstDecisive(lines, rendered, i, j) && j > i
        ensures FirstDecisive(lines, rendered, i + 1, j)
      {
      }
    }
  }

  /** The lines after the loop. */
  function Applied(lines: seq<string>, r: Scan): (ls: seq<string>)
    ensures |ls| == |lines|
  {
    if r.Changed? && r.at < |lines| then lines[r.at := SetCheck(lines[r.at], r.state)] else lines
  }

  datatype Outcome = Rewrite(content: string) | NoChange | Crash

  /** What `edit` does with the note text `cached`, the match range and the rendered text. */
  function EditSpec(cached: string, start: int, end: int, rendered: string): Outcome {
    var matchContent := JsSlice(cached, start, end);
    if FirstCheckbox(matchContent).None? then NoChange
    else
      var lines := Split(matchContent);
      var r := FindChange(lines, Split(rendered), 0);
      var newContent := Join(Applied(lines, r));
      if r.Missing? then Crash
      else if r.Changed? && newContent != matchContent then
        Rewrite(JsSlice(cached, 0, start) + newContent + JsSubstring(cached, end, |cached|))
      else NoChange
  }

  /**
    The loop of `edit` over the lines of a match that has a checkbox: the
    joined new content and the `checkboxChanged` flag, or `crashed` when a
    rendered line that the loop reads does not exist.
   */
  method UpdateLines(lineSplit: seq<string>, renderedContentSplit: seq<string>)
      returns (newContent: string, checkboxChanged: bool, crashed: bool)
    ensures var r := FindChange(lineSplit, renderedContentSplit, 0);
            crashed == r.Missing?
            && (!crashed ==> checkboxChanged == r.Changed? && newContent == Join(Applied(lineSplit, r)))
  {
    ghost var r := FindChange(lineSplit, renderedContentSplit, 0);
    ghost var target := Applied(lineSplit, r);
    newContent := "";
    checkboxChanged := false;
    crashed := false;
    for i := 0 to |lineSplit|
      invariant newContent == Join(target[..i])
      invariant !checkboxChanged ==> r == FindChange(lineSplit, renderedContentSplit, i)
      invariant checkboxChanged ==> r.Changed? && r.at < i
    {
      var eachLine := lineSplit[i];
      var updatedCheckbox := eachLine;
      if FirstCheckbox(eachLine).Some? && !checkboxChanged {
        if i >= |renderedContentSplit| {
          crashed := true;
          return;
        }
        var renderedLine := renderedContentSplit[i];
        if FirstCheckbox(renderedLine).Some? {
          if CheckState(eachLine) != CheckState(renderedLine) {
            checkboxChanged := true;
            updatedCheckbox := SetCheck(updatedCheckbox, CheckState(renderedLine));
          }
        }
      }
      assert target[i] == updatedCheckbox by {
        if !(r.Changed? && r.at == i) {
          assert target[i] == lineSplit[i];
        }
      }
      JoinPrefix(target, i);
      if i > 0 {
        newContent := newContent + "\n";
      }
      newContent := newContent + updatedCheckbox;
    }
    assert target[..|lineSplit|] == target;
  }

  /** `SearchMarkdownRenderer.edit`. */
  method Edit(cached: string, start: int, end: int, content: string) returns (res: Outcome)
    ensures res == EditSpec(cached, start, end, content)
  {
    var matchContent := JsSlice(cached, start, end);
    var newContent := "";
    var checkboxChanged := false;
    if FirstCheckbox(matchContent).Some? {
      var crashed;
      newContent, checkboxChanged, crashed := UpdateLines(Split(matchContent), Split(content));
      if crashed {
        return Crash;
      }
    }
    if checkboxChanged && newContent != matchContent {
      var before := JsSlice(cached, 0, start);
      var after := JsSubstring(cached, end, |cached|);
      res := Rewrite(before + newContent + after);
    } else {
      res := NoChange;
    }
  }

  /** A match without a checkbox never changes the note. */
  lemma NoCheckboxNoChange(cached: string, start: int, end: int, rendered: string)
    requires FirstCheckbox(JsSlice(cached, start, end)).None?
    ensures EditSpec(cached, start, end, rendered) == NoChange
  {
  }

  /** Where line `i` starts in `Join(ls)`. */
  function Offset(ls: seq<string>, i: nat): nat
    requires i <= |ls|
    decreases i
  {
    if i == 0 then 0 else |ls[0]| + 1 + Offset(ls[1..], i - 1)
  }

  /** Changing one character of one line changes exactly that character of the joined text. */
  lemma {:induction false} JoinUpdate(ls: seq<string>, i: nat, q: nat, c: char)
    requires i < |ls| && q < |ls[i]|
    ensures Offset(ls, i) + q < |Join(ls)| && Join(ls)[Offset(ls, i) + q] == ls[i][q]
    ensures Join(ls[i := ls[i][q := c]]) == Join(ls)[Offset(ls, i) + q := c]
    decreases i
  {
    var x := ls[i][q := c];
    if i == 0 {
      if |ls| > 1 {
        assert ls[0 := x][1..] == ls[1..];
      }
    } else {
      assert ls[i := x][1..] == ls[1..][i - 1 := x];
      assert ls[1..][i - 1] == ls[i];
      JoinUpdate(ls[1..], i - 1, q, c);
      var rest := Join(ls[1..]);
      var k := Offset(ls[1..], i - 1) + q;
      assert (ls[0] + "\n" + rest)[|ls[0]| + 1 + k := c] == ls[0] + "\n" + rest[k := c];
    }
  }

  /** Setting the state of line `i` changes at most its state character in the joined text. */
  lemma SetCheckJoined(lines: seq<string>, i: nat, c: char)
    requires i < |lines|
    ensures var q := Offset(lines, i) + LeadingSpaces(lines[i]) + 3;
            var j := Join(lines[i := SetCheck(lines[i], c)]);
            j != Join(lines) ==>
              AnchoredCheckbox(lines[i]) && q < |Join(lines)| && j == Join(lines)[q := c]
              && FirstCheckbox(lines[i]).Some? && Join(lines)[q] == CheckState(lines[i])
  {
    if AnchoredCheckbox(lines[i]) {
      JoinUpdate(lines, i, LeadingSpaces(lines[i]) + 3, c);
      AnchoredIsFirst(lines[i]);
    } else {
      assert lines[i := lines[i]] == lines;
    }
  }

  /** Replacing one character inside a slice replaces it in the whole text. */
  lemma SpliceOneChar(s: string, a: nat, b: nat, q: nat, c: char)
    requires a <= b <= |s| && q < b - a
    ensures s[..a] + s[a..b][q := c] + s[b..] == s[a + q := c]
  {
    var l := s[..a] + s[a..b][q := c] + s[b..];
    forall k | 0 <= k < |s|
      ensures l[k] == s[a + q := c][k]
    {
      if k < a {
      } else if k < b {
        assert l[k] == s[a..b][q := c][k - a];
      }
    }
  }

  /**
    `f` is `a` with one character inside `[start, end)` replaced by another,
    neither of them a line terminator: the lines of the note stay the same.
   */
  predicate OneCharChanged(a: string, f: string, start: nat, end: nat) {
    |f| == |a| && start <= end <= |a| && f[..start] == a[..start] && f[end..] == a[end..]
    && exists p :: start <= p < end && f == a[p := f[p]] && f[p] != a[p]
                   && !IsLineTerminator(f[p]) && !IsLineTerminator(a[p])
  }

  lemma UpdateIsOneChar(a: string, p: nat, c: char, start: nat, end: nat)
    requires start <= p < end <= |a| && c != a[p] && !IsLineTerminator(c) && !IsLineTerminator(a[p])
    ensures OneCharChanged(a, a[p := c], start, end)
  {
    var f := a[p := c];
    assert f[..start] == a[..start];
    assert f[end..] == a[end..];
    assert f == a[p := f[p]];
  }

  /** One character replaced inside the match is one character replaced in the note. */
  lemma SpliceChar(cached: string, start: nat, end: nat, q: nat, c: char, j: string)
    requires start <= end <= |cached| && q < end - start && j == cached[start..end][q := c]
    requires c != cached[start + q] && !IsLineTerminator(c) && !IsLineTerminator(cached[start + q])
    ensures OneCharChanged(cached, cached[..start] + j + cached[end..], start, end)
  {
    SpliceOneChar(cached, start, end, q, c);
    UpdateIsOneChar(cached, start + q, c, start, end);
  }

  lemma SpliceLine(cached: string, start: nat, end: nat, lines: seq<string>, i: nat, c: char)
    requires start <= end <= |cached| && Join(lines) == cached[start..end] && i < |lines|
    requires !IsLineTerminator(c) && (FirstCheckbox(lines[i]).Some? ==> c != CheckState(lines[i]))
    requires Join(lines[i := SetCheck(lines[i], c)]) != cached[start..end]
    ensures OneCharChanged(cached, cached[..start] + Join(lines[i := SetCheck(lines[i], c)]) + cached[end..], start, end)
  {
    var m := cached[start..end];
    var j := Join(lines[i := SetCheck(lines[i], c)]);
    var q := Offset(lines, i) + LeadingSpaces(lines[i]) + 3;
    assert q < |m| && j == m[q := c] && m[q] != c && !IsLineTerminator(m[q]) by {
      SetCheckJoined(lines, i, c);
    }
    assert cached[start + q] == m[q];
    SpliceChar(cached, start, end, q, c, j);
  }

  /** The state character of a line that opens with a checkbox sits between brackets in the joined text. */
  lemma BracketsAround(lines: seq<string>, i: nat)
    requires i < |lines| && AnchoredCheckbox(lines[i])
    ensures var q := Offset(lines, i) + LeadingSpaces(lines[i]) + 3;
            0 < q && q + 1 < |Join(lines)| && Join(lines)[q - 1] == '[' && Join(lines)[q + 1] == ']'
  {
    var k := LeadingSpaces(lines[i]);
    JoinUpdate(lines, i, k + 2, '[');
    JoinUpdate(lines, i, k + 4, ']');
  }

  /**
    `content` is `cached` with the state character of line `i` of the match
    (between its checkbox brackets) replaced by `c`.
   */
  predicate StateFlipped(cached: string, start: nat, end: nat, lines: seq<string>, i: nat, c: char, content: string)
    requires i < |lines|
  {
    var p := start + Offset(lines, i) + LeadingSpaces(lines[i]) + 3;
    && start < p && p + 1 < end && end <= |cached| && cached[p - 1] == '[' && cached[p + 1] == ']'
    && FirstCheckbox(lines[i]).Some? && cached[p] == CheckState(lines[i])
    && content == cached[p := c]
  }

  /** Splicing a changed line back replaces the state between the brackets of its checkbox in the note. */
  lemma SpliceAtState(cached: string, start: nat, end: nat, lines: seq<string>, i: nat, c: char)
    requires start <= end <= |cached| && Join(lines) == cached[start..end] && i < |lines|
    requires Join(lines[i := SetCheck(lines[i], c)]) != cached[start..end]
    ensures StateFlipped(cached, start, end, lines, i, c, cached[..start] + Join(lines[i := SetCheck(lines[i], c)]) + cached[end..])
  {
    var m := cached[start..end];
    var q := Offset(lines, i) + LeadingSpaces(lines[i]) + 3;
    assert AnchoredCheckbox(lines[i]) && q < |m| && Join(lines[i := SetCheck(lines[i], c)]) == m[q := c]
           && m[q] == CheckState(lines[i]) && FirstCheckbox(lines[i]).Some? by {
      SetCheckJoined(lines, i, c);
    }
    assert m[q - 1] == '[' && m[q + 1] == ']' && q + 1 < |m| by {
      BracketsAround(lines, i);
    }
    assert cached[start + q] == m[q] && cached[start + q - 1] == m[q - 1] && cached[start + q + 1] == m[q + 1];
    SpliceOneChar(cached, start, end, q, c);
  }

  /** The rewrite branch of `edit` puts the changed line back between the untouched parts of the note. */
  lemma RewriteForm(cached: string, start: nat, end: nat, rendered: string)
    requires start <= end <= |cached|
    ensures var lines := Split(cached[start..end]);
            var r := FindChange(lines, Split(rendered), 0);
            EditSpec(cached, start, end, rendered).Rewrite? ==>
              r.Changed? && r.at < |lines|
              && Join(lines[r.at := SetCheck(lines[r.at], r.state)]) != cached[start..end]
              && EditSpec(cached, start, end, rendered).content
                 == cached[..start] + Join(lines[r.at := SetCheck(lines[r.at], r.state)]) + cached[end..]
  {
    assert JsSlice(cached, start, end) == cached[start..end];
    assert JsSlice(cached, 0, start) == cached[..start];
    assert JsSubstring(cached, end, |cached|) == cached[end..];
  }

  /**
    A rewrite changes a single character of the match, from the line's
    checkbox state to its rendered state; the note keeps its length and
    everything outside the match (which character, and its new value, is
    `EditFlipsState`).
   */
  lemma EditChangesOneChar(cached: string, start: nat, end: nat, rendered: string)
    requires start <= end <= |cached|
    ensures EditSpec(cached, start, end, rendered).Rewrite? ==>
              OneCharChanged(cached, EditSpec(cached, start, end, rendered).content, start, end)
  {
    var lines := Split(cached[start..end]);
    var r := FindChange(lines, Split(rendered), 0);
    RewriteForm(cached, start, end, rendered);
    if EditSpec(cached, start, end, rendered).Rewrite? {
      JoinSplit(cached[start..end]);
      SpliceLine(cached, start, end, lines, r.at, r.state);
    }
  }

  /**
    The character a rewrite changes is the one between the brackets of the
    first changed checkbox line, and its new value is the state of the
    rendered line at the same index.
   */
  lemma EditFlipsState(cached: string, start: nat, end: nat, rendered: string)
    requires start <= end <= |cached|
    ensures var lines := Split(cached[start..end]);
            var r := FindChange(lines, Split(rendered), 0);
            EditSpec(cached, start, end, rendered).Rewrite? ==>
              && r.Changed? && r.at < |Split(rendered)| && r.state == CheckState(Split(rendered)[r.at])
              && StateFlipped(cached, start, end, lines, r.at, r.state, EditSpec(cached, start, end, rendered).content)
  {
    var lines := Split(cached[start..end]);
    var r := FindChange(lines, Split(rendered), 0);
    var e := EditSpec(cached, start, end, rendered);
    if e.Rewrite? {
      RewriteForm(cached, start, end, rendered);
      JoinSplit(cached[start..end]);
      SpliceAtState(cached, start, end, lines, r.at, r.state);
    }
  }

  /** A checkbox in one line of the match is a checkbox of the joined match text. */
  lemma CheckboxInJoin(lines: seq<string>, i: nat)
    requires i < |lines| && FirstCheckbox(lines[i]).Some?
    ensures FirstCheckbox(Join(lines)).Some?
  {
    var l := lines[i];
    var k := FirstCheckbox(l).value;
    var p := Offset(lines, i) + k;
    var s := Join(lines);
    JoinAt(lines, i, k);
    JoinAt(lines, i, k + 1);
    JoinAt(lines, i, k + 2);
    JoinAt(lines, i, k + 3);
    JoinAt(lines, i, k + 4);
    JoinAt(lines, i, k + 5);
    assert CheckboxAt(s, p);
  }

  /** Character `q` of line `i` is character `Offset(lines, i) + q` of the joined text. */
  lemma JoinAt(lines: seq<string>, i: nat, q: nat)
    requires i < |lines| && q < |lines[i]|
    ensures Offset(lines, i) + q < |Join(lines)| && Join(lines)[Offset(lines, i) + q] == lines[i][q]
  {
    JoinUpdate(lines, i, q, lines[i][q]);
  }

  /**
    A checkbox toggle is written back exactly when the loop finds a line
    whose state differs from the rendered one and that line opens with its
    checkbox (a changed line whose checkbox sits after other text leaves
    `newContent` equal to the match, so the note is not written).
   */
  lemma ToggleIsWritten(cached: string, start: int, end: int, rendered: string)
    ensures var lines := Split(JsSlice(cached, start, end));
            var r := FindChange(lines, Split(rendered), 0);
            EditSpec(cached, start, end, rendered).Rewrite? <==> r.Changed? && AnchoredCheckbox(lines[r.at])
  {
    var m := JsSlice(cached, start, end);
    var lines := Split(m);
    var r := FindChange(lines, Split(rendered), 0);
    JoinSplit(m);
    if r.Changed? {
      var l := lines[r.at];
      CheckboxInJoin(lines, r.at);
      if AnchoredCheckbox(l) {
        ChangedLineWritten(lines, r.at, r.state);
      } else {
        assert Applied(lines, r) == lines;
      }
    }
  }

  /** Setting a different state on an anchored line changes the joined text. */
  lemma ChangedLineWritten(lines: seq<string>, i: nat, c: char)
    requires i < |lines| && AnchoredCheckbox(lines[i]) && FirstCheckbox(lines[i]).Some? && c != CheckState(lines[i])
    ensures Join(lines[i := SetCheck(lines[i], c)]) != Join(lines)
  {
    var l := lines[i];
    var q := LeadingSpaces(l) + 3;
    AnchoredIsFirst(l);
    JoinUpdate(lines, i, q, c);
    assert Join(lines[i := SetCheck(l, c)])[Offset(lines, i) + q] == c;
  }
}
