# Query control for embedded searches — a Dafny model

This project models the core of an Obsidian plugin. The plugin adds controls to embedded `query` blocks, the search pane and the backlinks pane. It also renders search matches as markdown and writes a toggled checkbox back into its note.

The model covers seven areas. Each section below pairs it with its module.

- **Directive parser.** This is the `onload` wrapper of an embedded search (module `Directives`, with `Views.View.OnLoad`).
  - Lines `key: value` for seven keys become settings. A `true`/`false` written in any letter case becomes a boolean.
  - Those lines are removed from the query. The rest is trimmed and shown.
  - The header is the `title` directive, or else the shown query.
- **Settings merge.** This is the `allSettings` overlay of the inline query, the search view and the backlinks view (module `Settings`, with `Views.View.MergeDefaults`).
  - A missing key takes its default.
  - A `sort` that is not a sort option is reset.
- **Reconciliation sweep.** This is `spmCleanupPatch` (`Views.RenderComponent`, `Views.View.Sweep`).
  - It finds the nearest render component: self, parent, then grandparent.
  - It removes and unloads every markdown renderer whose element has left the document.
- **Small state rules.**
  - `stopSearch` replaces the render component.
  - The zero-width `onResize` rule collapses the rows.
  - The discovery wrapper of `Component.addChild` patches each host class once and records backlinks panes (module `Discovery`).
- **Render transform.** This is the content transform of a search match (module `Transform`):
  - per-line removal of the indentation;
  - code-block escaping;
  - distinct highlight words;
  - link escaping and highlighting;
  - escaping of the first fence, of `query` fences and of frontmatter.

  It also includes `escapeRegExp`.
- **Checkbox edit merge.** This is `SearchMarkdownRenderer.edit` (module `CheckboxEdit`). The first checkbox whose state differs from the rendered text is flipped. That single character is spliced back into the note.
- **JavaScript string operations.** Module `Text` holds what the code relies on:
  - `split`/join on `"\n"`;
  - `trim` with the JavaScript whitespace set;
  - `substring`/`slice` with their clamping and swapping;
  - literal `replace`;
  - line ends under the `m` flag (`\n`, `\r`, U+2028, U+2029).

Each regular expression of the code is written out as a scanner over the rest of the text. A flag records whether the scan stands at a line start, which is what `^` means under the `m` flag. Mutable objects are classes:
- the render component and its renderers;
- the views with their parent links;
- the result rows;
- the plugin's patch flags.

Pure steps are functions. Every loop of the code is a method with invariants, proved against a specification function. The properties that function has are proved as lemmas.

## Model

| member | source | states |
|---|---|---|
| Directives.KeyAt | src/main.ts:573 | the key alternation at a line start: a result is one of the seven keys followed by `:`; no result means no key followed by `:` starts the text |
| Directives.ValueAt | src/main.ts:573 | `\s*(.+?)$` after the colon: the value is non-empty, lies on one line, and ends at a line terminator or at the end of the text; when the whitespace run stops before the end of the text, the value starts right after that run and runs to the end of its line; leading whitespace may cross line ends |
| Directives.ValueOnLine | src/main.ts:573 | when `\s*` stops before the end of the text, the value is exactly the text from the end of the whitespace run to the end of that line |
| Directives.ValueInTrailingSpace | src/main.ts:573 | when only whitespace follows the colon, there is a value exactly when some of it is not a line terminator; the value is then one character, followed only by line terminators |
| Directives.LastValueCharTrailing | src/main.ts:573 | `.+?` after an all-whitespace rest takes the last character that is not a line terminator, and exists exactly when there is one |
| Directives.MatchAt | src/main.ts:572-574 | one directive match: its key is the key that opens the line; its value is a non-empty single-line slice of the text ending at a line end |
| Directives.MatchToLineEnd | src/main.ts:572-574 | a key, its colon and whitespace that stops before the end of the text give the directive of that key whose value is the rest of the line after the whitespace |
| Directives.Scan | src/main.ts:572-576 | every match of `matchAll` has one of the seven keys and a non-empty value |
| Directives.FirstLineDirective | src/main.ts:572-576 | what one line yields: at most one directive, the key the line opens with and the rest of the line after the whitespace |
| Directives.ScanFirstLineDirective | src/main.ts:572-576 | a first line holding a directive: `matchAll` yields that directive first and then goes on after the line terminator |
| Directives.ScanFirstLineNone | src/main.ts:572-576 | a first line that opens with no key yields no match; `matchAll` goes on after the line terminator |
| Directives.ScanByLine | src/main.ts:572-576 | when every key line holds its value, `matchAll` yields, line by line and in order, one directive for each line that opens with a key and a colon (that key, and the rest of the line after the whitespace), and nothing for any other line |
| Directives.NormalizeFlags | src/main.ts:577-580 | a value becomes `true`/`false` exactly when it spells that word in some mix of letter cases; any other value is kept as written, not lower-cased |
| Directives.CollectKeys | src/main.ts:575-582 | the settings object has exactly the keys of the directives found |
| Directives.CollectLastWins | src/main.ts:581 | the value stored for a key is the normalized value of its last directive, so a later duplicate overwrites an earlier one |
| Directives.CollectNonEmpty | src/main.ts:576-581 | no collected string value is empty |
| Directives.ParseQuery | src/main.ts:572-586 | the loop builds the collected settings, whose keys are directive keys; the shown query is the text with directive lines removed, then trimmed; the header is the `title` string, "true" for a true title, and otherwise the shown query |
| Directives.RemovableFirstLine | src/main.ts:584 | the removal matches at a line start exactly when that line is a directive line (a key, a colon and at least one more character) |
| Directives.StripDirectivesByLine | src/main.ts:583-584 | the removal, line by line: every directive line becomes empty, and every other line and every line terminator is kept |
| Settings.EntryMap | src/main.ts:390-398 | the `allSettings` object maps each listed key to its default and has no other key |
| Settings.Overlay | src/main.ts:399-406 | the merged map has the keys of the view's settings plus those of the defaults |
| Settings.MergeEntriesIsOverlay | src/main.ts:400-406 | the `forEach` over the entries, step by step, computes the key-by-key overlay of the defaults |
| Settings.OverlayCoversDefaults | src/main.ts:400-402 | after the merge every default key and every key the view had is present, and a key the view was missing holds its default value |
| Settings.OverlayKeepsOrResetsSort | src/main.ts:401-405 | a value the view already has is kept, except a `sort` that is not a sort option, which the default replaces |
| Settings.OverlayIdempotent | src/main.ts:399-406 | running the merge twice gives the same map as running it once |
| Settings.QueryDefaultsDistinct | src/main.ts:390-398 | the inline-query defaults name each of their seven keys once |
| Views.View.MergeDefaults | src/main.ts:252-262 | a missing settings object is created; the loop leaves the overlay of the defaults; every other field of the view (parent, result list, query, render component, header, `hidden`, collapse state, rows) is unchanged (the same block appears at src/main.ts:399-406 and src/main.ts:689-696) |
| Views.View.FirstOwner | src/main.ts:711-728 | the render component found on a chain of views is null only when no view on it has one, and otherwise belongs to a view on it |
| Views.View.OwnerIsNearest | src/main.ts:711-728 | owner resolution gives the nearest render component on the chain self, parent, grandparent |
| Views.Connected | src/main.ts:733-737 | the kept renderers are attached ones taken from the list, and every attached renderer of the list is kept |
| Views.Disconnected | src/main.ts:733-737 | the collected renderers are detached ones from the list, and every detached renderer of the list is collected |
| Views.RenderComponent.DetachedChildren | src/main.ts:732-737 | the first loop builds `removeComponents`: the detached children, in order |
| Views.RemoveNextDisconnected | src/main.ts:739-743 | each `removeChild` in the second loop finds its renderer still a child and takes out exactly that one |
| Views.RemoveAllDisconnected | src/main.ts:739-743 | removing every detached child one by one leaves exactly the connected children, in their original order |
| Views.RenderComponent.RemoveChild | src/main.ts:741 | `removeChild` takes out the first occurrence of a present child and unloads it, and leaves an absent one alone |
| Views.RenderComponent.RemoveEach | src/main.ts:739-743 | the second loop calls `removeChild` on each listed renderer; every listed child ends unloaded, and unlisted children keep their state |
| Views.RenderComponent.Evict | src/main.ts:730-745 | the children left are exactly the connected ones, in order; every detached child is unloaded; connected children keep their loaded state |
| Views.View.Sweep | src/main.ts:707-747 | with an owner, the owner keeps exactly its connected renderers and its own `loaded` flag; the detached ones are unloaded and the connected ones keep their state; the owner found is unchanged; without an owner nothing is modified |
| Views.View.StopSearch | src/main.ts:219-222 | an existing render component is unloaded and replaced by a fresh, empty, unloaded one; without one nothing changes; every other field of the view is unchanged |
| Views.View.OnResize | src/main.ts:199-212 | a zero width collapses every row and sets `hidden`; a non-zero width clears `hidden` and leaves the rows as they were; the row list, the collapse-all state and every other field of the view are unchanged |
| Views.View.SettleCollapse | src/main.ts:207-211 | the delayed step gives every row the list's collapse-all state |
| Views.View.EnsureRenderComponent | src/main.ts:564-567 | a missing render component is created and loaded, and an existing one is kept; every other field of the view is unchanged |
| Views.View.OnLoad | src/main.ts:562-588 | the render component exists afterwards; the result list points back to the view; the query becomes the stripped and trimmed text and the list's settings become the collected directives; a null result list or a missing parent element stops the wrapper before the query changes, and a missing header stops it before the header and settings are set; the view's other fields and the result list's other fields are unchanged |
| Views.View.ApplyDirectives | src/main.ts:572-586 | the directive step: the query loses its directive lines and is trimmed; with a header, the result list takes the collected directives and the header its text; without one, both stay as they were; nothing else of the view or the result list changes |
| Discovery.Step | src/main.ts:124-142 | the search flag becomes set exactly when a patchable embedded search arrives, and that child is recorded once |
| Discovery.Plugin.AddChild | src/main.ts:124-142 | the wrapper's body leaves the plugin's fields in exactly the state of the discovery step |
| Discovery.FirstPatchableSearch | src/main.ts:124-132 | the first child that is an embedded search with an object `dom`, or none |
| Discovery.FirstPanedBacklinks | src/main.ts:135-137 | the first backlinks child that has a pane element, or none |
| Discovery.SearchPatchedOnce | src/main.ts:124-134 | over any run of children, the embedded-search class is patched once, with the first patchable search child, and only when not already patched |
| Discovery.BacklinksPatchedOnce | src/main.ts:135-141 | over any run of children, the backlinks class is patched once, with the first backlinks child that has a pane |
| Discovery.BacklinksRecordStaysBounded | src/main.ts:138-141 | a run of children keeps the backlinks record bounded: no child is recorded as patched while the flag is clear, and at most one is recorded after |
| Discovery.PatchedAtMostOnce | src/main.ts:124-141 | from the initial state each class is patched at most once, for any children, including one that looks like both an embedded search and a backlinks pane |
| Discovery.LastForPane | src/main.ts:137 | the last backlinks child recorded under a pane, and no later child for that pane |
| Discovery.BacklinkDomsLast | src/main.ts:137 | every backlinks child is recorded under its pane; a pane is in the map exactly when some child named it; the entry is the last such child |
| Transform.LeadingWhitespace | src/main.ts:474 | `^\s+` on the content: the longest run of whitespace that opens it |
| Transform.StripLinePrefixByLine | src/main.ts:478 | for an indentation that holds no line terminator, the `^prefix` removal under `gm` works line by line: each line that starts with the prefix loses it, other lines stay |
| Transform.UnindentStart | src/main.ts:474-479 | content whose first non-space text is a fence still opens with the fence after indentation is removed |
| Transform.CodeBlockTest | src/main.ts:493 | `substring(0, 3) === "```"` is the same as the content starting with a fence |
| Transform.NoFenceNoEscape | src/main.ts:493-501 | content that does not start with three backticks skips the code-block escaping |
| Transform.EscapeCodeBlockNoDoubleTick | src/main.ts:493-501 | after the code-block escaping no two backticks are adjacent |
| Transform.EscapeRegExp | src/main.ts:749-751 | escaping never shortens the text |
| Transform.EscapeRegExpRoundTrip | src/main.ts:749-751 | removing the inserted backslashes gives the original text back |
| Transform.EscapeRegExpAllLiteral | src/main.ts:749-751 | in the result every listed metacharacter is preceded by a backslash, and every other character stands alone |
| Transform.EscapeRegExpChar | src/main.ts:749-751 | a metacharacter gets one backslash before it, and any other character is left as it is |
| Transform.EscapeRegExpAppend | src/main.ts:749-751 | the escape works character by character: escaping a concatenation concatenates the escapes |
| Transform.HighlightWordOnFirstLine | src/main.ts:503-505 | for a match on the first line of the content (anywhere, when there is no indentation), the word cut from the unindented content at the shifted offsets is the note text the match covers |
| Transform.IndentSkewsLaterLines | src/main.ts:474-505 | on a later line of indented content the word is cut one indentation too far: in `" ab\n cd"` the match 5..7 covers "cd" but gives the word "d" |
| Transform.DedupProperties | src/main.ts:503-509 | the highlight words are distinct, are exactly the matched words, and keep first-occurrence order |
| Transform.CollectWords | src/main.ts:503-509 | the `includes`/`push` loop computes the de-duplicated list of matched words |
| Transform.LinkAtBracketFree | src/main.ts:514 | for a word without brackets, the link pattern matches at `[[` exactly when a bracket-free name containing the word is followed by `]]` |
| Transform.LinkHighlight | src/main.ts:514-519 | a link whose whole name is the word ends up as `==[[word]]==` after the three replacements |
| Transform.HighlightAllNoDoubleTick | src/main.ts:511-520 | highlighting brings in no adjacent backticks |
| Transform.EscapeFirstFence | src/main.ts:522 | text without a fence is unchanged; with one, the escape adds six or nine characters |
| Transform.EscapeFirstFenceMatch | src/main.ts:522 | the first fence and the next fence after it (or the end of the text) are escaped, and the text between them is kept |
| Transform.FrontmatterStart | src/main.ts:526 | the result never opens with `---` |
| Transform.FrontmatterEnd | src/main.ts:526 | the result ends with `---` only for the input `-----` |
| Transform.QueryFenceIsFence | src/main.ts:524 | a `query` fence contains a fence, so text without fences has no `query` fence |
| Transform.Render | src/main.ts:481-530 | the host's own `render` runs exactly when there is no parent component or markdown rendering is off; on the markdown path, `addChild` throws exactly when the parent component has no render component |
| Transform.RenderMatch | src/main.ts:473-527 | the body's outcome is that of `Render`; on the markdown path one fresh renderer for the match element is appended to the render component and loaded with it, and the step-by-step reassignment of `newContent` computes the rendered text; otherwise the component's children are unchanged |
| Views.RenderComponent.AddChild | src/main.ts:491 | `addChild` appends the child and loads it when the owner is loaded |
| Transform.RecursionGuard | src/main.ts:471-526 | for a code-block match the rendered text contains no fence, no `query` fence and no adjacent backticks, so it cannot embed another query |
| Transform.RenderedPlain | src/main.ts:473-526 | an unindented match without fences, dashes at either end or highlights is rendered as it is |
| CheckboxEdit.FirstCheckboxFrom | src/search-renderer.ts:65 | the first position where `[ ]*[\-\*] \[.\] ` matches, or none when none does |
| CheckboxEdit.SetCheck | src/search-renderer.ts:79 | the anchored replacement keeps the length, puts `c` in place of the state character of a line that opens with a checkbox, and leaves a line that does not start with a checkbox unchanged |
| CheckboxEdit.SetCheckReads | src/search-renderer.ts:79 | after the replacement the line still opens with a checkbox, and its state is the new character |
| CheckboxEdit.AnchoredIsFirst | src/search-renderer.ts:73-79 | on a line that opens with a checkbox, the unanchored match finds that same checkbox |
| CheckboxEdit.FindChange | src/search-renderer.ts:68-83 | a reported change is at a checkbox line present in the rendered text, with the rendered state |
| CheckboxEdit.FindChangeFirst | src/search-renderer.ts:68-83 | no change exactly when no line is decisive; otherwise the change is at the first decisive line, or a crash when the rendered text has no line there |
| CheckboxEdit.Applied | src/search-renderer.ts:68-87 | the new match text has as many lines as the original |
| CheckboxEdit.UpdateLines | src/search-renderer.ts:66-88 | the `for` loop with `checkboxChanged` applies only the first change; it crashes exactly when the rendered text is missing that line |
| CheckboxEdit.Edit | src/search-renderer.ts:59-105 | the method's outcome is the specification's outcome: no change, a rewrite or a crash |
| CheckboxEdit.NoCheckboxNoChange | src/search-renderer.ts:65 | match text without a checkbox pattern gives no modification |
| CheckboxEdit.RewriteForm | src/search-renderer.ts:92-95 | a rewrite is `before + newContent + after`, where one line got the rendered state and differs from the original |
| CheckboxEdit.SetCheckJoined | src/search-renderer.ts:79-87 | a changed line differs from the joined match text in the one character inside its brackets |
| CheckboxEdit.SpliceLine | src/search-renderer.ts:92-95 | splicing the changed match text back changes exactly one character of the note, inside the match |
| CheckboxEdit.EditChangesOneChar | src/search-renderer.ts:59-105 | a rewrite keeps the note's length and all text outside the match; it changes exactly one character inside the match, to a different character, and neither the old nor the new character is a line terminator |
| CheckboxEdit.SpliceAtState | src/search-renderer.ts:79-95 | splicing a changed line back replaces the state character between the brackets of that line's checkbox in the note, and nothing else |
| CheckboxEdit.EditFlipsState | src/search-renderer.ts:68-95 | the character a rewrite changes sits between the brackets of the first changed checkbox line, held that line's state, and becomes the state of the rendered line at the same index |
| CheckboxEdit.CheckboxInJoin | src/search-renderer.ts:65-71 | a checkbox in one line of the match is a checkbox of the match text, so the loop only finds changes when the match passes its checkbox test |
| CheckboxEdit.ToggleIsWritten | src/search-renderer.ts:59-95 | the note is rewritten exactly when the loop finds a line whose state differs from the rendered one and that line opens with its checkbox; a changed checkbox that comes after other text on its line leaves `newContent` equal to the match, and nothing is written |
| Text.Split | src/search-renderer.ts:66-67 | `split("\n")` gives at least one piece, and no piece holds a newline |
| Text.JoinSplit | src/search-renderer.ts:84-87 | joining the split lines with `"\n"` gives the text back |
| Text.SplitJoin | src/search-renderer.ts:66 | splitting joined newline-free lines gives the lines back |
| Text.Trim | src/main.ts:585 | `trim` takes a slice with only whitespace outside it, and the result neither starts nor ends with whitespace |
| Text.JsSubstring | src/main.ts:473 | `substring` between two bounds in the text is the slice between them, in either order; a bound below 0 acts as 0 and one above the length as the length, alone or together with the other |
| Text.JsSlice | src/search-renderer.ts:62 | `slice` with bounds inside the text is the slice between them |
| Text.IndexOf | src/main.ts:522 | the first occurrence of a pattern, and none exactly when the text does not contain it |
| Text.ReplaceFirstAt | src/main.ts:524 | `replace` with a string pattern: when the pattern first occurs at `k`, exactly that occurrence is replaced and the text before and after it is kept |

## Left out

- The prototype wrapping by `around` (monkey-around) and its uninstalling are left out: that library is not part of this model. A wrapper is modelled as the state change its body makes.
- `setTimeout` is left out. Both `onload` and the search view's `onResize` call `spmCleanupPatch` first, which schedules the sweep (src/main.ts:194 and src/main.ts:562). `onResize` also schedules the re-collapse. In the model these are the separate methods `Views.View.Sweep` and `Views.View.SettleCollapse`, which a caller runs afterwards; `OnLoad` and `OnResize` do not run them. Both run synchronously, so interleavings with other events are not covered.
- DOM work is not modelled, including:
  - `closest` and `querySelector`, apart from their outcome, which is passed in as a parameter;
  - `empty`, `toggleClass` and `setText`;
  - `infinityScroll`;
  - the markdown renderer itself.
- Vault I/O is not modelled. `cachedRead` becomes the `cached` parameter of `CheckboxEdit.Edit`, and `modify` becomes the `Rewrite` outcome. The `console.log` calls are dropped.
- The host `Component` is reduced to its child list and its `loaded` flag. Unloading a component does not cascade to its children in this model.
- The Obsidian-version accessors (`isFifteenPlus` choosing `vChildren._children` or `children`, `parentDom` or `parent`) are not modelled. The model uses one list of rows and one parent.
- The settings defaults file is not part of this model. `DEFAULT_SETTINGS` is the `Defaults` record parameter and `sortOptions` is a set of names.
- `toLowerCase` is modelled on A-Z only. A few non-ASCII characters do lower-case to ASCII letters: the Kelvin sign U+212A gives `k`, and U+0130 gives `i` followed by a combining dot. Neither `k` nor `i` occurs in "true" or "false", so the comparison with those two words comes out the same. A value that is not a flag is kept as written in both the code and the model.
- A Dafny `char` is a Unicode scalar value, while JavaScript strings index UTF-16 code units. A character outside the Basic Multilingual Plane, such as an emoji, is one `char` here and two code units in JavaScript. For text that holds such characters, the offsets in the model (match start and end, highlight offsets, `substring` and `slice` bounds) differ from the code's. The regular-expression `.` differs too: without the `u` flag it matches one code unit. In the checkbox pattern `[ ]*[\-\*] \[.\] ` (src/search-renderer.ts:65 and :73-76), such a character between the brackets makes `\]` meet the second code unit, so `- [😀] x` holds no checkbox in the code, while `CheckboxEdit.CheckboxAt` reads the character as one `char` and finds one.
- Replacement strings are literal. The `$1`/`$&` patterns of the link escape are written out by position, and a `$` inside a highlight word is not read as a replacement pattern.
- The highlight and link rewrites (src/main.ts:514-519) are literal substring replacement over the escaped word, with the fixed bracket-free name of the link pattern. `Transform.LinkAtBracketFree` states the link match only for words without brackets.
- Views.View.OnLoad: requires that the result list is a different object from the view, which holds for the host's embedded search.
- Views.View.ApplyDirectives: requires the same. It also requires a result list and a parent element, because `OnLoad` calls it only after both are found.
- Discovery.BacklinksPatchedOnce: requires that no child is both an embedded search and a backlinks pane (`Unambiguous`). A failed search patch ends the wrapper before the backlinks check, as in the code.
- Discovery.BacklinkDomsLast: requires `Unambiguous` for the same reason.
- Transform.StripLinePrefixByLine: requires an indentation with no line terminator. Content that opens with a blank line has an indentation that spans lines, such as `"\n  "`; for it, `Transform.StripLinePrefix` still models the removal, but no line-by-line property is proved.
- Directives.ScanByLine: requires that every line opening with a key holds a value on that same line (`ValuesOnTheirLines`). A key line followed only by whitespace on its own line, such as `sort:` followed by a line end and more text, takes its value from a later line; there only `Directives.Scan` models the match.
- Transform.IndentSkewsLaterLines: the skew is the code's own behaviour and the model keeps it. A word and the note text differ only on a later line of indented content, where the rendered highlight may be a different word.
- Transform.RenderMatch: `el.empty()`, the renderer's `onRenderComplete` callback and `renderer.set` are DOM and host work and are not modelled. The rendered text is the method's outcome.
- Transform.EscapeFirstFence: its own contract states only the length change; what it does to the text is stated by `Transform.EscapeFirstFenceMatch`.
- Views.RenderComponent.RemoveEach: promises unloading only for listed renderers that were children, which is all `removeChild` does.
- The remaining patched methods are not modelled: `onunload`, `setRenderMarkdown`, the header buttons, the export modal, `refreshBacklinks`, `updateOptions` and the settings tab. They are host UI wiring outside the core.
