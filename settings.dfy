/**
  The settings overlay of a query view: the values a view's settings bag can
  hold, the plugin-wide defaults, and the merge that fills in the keys a view
  is missing (src/main.ts:252-262, 390-406, 680-696).
 */
module Settings {

  /** A settings value: directive values are strings unless they read "true"/"false". */
  datatype Setting = Flag(b: bool) | Str(s: string)

  /** The persisted plugin defaults (their storage is not part of this model). */
  datatype Defaults = Defaults(
    defaultCollapse: bool,
    defaultShowContext: bool,
    defaultHideTitle: bool,
    defaultHideResults: bool,
    defaultRenderMarkdown: bool,
    defaultSortOrder: string)

  /**
    The `allSettings` object of an inline query or a backlink pane, in the
    order `Object.entries` visits it. The title default is the value of
    `defaultHideResults`, as in the code.
   */
  function QueryDefaults(d: Defaults): seq<(string, Setting)> {
    [ ("title", Flag(d.defaultHideResults)),
      ("collapsed", Flag(d.defaultCollapse)),
      ("context", Flag(d.defaultShowContext)),
      ("hideTitle", Flag(d.defaultHideTitle)),
      ("hideResults", Flag(d.defaultHideResults)),
      ("renderMarkdown", Flag(d.defaultRenderMarkdown)),
      ("sort", Str(d.defaultSortOrder)) ]
  }

  predicate DistinctKeys(entries: seq<(string, Setting)>) {
    forall i, j :: 0 <= i < j < |entries| ==> entries[i].0 != entries[j].0
  }

  function EntryMap(entries: seq<(string, Setting)>): (m: map<string, Setting>)
    requires DistinctKeys(entries)
    ensures forall i :: 0 <= i < |entries| ==> entries[i].0 in m && m[entries[i].0] == entries[i].1
    ensures forall k :: k in m ==> exists i :: 0 <= i < |entries| && entries[i].0 == k
    decreases |entries|
  {
    if entries == [] then map[]
    else
      var last := entries[|entries| - 1];
      EntryMap(entries[..|entries| - 1])[last.0 := last.1]
  }

  /**
    `sortOptions.hasOwnProperty(v)`: the property key is the value converted
    to a string, so a boolean reads as "true" or "false".
   */
  predicate KnownSort(v: Setting, sortOptions: set<string>) {
    match v
    case Str(s) => s in sortOptions
    case Flag(b) => (if b then "true" else "false") in sortOptions
  }

  /** One iteration of the `forEach` over the entries. */
  function MergeEntry(m: map<string, Setting>, key: string, dflt: Setting, sortOptions: set<string>): map<string, Setting> {
    if key !in m then m[key := dflt]
    else if key == "sort" && !KnownSort(m[key], sortOptions) then m[key := dflt]
    else m
  }

  /** The whole `forEach`, entry after entry. */
  function MergeEntries(m: map<string, Setting>, entries: seq<(string, Setting)>, sortOptions: set<string>): map<string, Setting>
    decreases |entries|
  {
    if entries == [] then m
    else
      var last := entries[|entries| - 1];
      MergeEntry(MergeEntries(m, entries[..|entries| - 1], sortOptions), last.0, last.1, sortOptions)
  }

  /**
    The merged overlay, key by key: a default replaces a view's value when the
    view has none for that key, or when the key is `sort` and the view's value
    is not a sort option; every other value of the view is kept.
   */
  function Overlay(m: map<string, Setting>, defaults: map<string, Setting>, sortOptions: set<string>): (r: map<string, Setting>)
    ensures r.Keys == m.Keys + defaults.Keys
  {
    map k | k in m.Keys + defaults.Keys ::
      if k in defaults && (k !in m || (k == "sort" && !KnownSort(m[k], sortOptions))) then defaults[k] else m[k]
  }

  /** Adding one entry whose key is new to the defaults is one more merge step. */
  lemma OverlayStep(m: map<string, Setting>, defaults: map<string, Setting>, key: string, v: Setting, sortOptions: set<string>)
    requires key !in defaults
    ensures MergeEntry(Overlay(m, defaults, sortOptions), key, v, sortOptions) == Overlay(m, defaults[key := v], sortOptions)
  {
    var before := Overlay(m, defaults, sortOptions);
    var after := MergeEntry(before, key, v, sortOptions);
    var want := Overlay(m, defaults[key := v], sortOptions);
    assert after.Keys == want.Keys;
    forall k | k in want.Keys
      ensures after[k] == want[k]
    {
      if k == key && k in m {
        assert before[k] == m[k];
      }
    }
  }

  /** The entry-by-entry merge computes the key-by-key overlay. */
  lemma {:induction false} MergeEntriesIsOverlay(m: map<string, Setting>, entries: seq<(string, Setting)>, sortOptions: set<string>)
    requires DistinctKeys(entries)
    ensures MergeEntries(m, entries, sortOptions) == Overlay(m, EntryMap(entries), sortOptions)
    decreases |entries|
  {
    if entries == [] {
      assert Overlay(m, map[], sortOptions) == m;
    } else {
      var init := entries[..|entries| - 1];
      var last := entries[|entries| - 1];
      assert DistinctKeys(init);
      MergeEntriesIsOverlay(m, init, sortOptions);
      assert last.0 !in EntryMap(init);
      OverlayStep(m, EntryMap(init), last.0, last.1, sortOptions);
    }
  }

  /** After the merge every default key is present, and a key the view was missing holds its default. */
  lemma OverlayCoversDefaults(m: map<string, Setting>, defaults: map<string, Setting>, sortOptions: set<string>)
    ensures defaults.Keys <= Overlay(m, defaults, sortOptions).Keys
    ensures m.Keys <= Overlay(m, defaults, sortOptions).Keys
    ensures forall k :: k in defaults && k !in m ==> Overlay(m, defaults, sortOptions)[k] == defaults[k]
  {
  }

  /** A value the view already has is kept, unless it is an unknown `sort`, which the default replaces. */
  lemma OverlayKeepsOrResetsSort(m: map<string, Setting>, defaults: map<string, Setting>, sortOptions: set<string>, k: string)
    requires k in m
    ensures var r := Overlay(m, defaults, sortOptions);
            r[k] == if k == "sort" && k in defaults && !KnownSort(m[k], sortOptions) then defaults[k] else m[k]
  {
  }

  /** Running the merge a second time changes nothing. */
  lemma OverlayIdempotent(m: map<string, Setting>, defaults: map<string, Setting>, sortOptions: set<string>)
    ensures Overlay(Overlay(m, defaults, sortOptions), defaults, sortOptions) == Overlay(m, defaults, sortOptions)
  {
    var once := Overlay(m, defaults, sortOptions);
    var twice := Overlay(once, defaults, sortOptions);
    forall k | k in twice.Keys
      ensures twice[k] == once[k]
    {
      if k in defaults && k == "sort" && !KnownSort(once[k], sortOptions) {
        assert once[k] == defaults[k];
      }
    }
    assert twice == once;
  }

  /** The inline-query defaults name each key once. */
  lemma QueryDefaultsDistinct(d: Defaults)
    ensures DistinctKeys(QueryDefaults(d))
  {
  }
}
