/**
  The component bookkeeping of the query views (src/main.ts): the render
  component that owns the markdown renderers of a view, the reconciliation
  sweep that evicts renderers whose element has left the document
  (`spmCleanupPatch`), the stop-search replacement of that component, the
  zero-width resize rule, the `onload` wrapper of an embedded query and the
  in-place settings merge.

  A single class `View` stands for the duck-typed objects the sweep is called
  on (embedded search, search view, result list, result item): each may have
  a parent and a render component.
 */
module Views {
  import opened Text
  import opened Settings
  import opened Directives

  /** A DOM element, reduced to whether it is still attached to the document. */
  class Element {
    var isConnected: bool

    constructor (connected: bool)
      ensures isConnected == connected
    {
      isConnected := connected;
    }
  }

  /** A markdown renderer child: its container element and whether it is loaded. */
  class Renderer {
    const containerEl: Element
    var loaded: bool

    constructor (el: Element)
      ensures containerEl == el && !loaded
    {
      containerEl := el;
      loaded := false;
    }
  }

  predicate Live(r: Renderer)
    reads r.containerEl
  {
    r.containerEl.isConnected
  }

  /** The renderers of `rs` whose element is attached, in order. */
  function Connected(rs: seq<Renderer>): (c: seq<Renderer>)
    reads set r | r in rs :: r.containerEl
    ensures forall i :: 0 <= i < |c| ==> c[i] in rs && Live(c[i])
    ensures forall i :: 0 <= i < |rs| && Live(rs[i]) ==> rs[i] in c
    decreases |rs|
  {
    if rs == [] then []
    else (if Live(rs[0]) then [rs[0]] else []) + Connected(rs[1..])
  }

  /** The renderers of `rs` whose element is detached, in order (the `removeComponents` list). */
  function Disconnected(rs: seq<Renderer>): (d: seq<Renderer>)
    reads set r | r in rs :: r.containerEl
    ensures forall i :: 0 <= i < |d| ==> d[i] in rs && !Live(d[i])
    ensures forall i :: 0 <= i < |rs| && !Live(rs[i]) ==> rs[i] in d
    decreases |rs|
  {
    if rs == [] then []
    else (if Live(rs[0]) then [] else [rs[0]]) + Disconnected(rs[1..])
  }

  /** `rs` after removing the first occurrence of `c`, as `Component.removeChild` does. */
  function RemoveFirst(rs: seq<Renderer>, c: Renderer): (t: seq<Renderer>)
    ensures c !in rs ==> t == rs
    ensures c in rs ==> |t| == |rs| - 1
    decreases |rs|
  {
    if rs == [] then []
    else if rs[0] == c then rs[1..]
    else [rs[0]] + RemoveFirst(rs[1..], c)
  }

  /** `rs` after the first `n` entries of `Disconnected(rs)` have been removed one by one. */
  function DropDisconnected(rs: seq<Renderer>, n: nat): seq<Renderer>
    reads set r | r in rs :: r.containerEl
    decreases |rs|
  {
    if n == 0 || rs == [] then rs
    else if Live(rs[0]) then [rs[0]] + DropDisconnected(rs[1..], n)
    else DropDisconnected(rs[1..], n - 1)
  }

  lemma {:induction false} DisconnectedAppend(rs: seq<Renderer>, r: Renderer)
    ensures Disconnected(rs + [r]) == Disconnected(rs) + (if Live(r) then [] else [r])
    decreases |rs|
  {
    if rs != [] {
      assert (rs + [r])[1..] == rs[1..] + [r];
      DisconnectedAppend(rs[1..], r);
    }
  }

  lemma DisconnectedPrefix(rs: seq<Renderer>, i: nat)
    requires i < |rs|
    ensures Disconnected(rs[..i + 1]) == Disconnected(rs[..i]) + (if Live(rs[i]) then [] else [rs[i]])
  {
    assert rs[..i + 1] == rs[..i] + [rs[i]];
    DisconnectedAppend(rs[..i], rs[i]);
  }

  /** Removing the next detached renderer takes out exactly the one the list names. */
  lemma {:induction false} RemoveNextDisconnected(rs: seq<Renderer>, n: nat)
    requires n < |Disconnected(rs)|
    ensures Disconnected(rs)[n] in DropDisconnected(rs, n)
    ensures RemoveFirst(DropDisconnected(rs, n), Disconnected(rs)[n]) == DropDisconnected(rs, n + 1)
    decreases |rs|
  {
    var x := Disconnected(rs)[n];
    if Live(rs[0]) {
      assert Disconnected(rs) == Disconnected(rs[1..]);
      RemoveNextDisconnected(rs[1..], n);
      assert rs[0] != x by { assert !Live(x); }
    } else if n > 0 {
      assert Disconnected(rs)[n] == Disconnected(rs[1..])[n - 1];
      RemoveNextDisconnected(rs[1..], n - 1);
    }
  }

  /** Once every detached renderer has been removed, the connected ones are left. */
  lemma {:induction false} DropAllDisconnected(rs: seq<Renderer>)
    ensures DropDisconnected(rs, |Disconnected(rs)|) == Connected(rs)
    decreases |rs|
  {
    if rs != [] {
      DropAllDisconnected(rs[1..]);
    }
  }

  /** `rs` after removing each of `xs` in turn with `removeChild`. */
  function RemoveAll(rs: seq<Renderer>, xs: seq<Renderer>): seq<Renderer>
    decreases |xs|
  {
    if xs == [] then rs else RemoveFirst(RemoveAll(rs, xs[..|xs| - 1]), xs[|xs| - 1])
  }

  lemma {:induction false} RemoveFirstKeeps(rs: seq<Renderer>, x: Renderer, c: Renderer)
    requires c in rs && c != x
    ensures c in RemoveFirst(rs, x)
    decreases |rs|
  {
    if rs[0] != x && rs[0] != c {
      RemoveFirstKeeps(rs[1..], x, c);
    } else if rs[0] == x {
      assert c in rs[1..];
    }
  }

  /** A renderer that is never listed stays. */
  lemma {:induction false} RemoveAllKeeps(rs: seq<Renderer>, xs: seq<Renderer>, c: Renderer)
    requires c in rs && forall k :: 0 <= k < |xs| ==> xs[k] != c
    ensures c in RemoveAll(rs, xs)
    decreases |xs|
  {
    if xs != [] {
      var init := xs[..|xs| - 1];
      RemoveAllKeeps(rs, init, c);
      RemoveFirstKeeps(RemoveAll(rs, init), xs[|xs| - 1], c);
    }
  }

  /** Removing the detached renderers one by one follows `DropDisconnected`. */
  lemma {:induction false} RemoveAllPrefix(rs: seq<Renderer>, n: nat)
    requires n <= |Disconnected(rs)|
    ensures RemoveAll(rs, Disconnected(rs)[..n]) == DropDisconnected(rs, n)
    decreases n
  {
    if n > 0 {
      var d := Disconnected(rs);
      assert d[..n][..n - 1] == d[..n - 1] && d[..n][n - 1] == d[n - 1];
      RemoveAllPrefix(rs, n - 1);
      RemoveNextDisconnected(rs, n - 1);
    }
  }

  /** Removing every detached renderer leaves exactly the connected ones. */
  lemma RemoveAllDisconnected(rs: seq<Renderer>)
    ensures RemoveAll(rs, Disconnected(rs)) == Connected(rs)
  {
    var d := Disconnected(rs);
    RemoveAllPrefix(rs, |d|);
    assert d[..|d|] == d;
    DropAllDisconnected(rs);
  }

  /** An Obsidian `Component` used as the owner of markdown renderers. */
  class RenderComponent {
    var children: seq<Renderer>
    var loaded: bool

    constructor ()
      ensures children == [] && !loaded
    {
      children := [];
      loaded := false;
    }

    method Load()
      modifies this
      ensures loaded && children == old(children)
    {
      loaded := true;
    }

    method Unload()
      modifies this
      ensures !loaded && children == old(children)
    {
      loaded := false;
    }

    /** `addChild`: the child is appended, and loaded when the owner is. */
    method AddChild(c: Renderer)
      modifies this, c
      ensures children == old(children) + [c] && loaded == old(loaded)
      ensures c.loaded == (old(c.loaded) || loaded)
    {
      children := children + [c];
      if loaded {
        c.loaded := true;
      }
    }

    /** `removeChild`: a present child is taken out (first occurrence) and unloaded. */
    method RemoveChild(c: Renderer)
      modifies this, c
      ensures children == RemoveFirst(old(children), c) && loaded == old(loaded)
      ensures c.loaded == (old(c.loaded) && c !in old(children))
    {
      if c in children {
        children := RemoveFirst(children, c);
        c.loaded := false;
      }
    }

    /** The first loop of the sweep: the children whose element is detached, in order. */
    static method DetachedChildren(rs: seq<Renderer>) returns (remove: seq<Renderer>)
      ensures remove == Disconnected(rs)
    {
      remove := [];
      for i := 0 to |rs|
        invariant remove == Disconnected(rs[..i])
      {
        DisconnectedPrefix(rs, i);
        if !rs[i].containerEl.isConnected {
          remove := remove + [rs[i]];
        }
      }
      assert rs[..|rs|] == rs;
    }

    /**
      The second loop of the sweep: `removeChild` on each listed renderer in
      turn. A listed renderer that was a child ends up unloaded; `removeChild`
      leaves one that is no longer a child alone.
     */
    method RemoveEach(remove: seq<Renderer>)
      modifies this, set r | r in remove
      ensures children == RemoveAll(old(children), remove) && loaded == old(loaded)
      ensures forall r :: r in remove && r in old(children) ==> !r.loaded
      ensures forall r :: r in old(children) && r !in remove ==> r.loaded == old(r.loaded)
    {
      ghost var all := children;
      ghost var gone: set<Renderer> := {};
      for i := 0 to |remove|
        invariant children == RemoveAll(all, remove[..i]) && loaded == old(loaded)
        invariant forall k :: 0 <= k < i ==> remove[k] in gone
        invariant forall r :: r in gone ==> r in remove
        invariant forall r :: r in gone && r in all ==> !r.loaded
        invariant forall r :: r in all && r !in gone ==> r.loaded == old(r.loaded)
      {
        var c := remove[i];
        if c in all && c !in gone {
          RemoveAllKeeps(all, remove[..i], c);
        }
        assert remove[..i + 1][..i] == remove[..i] && remove[..i + 1][i] == c;
        RemoveChild(c);
        gone := gone + {c};
      }
      assert remove[..|remove|] == remove;
    }

    /**
      The eviction step of the sweep: collect the children whose element is
      detached, then remove them one by one.
     */
    method Evict()
      modifies this, set r | r in children
      ensures children == old(Connected(children)) && loaded == old(loaded)
      ensures forall r :: r in old(children) && old(!Live(r)) ==> !r.loaded
      ensures forall r :: r in old(children) && old(Live(r)) ==> r.loaded == old(r.loaded)
    {
      var all := children;
      RemoveAllDisconnected(all);
      var remove := DetachedChildren(all);
      RemoveEach(remove);
    }
  }

  /** A result row of a search view (`SearchResultItem`), reduced to its collapse state. */
  class ResultItem {
    var collapsed: bool

    constructor ()
      ensures !collapsed
    {
      collapsed := false;
    }

    /** `setCollapse(value, false)`: without animation. */
    method SetCollapse(value: bool)
      modifies this
      ensures collapsed == value
    {
      collapsed := value;
    }
  }

  /** How looking up the default header element of an embedded query ends. */
  datatype HeaderLookup =
    | NoParentElement   // `containerEl.parentElement` is null: the lookup throws
    | NoHeader          // no `.internal-query-header`: `setText` on null throws
    | Header            // the header element is found

  class View {
    var parent: View?
    var renderComponent: RenderComponent?
    /** The result list (`SearchResultDOM`) of an embedded query or a search view. */
    var dom: View?
    var query: string
    var headerText: string
    var settings: Option<map<string, Setting>>
    var hidden: bool
    var collapseAll: bool
    var items: seq<ResultItem>

    constructor (parent: View?)
      ensures this.parent == parent && renderComponent == null && dom == null
      ensures settings == None && !hidden && items == []
    {
      this.parent := parent;
      renderComponent := null;
      dom := null;
      query := "";
      headerText := "";
      settings := None;
      hidden := false;
      collapseAll := false;
      items := [];
    }

    /** The view, its parent and its grandparent, as far as they exist. */
    function Chain(): (vs: seq<View>)
      reads this, parent
      ensures 1 <= |vs| <= 3 && vs[0] == this
    {
      [this] + if parent == null then [] else [parent] + if parent.parent == null then [] else [parent.parent]
    }

    /** The first render component along a chain of views. */
    static function FirstOwner(vs: seq<View>): (rc: RenderComponent?)
      reads set v | v in vs
      ensures rc == null <==> forall v :: v in vs ==> v.renderComponent == null
      ensures rc != null ==> exists v :: v in vs && v.renderComponent == rc
      decreases |vs|
    {
      if vs == [] then null
      else if vs[0].renderComponent != null then vs[0].renderComponent
      else FirstOwner(vs[1..])
    }

    /** Step one of the sweep: the render component the view itself, its parent or its grandparent holds. */
    function Owner(): RenderComponent?
      reads this, parent, if parent != null then {parent.parent} else {}
    {
      if renderComponent != null then renderComponent
      else if parent != null then
        if parent.renderComponent != null then parent.renderComponent
        else if parent.parent != null then parent.parent.renderComponent
        else null
      else null
    }

    /** The owner is the nearest render component on the chain self, parent, grandparent. */
    lemma OwnerIsNearest()
      ensures Owner() == FirstOwner(Chain())
    {
      var vs := Chain();
      if renderComponent == null && parent != null {
        assert vs[1..] == [parent] + if parent.parent == null then [] else [parent.parent];
        if parent.renderComponent == null && parent.parent != null {
          assert vs[1..][1..] == [parent.parent];
        }
      }
    }

    /**
      `spmCleanupPatch`, run synchronously: when an owner is found, every
      renderer whose element is detached is removed from it and unloaded;
      when there is none, nothing changes.
     */
    method Sweep()
      modifies Owner(), if Owner() != null then set r | r in Owner().children else {}
      ensures Owner() == old(Owner())
      ensures Owner() != null ==> Owner().children == Connected(old(Owner().children)) && Owner().loaded == old(Owner().loaded)
      ensures Owner() != null ==> forall r :: r in old(Owner().children) && !Live(r) ==> !r.loaded
      ensures Owner() != null ==> forall r :: r in old(Owner().children) && Live(r) ==> r.loaded == old(r.loaded)
    {
      var rc := Owner();
      if rc != null {
        rc.Evict();
      }
    }

    /** The `stopSearch` wrapper: an existing render component is unloaded and replaced by a fresh one. */
    method StopSearch()
      modifies this, renderComponent
      ensures old(renderComponent) == null ==> renderComponent == null
      ensures old(renderComponent) != null ==>
        && !old(renderComponent).loaded && old(renderComponent).children == old(renderComponent.children)
        && fresh(renderComponent) && renderComponent.children == [] && !renderComponent.loaded
      ensures parent == old(parent) && dom == old(dom) && settings == old(settings) && query == old(query)
      ensures headerText == old(headerText) && hidden == old(hidden) && collapseAll == old(collapseAll) && items == old(items)
    {
      if renderComponent != null {
        renderComponent.Unload();
        renderComponent := new RenderComponent();
      }
    }

    /** `if (!this.renderComponent) { create it and load it }`. */
    method EnsureRenderComponent()
      modifies this
      ensures old(renderComponent) != null ==> renderComponent == old(renderComponent)
      ensures old(renderComponent) == null ==>
        fresh(renderComponent) && renderComponent.loaded && renderComponent.children == []
      ensures parent == old(parent) && dom == old(dom) && settings == old(settings) && query == old(query)
      ensures headerText == old(headerText) && hidden == old(hidden) && collapseAll == old(collapseAll) && items == old(items)
    {
      if renderComponent == null {
        var rc := new RenderComponent();
        rc.Load();
        renderComponent := rc;
      }
    }

    /**
      The `onResize` wrapper, from the point after its call of
      `spmCleanupPatch`, which only schedules the sweep (`Sweep`, not run
      here), acting on the result list: a zero width collapses every
      row and marks the list hidden; a non-zero width while hidden clears the
      mark (the rows are settled later by `SettleCollapse`).
     */
    method OnResize(clientWidth: int)
      modifies this, set it | it in items
      ensures items == old(items) && collapseAll == old(collapseAll)
      ensures parent == old(parent) && renderComponent == old(renderComponent) && dom == old(dom)
      ensures query == old(query) && headerText == old(headerText) && settings == old(settings)
      ensures clientWidth == 0 ==> hidden && forall it :: it in items ==> it.collapsed
      ensures clientWidth != 0 && old(hidden) ==> !hidden && forall it :: it in items ==> it.collapsed == old(it.collapsed)
      ensures clientWidth != 0 && !old(hidden) ==> !hidden && forall it :: it in items ==> it.collapsed == old(it.collapsed)
    {
      if clientWidth == 0 {
        var rows := items;
        for i := 0 to |rows|
          invariant items == rows && collapseAll == old(collapseAll)
          invariant parent == old(parent) && renderComponent == old(renderComponent) && dom == old(dom)
          invariant query == old(query) && headerText == old(headerText) && settings == old(settings)
          invariant forall j :: 0 <= j < i ==> rows[j].collapsed
        {
          rows[i].SetCollapse(true);
        }
        hidden := true;
      } else if hidden {
        hidden := false;
      }
    }

    /** The delayed step after a recovery: every row takes the list's collapse-all state. */
    method SettleCollapse()
      modifies set it | it in items
      ensures forall it :: it in items ==> it.collapsed == collapseAll
    {
      var rows := items;
      for i := 0 to |rows|
        invariant forall j :: 0 <= j < i ==> rows[j].collapsed == collapseAll
      {
        rows[i].SetCollapse(collapseAll);
      }
    }

    /**
      The settings merge of a result list (and of the search view): a missing
      settings bag is created, then each default fills a missing key or
      replaces an unknown sort order.
     */
    method MergeDefaults(entries: seq<(string, Setting)>, sortOptions: set<string>)
      requires DistinctKeys(entries)
      modifies this
      ensures var base := if old(settings).Some? then old(settings).value else map[];
              settings == Some(Overlay(base, EntryMap(entries), sortOptions))
      ensures parent == old(parent) && dom == old(dom) && query == old(query) && renderComponent == old(renderComponent)
      ensures headerText == old(headerText) && hidden == old(hidden) && collapseAll == old(collapseAll) && items == old(items)
    {
      if settings.None? {
        settings := Some(map[]);
      }
      ghost var base := settings.value;
      for i := 0 to |entries|
        invariant settings == Some(MergeEntries(base, entries[..i], sortOptions))
        invariant parent == old(parent) && dom == old(dom) && query == old(query) && renderComponent == old(renderComponent)
        invariant headerText == old(headerText) && hidden == old(hidden) && collapseAll == old(collapseAll) && items == old(items)
      {
        var (key, dflt) := entries[i];
        var current := settings.value;
        if key !in current {
          settings := Some(current[key := dflt]);
        } else if key == "sort" && !KnownSort(current[key], sortOptions) {
          settings := Some(current[key := dflt]);
        }
        assert entries[..i + 1][..i] == entries[..i];
      }
      assert entries[..|entries|] == entries;
      MergeEntriesIsOverlay(base, entries, sortOptions);
    }

    /**
      The `onload` wrapper of an embedded query, from the point after its call
      of `spmCleanupPatch`, which only schedules the sweep (the separate method
      `Sweep`, not run here): make sure a
      render component exists, link the result list back, read the directives,
      strip them from the query and set the header; a thrown error (no result
      list, no parent element, no header) ends the wrapper where it occurs.
     */
    method OnLoad(lookup: HeaderLookup)
      requires dom != this
      modifies this, dom
      ensures old(renderComponent) != null ==> renderComponent == old(renderComponent)
      ensures old(renderComponent) == null ==> fresh(renderComponent) && renderComponent.loaded
      ensures dom == old(dom) && (dom != null ==> dom.parent == this)
      ensures dom == null || lookup == NoParentElement ==> query == old(query) && headerText == old(headerText)
      ensures dom != null && lookup != NoParentElement ==> query == Trim(StripDirectives(old(query), true))
      ensures dom != null && lookup == Header ==> dom.settings == Some(Collect(Scan(old(query), true)))
      ensures dom != null && lookup == Header ==> headerText == HeaderText(dom.settings.value, query)
      ensures dom != null && lookup != Header ==> dom.settings == old(dom.settings) && headerText == old(headerText)
      ensures parent == old(parent) && settings == old(settings)
      ensures hidden == old(hidden) && collapseAll == old(collapseAll) && items == old(items)
      ensures dom != null ==>
        && dom.renderComponent == old(dom.renderComponent) && dom.dom == old(dom.dom) && dom.query == old(dom.query)
        && dom.headerText == old(dom.headerText) && dom.hidden == old(dom.hidden)
        && dom.collapseAll == old(dom.collapseAll) && dom.items == old(dom.items)
    {
      EnsureRenderComponent();
      if dom == null {
        return;
      }
      dom.parent := this;
      if lookup == NoParentElement {
        return;
      }
      ApplyDirectives(lookup);
    }

    /**
      The directive step of `onload`, once the result list is linked and the
      parent element found: the query loses its directive lines and is
      trimmed; when the header is found, the list takes the collected settings
      and the header its text.
     */
    method ApplyDirectives(lookup: HeaderLookup)
      requires dom != null && dom != this && lookup != NoParentElement
      modifies this, dom
      ensures dom == old(dom) && query == Trim(StripDirectives(old(query), true))
      ensures lookup == Header ==> dom.settings == Some(Collect(Scan(old(query), true)))
      ensures lookup == Header ==> headerText == HeaderText(dom.settings.value, query)
      ensures lookup != Header ==> dom.settings == old(dom.settings) && headerText == old(headerText)
      ensures parent == old(parent) && settings == old(settings) && renderComponent == old(renderComponent)
      ensures hidden == old(hidden) && collapseAll == old(collapseAll) && items == old(items)
      ensures && dom.parent == old(dom.parent) && dom.renderComponent == old(dom.renderComponent) && dom.dom == old(dom.dom)
              && dom.query == old(dom.query) && dom.headerText == old(dom.headerText) && dom.hidden == old(dom.hidden)
              && dom.collapseAll == old(dom.collapseAll) && dom.items == old(dom.items)
    {
      var parsed, shown, header := ParseQuery(query);
      query := shown;
      if lookup == NoHeader {
        return;
      }
      headerText := header;
      dom.settings := Some(parsed);
    }
  }
}
