/**
  Discovery of the host classes (src/main.ts:120-142): every child added to
  any component passes through a wrapper of `Component.addChild`, which
  recognises an embedded search and a backlinks pane by their own
  properties, patches each class once, and records every backlinks pane
  under its pane element.

  A child is described by a `Probe`: its identity, whether it is a
  `Component`, its own property names, whether its `dom` is neither null nor
  undefined (reading `dom.constructor` throws otherwise) and
  the backlinks pane element found by `closest` (None when there is no such
  element, which makes the `WeakMap` key invalid).
 */
module Discovery {
  import opened Text

  datatype Probe = Probe(id: nat, isComponent: bool, ownProps: set<string>, domPresent: bool, pane: Option<nat>)

  predicate IsEmbeddedSearch(c: Probe) {
    c.isComponent && "searchQuery" in c.ownProps && "sourcePath" in c.ownProps && "dom" in c.ownProps
  }

  predicate IsBacklinks(c: Probe) {
    c.isComponent && "backlinkDom" in c.ownProps
  }

  /** An embedded search whose class can be patched: `patchSearchView` reads `dom.constructor`. */
  predicate PatchableSearch(c: Probe) {
    IsEmbeddedSearch(c) && c.domPresent
  }

  /** A backlinks child whose pane element is a valid `WeakMap` key. */
  predicate PanedBacklinks(c: Probe) {
    IsBacklinks(c) && c.pane.Some?
  }

  /**
    The plugin's discovery state: the two patch-once flags, the children whose
    classes were patched (in order), and the `backlinkDoms` map from pane
    element to backlinks child.
   */
  datatype PatchState = PatchState(
    isSearchPatched: bool,
    isBacklinksPatched: bool,
    searchPatchedWith: seq<nat>,
    backlinksPatchedWith: seq<nat>,
    backlinkDoms: map<nat, nat>)

  const Initial: PatchState := PatchState(false, false, [], [], map[])

  /** One call of the wrapped `addChild`; a thrown error is caught and ends the step. */
  function Step(s: PatchState, c: Probe): (t: PatchState)
    ensures t.isSearchPatched == (s.isSearchPatched || PatchableSearch(c))
    ensures t.searchPatchedWith == s.searchPatchedWith + (if !s.isSearchPatched && PatchableSearch(c) then [c.id] else [])
  {
    if !s.isSearchPatched && IsEmbeddedSearch(c) && !c.domPresent then s
    else
      var s1 := if !s.isSearchPatched && IsEmbeddedSearch(c)
        then s.(isSearchPatched := true, searchPatchedWith := s.searchPatchedWith + [c.id])
        else s;
      if !IsBacklinks(c) then s1
      else match c.pane
        case None => s1
        case Some(p) =>
          var s2 := s1.(backlinkDoms := s1.backlinkDoms[p := c.id]);
          if s2.isBacklinksPatched then s2
          else s2.(isBacklinksPatched := true, backlinksPatchedWith := s2.backlinksPatchedWith + [c.id])
  }

  /** The children added one after another. */
  function Run(s: PatchState, ps: seq<Probe>): PatchState
    decreases |ps|
  {
    if ps == [] then s else Run(Step(s, ps[0]), ps[1..])
  }

  class Plugin {
    var isSearchPatched: bool
    var isBacklinksPatched: bool
    var searchPatchedWith: seq<nat>
    var backlinksPatchedWith: seq<nat>
    var backlinkDoms: map<nat, nat>

    constructor ()
      ensures State() == Initial
    {
      isSearchPatched := false;
      isBacklinksPatched := false;
      searchPatchedWith := [];
      backlinksPatchedWith := [];
      backlinkDoms := map[];
    }

    function State(): PatchState
      reads this
    {
      PatchState(isSearchPatched, isBacklinksPatched, searchPatchedWith, backlinksPatchedWith, backlinkDoms)
    }

    /** The body of the `addChild` wrapper, before it calls the original method. */
    method AddChild(c: Probe)
      modifies this
      ensures State() == Step(old(State()), c)
    {
      var t := Step(State(), c);
      isSearchPatched := t.isSearchPatched;
      isBacklinksPatched := t.isBacklinksPatched;
      searchPatchedWith := t.searchPatchedWith;
      backlinksPatchedWith := t.backlinksPatchedWith;
      backlinkDoms := t.backlinkDoms;
    }
  }

  /** The index of the first child whose class `patchSearchView` succeeds on. */
  function FirstPatchableSearch(ps: seq<Probe>): (i: Option<nat>)
    ensures i.Some? ==> i.value < |ps| && PatchableSearch(ps[i.value])
                        && forall j :: 0 <= j < i.value ==> !PatchableSearch(ps[j])
    ensures i.None? ==> forall j :: 0 <= j < |ps| ==> !PatchableSearch(ps[j])
    decreases |ps|
  {
    if ps == [] then None
    else if PatchableSearch(ps[0]) then Some(0)
    else match FirstPatchableSearch(ps[1..])
      case None => None
      case Some(j) => Some(j + 1)
  }

  /** The index of the first backlinks child with a valid pane key. */
  function FirstPanedBacklinks(ps: seq<Probe>): (i: Option<nat>)
    ensures i.Some? ==> i.value < |ps| && PanedBacklinks(ps[i.value])
                        && forall j :: 0 <= j < i.value ==> !PanedBacklinks(ps[j])
    ensures i.None? ==> forall j :: 0 <= j < |ps| ==> !PanedBacklinks(ps[j])
    decreases |ps|
  {
    if ps == [] then None
    else if PanedBacklinks(ps[0]) then Some(0)
    else match FirstPanedBacklinks(ps[1..])
      case None => None
      case Some(j) => Some(j + 1)
  }

  /** No child looks like both an embedded search and a backlinks pane. */
  predicate Unambiguous(ps: seq<Probe>) {
    forall i :: 0 <= i < |ps| ==> !(IsEmbeddedSearch(ps[i]) && IsBacklinks(ps[i]))
  }

  /**
    The embedded-search class is patched once, with the first child it
    succeeds on; a child whose `dom` is not an object leaves the flag clear.
   */
  lemma {:induction false} SearchPatchedOnce(s: PatchState, ps: seq<Probe>)
    ensures Run(s, ps).isSearchPatched == (s.isSearchPatched || FirstPatchableSearch(ps).Some?)
    ensures Run(s, ps).searchPatchedWith == s.searchPatchedWith +
      (if !s.isSearchPatched && FirstPatchableSearch(ps).Some? then [ps[FirstPatchableSearch(ps).value].id] else [])
    decreases |ps|
  {
    if ps != [] {
      var t := Step(s, ps[0]);
      SearchPatchedOnce(t, ps[1..]);
      if !PatchableSearch(ps[0]) && FirstPatchableSearch(ps[1..]).Some? {
        assert ps[1..][FirstPatchableSearch(ps[1..]).value] == ps[FirstPatchableSearch(ps).value];
      }
    }
  }

  /** The backlinks class is patched once, with the first backlinks child that has a pane. */
  lemma {:induction false} BacklinksPatchedOnce(s: PatchState, ps: seq<Probe>)
    requires Unambiguous(ps)
    ensures Run(s, ps).isBacklinksPatched == (s.isBacklinksPatched || FirstPanedBacklinks(ps).Some?)
    ensures Run(s, ps).backlinksPatchedWith == s.backlinksPatchedWith +
      (if !s.isBacklinksPatched && FirstPanedBacklinks(ps).Some? then [ps[FirstPanedBacklinks(ps).value].id] else [])
    decreases |ps|
  {
    if ps != [] {
      var t := Step(s, ps[0]);
      assert Unambiguous(ps[1..]) by {
        forall i | 0 <= i < |ps[1..]|
          ensures !(IsEmbeddedSearch(ps[1..][i]) && IsBacklinks(ps[1..][i]))
        {
          assert ps[1..][i] == ps[i + 1];
        }
      }
      BacklinksPatchedOnce(t, ps[1..]);
      if !PanedBacklinks(ps[0]) && FirstPanedBacklinks(ps[1..]).Some? {
        assert ps[1..][FirstPanedBacklinks(ps[1..]).value] == ps[FirstPanedBacklinks(ps).value];
      }
    }
  }

  /** The backlinks record is empty until the flag is set, and holds at most one child after. */
  predicate BacklinksRecordBounded(s: PatchState) {
    (!s.isBacklinksPatched ==> s.backlinksPatchedWith == []) && |s.backlinksPatchedWith| <= 1
  }

  lemma {:induction false} BacklinksRecordStaysBounded(s: PatchState, ps: seq<Probe>)
    requires BacklinksRecordBounded(s)
    ensures BacklinksRecordBounded(Run(s, ps))
    decreases |ps|
  {
    if ps != [] {
      BacklinksRecordStaysBounded(Step(s, ps[0]), ps[1..]);
    }
  }

  /** From the initial state each class is patched at most once, whatever children arrive. */
  lemma PatchedAtMostOnce(ps: seq<Probe>)
    ensures |Run(Initial, ps).searchPatchedWith| <= 1
    ensures |Run(Initial, ps).backlinksPatchedWith| <= 1
  {
    SearchPatchedOnce(Initial, ps);
    BacklinksRecordStaysBounded(Initial, ps);
  }

  lemma {:induction false} RunAppend(s: PatchState, ps: seq<Probe>, c: Probe)
    ensures Run(s, ps + [c]) == Step(Run(s, ps), c)
    decreases |ps|
  {
    if ps != [] {
      assert (ps + [c])[1..] == ps[1..] + [c];
      RunAppend(Step(s, ps[0]), ps[1..], c);
    }
  }

  /** The index of the last backlinks child recorded under pane `p`. */
  function LastForPane(ps: seq<Probe>, p: nat): (i: Option<nat>)
    ensures i.Some? ==> i.value < |ps| && IsBacklinks(ps[i.value]) && ps[i.value].pane == Some(p)
                        && forall j :: i.value < j < |ps| ==> !(IsBacklinks(ps[j]) && ps[j].pane == Some(p))
    ensures i.None? ==> forall j :: 0 <= j < |ps| ==> !(IsBacklinks(ps[j]) && ps[j].pane == Some(p))
    decreases |ps|
  {
    if ps == [] then None
    else if IsBacklinks(ps[|ps| - 1]) && ps[|ps| - 1].pane == Some(p) then Some(|ps| - 1)
    else LastForPane(ps[..|ps| - 1], p)
  }

  /** Every backlinks child is recorded under its pane; a later child for the same pane replaces an earlier one. */
  lemma {:induction false} BacklinkDomsLast(s: PatchState, ps: seq<Probe>, p: nat)
    requires Unambiguous(ps)
    ensures p in Run(s, ps).backlinkDoms <==> p in s.backlinkDoms || LastForPane(ps, p).Some?
    ensures LastForPane(ps, p).Some? ==> Run(s, ps).backlinkDoms[p] == ps[LastForPane(ps, p).value].id
    ensures LastForPane(ps, p).None? && p in s.backlinkDoms ==> Run(s, ps).backlinkDoms[p] == s.backlinkDoms[p]
    decreases |ps|
  {
    if ps != [] {
      var init := ps[..|ps| - 1];
      var c := ps[|ps| - 1];
      assert ps == init + [c];
      assert Unambiguous(init) by {
        forall i | 0 <= i < |init|
          ensures !(IsEmbeddedSearch(init[i]) && IsBacklinks(init[i]))
        {
          assert init[i] == ps[i];
        }
      }
      BacklinkDomsLast(s, init, p);
      RunAppend(s, init, c);
    }
  }
}
