/** The per-part dirty flags: a map from a part's `persistentId` to whether
    the part holds edits that have not been rebuilt yet. */
module Dirty {
  import opened Host

  type DirtyMap = map<uint32, bool>

  /** The flag `IsDirty` reports: false for a null part and for a part with
      no entry, otherwise the stored flag. */
  function IsDirty(d: DirtyMap, p: Option<Part>): (r: bool)
    ensures r ==> p.Some? && p.value.persistentId in d
    ensures p.Some? && p.value.persistentId in d ==> (r <==> d[p.value.persistentId])
  {
    p.Some? && p.value.persistentId in d && d[p.value.persistentId]
  }

  /** The persistent ids of some parts. */
  function IdsOf(ps: seq<Part>): set<uint32> {
    set p | p in ps :: p.persistentId
  }

  /** One more part visited by a marking loop. */
  lemma IdsOfStep(ps: seq<Part>, i: int)
    requires 0 <= i < |ps|
    ensures IdsOf(ps[..i + 1]) == IdsOf(ps[..i]) + {ps[i].persistentId}
  {
    assert ps[..i + 1] == ps[..i] + [ps[i]];
  }

  /** `d` with the entry of every id in `ids` set to `flag`; every other
      entry is kept as it was. */
  function Marked(d: DirtyMap, ids: set<uint32>, flag: bool): (r: DirtyMap)
    ensures r.Keys == d.Keys + ids
    ensures forall k :: k in ids ==> r[k] == flag
    ensures forall k :: k in d && k !in ids ==> r[k] == d[k]
  {
    map k | k in d.Keys + ids :: if k in ids then flag else d[k]
  }

  /** After marking, a part reads as `flag` when its id was marked and as
      before otherwise. */
  lemma IsDirtyMarked(d: DirtyMap, ids: set<uint32>, flag: bool, p: Option<Part>)
    ensures IsDirty(Marked(d, ids, flag), p) ==
            if p.Some? && p.value.persistentId in ids then flag else IsDirty(d, p)
  {
  }

  /** Marking no id changes nothing. */
  lemma MarkedNone(d: DirtyMap, flag: bool)
    ensures Marked(d, {}, flag) == d
  {
    var r := Marked(d, {}, flag);
    assert r.Keys == d.Keys;
    forall k | k in r ensures r[k] == d[k] {
    }
  }

  /** Setting one more entry extends the marked set by its id: the step of
      every loop that marks parts one at a time. */
  lemma MarkedOneMore(d: DirtyMap, ids: set<uint32>, flag: bool, id: uint32)
    ensures Marked(d, ids, flag)[id := flag] == Marked(d, ids + {id}, flag)
  {
    var lhs, rhs := Marked(d, ids, flag)[id := flag], Marked(d, ids + {id}, flag);
    assert lhs.Keys == rhs.Keys;
    forall k | k in lhs ensures lhs[k] == rhs[k] {
    }
  }

  /** Marking two sets of ids in turn with the same flag marks their union. */
  lemma MarkedTwice(d: DirtyMap, a: set<uint32>, b: set<uint32>, flag: bool)
    ensures Marked(Marked(d, a, flag), b, flag) == Marked(d, a + b, flag)
  {
    var lhs, rhs := Marked(Marked(d, a, flag), b, flag), Marked(d, a + b, flag);
    assert lhs.Keys == rhs.Keys;
    forall k | k in lhs ensures lhs[k] == rhs[k] {
    }
  }

  /** The ids `MarkDirtyForPartAndSymmetry` and `ClearDirtyForPartAndSymmetry`
      set: none for a null root, the root's id, and with the symmetry toggle
      on the ids of the whole symmetry group. */
  function SymmetryScope(root: Option<Part>, applyToSymmetry: bool): (r: set<uint32>)
    ensures root.None? ==> r == {}
    ensures root.Some? ==> root.value.persistentId in r
    ensures root.Some? && !applyToSymmetry ==> r == {root.value.persistentId}
    ensures root.Some? && applyToSymmetry ==> r == IdsOf(GetSymmetryGroup(root))
  {
    if root.None? then {}
    else if applyToSymmetry then
      assert root.value in GetSymmetryGroup(root);
      IdsOf(GetSymmetryGroup(root))
    else {root.value.persistentId}
  }

  /** Setting the root's flag and then the flags of its whole group sets
      the flags of its symmetry scope with the toggle on. */
  lemma ScopeOfGroup(d: DirtyMap, root: Option<Part>, flag: bool)
    requires root.Some?
    ensures Marked(Marked(d, {root.value.persistentId}, flag), IdsOf(GetSymmetryGroup(root)), flag) ==
            Marked(d, SymmetryScope(root, true), flag)
  {
    MarkedTwice(d, {root.value.persistentId}, IdsOf(GetSymmetryGroup(root)), flag);
    assert root.value in GetSymmetryGroup(root);
    assert {root.value.persistentId} + IdsOf(GetSymmetryGroup(root)) == IdsOf(GetSymmetryGroup(root));
  }

  /** Setting the flags of a symmetry scope sets the root's flag, sets every
      counterpart's flag when the toggle is on, and leaves every part outside
      the group as it was. */
  lemma {:induction false} SymmetryScopeFlags(d: DirtyMap, root: Option<Part>, applyToSymmetry: bool, flag: bool)
    requires root.Some?
    ensures var after := Marked(d, SymmetryScope(root, applyToSymmetry), flag);
            && IsDirty(after, root) == flag
            && (applyToSymmetry ==> forall q :: q in GetSymmetryGroup(root) ==> IsDirty(after, Some(q)) == flag)
            && (applyToSymmetry && root.value.symmetryCounterparts.Some? ==>
                  forall q :: Some(q) in root.value.symmetryCounterparts.value ==> IsDirty(after, Some(q)) == flag)
            && (forall q: Part :: q.persistentId !in IdsOf(GetSymmetryGroup(root)) ==>
                  IsDirty(after, Some(q)) == IsDirty(d, Some(q)))
  {
    var scope := SymmetryScope(root, applyToSymmetry);
    var after := Marked(d, scope, flag);
    var group := GetSymmetryGroup(root);
    IsDirtyMarked(d, scope, flag, root);
    forall q | q in group
      ensures applyToSymmetry ==> IsDirty(after, Some(q)) == flag
    {
      IsDirtyMarked(d, scope, flag, Some(q));
    }
    forall q: Part | q.persistentId !in IdsOf(group)
      ensures IsDirty(after, Some(q)) == IsDirty(d, Some(q))
    {
      assert root.value in group;
      IsDirtyMarked(d, scope, flag, Some(q));
    }
  }
}
