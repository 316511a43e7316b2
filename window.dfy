/** The tuner window's state and the operations that change it: the dirty
    flags, the propagating setters, the lazily filled dictionaries, the
    wheel list refresh and the patch builder. */
module Window {
  import opened Host
  import opened Text
  import opened Dirty
  import opened Sync
  import opened LazyMaps
  import opened WheelList
  import opened Patch

  // ---------------------------------------------------------------------
  // Which parts the patch is built for
  // ---------------------------------------------------------------------

  /** The parts of the listed bases that have one, in list order. */
  function PartsOf(bases: seq<PartModule>): (r: seq<Part>)
    ensures |r| <= |bases|
    ensures forall p :: p in r <==> exists b :: b in bases && b.part == Some(p)
  {
    if bases == [] then []
    else
      var init, last := bases[..|bases| - 1], bases[|bases| - 1];
      assert forall x :: x in bases <==> x in init || x == last by {
        assert bases == init + [last];
      }
      PartsOf(init) + (if last.part.Some? then [last.part.value] else [])
  }

  /** One step of `PartsOf`, from the back. */
  lemma PartsOfLast(bases: seq<PartModule>)
    requires bases != []
    ensures PartsOf(bases) ==
            PartsOf(bases[..|bases| - 1]) +
            (if bases[|bases| - 1].part.Some? then [bases[|bases| - 1].part.value] else [])
  {
  }

  /** `PartsOf` keeps list order: the parts of a joined list are the parts
      of its first half followed by those of its second. */
  lemma {:induction false} PartsOfAppend(a: seq<PartModule>, b: seq<PartModule>)
    ensures PartsOf(a + b) == PartsOf(a) + PartsOf(b)
  {
    if b == [] {
      assert a + b == a;
    } else {
      var ab, init := a + b, b[..|b| - 1];
      assert ab[..|ab| - 1] == a + init;
      PartsOfLast(ab);
      PartsOfLast(b);
      PartsOfAppend(a, init);
      assert b[|b| - 1] == ab[|ab| - 1];
    }
  }

  /** The target loop of `BuildModuleManagerPatch` over all wheels. */
  method CollectParts(bases: seq<PartModule>) returns (targets: seq<Part>)
    ensures targets == PartsOf(bases)
  {
    targets := [];
    for i := 0 to |bases|
      invariant targets == PartsOf(bases[..i])
    {
      assert bases[..i + 1][..i] == bases[..i];
      if bases[i].part.Some? {
        targets := targets + [bases[i].part.value];
      }
    }
    assert bases[..|bases|] == bases;
  }

  /** The first listed base that sits on the part with the given id. */
  function FirstOnPart(bases: seq<PartModule>, id: uint32): (r: Option<PartModule>)
    ensures r.None? <==> !exists b :: b in bases && OnPart(b, id)
    ensures r.Some? ==> exists i :: 0 <= i < |bases| && bases[i] == r.value && OnPart(r.value, id) &&
                          forall j :: 0 <= j < i ==> !OnPart(bases[j], id)
  {
    if bases == [] then None
    else if OnPart(bases[0], id) then Some(bases[0])
    else
      assert forall b :: b in bases <==> b == bases[0] || b in bases[1..] by {
        assert bases == [bases[0]] + bases[1..];
      }
      var r := FirstOnPart(bases[1..], id);
      assert r.Some? ==> exists i :: 0 <= i < |bases| && bases[i] == r.value && OnPart(r.value, id) &&
                          forall j :: 0 <= j < i ==> !OnPart(bases[j], id) by {
        if r.Some? {
          var i :| 0 <= i < |bases[1..]| && bases[1..][i] == r.value && OnPart(r.value, id) &&
                   forall j :: 0 <= j < i ==> !OnPart(bases[1..][j], id);
          assert bases[i + 1] == r.value;
          forall j | 0 <= j < i + 1 ensures !OnPart(bases[j], id) {
            if j > 0 { assert bases[j] == bases[1..][j - 1]; }
          }
        }
      }
      r
  }

  /** The parts the patch is built for: every listed part, or only the
      selected wheel's part; none when a single wheel is wanted and the
      selected part carries no listed base. */
  function PatchTargets(bases: seq<PartModule>, selected: uint32, allWheels: bool): Option<seq<Part>> {
    if allWheels then Some(PartsOf(bases))
    else
      match FirstOnPart(bases, selected)
      case None => None
      case Some(b) => Some([b.part.value])
  }

  /** The lines `BuildModuleManagerPatch` returns. */
  function PatchText(bases: seq<PartModule>, selected: uint32, allWheels: bool): seq<string> {
    match PatchTargets(bases, selected, allWheels)
    case None => [NoSelectionText]
    case Some(targets) => PatchLines(targets)
  }

  /** The placeholder comes back exactly when a single wheel is wanted and
      no listed base sits on the selected part. */
  lemma PlaceholderIffNoSelection(bases: seq<PartModule>, selected: uint32, allWheels: bool)
    ensures PatchText(bases, selected, allWheels) == [NoSelectionText] <==>
            !allWheels && !exists b :: b in bases && OnPart(b, selected)
  {
    match PatchTargets(bases, selected, allWheels)
    case None =>
    case Some(targets) =>
      assert |PatchLines(targets)| >= |PatchHeader|;
  }

  /** The patch for the selected wheel is the header followed by the block
      of its part, named by the part's internal name, or by nothing when
      that name is empty. */
  lemma SelectedWheelPatch(bases: seq<PartModule>, selected: uint32)
    requires exists b :: b in bases && OnPart(b, selected)
    ensures var p := FirstOnPart(bases, selected).value.part.value;
            var name := GetPartInternalName(Some(p));
            && p.persistentId == selected
            && PatchText(bases, selected, false) ==
               PatchHeader + (if name == "" then [] else PartBlock(name, p))
  {
    SingleTargetPatch(FirstOnPart(bases, selected).value.part.value);
  }

  /** The patch over all wheels names a block after a string exactly when
      some listed part has that non-empty internal name; names come in
      ascending order, each once. */
  lemma AllWheelsGroups(bases: seq<PartModule>, selected: uint32)
    ensures PatchTargets(bases, selected, true).Some?
    ensures var targets := PatchTargets(bases, selected, true).value;
            && StrictlySorted(GroupNames(targets))
            && (forall i, j :: 0 <= i < |GroupNames(targets)| && 0 <= j < |GroupNames(targets)| && i != j ==>
                  GroupNames(targets)[i] != GroupNames(targets)[j])
            && forall name :: name in GroupNames(targets) <==>
                 name != "" && exists b :: b in bases && b.part.Some? &&
                                         GetPartInternalName(b.part) == name
  {
    var targets := PartsOf(bases);
    var names := GroupNames(targets);
    forall i, j | 0 <= i < |names| && 0 <= j < |names| && i != j ensures names[i] != names[j] {
      StrictlySortedDistinct(names, i, j);
    }
    GroupNamesMembers(targets);
    forall b | b in bases && b.part.Some? ensures b.part.value in targets {
    }
  }

  // ---------------------------------------------------------------------
  // The window
  // ---------------------------------------------------------------------

  class WheelTunerWindow {
    /** The "Apply to symmetry" toggle. */
    var applyToSymmetry: bool
    /** The persistent id of the selected part, 0 for none. */
    var selectedPartId: uint32
    var expandedByPartId: map<uint32, bool>
    var dirtyByPartId: DirtyMap
    /** The listed `ModuleWheelBase` modules. */
    var wheelBases: seq<PartModule>
    /** Editor scratch text and numbers, per module hash code and key. */
    var tempStrings: map<int32, map<string, string>>
    var tempFloats: map<int32, map<string, real>>

    /** A new window: symmetry on, nothing selected, every dictionary empty. */
    constructor ()
      ensures applyToSymmetry && selectedPartId == 0
      ensures expandedByPartId == map[] && dirtyByPartId == map[] && wheelBases == []
      ensures tempStrings == map[] && tempFloats == map[]
    {
      applyToSymmetry := true;
      selectedPartId := 0;
      expandedByPartId := map[];
      dirtyByPartId := map[];
      wheelBases := [];
      tempStrings := map[];
      tempFloats := map[];
    }

    /** `OnDestroy`: empties the dictionaries and the wheel list. */
    method OnDestroy()
      modifies this`tempStrings, this`tempFloats, this`expandedByPartId, this`dirtyByPartId, this`wheelBases
      ensures tempStrings == map[] && tempFloats == map[]
      ensures expandedByPartId == map[] && dirtyByPartId == map[] && wheelBases == []
    {
      tempStrings := map[];
      tempFloats := map[];
      expandedByPartId := map[];
      dirtyByPartId := map[];
      wheelBases := [];
    }

    // -------------------------------------------------------------------
    // Dirty flags
    // -------------------------------------------------------------------

    method MarkDirty(p: Option<Part>)
      modifies this`dirtyByPartId
      ensures p.None? ==> dirtyByPartId == old(dirtyByPartId)
      ensures p.Some? ==> dirtyByPartId == old(dirtyByPartId)[p.value.persistentId := true]
    {
      if p.None? { return; }
      dirtyByPartId := dirtyByPartId[p.value.persistentId := true];
    }

    method ClearDirty(p: Option<Part>)
      modifies this`dirtyByPartId
      ensures p.None? ==> dirtyByPartId == old(dirtyByPartId)
      ensures p.Some? ==> dirtyByPartId == old(dirtyByPartId)[p.value.persistentId := false]
    {
      if p.None? { return; }
      dirtyByPartId := dirtyByPartId[p.value.persistentId := false];
    }

    /** Marks the root and, with the toggle on, every member of its
      symmetry group dirty. */
    method MarkDirtyForPartAndSymmetry(root: Option<Part>)
      modifies this`dirtyByPartId
      ensures dirtyByPartId == Marked(old(dirtyByPartId), SymmetryScope(root, applyToSymmetry), true)
    {
      MarkedNone(dirtyByPartId, true);
      if root.None? { return; }
      ghost var d0 := dirtyByPartId;
      MarkDirty(root);
      MarkedOneMore(d0, {}, true, root.value.persistentId);
      if applyToSymmetry {
        SetGroupFlags(GetSymmetryGroup(root), true);
        ScopeOfGroup(d0, root, true);
      } else {
        assert {} + {root.value.persistentId} == {root.value.persistentId};
      }
    }

    /** Clears the root's flag and, with the toggle on, the flag of every
      member of its symmetry group. */
    method ClearDirtyForPartAndSymmetry(root: Option<Part>)
      modifies this`dirtyByPartId
      ensures dirtyByPartId == Marked(old(dirtyByPartId), SymmetryScope(root, applyToSymmetry), false)
    {
      MarkedNone(dirtyByPartId, false);
      if root.None? { return; }
      ghost var d0 := dirtyByPartId;
      ClearDirty(root);
      MarkedOneMore(d0, {}, false, root.value.persistentId);
      if applyToSymmetry {
        SetGroupFlags(GetSymmetryGroup(root), false);
        ScopeOfGroup(d0, root, false);
      } else {
        assert {} + {root.value.persistentId} == {root.value.persistentId};
      }
    }

    /** The symmetry loop of both: sets the flag of every member of `group`
      by `MarkDirty` or `ClearDirty`. */
    method SetGroupFlags(group: seq<Part>, flag: bool)
      modifies this`dirtyByPartId
      ensures dirtyByPartId == Marked(old(dirtyByPartId), IdsOf(group), flag)
    {
      ghost var d0 := dirtyByPartId;
      MarkedNone(d0, flag);
      assert group[..0] == [];
      for i := 0 to |group|
        invariant dirtyByPartId == Marked(d0, IdsOf(group[..i]), flag)
      {
        if flag {
          MarkDirty(Some(group[i]));
        } else {
          ClearDirty(Some(group[i]));
        }
        MarkedOneMore(d0, IdsOf(group[..i]), flag, group[i].persistentId);
        IdsOfStep(group, i);
      }
      assert group[..|group|] == group;
    }

    // -------------------------------------------------------------------
    // Propagating setters
    // -------------------------------------------------------------------

    /** The propagation shared by `SetValue` and `ScaleFloatCurve`: applies
      `e` to `m`, then, with the toggle on and `m` on a part, to the
      matching module of every other member of the part's symmetry group,
      and finally marks the source part when any edit succeeded. `applied`
      lists the modules the edit succeeded on, in order. */
    method Propagate(m: PartModule, e: Edit) returns (changedAny: bool, applied: seq<PartModule>)
      modifies this`dirtyByPartId
      ensures var ts := SyncTargets(applyToSymmetry, m);
              && changedAny == ChangedAny(e, m, ts)
              && applied == (if Applies(e, m) then [m] else []) + ChangedModules(ts, e)
              && dirtyByPartId == DirtyAfter(old(dirtyByPartId), e, m, ts)
    {
      ghost var d0 := dirtyByPartId;
      ghost var ts := SyncTargets(applyToSymmetry, m);
      changedAny := Applies(e, m);
      applied := if changedAny then [m] else [];
      var sourcePart := m.part;
      if applyToSymmetry && sourcePart.Some? {
        var changed, written := WriteCounterparts(m, e, sourcePart.value);
        changedAny := changedAny || changed;
        applied := applied + written;
      } else {
        MarkedNone(d0, true);
        assert ChangedIds(ts, e) == {};
        assert ChangedModules(ts, e) == [];
      }
      if changedAny && sourcePart.Some? {
        MarkedOneMore(d0, ChangedIds(ts, e), true, sourcePart.value.persistentId);
        MarkDirty(sourcePart);
      } else {
        assert ChangedIds(ts, e) + {} == ChangedIds(ts, e);
      }
    }

    /** The loop of `Propagate` over the symmetry group of the source part. */
    method WriteCounterparts(m: PartModule, e: Edit, sourcePart: Part) returns (changed: bool, written: seq<PartModule>)
      requires m.part == Some(sourcePart)
      modifies this`dirtyByPartId
      ensures var ts := CounterpartTargets(GetSymmetryGroup(m.part), sourcePart, m);
              && changed == AnyApplied(ts, e)
              && written == ChangedModules(ts, e)
              && dirtyByPartId == Marked(old(dirtyByPartId), ChangedIds(ts, e), true)
    {
      ghost var d0 := dirtyByPartId;
      changed := false;
      written := [];
      var group := GetSymmetryGroup(m.part);
      assert group[..0] == [];
      for i := 0 to |group|
        invariant Progress(changed, written, dirtyByPartId) == Run(d0, e, CounterpartTargets(group[..i], sourcePart, m))
      {
        CounterpartTargetsStep(group, i, sourcePart, m);
        changed, written := VisitMember(m, e, sourcePart, group[i], d0, CounterpartTargets(group[..i], sourcePart, m), changed, written);
      }
      assert group[..|group|] == group;
      RunOutcome(d0, e, CounterpartTargets(group, sourcePart, m));
    }

    /** One pass of that loop over the member `p`: skips the source part
      itself and a member without a matching module; otherwise applies the
      edit to the match and, when it succeeds, records the write and marks
      the member dirty. */
    method VisitMember(m: PartModule, e: Edit, sourcePart: Part, p: Part, ghost d0: DirtyMap, ghost done: seq<Target>,
                       changed: bool, written: seq<PartModule>)
      returns (changed': bool, written': seq<PartModule>)
      requires Progress(changed, written, dirtyByPartId) == Run(d0, e, done)
      modifies this`dirtyByPartId
      ensures Progress(changed', written', dirtyByPartId) == Run(d0, e, done + MemberTarget(p, sourcePart, m))
    {
      RunStep(d0, e, done, MemberTarget(p, sourcePart, m));
      changed', written' := changed, written;
      if p.handle == sourcePart.handle {
        return;
      }
      var found := FindMatchingModuleOnPart(Some(p), Some(m));
      if found.None? {
        return;
      }
      if Applies(e, found.value) {
        changed' := true;
        written' := written + [found.value];
        MarkDirty(Some(p));
      }
    }

    /** `SetValue`: false and no effect for a null module; otherwise the
      write propagated as `Propagate` describes. */
    method SetValue(moduleObj: Option<PartModule>, name: string, value: Value)
      returns (changedAny: bool, applied: seq<PartModule>)
      modifies this`dirtyByPartId
      ensures moduleObj.None? ==> !changedAny && applied == [] && dirtyByPartId == old(dirtyByPartId)
      ensures moduleObj.Some? ==>
                var e, ts := SetField(name, value), SyncTargets(applyToSymmetry, moduleObj.value);
                && changedAny == ChangedAny(e, moduleObj.value, ts)
                && applied == (if Applies(e, moduleObj.value) then [moduleObj.value] else []) + ChangedModules(ts, e)
                && dirtyByPartId == DirtyAfter(old(dirtyByPartId), e, moduleObj.value, ts)
    {
      if moduleObj.None? { return false, []; }
      changedAny, applied := Propagate(moduleObj.value, SetField(name, value));
    }

    /** `ScaleFloatCurve`: false and no effect for a null module or a scale
      nearly equal to 1; otherwise the scaling propagated as `Propagate`
      describes. */
    method ScaleFloatCurve(moduleObj: Option<PartModule>, curveName: string, scale: real)
      returns (anyChanged: bool, applied: seq<PartModule>)
      modifies this`dirtyByPartId
      ensures moduleObj.None? || NearlyEqual(scale, 1.0) ==>
                !anyChanged && applied == [] && dirtyByPartId == old(dirtyByPartId)
      ensures moduleObj.Some? && !NearlyEqual(scale, 1.0) ==>
                var e, ts := ScaleCurve(curveName, scale), SyncTargets(applyToSymmetry, moduleObj.value);
                && anyChanged == ChangedAny(e, moduleObj.value, ts)
                && applied == (if Applies(e, moduleObj.value) then [moduleObj.value] else []) + ChangedModules(ts, e)
                && dirtyByPartId == DirtyAfter(old(dirtyByPartId), e, moduleObj.value, ts)
    {
      if moduleObj.None? { return false, []; }
      if NearlyEqual(scale, 1.0) { return false, []; }
      anyChanged, applied := Propagate(moduleObj.value, ScaleCurve(curveName, scale));
    }

    // -------------------------------------------------------------------
    // Lazily filled dictionaries
    // -------------------------------------------------------------------

    /** The expand state of a part; a part seen for the first time is
      recorded as collapsed. */
    method GetExpanded(persistentId: uint32) returns (expanded: bool)
      modifies this`expandedByPartId
      ensures (expandedByPartId, expanded) == GetOrAdd(old(expandedByPartId), persistentId, false)
    {
      if persistentId in expandedByPartId {
        return expandedByPartId[persistentId];
      }
      expandedByPartId := expandedByPartId[persistentId := false];
      return false;
    }

    method SetExpanded(persistentId: uint32, expanded: bool)
      modifies this`expandedByPartId
      ensures expandedByPartId == old(expandedByPartId)[persistentId := expanded]
    {
      expandedByPartId := expandedByPartId[persistentId := expanded];
    }

    method GetTempString(module_: Option<PartModule>, key: string, defaultValue: string) returns (v: string)
      modifies this`tempStrings
      ensures (tempStrings, v) == GetOrAdd2(old(tempStrings), TempId(module_), key, defaultValue)
    {
      var id := TempId(module_);
      var d: map<string, string>;
      if id in tempStrings {
        d := tempStrings[id];
      } else {
        d := map[];
        tempStrings := tempStrings[id := d];
      }
      if key in d {
        v := d[key];
        assert tempStrings[id := d] == tempStrings;
      } else {
        v := defaultValue;
        d := d[key := v];
        assert tempStrings[id := d] == old(tempStrings)[id := d];
        tempStrings := tempStrings[id := d];
      }
    }

    method SetTempString(module_: Option<PartModule>, key: string, value: string)
      modifies this`tempStrings
      ensures tempStrings == Put2(old(tempStrings), TempId(module_), key, value)
    {
      var id := TempId(module_);
      var d: map<string, string>;
      if id in tempStrings {
        d := tempStrings[id];
      } else {
        d := map[];
        tempStrings := tempStrings[id := d];
      }
      d := d[key := value];
      tempStrings := tempStrings[id := d];
    }

    method GetTempFloat(module_: Option<PartModule>, key: string, defaultValue: real) returns (v: real)
      modifies this`tempFloats
      ensures (tempFloats, v) == GetOrAdd2(old(tempFloats), TempId(module_), key, defaultValue)
    {
      var id := TempId(module_);
      var d: map<string, real>;
      if id in tempFloats {
        d := tempFloats[id];
      } else {
        d := map[];
        tempFloats := tempFloats[id := d];
      }
      if key in d {
        v := d[key];
        assert tempFloats[id := d] == tempFloats;
      } else {
        v := defaultValue;
        d := d[key := v];
        assert tempFloats[id := d] == old(tempFloats)[id := d];
        tempFloats := tempFloats[id := d];
      }
    }

    method SetTempFloat(module_: Option<PartModule>, key: string, value: real)
      modifies this`tempFloats
      ensures tempFloats == Put2(old(tempFloats), TempId(module_), key, value)
    {
      var id := TempId(module_);
      var d: map<string, real>;
      if id in tempFloats {
        d := tempFloats[id];
      } else {
        d := map[];
        tempFloats := tempFloats[id := d];
      }
      d := d[key := value];
      tempFloats := tempFloats[id := d];
    }

    // -------------------------------------------------------------------
    // Wheel list
    // -------------------------------------------------------------------

    /** `RefreshWheelList`, given what the host reports as the current
      parts (null when there is no craft): with no parts the list is
      emptied and the selection kept; otherwise the wheel bases of the
      parts that sit on a part, ordered by title, and the selection reset
      unless it still names a listed part. */
    method RefreshWheelList(parts: Option<seq<Option<Part>>>)
      modifies this`wheelBases, this`selectedPartId
      ensures parts.None? ==> wheelBases == [] && selectedPartId == old(selectedPartId)
      ensures parts.Some? ==>
                && wheelBases == SortByTitle(WithPart(DiscoveredWheelBases(parts.value)))
                && selectedPartId == SelectionAfterRefresh(old(selectedPartId), wheelBases)
    {
      if parts.None? {
        wheelBases := [];
        return;
      }
      var ps := parts.value;
      var bases: seq<PartModule> := [];
      for i := 0 to |ps|
        invariant bases == DiscoveredWheelBases(ps[..i])
      {
        assert ps[..i + 1][..i] == ps[..i];
        if ps[i].None? { continue; }
        bases := bases + ModulesImplementing(ps[i].value.modules, WheelBase);
      }
      assert ps[..|ps|] == ps;
      wheelBases := SortByTitle(WithPart(bases));
      if selectedPartId != 0 && !(exists b :: b in wheelBases && OnPart(b, selectedPartId)) {
        selectedPartId := 0;
      }
    }

    // -------------------------------------------------------------------
    // Patch builder
    // -------------------------------------------------------------------

    /** `BuildModuleManagerPatch`: the placeholder when a single wheel is
      wanted and none is selected; otherwise the header and one block per
      distinct non-empty internal name among the targets, in ascending
      name order, each written from the first target with that name. */
    method BuildModuleManagerPatch(allWheels: bool) returns (text: seq<string>)
      ensures text == PatchText(wheelBases, selectedPartId, allWheels)
    {
      var targets: seq<Part>;
      if allWheels {
        targets := CollectParts(wheelBases);
      } else {
        var wb := FirstOnPart(wheelBases, selectedPartId);
        if wb.Some? && wb.value.part.Some? {
          targets := [wb.value.part.value];
        } else {
          return [NoSelectionText];
        }
      }
      text := AppendGroups(targets);
    }
  }
}
