/** The propagation shared by `SetValue` and `ScaleFloatCurve`: an edit is
    applied to a module and, with the symmetry toggle on, to the matching
    module on every other part of its symmetry group; the parts whose edit
    succeeded are marked dirty. The functions here say what one propagation
    does; `Window.WheelTunerWindow.Propagate` does it step by step. */
module Sync {
  import opened Host
  import opened Dirty

  /** What is written: a field value (`SetValue`) or a scale factor for the
      keys of a curve (`ScaleFloatCurve`). */
  datatype Edit =
    | SetField(name: string, value: Value)
    | ScaleCurve(curveName: string, scale: real)

  /** Whether the edit succeeds on `m`: a reflective write needs a non-empty
      name the module accepts a write to; scaling needs a curve field that
      holds an animation curve. */
  predicate Applies(e: Edit, m: PartModule) {
    match e
    case SetField(name, _) => name != "" && name in m.writable
    case ScaleCurve(curveName, _) => curveName != "" && curveName in m.curves
  }

  function Abs(x: real): real {
    if x < 0.0 then -x else x
  }

  /** `NearlyEqual`: the two numbers differ by less than 0.0005, whichever
      is the larger; so `ScaleFloatCurve` ignores exactly the scales strictly
      between 0.9995 and 1.0005. */
  function NearlyEqual(a: real, b: real): (r: bool)
    ensures r <==> -0.0005 < a - b < 0.0005
    ensures r <==> Abs(b - a) < 0.0005
  {
    Abs(a - b) < 0.0005
  }

  /** A counterpart visited by the propagation loop, with its matched module. */
  datatype Target = Target(part: Part, matched: PartModule)

  /** What the loop makes of one member `q` of the group: nothing when it
      is the source part itself or has no matching module, otherwise `q`
      with its matched module. */
  function MemberTarget(q: Part, sourcePart: Part, source: PartModule): seq<Target> {
    var found := FindMatchingModuleOnPart(Some(q), Some(source));
    if q.handle != sourcePart.handle && found.Some? then [Target(q, found.value)] else []
  }

  /** The counterparts the loop writes to, in group order: every member of
      `group` other than the source part itself that holds a module matching
      `source`, paired with that module. */
  function CounterpartTargets(group: seq<Part>, sourcePart: Part, source: PartModule): seq<Target> {
    if group == [] then []
    else
      CounterpartTargets(group[..|group| - 1], sourcePart, source) +
      MemberTarget(group[|group| - 1], sourcePart, source)
  }

  /** The targets are exactly the members of the group other than the
      source part that have a matching module, each with that module. */
  lemma {:induction false} CounterpartTargetsExact(group: seq<Part>, sourcePart: Part, source: PartModule)
    ensures var ts := CounterpartTargets(group, sourcePart, source);
            && (forall t :: t in ts ==>
                  && t.part in group
                  && t.part.handle != sourcePart.handle
                  && FindMatchingModuleOnPart(Some(t.part), Some(source)) == Some(t.matched))
            && (forall q :: (q in group && q.handle != sourcePart.handle &&
                             FindMatchingModuleOnPart(Some(q), Some(source)).Some?) ==>
                  Target(q, FindMatchingModuleOnPart(Some(q), Some(source)).value) in ts)
  {
    if group != [] {
      var init := group[..|group| - 1];
      assert group == init + [group[|group| - 1]];
      CounterpartTargetsExact(init, sourcePart, source);
    }
  }

  /** One more group member visited by the loop. */
  lemma CounterpartTargetsStep(group: seq<Part>, i: int, sourcePart: Part, source: PartModule)
    requires 0 <= i < |group|
    ensures CounterpartTargets(group[..i + 1], sourcePart, source) ==
            CounterpartTargets(group[..i], sourcePart, source) + MemberTarget(group[i], sourcePart, source)
  {
    assert group[..i + 1][..i] == group[..i];
  }

  /** The targets a propagation writes to besides the source module: none
      unless the toggle is on and the source module sits on a part. */
  function SyncTargets(applyToSymmetry: bool, m: PartModule): (ts: seq<Target>)
    ensures !applyToSymmetry || m.part.None? ==> ts == []
    ensures m.part.Some? ==> forall t :: t in ts ==>
              t.part in GetSymmetryGroup(m.part) && t.part.handle != m.part.value.handle
  {
    if applyToSymmetry && m.part.Some? then
      CounterpartTargetsExact(GetSymmetryGroup(m.part), m.part.value, m);
      CounterpartTargets(GetSymmetryGroup(m.part), m.part.value, m)
    else []
  }

  /** Whether the write to some counterpart succeeded. */
  predicate AnyApplied(ts: seq<Target>, e: Edit) {
    exists t :: t in ts && Applies(e, t.matched)
  }

  /** Whether any write succeeded: the value `SetValue` returns. */
  predicate ChangedAny(e: Edit, m: PartModule, ts: seq<Target>) {
    Applies(e, m) || AnyApplied(ts, e)
  }

  /** The ids of the counterparts whose write succeeded. */
  function ChangedIds(ts: seq<Target>, e: Edit): set<uint32> {
    set t | t in ts && Applies(e, t.matched) :: t.part.persistentId
  }

  /** The counterpart modules whose write succeeded, in visiting order. */
  function ChangedModules(ts: seq<Target>, e: Edit): (r: seq<PartModule>)
    ensures |r| <= |ts|
    ensures forall x :: x in r <==> exists t :: t in ts && Applies(e, t.matched) && t.matched == x
  {
    if ts == [] then []
    else
      var init, t := ts[..|ts| - 1], ts[|ts| - 1];
      assert forall x :: x in ts <==> x in init || x == t by {
        assert ts == init + [t];
      }
      ChangedModules(init, e) + (if Applies(e, t.matched) then [t.matched] else [])
  }

  /** The dirty map after a propagation: every counterpart whose write
      succeeded is marked, and so is the source part when any write did. */
  function DirtyAfter(d: DirtyMap, e: Edit, m: PartModule, ts: seq<Target>): DirtyMap {
    Marked(d, ChangedIds(ts, e) +
              (if ChangedAny(e, m, ts) && m.part.Some? then {m.part.value.persistentId} else {}),
           true)
  }

  /** The state of the propagation loop: whether a write succeeded, the
      modules written so far and the dirty flags. */
  datatype Progress = Progress(changed: bool, written: seq<PartModule>, dirty: DirtyMap)

  /** The loop state after visiting the targets `ts` one by one from `d`:
      a successful write sets `changed`, appends the module and marks its
      part; a failed one leaves the state alone. */
  function Run(d: DirtyMap, e: Edit, ts: seq<Target>): Progress {
    if ts == [] then Progress(false, [], d)
    else
      var p, t := Run(d, e, ts[..|ts| - 1]), ts[|ts| - 1];
      if Applies(e, t.matched) then Progress(true, p.written + [t.matched], p.dirty[t.part.persistentId := true])
      else p
  }

  /** One more target visited by the loop. */
  lemma RunStep(d: DirtyMap, e: Edit, done: seq<Target>, step: seq<Target>)
    requires |step| <= 1
    ensures var p := Run(d, e, done);
            Run(d, e, done + step) ==
              if step != [] && Applies(e, step[0].matched) then
                Progress(true, p.written + [step[0].matched], p.dirty[step[0].part.persistentId := true])
              else p
  {
    if step == [] {
      assert done + step == done;
    } else {
      assert (done + step)[..|done + step| - 1] == done;
    }
  }

  /** The successful writes over two runs of targets are those over the
      first followed by those over the second. */
  lemma {:induction false} ChangedModulesConcat(e: Edit, a: seq<Target>, b: seq<Target>)
    ensures ChangedModules(a + b, e) == ChangedModules(a, e) + ChangedModules(b, e)
    decreases |b|
  {
    if b == [] {
      assert a + b == a;
    } else {
      var init := b[..|b| - 1];
      assert (a + b)[..|a + b| - 1] == a + init;
      ChangedModulesConcat(e, a, init);
      ConcatAssoc(ChangedModules(a, e), ChangedModules(init, e),
                  if Applies(e, b[|b| - 1].matched) then [b[|b| - 1].matched] else []);
    }
  }

  /** The outcome over two runs of targets is the outcome over the first
      followed by the outcome over the second. */
  lemma ChangedConcat(e: Edit, a: seq<Target>, b: seq<Target>)
    ensures AnyApplied(a + b, e) == (AnyApplied(a, e) || AnyApplied(b, e))
    ensures ChangedModules(a + b, e) == ChangedModules(a, e) + ChangedModules(b, e)
    ensures ChangedIds(a + b, e) == ChangedIds(a, e) + ChangedIds(b, e)
  {
    assert forall x :: x in a + b <==> x in a || x in b;
    ChangedModulesConcat(e, a, b);
  }

  /** The loop's final state is what the propagation promises: `changed`
      tells whether any write succeeded, `written` lists the modules written,
      and exactly their parts are marked dirty. */
  lemma {:induction false} RunOutcome(d: DirtyMap, e: Edit, ts: seq<Target>)
    ensures Run(d, e, ts) == Progress(AnyApplied(ts, e), ChangedModules(ts, e), Marked(d, ChangedIds(ts, e), true))
    decreases |ts|
  {
    if ts == [] {
      MarkedNone(d, true);
    } else {
      var init := ts[..|ts| - 1];
      assert ts == init + [ts[|ts| - 1]];
      RunOutcome(d, e, init);
      RunOutcomeStep(d, e, init, ts[|ts| - 1]);
    }
  }

  /** The inductive step of `RunOutcome`. */
  lemma RunOutcomeStep(d: DirtyMap, e: Edit, init: seq<Target>, t: Target)
    requires Run(d, e, init) == Progress(AnyApplied(init, e), ChangedModules(init, e), Marked(d, ChangedIds(init, e), true))
    ensures Run(d, e, init + [t]) ==
            Progress(AnyApplied(init + [t], e), ChangedModules(init + [t], e), Marked(d, ChangedIds(init + [t], e), true))
  {
    RunStep(d, e, init, [t]);
    ChangedConcat(e, init, [t]);
    ChangedSingle(e, t);
    if Applies(e, t.matched) {
      MarkedOneMore(d, ChangedIds(init, e), true, t.part.persistentId);
    } else {
      assert ChangedIds(init, e) + {} == ChangedIds(init, e);
      assert ChangedModules(init, e) + [] == ChangedModules(init, e);
    }
  }

  /** The outcome over a single target. */
  lemma ChangedSingle(e: Edit, t: Target)
    ensures AnyApplied([t], e) == Applies(e, t.matched)
    ensures ChangedModules([t], e) == if Applies(e, t.matched) then [t.matched] else []
    ensures ChangedIds([t], e) == if Applies(e, t.matched) then {t.part.persistentId} else {}
  {
    assert [t][..0] == [];
  }

  /** The source part ends up dirty exactly when some write succeeded, or
      when it was dirty already. */
  lemma SourceDirtyIffChanged(d: DirtyMap, e: Edit, m: PartModule, ts: seq<Target>)
    requires m.part.Some?
    ensures IsDirty(DirtyAfter(d, e, m, ts), m.part) <==> ChangedAny(e, m, ts) || IsDirty(d, m.part)
  {
    if !ChangedAny(e, m, ts) {
      assert ChangedIds(ts, e) == {};
      MarkedNone(d, true);
    }
  }

  /** A counterpart whose matched write succeeded is dirty afterwards. */
  lemma ChangedCounterpartsDirty(d: DirtyMap, e: Edit, m: PartModule, ts: seq<Target>)
    ensures forall t :: t in ts && Applies(e, t.matched) ==> IsDirty(DirtyAfter(d, e, m, ts), Some(t.part))
  {
  }

  /** When no write succeeds the dirty map is left exactly as it was. */
  lemma NothingChangedNothingMarked(d: DirtyMap, e: Edit, m: PartModule, ts: seq<Target>)
    requires !ChangedAny(e, m, ts)
    ensures DirtyAfter(d, e, m, ts) == d
    ensures ChangedModules(ts, e) == []
  {
    NoneApplied(e, ts);
    MarkedNone(d, true);
  }

  /** Without a successful write there is no id to mark and no module written. */
  lemma NoneApplied(e: Edit, ts: seq<Target>)
    requires !AnyApplied(ts, e)
    ensures ChangedIds(ts, e) == {}
    ensures ChangedModules(ts, e) == []
  {
  }

  /** A member of the source's symmetry group other than the source part is
      marked dirty exactly when it has a matching module and the write to
      that module succeeded (or it was dirty before), provided no other
      part shares its persistent id. */
  lemma CounterpartDirtyIffWritten(d: DirtyMap, e: Edit, m: PartModule, q: Part)
    requires m.part.Some? && q in GetSymmetryGroup(m.part) && q.handle != m.part.value.handle
    requires forall r :: r in GetSymmetryGroup(m.part) && r.persistentId == q.persistentId ==> r == q
    ensures var ts := SyncTargets(true, m);
            var found := FindMatchingModuleOnPart(Some(q), Some(m));
            IsDirty(DirtyAfter(d, e, m, ts), Some(q)) <==>
              (found.Some? && Applies(e, found.value)) || IsDirty(d, Some(q))
  {
    assert m.part.value in GetSymmetryGroup(m.part);
    var ts := SyncTargets(true, m);
    var found := FindMatchingModuleOnPart(Some(q), Some(m));
    var ids := ChangedIds(ts, e) + (if ChangedAny(e, m, ts) then {m.part.value.persistentId} else {});
    IsDirtyMarked(d, ids, true, Some(q));
    CounterpartTargetsExact(GetSymmetryGroup(m.part), m.part.value, m);
    if found.Some? && Applies(e, found.value) {
      assert Target(q, found.value) in ts;
    }
    if q.persistentId in ChangedIds(ts, e) {
      var t :| t in ts && Applies(e, t.matched) && t.part.persistentId == q.persistentId;
      assert t.part == q;
    }
  }
}
