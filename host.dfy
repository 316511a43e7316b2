/** The game objects the wheel tuner reads: parts, the modules attached to
    them, and the values those modules expose. Object identity (C# reference
    equality) is represented by a `handle`; a C# null is `None`. */
module Host {

  datatype Option<+T> = None | Some(value: T) {
    function GetOr(default: T): T {
      if Some? then value else default
    }
  }

  /** C# `uint`, the type of `Part.persistentId`. */
  type uint32 = x: int | 0 <= x < 0x1_0000_0000

  /** C# `int`. */
  type int32 = x: int | -0x8000_0000 <= x < 0x8000_0000

  /** The wheel module types the tuner knows about (`ModuleWheelBase`, ...). */
  datatype WheelKind = WheelBase | Suspension | Steering | Motor | Brakes | Deployment | Damage

  /** A value read from a module field. Floating-point values carry their
      already formatted text; their formatting is not modelled. */
  datatype Value =
    | FloatValue(formatted: string)
    | IntValue(i: int32)
    | BoolValue(b: bool)
    | EnumValue(enumName: string)
    | OtherValue(shown: string)

  /** One key of an animation curve, each number already formatted. */
  datatype Keyframe = Keyframe(time: string, value: string, inTangent: string, outTangent: string)

  datatype PartInfo = PartInfo(name: Option<string>, title: string)

  /** A module attached to a part.
      - `typeTag` is its runtime type (`GetType()`), `kind` the wheel type it implements;
      - `fields` is what a reflective read of a field or property yields;
      - `writable` holds the names a reflective write succeeds on;
      - `curves` maps a curve field name to the keys of its animation curve,
        for the curve fields that hold one. */
  datatype PartModule = PartModule(
    handle: nat,
    hashCode: int32,
    moduleName: string,
    typeTag: string,
    kind: Option<WheelKind>,
    part: Option<Part>,
    fields: map<string, Value>,
    writable: set<string>,
    curves: map<string, seq<Keyframe>>)

  datatype Part = Part(
    handle: nat,
    persistentId: uint32,
    name: Option<string>,
    partInfo: Option<PartInfo>,
    modules: seq<Option<PartModule>>,
    symmetryCounterparts: Option<seq<Option<Part>>>)

  /** Concatenation is associative; stated once so that proofs about
      appending in steps can regroup their pieces. */
  lemma ConcatAssoc<T>(a: seq<T>, b: seq<T>, c: seq<T>)
    ensures (a + b) + c == a + (b + c)
  {
  }

  /** The non-null entries of `s`, in their original order. */
  function NonNull(s: seq<Option<Part>>): (r: seq<Part>)
    ensures |r| <= |s|
    ensures forall x :: x in r <==> Some(x) in s
  {
    if s == [] then []
    else
      assert forall x :: Some(x) in s <==> Some(x) == s[0] || Some(x) in s[1..] by {
        assert s == [s[0]] + s[1..];
      }
      (if s[0].Some? then [s[0].value] else []) + NonNull(s[1..])
  }

  /** Filtering null entries distributes over concatenation, so the
      surviving entries keep their relative order. */
  lemma {:induction false} NonNullAppend(a: seq<Option<Part>>, b: seq<Option<Part>>)
    ensures NonNull(a + b) == NonNull(a) + NonNull(b)
  {
    if a == [] {
      assert a + b == b;
    } else {
      assert (a + b)[1..] == a[1..] + b;
      NonNullAppend(a[1..], b);
    }
  }

  /** The symmetry group of `root`: the root first, then its non-null
      counterparts in list order; empty for a null root. */
  function GetSymmetryGroup(root: Option<Part>): (g: seq<Part>)
    ensures root.None? ==> g == []
    ensures root.Some? ==> |g| >= 1 && g[0] == root.value
    ensures root.Some? && root.value.symmetryCounterparts.None? ==> g == [root.value]
    ensures root.Some? && root.value.symmetryCounterparts.Some? ==>
              g[1..] == NonNull(root.value.symmetryCounterparts.value)
    ensures root.Some? ==> forall q :: q in g <==>
              q == root.value ||
              (root.value.symmetryCounterparts.Some? && Some(q) in root.value.symmetryCounterparts.value)
  {
    match root
    case None => []
    case Some(r) =>
      match r.symmetryCounterparts
      case None => [r]
      case Some(cps) => [r] + NonNull(cps)
  }

  /** Whether `slot` holds a module of the same runtime type as `source`
      and, when `exact`, also of the same `moduleName`. */
  predicate IsMatch(slot: Option<PartModule>, source: PartModule, exact: bool) {
    slot.Some? && slot.value.typeTag == source.typeTag &&
    (exact ==> slot.value.moduleName == source.moduleName)
  }

  /** `i` is the first index of `mods` holding a match. */
  predicate IsFirstMatch(mods: seq<Option<PartModule>>, i: int, source: PartModule, exact: bool) {
    0 <= i < |mods| && IsMatch(mods[i], source, exact) &&
    forall j :: 0 <= j < i ==> !IsMatch(mods[j], source, exact)
  }

  /** One pass of the search: the first matching index at or after `from`. */
  function FirstMatchFrom(mods: seq<Option<PartModule>>, source: PartModule, exact: bool, from: nat): (r: Option<nat>)
    ensures r.Some? ==> from <= r.value < |mods| && IsMatch(mods[r.value], source, exact)
    ensures r.Some? ==> forall j :: from <= j < r.value ==> !IsMatch(mods[j], source, exact)
    ensures r.None? ==> forall j :: from <= j < |mods| ==> !IsMatch(mods[j], source, exact)
    decreases |mods| - from
  {
    if from >= |mods| then None
    else if IsMatch(mods[from], source, exact) then Some(from)
    else FirstMatchFrom(mods, source, exact, from + 1)
  }

  /** The module on `targetPart` that corresponds to `sourceModule`: the
      first one with the same name and type, else the first one with the
      same type, else null. */
  function FindMatchingModuleOnPart(targetPart: Option<Part>, sourceModule: Option<PartModule>): (r: Option<PartModule>)
    ensures targetPart.None? || sourceModule.None? ==> r.None?
    ensures targetPart.Some? && sourceModule.Some? ==>
              var mods, src := targetPart.value.modules, sourceModule.value;
              && (r.Some? <==> exists i :: 0 <= i < |mods| && IsMatch(mods[i], src, false))
              && (r.Some? ==> r in mods && r.value.typeTag == src.typeTag)
              && (forall i :: IsFirstMatch(mods, i, src, true) ==> r == mods[i])
              && ((forall i :: 0 <= i < |mods| ==> !IsMatch(mods[i], src, true)) ==>
                    forall i :: IsFirstMatch(mods, i, src, false) ==> r == mods[i])
  {
    if targetPart.None? || sourceModule.None? then None
    else
      var mods, src := targetPart.value.modules, sourceModule.value;
      match FirstMatchFrom(mods, src, true, 0)
      case Some(i) => mods[i]
      case None =>
        match FirstMatchFrom(mods, src, false, 0)
        case Some(i) => mods[i]
        case None => None
  }

  /** Whether `slot` holds a module implementing `kind`. */
  predicate Implements(slot: Option<PartModule>, kind: WheelKind) {
    slot.Some? && slot.value.kind == Some(kind)
  }

  /** The first module of `mods` implementing `kind` (the host's
      `Part.FindModuleImplementing<T>`, applied to the part's module list). */
  function FindModuleImplementing(mods: seq<Option<PartModule>>, kind: WheelKind): (r: Option<PartModule>)
    ensures r.Some? ==> r.value.kind == Some(kind)
    ensures r.Some? ==> exists i :: 0 <= i < |mods| && mods[i] == r &&
                          forall j :: 0 <= j < i ==> !Implements(mods[j], kind)
    ensures r.None? ==> forall j :: 0 <= j < |mods| ==> !Implements(mods[j], kind)
  {
    if mods == [] then None
    else if Implements(mods[0], kind) then mods[0]
    else
      var r := FindModuleImplementing(mods[1..], kind);
      assert r.Some? ==> exists i :: 0 <= i < |mods| && mods[i] == r &&
                          forall j :: 0 <= j < i ==> !Implements(mods[j], kind) by {
        if r.Some? {
          var i :| 0 <= i < |mods[1..]| && mods[1..][i] == r &&
                   forall j :: 0 <= j < i ==> !Implements(mods[1..][j], kind);
          assert mods[i + 1] == r;
          assert forall j :: 0 <= j < i + 1 ==> !Implements(mods[j], kind) by {
            forall j | 0 <= j < i + 1 ensures !Implements(mods[j], kind) {
              if j > 0 { assert mods[j] == mods[1..][j - 1]; }
            }
          }
        }
      }
      assert r.None? ==> forall j :: 0 <= j < |mods| ==> !Implements(mods[j], kind) by {
        if r.None? {
          forall j | 0 <= j < |mods| ensures !Implements(mods[j], kind) {
            if j > 0 { assert mods[j] == mods[1..][j - 1]; }
          }
        }
      }
      r
  }

  /** All non-null modules of `mods` implementing `kind`, in order (the
      host's `Part.FindModulesImplementing<T>`). */
  function ModulesImplementing(mods: seq<Option<PartModule>>, kind: WheelKind): (r: seq<PartModule>)
    ensures forall m :: m in r <==> Some(m) in mods && m.kind == Some(kind)
  {
    if mods == [] then []
    else
      assert forall x :: Some(x) in mods <==> Some(x) == mods[0] || Some(x) in mods[1..] by {
        assert mods == [mods[0]] + mods[1..];
      }
      (if Implements(mods[0], kind) then [mods[0].value] else []) + ModulesImplementing(mods[1..], kind)
  }

  /** The name under `partInfo`, or "" when there is none. */
  function InfoName(p: Part): string {
    if p.partInfo.Some? && p.partInfo.value.name.Some? then p.partInfo.value.name.value else ""
  }

  /** The part's internal name: the part-info name when it is non-empty,
      otherwise the part's own name, with null read as "". */
  function GetPartInternalName(p: Option<Part>): (r: string)
    ensures r == "" <==> p.None? || (InfoName(p.value) == "" && p.value.name.GetOr("") == "")
    ensures p.Some? && InfoName(p.value) != "" ==> r == InfoName(p.value)
    ensures r != "" ==> r == InfoName(p.value) || Some(r) == p.value.name
  {
    if p.None? then ""
    else if InfoName(p.value) != "" then InfoName(p.value)
    else p.value.name.GetOr("")
  }
}
