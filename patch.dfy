/** Assembly of the ModuleManager patch text. The text is modelled as the
    sequence of lines the `StringBuilder` receives through `AppendLine`; the
    line terminator itself is left to the platform. */
module Patch {
  import opened Host
  import opened Text

  // ---------------------------------------------------------------------
  // Field and curve chunks
  // ---------------------------------------------------------------------

  /** How `FieldLine` renders a value read from a module. */
  function ValueText(v: Value): string {
    match v
    case FloatValue(f) => f
    case IntValue(i) => IntToString(i)
    case BoolValue(b) => if b then "true" else "false"
    case EnumValue(e) => e
    case OtherValue(o) => o
  }

  /** `@field = value` for a field the module exposes, null otherwise (a
      null module and an empty field name read as no value). */
  function FieldLine(m: Option<PartModule>, field: string): (r: Option<string>)
    ensures r.None? <==> m.None? || field == "" || field !in m.value.fields
    ensures r.Some? ==> |r.value| >= |field| + 4 && r.value[..|field| + 4] == "@" + field + " = "
  {
    if m.None? || field == "" || field !in m.value.fields then None
    else Some("@" + field + " = " + ValueText(m.value.fields[field]))
  }

  /** The value part of a field line decodes back to the value that was
      read: `true`/`false` for a boolean, the same integer for an int. */
  lemma FieldLineDecodes(m: PartModule, field: string)
    requires field != "" && field in m.fields
    ensures FieldLine(Some(m), field).Some?
    ensures var text := FieldLine(Some(m), field).value[|field| + 4..];
            && (m.fields[field].BoolValue? ==>
                  (text == "true" || text == "false") && (text == "true" <==> m.fields[field].b))
            && (m.fields[field].IntValue? ==>
                  IsIntText(text) && ParseInt(text) == m.fields[field].i)
  {
    var line := FieldLine(Some(m), field).value;
    assert line[|field| + 4..] == ValueText(m.fields[field]);
    if m.fields[field].IntValue? {
      IntToStringRoundTrip(m.fields[field].i);
    }
  }

  function KeyLine(k: Keyframe): string {
    "  key = " + k.time + " " + k.value + " " + k.inTangent + " " + k.outTangent
  }

  /** The lines of a curve chunk: delete the curve node, recreate it with
      one `key` line per keyframe in the curve's order. */
  function CurveLines(curveName: string, keys: seq<Keyframe>): (r: seq<string>)
    ensures |r| == |keys| + 4
    ensures r[0] == "!" + curveName + " {}" && r[1] == "%" + curveName && r[2] == "{" && r[|r| - 1] == "}"
    ensures forall i :: 0 <= i < |keys| ==> r[i + 3] == KeyLine(keys[i])
  {
    ["!" + curveName + " {}", "%" + curveName, "{"] +
    seq(|keys|, i requires 0 <= i < |keys| => KeyLine(keys[i])) +
    ["}"]
  }

  /** `BuildFloatCurvePatchChunk`: null when the module exposes no animation
      curve under that name, otherwise the terminated curve lines. */
  function BuildFloatCurvePatchChunk(curveName: string, curve: Option<seq<Keyframe>>): (r: Option<string>)
    ensures r.None? <==> curve.None?
  {
    match curve
    case None => None
    case Some(keys) => Some(Terminated(CurveLines(curveName, keys)))
  }

  predicate KeyframeNoBreak(k: Keyframe) {
    NoBreak(k.time) && NoBreak(k.value) && NoBreak(k.inTangent) && NoBreak(k.outTangent)
  }

  /** Split back into lines, a curve chunk yields exactly the deletion line,
      the recreation header, one key line per keyframe in order and the
      closing brace, followed by one empty line. */
  lemma CurveChunkLines(curveName: string, keys: seq<Keyframe>)
    requires NoBreak(curveName)
    requires forall i :: 0 <= i < |keys| ==> KeyframeNoBreak(keys[i])
    ensures SplitLines(BuildFloatCurvePatchChunk(curveName, Some(keys)).value) ==
            CurveLines(curveName, keys) + [""]
  {
    CurveLinesNoBreak(curveName, keys);
    SplitTerminated(CurveLines(curveName, keys));
  }

  lemma CurveLinesNoBreak(curveName: string, keys: seq<Keyframe>)
    requires NoBreak(curveName)
    requires forall i :: 0 <= i < |keys| ==> KeyframeNoBreak(keys[i])
    ensures forall i :: 0 <= i < |CurveLines(curveName, keys)| ==> NoBreak(CurveLines(curveName, keys)[i])
  {
    var lines := CurveLines(curveName, keys);
    CurveFrameNoBreak(curveName);
    forall i | 3 <= i < |lines| - 1 ensures NoBreak(lines[i]) {
      KeyLineNoBreak(keys[i - 3]);
    }
  }

  /** The lines around the keys carry no line break. */
  lemma CurveFrameNoBreak(curveName: string)
    requires NoBreak(curveName)
    ensures NoBreak("!" + curveName + " {}") && NoBreak("%" + curveName) && NoBreak("{") && NoBreak("}")
  {
    NoBreakConcat("!", curveName);
    NoBreakConcat("!" + curveName, " {}");
    NoBreakConcat("%", curveName);
  }

  lemma NoBreakConcat(a: string, b: string)
    requires NoBreak(a) && NoBreak(b)
    ensures NoBreak(a + b)
  {
  }

  lemma KeyLineNoBreak(k: Keyframe)
    requires KeyframeNoBreak(k)
    ensures NoBreak(KeyLine(k))
  {
    NoBreakConcat("  key = ", k.time);
    NoBreakConcat("  key = " + k.time, " ");
    NoBreakConcat("  key = " + k.time + " ", k.value);
    NoBreakConcat("  key = " + k.time + " " + k.value, " ");
    NoBreakConcat("  key = " + k.time + " " + k.value + " ", k.inTangent);
    NoBreakConcat("  key = " + k.time + " " + k.value + " " + k.inTangent, " ");
    NoBreakConcat("  key = " + k.time + " " + k.value + " " + k.inTangent + " ", k.outTangent);
  }

  // ---------------------------------------------------------------------
  // Module blocks
  // ---------------------------------------------------------------------

  /** The chunks that are neither null nor empty, in order. */
  function NonEmptyChunks(chunks: seq<Option<string>>): (r: seq<string>)
    ensures forall c :: c in r <==> c != "" && Some(c) in chunks
  {
    if chunks == [] then []
    else
      var init, last := chunks[..|chunks| - 1], chunks[|chunks| - 1];
      assert forall x :: x in chunks <==> x in init || x == last by {
        assert chunks == init + [last];
      }
      NonEmptyChunks(init) + (if last.Some? && last.value != "" then [last.value] else [])
  }
  /** One step of `NonEmptyChunks`, from the back. */
  lemma NonEmptyChunksLast(c: seq<Option<string>>)
    requires c != []
    ensures NonEmptyChunks(c) ==
            NonEmptyChunks(c[..|c| - 1]) +
            (if c[|c| - 1].Some? && c[|c| - 1].value != "" then [c[|c| - 1].value] else [])
  {
  }

  /** `NonEmptyChunks` keeps chunk order: the chunks of a joined list are
      those of its first half followed by those of its second. */
  lemma {:induction false} NonEmptyChunksAppend(a: seq<Option<string>>, b: seq<Option<string>>)
    ensures NonEmptyChunks(a + b) == NonEmptyChunks(a) + NonEmptyChunks(b)
  {
    if b == [] {
      assert a + b == a;
    } else {
      var ab, init := a + b, b[..|b| - 1];
      assert ab[..|ab| - 1] == a + init;
      NonEmptyChunksLast(ab);
      NonEmptyChunksLast(b);
      NonEmptyChunksAppend(a, init);
      assert b[|b| - 1] == ab[|ab| - 1];
    }
  }


  /** All lines of the chunks, each chunk split at its line breaks. */
  function ChunkLines(chunks: seq<string>): seq<string> {
    if chunks == [] then []
    else ChunkLines(chunks[..|chunks| - 1]) + SplitLines(chunks[|chunks| - 1])
  }

  /** A body line: four spaces in front, except that an empty line stays empty. */
  function Indent(line: string): string {
    if line == "" then "" else "    " + line
  }

  function IndentAll(lines: seq<string>): (r: seq<string>)
    ensures |r| == |lines|
  {
    if lines == [] then []
    else IndentAll(lines[..|lines| - 1]) + [Indent(lines[|lines| - 1])]
  }

  lemma {:induction false} IndentAllAt(lines: seq<string>, k: int)
    requires 0 <= k < |lines|
    ensures IndentAll(lines)[k] == Indent(lines[k])
    decreases |lines|
  {
    if k < |lines| - 1 {
      IndentAllAt(lines[..|lines| - 1], k);
    }
  }

  /** Removes the body indentation again. */
  function Unindent(line: string): string {
    if |line| >= 4 && line[..4] == "    " then line[4..] else line
  }

  /** Indentation is reversible and keeps exactly the empty lines empty. */
  lemma IndentRoundTrip(line: string)
    ensures Unindent(Indent(line)) == line
    ensures Indent(line) == "" <==> line == ""
    ensures line != "" ==> Indent(line)[..4] == "    "
  {
    if line != "" {
      assert ("    " + line)[4..] == line;
    }
  }

  /** The lines `AppendModuleBlock` appends: nothing when every chunk is
      null or empty, otherwise the `@MODULE` header, the opening brace, the
      indented chunk lines, the closing brace and a blank line. */
  function ModuleBlock(moduleName: string, chunks: seq<Option<string>>): seq<string> {
    var filtered := NonEmptyChunks(chunks);
    if filtered == [] then []
    else ["  @MODULE[" + moduleName + "]", "  {"] + IndentAll(ChunkLines(filtered)) + ["  }", ""]
  }

  /** A module block is omitted exactly when no chunk has any text. */
  lemma ModuleBlockOmitted(moduleName: string, chunks: seq<Option<string>>)
    ensures ModuleBlock(moduleName, chunks) == [] <==>
            forall i :: 0 <= i < |chunks| ==> chunks[i].None? || chunks[i].value == ""
  {
    var filtered := NonEmptyChunks(chunks);
    if filtered != [] {
      assert filtered[0] in filtered;
    } else {
      forall i | 0 <= i < |chunks| ensures chunks[i].None? || chunks[i].value == "" {
      }
    }
  }

  /** Every line of `IndentAll(lines)` is the matching line, indented. */
  lemma IndentAllEach(lines: seq<string>)
    ensures forall k :: 0 <= k < |lines| ==> IndentAll(lines)[k] == Indent(lines[k])
  {
    forall k | 0 <= k < |lines| ensures IndentAll(lines)[k] == Indent(lines[k]) {
      IndentAllAt(lines, k);
    }
  }

  /** A non-empty block is framed by its header and footer, and its body
      is the lines of the non-empty chunks, each indented. */
  lemma ModuleBlockBody(moduleName: string, chunks: seq<Option<string>>)
    requires exists i :: 0 <= i < |chunks| && chunks[i].Some? && chunks[i].value != ""
    ensures var block := ModuleBlock(moduleName, chunks);
            var body := ChunkLines(NonEmptyChunks(chunks));
            && |block| == |body| + 4
            && block[..2] == ["  @MODULE[" + moduleName + "]", "  {"]
            && block[|block| - 2..] == ["  }", ""]
            && forall k :: 0 <= k < |body| ==> block[k + 2] == Indent(body[k])
  {
    var i :| 0 <= i < |chunks| && chunks[i].Some? && chunks[i].value != "";
    assert chunks[i].value in NonEmptyChunks(chunks);
    Framed(["  @MODULE[" + moduleName + "]", "  {"], ChunkLines(NonEmptyChunks(chunks)), ["  }", ""]);
  }

  /** Where the parts of a two-line header, an indented body and a two-line
      footer sit. */
  lemma Framed(header: seq<string>, body: seq<string>, footer: seq<string>)
    requires |header| == 2 && |footer| == 2
    ensures var block := header + IndentAll(body) + footer;
            && |block| == |body| + 4
            && block[..2] == header
            && block[|block| - 2..] == footer
            && forall k :: 0 <= k < |body| ==> block[k + 2] == Indent(body[k])
  {
    var block := header + IndentAll(body) + footer;
    assert block[..2] == header;
    assert block[|block| - 2..] == footer;
    IndentAllEach(body);
  }


  lemma {:induction false} IndentAllAppend(a: seq<string>, b: seq<string>)
    ensures IndentAll(a + b) == IndentAll(a) + IndentAll(b)
    decreases |b|
  {
    if b != [] {
      var init := b[..|b| - 1];
      assert (a + b)[..|a + b| - 1] == a + init;
      IndentAllAppend(a, init);
    } else {
      assert a + b == a;
    }
  }

  /** The inner loop of `AppendModuleBlock`: appends the lines of one chunk,
      an empty line as is and any other line after four spaces. */
  method AppendIndented(sb: seq<string>, lines: seq<string>) returns (out: seq<string>)
    ensures out == sb + IndentAll(lines)
  {
    out := sb;
    for j := 0 to |lines|
      invariant out == sb + IndentAll(lines[..j])
    {
      if |lines[j]| == 0 {
        out := out + [""];
      } else {
        out := out + ["    " + lines[j]];
      }
      assert lines[..j + 1][..j] == lines[..j];
    }
    assert lines[..|lines|] == lines;
  }

  /** The outer loop of `AppendModuleBlock`: appends every chunk, split into lines. */
  method AppendChunks(sb: seq<string>, chunks: seq<string>) returns (out: seq<string>)
    ensures out == sb + IndentAll(ChunkLines(chunks))
  {
    out := sb;
    for i := 0 to |chunks|
      invariant out == sb + IndentAll(ChunkLines(chunks[..i]))
    {
      var lines := SplitLines(chunks[i]);
      ghost var done := ChunkLines(chunks[..i]);
      out := AppendIndented(out, lines);
      assert ChunkLines(chunks[..i + 1]) == done + lines by {
        assert chunks[..i + 1][..i] == chunks[..i];
      }
      calc {
        out;
        sb + IndentAll(done) + IndentAll(lines);
        sb + (IndentAll(done) + IndentAll(lines));
        { IndentAllAppend(done, lines); }
        sb + IndentAll(done + lines);
      }
    }
    assert chunks[..|chunks|] == chunks;
  }

  /** `AppendModuleBlock(sb, moduleName, chunks)`. */
  method AppendModuleBlock(sb: seq<string>, moduleName: string, chunks: seq<Option<string>>) returns (out: seq<string>)
    ensures out == sb + ModuleBlock(moduleName, chunks)
  {
    var filtered := NonEmptyChunks(chunks);
    if |filtered| == 0 {
      assert ModuleBlock(moduleName, chunks) == [];
      return sb;
    }
    var header := ["  @MODULE[" + moduleName + "]", "  {"];
    assert ModuleBlock(moduleName, chunks) == header + IndentAll(ChunkLines(filtered)) + ["  }", ""];
    out := AppendChunks(sb + header, filtered);
    out := out + ["  }", ""];
  }

  // ---------------------------------------------------------------------
  // Part blocks
  // ---------------------------------------------------------------------

  function KindModuleName(kind: WheelKind): string {
    match kind
    case WheelBase => "ModuleWheelBase"
    case Suspension => "ModuleWheelSuspension"
    case Steering => "ModuleWheelSteering"
    case Motor => "ModuleWheelMotor"
    case Brakes => "ModuleWheelBrakes"
    case Deployment => "ModuleWheelDeployment"
    case Damage => "ModuleWheelDamage"
  }

  /** The scalar and boolean fields exported for each module, in order. */
  function KindFields(kind: WheelKind): seq<string> {
    match kind
    case WheelBase => ["radius", "mass", "frictionMultiplier"]
    case Suspension => ["suspensionDistance", "targetPosition", "springRatio", "damperRatio",
                        "antiRoll", "useAutoSpring", "autoSpringDamper"]
    case Steering => ["steeringEnabled", "steeringResponse"]
    case Motor => ["motorEnabled", "maxTorque"]
    case Brakes => ["brakeEnabled", "maxBrakeTorque", "brakeResponse"]
    case Deployment => ["retractable", "deploySpeed", "deployedPosition", "retractedPosition"]
    case Damage => ["stressTolerance", "impactTolerance", "repairable"]
  }

  /** The curve exported after the fields, for steering and motor modules. */
  function KindCurve(kind: WheelKind): Option<string> {
    match kind
    case Steering => Some("steeringCurve")
    case Motor => Some("torqueCurve")
    case _ => None
  }

  /** What the module's curve field holds, if it holds an animation curve. */
  function CurveOf(m: PartModule, curveName: string): Option<seq<Keyframe>> {
    if curveName in m.curves then Some(m.curves[curveName]) else None
  }

  /** The chunks handed to `AppendModuleBlock` for a module of `kind`. */
  function ModuleChunks(kind: WheelKind, m: PartModule): (r: seq<Option<string>>)
    ensures |r| == |KindFields(kind)| + (if KindCurve(kind).Some? then 1 else 0)
    ensures forall i :: 0 <= i < |KindFields(kind)| ==> r[i] == FieldLine(Some(m), KindFields(kind)[i])
    ensures KindCurve(kind).Some? ==>
              r[|r| - 1] == BuildFloatCurvePatchChunk(KindCurve(kind).value, CurveOf(m, KindCurve(kind).value))
  {
    var fields := KindFields(kind);
    seq(|fields|, i requires 0 <= i < |fields| => FieldLine(Some(m), fields[i])) +
    (match KindCurve(kind)
     case None => []
     case Some(c) => [BuildFloatCurvePatchChunk(c, CurveOf(m, c))])
  }

  /** The block for the part's first module of `kind`, if it has one. */
  function KindBlock(p: Part, kind: WheelKind): seq<string> {
    match FindModuleImplementing(p.modules, kind)
    case None => []
    case Some(m) => ModuleBlock(KindModuleName(kind), ModuleChunks(kind, m))
  }

  /** `@PART[name]`, the blocks of the part's wheel base, suspension,
      steering, motor, brakes, deployment and damage modules in that order,
      `}` and a blank line. */
  function PartBlock(partName: string, p: Part): seq<string> {
    ["@PART[" + partName + "]", "{"] +
    KindBlock(p, WheelBase) + KindBlock(p, Suspension) + KindBlock(p, Steering) +
    KindBlock(p, Motor) + KindBlock(p, Brakes) + KindBlock(p, Deployment) + KindBlock(p, Damage) +
    ["}", ""]
  }

  /** Appends the block for the part's first module of `kind`, if any. */
  method AppendKindBlock(sb: seq<string>, p: Part, kind: WheelKind) returns (out: seq<string>)
    ensures out == sb + KindBlock(p, kind)
  {
    var m := FindModuleImplementing(p.modules, kind);
    out := sb;
    if m.Some? {
      out := AppendModuleBlock(sb, KindModuleName(kind), ModuleChunks(kind, m.value));
    }
  }

  /** Appends the block of one group, written from its first part. */
  method AppendPartBlock(sb: seq<string>, partName: string, p: Part) returns (out: seq<string>)
    ensures out == sb + PartBlock(partName, p)
  {
    ghost var block := ["@PART[" + partName + "]", "{"];
    out := sb + ["@PART[" + partName + "]", "{"];
    out := AppendKindBlock(out, p, WheelBase);
    ConcatAssoc(sb, block, KindBlock(p, WheelBase));
    block := block + KindBlock(p, WheelBase);
    out := AppendKindBlock(out, p, Suspension);
    ConcatAssoc(sb, block, KindBlock(p, Suspension));
    block := block + KindBlock(p, Suspension);
    out := AppendKindBlock(out, p, Steering);
    ConcatAssoc(sb, block, KindBlock(p, Steering));
    block := block + KindBlock(p, Steering);
    out := AppendKindBlock(out, p, Motor);
    ConcatAssoc(sb, block, KindBlock(p, Motor));
    block := block + KindBlock(p, Motor);
    out := AppendKindBlock(out, p, Brakes);
    ConcatAssoc(sb, block, KindBlock(p, Brakes));
    block := block + KindBlock(p, Brakes);
    out := AppendKindBlock(out, p, Deployment);
    ConcatAssoc(sb, block, KindBlock(p, Deployment));
    block := block + KindBlock(p, Deployment);
    out := AppendKindBlock(out, p, Damage);
    ConcatAssoc(sb, block, KindBlock(p, Damage));
    block := block + KindBlock(p, Damage);
    out := out + ["}", ""];
    ConcatAssoc(sb, block, ["}", ""]);
  }

  // ---------------------------------------------------------------------
  // Grouping by internal name
  // ---------------------------------------------------------------------

  function NameKeys(targets: seq<Part>): (r: seq<string>)
    ensures |r| == |targets| && forall i :: 0 <= i < |r| ==> r[i] == GetPartInternalName(Some(targets[i]))
  {
    seq(|targets|, i requires 0 <= i < |targets| => GetPartInternalName(Some(targets[i])))
  }

  /** The non-empty names, in order. */
  function WithoutEmpty(names: seq<string>): (r: seq<string>)
    ensures forall y :: y in r <==> y in names && y != ""
    ensures StrictlySorted(names) ==> StrictlySorted(r)
  {
    if names == [] then []
    else
      var init, last := names[..|names| - 1], names[|names| - 1];
      var r0 := WithoutEmpty(init);
      assert forall x :: x in names <==> x in init || x == last by {
        assert names == init + [last];
      }
      if last == "" then r0
      else
        assert StrictlySorted(names) ==> forall k :: 0 <= k < |r0| ==> StrLt(r0[k], last) by {
          if StrictlySorted(names) {
            forall k | 0 <= k < |r0| ensures StrLt(r0[k], last) {
              assert r0[k] in init;
              var m :| 0 <= m < |init| && init[m] == r0[k];
            }
          }
        }
        r0 + [last]
  }

  /** The names of the emitted `@PART` blocks: every distinct non-empty
      internal name among the targets, once each, in ascending order. */
  function GroupNames(targets: seq<Part>): (r: seq<string>)
    ensures StrictlySorted(r)
    ensures forall k :: k in r <==> k != "" && k in NameKeys(targets)
  {
    WithoutEmpty(SortDistinct(NameKeys(targets)))
  }

  /** A name heads a group exactly when it is non-empty and some target
      has it as its internal name. */
  lemma GroupNamesMembers(targets: seq<Part>)
    ensures forall name :: name in GroupNames(targets) <==>
              name != "" && exists p :: p in targets && GetPartInternalName(Some(p)) == name
  {
    var keys := NameKeys(targets);
    forall name ensures name in keys <==> exists p :: p in targets && GetPartInternalName(Some(p)) == name {
      if name in keys {
        var i :| 0 <= i < |keys| && keys[i] == name;
        assert targets[i] in targets;
      }
      if exists p :: p in targets && GetPartInternalName(Some(p)) == name {
        var p :| p in targets && GetPartInternalName(Some(p)) == name;
        var i :| 0 <= i < |targets| && targets[i] == p;
        assert keys[i] == name;
      }
    }
  }

  /** The position of the first occurrence of `name`. */
  function FirstIndex(keys: seq<string>, name: string): (i: nat)
    requires name in keys
    ensures i < |keys| && keys[i] == name && name !in keys[..i]
  {
    if keys[0] == name then 0
    else
      var i := FirstIndex(keys[1..], name);
      assert keys[..i + 1] == [keys[0]] + keys[1..][..i];
      i + 1
  }

  /** The first target with the given internal name: the one whose values
      represent its whole group. */
  function FirstWithName(targets: seq<Part>, name: string): Part
    requires name in NameKeys(targets)
  {
    targets[FirstIndex(NameKeys(targets), name)]
  }

  /** The representative is a target with that name, and no earlier target
      has it. */
  lemma FirstWithNameFirst(targets: seq<Part>, name: string)
    requires name in NameKeys(targets)
    ensures var p := FirstWithName(targets, name);
            exists i :: 0 <= i < |targets| && targets[i] == p &&
              GetPartInternalName(Some(p)) == name &&
              forall j :: 0 <= j < i ==> GetPartInternalName(Some(targets[j])) != name
  {
    var keys := NameKeys(targets);
    var i := FirstIndex(keys, name);
    forall j | 0 <= j < i ensures GetPartInternalName(Some(targets[j])) != name {
      assert keys[..i][j] == keys[j];
    }
  }

  /** One part block per name, each from the first target with that name. */
  function PartBlocks(targets: seq<Part>, names: seq<string>): seq<string>
    requires forall k :: k in names ==> k in NameKeys(targets)
  {
    if names == [] then []
    else
      var last := names[|names| - 1];
      PartBlocks(targets, names[..|names| - 1]) + PartBlock(last, FirstWithName(targets, last))
  }

  const PatchHeader: seq<string> := [
    "// Generated by Wheel Tuner (KSP 1.12.5)",
    "// Paste into: GameData/YourMod/WheelTunerPatch.cfg",
    "// NOTE: Curves are not exported here (only scalar/bool fields).",
    ""]

  /** The placeholder returned when the selected wheel is not in the list. */
  const NoSelectionText: string :=
    "// No selected wheel. Expand a wheel or click Select, then build the patch."

  /** The patch for a list of target parts. */
  function PatchLines(targets: seq<Part>): seq<string> {
    PatchHeader + PartBlocks(targets, GroupNames(targets))
  }

  /** One more key visited by the group loop: an empty name is dropped,
      any other name is appended. */
  lemma WithoutEmptyStep(keys: seq<string>, i: int)
    requires 0 <= i < |keys|
    ensures keys[i] == "" ==> WithoutEmpty(keys[..i + 1]) == WithoutEmpty(keys[..i])
    ensures keys[i] != "" ==> WithoutEmpty(keys[..i + 1]) == WithoutEmpty(keys[..i]) + [keys[i]]
  {
    assert keys[..i + 1][..i] == keys[..i];
  }

  /** One more name adds the block of its first target. */
  lemma PartBlocksAppend(targets: seq<Part>, names: seq<string>, k: string)
    requires forall n :: n in names ==> n in NameKeys(targets)
    requires k in NameKeys(targets)
    ensures forall n :: n in names + [k] ==> n in NameKeys(targets)
    ensures PartBlocks(targets, names + [k]) == PartBlocks(targets, names) + PartBlock(k, FirstWithName(targets, k))
  {
    var all := names + [k];
    assert all[..|all| - 1] == names;
  }

  /** The group loop of `BuildModuleManagerPatch`: the header, then the
      block of every non-empty name among the targets' sorted distinct
      internal names. */
  method AppendGroups(targets: seq<Part>) returns (text: seq<string>)
    ensures text == PatchLines(targets)
  {
    var keys := SortDistinct(NameKeys(targets));
    text := PatchHeader;
    assert keys[..0] == [];
    for i := 0 to |keys|
      invariant forall k :: k in WithoutEmpty(keys[..i]) ==> k in NameKeys(targets)
      invariant text == PatchHeader + PartBlocks(targets, WithoutEmpty(keys[..i]))
    {
      text := AppendGroup(targets, keys, i, text);
    }
    assert keys[..|keys|] == keys;
  }

  /** One pass of that loop: skips the empty name, otherwise appends the
      block of the key's group. */
  method AppendGroup(targets: seq<Part>, keys: seq<string>, i: nat, text: seq<string>) returns (out: seq<string>)
    requires i < |keys| && forall k :: k in keys ==> k in NameKeys(targets)
    requires forall k :: k in WithoutEmpty(keys[..i]) ==> k in NameKeys(targets)
    requires text == PatchHeader + PartBlocks(targets, WithoutEmpty(keys[..i]))
    ensures forall k :: k in WithoutEmpty(keys[..i + 1]) ==> k in NameKeys(targets)
    ensures out == PatchHeader + PartBlocks(targets, WithoutEmpty(keys[..i + 1]))
  {
    WithoutEmptyStep(keys, i);
    var partName := keys[i];
    if partName == "" { return text; }
    var p := FirstWithName(targets, partName);
    PartBlocksAppend(targets, WithoutEmpty(keys[..i]), partName);
    ConcatAssoc(PatchHeader, PartBlocks(targets, WithoutEmpty(keys[..i])), PartBlock(partName, p));
    out := AppendPartBlock(text, partName, p);
  }

  /** A single target forms one group, named after it, unless its name is empty. */
  lemma GroupNamesSingle(p: Part)
    ensures var name := GetPartInternalName(Some(p));
            GroupNames([p]) == if name == "" then [] else [name]
  {
    var name := GetPartInternalName(Some(p));
    assert NameKeys([p]) == [name];
    assert SortDistinct([name]) == [name] by {
      assert [name][1..] == [];
      assert SortDistinct([]) == [];
    }
    assert [name][..0] == [];
    assert WithoutEmpty([]) == [];
    assert WithoutEmpty([name]) == WithoutEmpty([]) + (if name == "" then [] else [name]);
  }

  lemma EmptyPrefix(x: seq<string>)
    ensures [] + x == x
  {
  }

  /** A single target yields exactly one `@PART` block named after it when
      its internal name is non-empty, and no block at all otherwise. */
  lemma SingleTargetPatch(p: Part)
    ensures var name := GetPartInternalName(Some(p));
            PatchLines([p]) == PatchHeader + (if name == "" then [] else PartBlock(name, p))
  {
    var name := GetPartInternalName(Some(p));
    GroupNamesSingle(p);
    if name == "" {
      assert PatchHeader + [] == PatchHeader;
    } else {
      assert NameKeys([p]) == [name];
      SinglePartBlocks([p], name);
    }
  }

  /** One name yields just its block. */
  lemma SinglePartBlocks(targets: seq<Part>, name: string)
    requires name in NameKeys(targets)
    ensures PartBlocks(targets, [name]) == PartBlock(name, FirstWithName(targets, name))
  {
    assert [name][..0] == [];
    EmptyPrefix(PartBlock(name, FirstWithName(targets, name)));
  }
}
