/** NPC dismemberment bookkeeping from `Dismemberment.cpp`: the cut flags
    and their selection names, which faces a set of cuts hides, which body
    region a hit severs, and the mesh of the severed part.

    A cut mask is represented exactly by the set of its set bit
    positions; the six cut flags are bits 0 to 5, head first. Squared
    distances are exact integers. Whether the cut-name table maps
    "cut_rarm" to the right-arm flag is a parameter: `AsWritten` follows
    the source table, which maps it to the head flag; `Corrected` maps
    every name to its own flag. */
module Dismemberment {

  import opened Options
  import opened Text
  import opened ObjectModel

  /** A `DismembermentFlag` mask: the positions of its set bits. The empty
      set is the mask 0; union, intersection and difference are `|`, `&`
      and `& ~`. */
  type Mask = set<nat>

  const HEAD: Mask := {0}
  const TORSO: Mask := {1}
  const LARM: Mask := {2}
  const RARM: Mask := {3}
  const LLEG: Mask := {4}
  const RLEG: Mask := {5}

  /** Flag `j` of the six, `1 << j`, in the order `applyCuts` visits them. */
  function Flag(j: nat): (f: Mask)
    requires j < 6
    ensures f == [HEAD, TORSO, LARM, RARM, LLEG, RLEG][j]
  {
    {j}
  }

  predicate IsCutFlag(f: Mask) {
    f == HEAD || f == TORSO || f == LARM || f == RARM || f == LLEG || f == RLEG
  }

  datatype CutMapping = AsWritten | Corrected

  /** `GetCutFlag`: the flag a selection name stands for, 0 for any other
      name. */
  function GetCutFlag(m: CutMapping, s: string): (r: Mask)
    ensures r == {} || IsCutFlag(r)
    ensures r != {} <==> s in CutNames()
    ensures r != {} && (m == Corrected || s != "cut_rarm") ==> CutName(r) == s
    ensures m == AsWritten ==> r != RARM
  {
    if s == "cut_head" then HEAD
    else if s == "cut_torso" then TORSO
    else if s == "cut_larm" then LARM
    else if s == "cut_rarm" then (if m == AsWritten then HEAD else RARM)
    else if s == "cut_lleg" then LLEG
    else if s == "cut_rleg" then RLEG
    else {}
  }

  function CutNames(): seq<string> {
    ["cut_head", "cut_torso", "cut_larm", "cut_rarm", "cut_lleg", "cut_rleg"]
  }

  /** The selection name `GetCutSelection` looks up for a flag; empty for
      0 and for combinations of flags. */
  function CutName(f: Mask): (s: string)
    ensures IsCutFlag(f) <==> s in CutNames()
    ensures !IsCutFlag(f) <==> s == ""
  {
    if f == HEAD then "cut_head"
    else if f == TORSO then "cut_torso"
    else if f == LARM then "cut_larm"
    else if f == RARM then "cut_rarm"
    else if f == LLEG then "cut_lleg"
    else if f == RLEG then "cut_rleg"
    else ""
  }

  /** With the corrected table, names and flags are inverse to each other. */
  lemma CorrectedCutFlagRoundTrip(f: Mask, s: string)
    ensures IsCutFlag(f) ==> GetCutFlag(Corrected, CutName(f)) == f
    ensures s in CutNames() ==> CutName(GetCutFlag(Corrected, s)) == s
  {
  }

  /** The table as written sends the right-arm selection to the head flag,
      so a hit on the right arm is recorded as a cut head, and the head's
      selection is the one then hidden. */
  lemma AsWrittenRightArmCutsHead()
    ensures GetCutFlag(AsWritten, "cut_rarm") == HEAD
    ensures CutName(GetCutFlag(AsWritten, "cut_rarm")) == "cut_head"
    ensures forall s :: GetCutFlag(AsWritten, s) != RARM
  {
  }

  /** The parts of an entity the dismemberment code reads and writes. */
  datatype Target = Target(npc: bool, noGore: bool, cuts: Mask, cut: bool, pos: Vec3, obj: Mesh)

  /** `GetCutSelection`: the first non-empty selection named after `flag`,
      or -1 for a null or non-NPC entity, a zero flag, or no such
      selection. */
  function GetCutSelection(io: Option<Target>, flag: Mask): (r: int)
    ensures r == -1 || (io.Some? && 0 <= r < |io.value.obj.selections|)
    ensures io.None? || !io.value.npc || !IsCutFlag(flag) ==> r == -1
    ensures r != -1 ==> |io.value.obj.selections[r].selected| > 0
                        && io.value.obj.selections[r].name == CutName(flag)
    ensures r != -1 ==> forall i :: 0 <= i < r ==>
      |io.value.obj.selections[i].selected| == 0 || io.value.obj.selections[i].name != CutName(flag)
    ensures io.Some? && io.value.npc && IsCutFlag(flag) && r == -1 ==>
      forall i :: 0 <= i < |io.value.obj.selections| ==>
        |io.value.obj.selections[i].selected| == 0 || io.value.obj.selections[i].name != CutName(flag)
  {
    if io.None? || !io.value.npc || flag == {} then -1
    else
      var tx := CutName(flag);
      if tx == [] then -1 else FirstNamedNonEmpty(io.value.obj.selections, tx, 0)
  }

  function FirstNamedNonEmpty(sels: seq<Selection>, name: string, from: nat): (r: int)
    decreases |sels| - from
    ensures r == -1 || from <= r < |sels|
    ensures r != -1 ==> |sels[r].selected| > 0 && sels[r].name == name
    ensures r != -1 ==> forall i :: from <= i < r ==> |sels[i].selected| == 0 || sels[i].name != name
    ensures r == -1 ==> forall i :: from <= i < |sels| ==> |sels[i].selected| == 0 || sels[i].name != name
  {
    if from >= |sels| then -1
    else if |sels[from].selected| > 0 && sels[from].name == name then from
    else FirstNamedNonEmpty(sels, name, from + 1)
  }

  /** The cut bits after `ReComputeCutFlags`: a severed torso takes the
      head and both arms with it, so their own bits are dropped. */
  function RecomputedCuts(cuts: Mask): (r: Mask)
    ensures TORSO !! cuts ==> r == cuts
    ensures !(TORSO !! cuts) ==> r !! (HEAD + LARM + RARM)
    ensures r - (HEAD + LARM + RARM) == cuts - (HEAD + LARM + RARM)
  {
    if !(cuts !! TORSO) then cuts - HEAD - LARM - RARM else cuts
  }

  /** `ReComputeCutFlags` on an entity: nothing happens to a null or
      non-NPC entity. */
  function ReComputeCutFlags(io: Option<Target>): (r: Option<Target>)
    ensures io.None? || !io.value.npc ==> r == io
    ensures io.Some? ==> r.Some? && r.value == io.value.(cuts := r.value.cuts)
    ensures io.Some? && io.value.npc ==> r.value.cuts == RecomputedCuts(io.value.cuts)
  {
    if io.None? || !io.value.npc then io
    else Some(io.value.(cuts := RecomputedCuts(io.value.cuts)))
  }

  lemma RecomputeIdempotent(cuts: Mask)
    ensures RecomputedCuts(RecomputedCuts(cuts)) == RecomputedCuts(cuts)
  {
  }

  /** `IsAlreadyCut`: the flag's own bit is set, or the torso is severed
      and the flag is the head or an arm. */
  function IsAlreadyCut(cuts: Mask, fl: Mask): (r: bool)
    ensures !(cuts !! fl) ==> r
    ensures !(cuts !! TORSO) && (fl == HEAD || fl == LARM || fl == RARM) ==> r
    ensures r ==> !(cuts !! fl) || (!(cuts !! TORSO) && (fl == HEAD || fl == LARM || fl == RARM))
  {
    if !(cuts !! fl) then true
    else if !(cuts !! TORSO) then fl == HEAD || fl == LARM || fl == RARM
    else false
  }

  /** Dropping the bits a severed torso implies loses no information: every
      single region (and "no region") is already cut afterwards exactly
      when it was before. */
  lemma RecomputeKeepsAlreadyCut(cuts: Mask, fl: Mask)
    requires fl == {} || IsCutFlag(fl)
    ensures IsAlreadyCut(RecomputedCuts(cuts), fl) == IsAlreadyCut(cuts, fl)
  {
  }

  // ---------------------------------------------------------------------
  // Hiding the faces of severed regions

  /** Index of the first texture whose name contains "gore", or -1. */
  function GoreTex(textures: seq<Option<Texture>>): (r: int)
    ensures r == -1 || 0 <= r < |textures|
    ensures r != -1 ==> textures[r].Some? && Contains(textures[r].value.name, "gore")
    ensures forall k :: 0 <= k < |textures| && (r == -1 || k < r) ==>
      textures[k].None? || !Contains(textures[k].value.name, "gore")
  {
    GoreTexFrom(textures, 0)
  }

  function GoreTexFrom(textures: seq<Option<Texture>>, from: nat): (r: int)
    decreases |textures| - from
    ensures r == -1 || from <= r < |textures|
    ensures r != -1 ==> textures[r].Some? && Contains(textures[r].value.name, "gore")
    ensures forall k :: from <= k < |textures| && (r == -1 || k < r) ==>
      textures[k].None? || !Contains(textures[k].value.name, "gore")
  {
    if from >= |textures| then -1
    else if textures[from].Some? && Contains(textures[from].value.name, "gore") then from
    else GoreTexFrom(textures, from + 1)
  }

  /** `IsInSelection` for each corner: the face uses a vertex of selection `s`. */
  predicate Touches(obj: Mesh, face: Face, s: int) {
    0 <= s < |obj.selections|
    && (face.v0 in obj.selections[s].selected || face.v1 in obj.selections[s].selected
        || face.v2 in obj.selections[s].selected)
  }

  /** For each of the six flags, in order, the selection `applyCuts`
      hides for it: its cut selection when the flag is set in `cuts`,
      else -1. */
  function ActiveSelections(t: Target, cuts: Mask): (act: seq<int>)
    ensures |act| == 6
  {
    seq(6, j requires 0 <= j < 6 => if j in cuts then GetCutSelection(Some(t), Flag(j)) else -1)
  }

  /** The face touches one of the first `upTo` active selections. */
  predicate TouchedBelow(obj: Mesh, act: seq<int>, face: Face, upTo: nat)
    requires upTo <= |act|
  {
    exists j :: 0 <= j < upTo && Touches(obj, face, act[j])
  }

  /** The face touches the selection of some set cut flag. */
  predicate CutTouches(t: Target, cuts: Mask, face: Face) {
    TouchedBelow(t.obj, ActiveSelections(t, cuts), face, 6)
  }

  /** Some face not using texture `gore` touches one of the first `upTo`
      active selections. */
  predicate NonGoreTouchedBelow(obj: Mesh, act: seq<int>, faces: seq<Face>, gore: int, upTo: nat)
    requires upTo <= |act|
  {
    exists f :: 0 <= f < |faces| && faces[f].texid != gore && TouchedBelow(obj, act, faces[f], upTo)
  }

  /** Some of the first `upTo` flags has an active selection. */
  predicate AnyActiveBelow(act: seq<int>, upTo: nat)
    requires upTo <= |act|
  {
    exists j :: 0 <= j < upTo && act[j] != -1
  }

  /** `f` differs from `g` at most in its hide flag. */
  predicate SameButHide(f: Face, g: Face) {
    f == g.(faceType := f.faceType) && f.faceType - {PolyHide} == g.faceType - {PolyHide}
  }

  /** The face loop of `applyCuts` for one selection: hides every face
      touching it and notes whether a visible non-gore face was among them. */
  method HideTouching(obj: Mesh, faces: seq<Face>, s: int, gore: int, hid: bool)
    returns (faces': seq<Face>, hid': bool)
    ensures |faces'| == |faces|
    ensures forall f :: 0 <= f < |faces| ==>
      faces'[f] == if Touches(obj, faces[f], s) then faces[f].(faceType := faces[f].faceType + {PolyHide}) else faces[f]
    ensures hid' <==> hid || exists f :: 0 <= f < |faces| && Touches(obj, faces[f], s)
                                      && !faces[f].Hidden() && faces[f].texid != gore
  {
    faces' := faces;
    hid' := hid;
    var k := 0;
    while k < |faces'|
      invariant 0 <= k <= |faces'| == |faces|
      invariant forall f :: 0 <= f < k ==>
        faces'[f] == if Touches(obj, faces[f], s) then faces[f].(faceType := faces[f].faceType + {PolyHide}) else faces[f]
      invariant forall f :: k <= f < |faces| ==> faces'[f] == faces[f]
      invariant hid' <==> hid || exists f :: 0 <= f < k && Touches(obj, faces[f], s)
                                          && !faces[f].Hidden() && faces[f].texid != gore
    {
      if Touches(obj, faces'[k], s) {
        if !faces'[k].Hidden() && faces'[k].texid != gore {
          hid' := true;
        }
        faces' := faces'[k := faces'[k].(faceType := faces'[k].faceType + {PolyHide})];
      }
      k := k + 1;
    }
  }

  /** An inactive flag hides nothing more. */
  lemma SkipInactive(obj: Mesh, act: seq<int>, src: seq<Face>, gore: int, j: nat)
    requires j < |act| && act[j] == -1
    ensures forall f :: 0 <= f < |src| ==> (TouchedBelow(obj, act, src[f], j + 1) <==> TouchedBelow(obj, act, src[f], j))
    ensures NonGoreTouchedBelow(obj, act, src, gore, j + 1) <==> NonGoreTouchedBelow(obj, act, src, gore, j)
  {
    assert forall f :: 0 <= f < |src| ==> !Touches(obj, src[f], act[j]);
  }

  /** One iteration of the flag loop of `applyCuts` for an active flag. */
  method CutStep(obj: Mesh, act: seq<int>, src: seq<Face>, gore: int, j: nat, faces: seq<Face>, hid: bool)
    returns (faces': seq<Face>, hid': bool)
    requires j < |act| && act[j] != -1 && |faces| == |src|
    requires forall f :: 0 <= f < |src| ==> SameButHide(faces[f], src[f])
    requires forall f :: 0 <= f < |src| ==> (faces[f].Hidden() <==> TouchedBelow(obj, act, src[f], j))
    requires hid <==> NonGoreTouchedBelow(obj, act, src, gore, j)
    ensures |faces'| == |src|
    ensures forall f :: 0 <= f < |src| ==> SameButHide(faces'[f], src[f])
    ensures forall f :: 0 <= f < |src| ==> (faces'[f].Hidden() <==> TouchedBelow(obj, act, src[f], j + 1))
    ensures hid' <==> NonGoreTouchedBelow(obj, act, src, gore, j + 1)
  {
    faces', hid' := HideTouching(obj, faces, act[j], gore, hid);
    forall f | 0 <= f < |src|
      ensures SameButHide(faces'[f], src[f])
      ensures faces'[f].Hidden() <==> TouchedBelow(obj, act, src[f], j + 1)
    {
      assert Touches(obj, faces[f], act[j]) <==> Touches(obj, src[f], act[j]);
    }
    if hid' && !hid {
      var f :| 0 <= f < |faces| && Touches(obj, faces[f], act[j]) && !faces[f].Hidden() && faces[f].texid != gore;
      assert Touches(obj, src[f], act[j]);
      assert TouchedBelow(obj, act, src[f], j + 1);
    }
    if NonGoreTouchedBelow(obj, act, src, gore, j + 1) && !hid {
      var f :| 0 <= f < |src| && src[f].texid != gore && TouchedBelow(obj, act, src[f], j + 1);
      assert !TouchedBelow(obj, act, src[f], j);
      assert Touches(obj, faces[f], act[j]) && !faces[f].Hidden() && faces[f].texid != gore;
    }
    if NonGoreTouchedBelow(obj, act, src, gore, j) {
      var f :| 0 <= f < |src| && src[f].texid != gore && TouchedBelow(obj, act, src[f], j);
      assert TouchedBelow(obj, act, src[f], j + 1);
    }
  }

  /** The flag loop of `applyCuts`: starting from all faces visible, hides
      the faces touching each active selection in turn. */
  method FlagLoop(obj: Mesh, act: seq<int>, src: seq<Face>, gore: int, cut0: bool)
    returns (faces: seq<Face>, hid: bool, cut: bool)
    requires |act| == 6
    ensures |faces| == |src|
    ensures forall f :: 0 <= f < |src| ==> SameButHide(faces[f], src[f])
    ensures forall f :: 0 <= f < |src| ==> (faces[f].Hidden() <==> TouchedBelow(obj, act, src[f], 6))
    ensures hid <==> NonGoreTouchedBelow(obj, act, src, gore, 6)
    ensures cut == (cut0 || AnyActiveBelow(act, 6))
  {
    faces := seq(|src|, f requires 0 <= f < |src| => src[f].(faceType := src[f].faceType - {PolyHide}));
    hid := false;
    cut := cut0;
    var j := 0;
    while j < 6
      invariant 0 <= j <= 6 && |faces| == |src|
      invariant forall f :: 0 <= f < |src| ==> SameButHide(faces[f], src[f])
      invariant forall f :: 0 <= f < |src| ==> (faces[f].Hidden() <==> TouchedBelow(obj, act, src[f], j))
      invariant hid <==> NonGoreTouchedBelow(obj, act, src, gore, j)
      invariant cut == (cut0 || AnyActiveBelow(act, j))
    {
      // act[j] is -1 exactly when flag j is clear or has no selection.
      if act[j] == -1 {
        SkipInactive(obj, act, src, gore, j);
        j := j + 1;
        continue;
      }
      faces, hid := CutStep(obj, act, src, gore, j, faces, hid);
      cut := true;
      j := j + 1;
    }
  }

  /** `applyCuts`: with no cuts, nothing happens and nothing was hidden.
      Otherwise the cut bits are recomputed, every face is hidden exactly
      when it touches the selection of a set cut flag, and the result says
      whether any such face is not gore-textured. */
  method ApplyCuts(t: Target) returns (r: Target, hid: bool)
    requires t.npc
    ensures t.cuts == {} ==> r == t && !hid
    ensures t.cuts != {} ==> r.cuts == RecomputedCuts(t.cuts)
    ensures r == t.(cuts := r.cuts, cut := r.cut, obj := t.obj.(faces := r.obj.faces))
    ensures |r.obj.faces| == |t.obj.faces|
    ensures forall f :: 0 <= f < |t.obj.faces| ==> SameButHide(r.obj.faces[f], t.obj.faces[f])
    ensures t.cuts != {} ==> forall f :: 0 <= f < |t.obj.faces| ==>
      (r.obj.faces[f].Hidden() <==> CutTouches(t, r.cuts, t.obj.faces[f]))
    ensures t.cuts != {} ==>
      (hid <==> NonGoreTouchedBelow(t.obj, ActiveSelections(t, r.cuts), t.obj.faces, GoreTex(t.obj.textures), 6))
    ensures t.cuts != {} ==> r.cut == (t.cut || AnyActiveBelow(ActiveSelections(t, r.cuts), 6))
  {
    if t.cuts == {} {
      return t, false;
    }
    var cuts := RecomputedCuts(t.cuts);
    var act := ActiveSelections(t, cuts);
    var gore := GoreTex(t.obj.textures);
    var faces, cut;
    faces, hid, cut := FlagLoop(t.obj, act, t.obj.faces, gore, t.cut);
    r := t.(cuts := cuts, cut := cut, obj := t.obj.(faces := faces));
  }

  // ---------------------------------------------------------------------
  // Choosing the region a hit severs

  function Dist2(a: Vec3, b: Vec3): nat {
    (a.x - b.x) * (a.x - b.x) + (a.y - b.y) * (a.y - b.y) + (a.z - b.z) * (a.z - b.z)
  }

  /** The number of hidden non-gore faces touching selection `s` among `faces`. */
  function HiddenCount(obj: Mesh, faces: seq<Face>, s: int, gore: int): nat {
    if |faces| == 0 then 0
    else
      var f := faces[|faces| - 1];
      HiddenCount(obj, faces[..|faces| - 1], s, gore)
        + (if f.texid != gore && Touches(obj, f, s) && f.Hidden() then 1 else 0)
  }

  /** Selection `i` may be severed: it is a non-empty "cut_" selection
      whose region is not already cut and which has fewer than three
      hidden non-gore faces. */
  predicate Candidate(m: CutMapping, t: Target, i: nat)
    requires i < |t.obj.selections|
  {
    && |t.obj.selections[i].selected| > 0
    && Contains(t.obj.selections[i].name, "cut_")
    && !IsAlreadyCut(t.cuts, GetCutFlag(m, t.obj.selections[i].name))
    && HiddenCount(t.obj, t.obj.faces, i, GoreTex(t.obj.textures)) < 3
  }

  /** Squared distance from the hit to the first vertex of selection `i`. */
  function SelDist(t: Target, hit: Vec3, i: nat): nat
    requires MeshWellFormed(t.obj) && i < |t.obj.selections| && |t.obj.selections[i].selected| > 0
  {
    Dist2(hit, t.obj.worldPositions[t.obj.selections[i].selected[0]])
  }

  /** The face loop of the candidate test: counts hidden non-gore faces
      touching selection `s`. */
  method CountHidden(obj: Mesh, s: int, gore: int) returns (out: nat)
    ensures out == HiddenCount(obj, obj.faces, s, gore)
  {
    out := 0;
    var ll := 0;
    while ll < |obj.faces|
      invariant 0 <= ll <= |obj.faces|
      invariant out == HiddenCount(obj, obj.faces[..ll], s, gore)
    {
      var face := obj.faces[ll];
      assert obj.faces[..ll + 1][..ll] == obj.faces[..ll];
      if face.texid != gore {
        if Touches(obj, face, s) {
          if face.Hidden() {
            out := out + 1;
          }
        }
      }
      ll := ll + 1;
    }
    assert obj.faces[..ll] == obj.faces;
  }

  /** The tests the selection loop applies to selection `i`, in order. */
  method IsCandidate(m: CutMapping, t: Target, i: nat, gore: int) returns (b: bool)
    requires i < |t.obj.selections| && gore == GoreTex(t.obj.textures)
    ensures b == Candidate(m, t, i)
  {
    var sel := t.obj.selections[i];
    b := false;
    if |sel.selected| > 0 && Contains(sel.name, "cut_") {
      var fll := GetCutFlag(m, sel.name);
      if !IsAlreadyCut(t.cuts, fll) {
        var out := CountHidden(t.obj, i, gore);
        b := out < 3;
      }
    }
  }

  /** The selection loop: the candidate nearest to the hit, the earliest
      one on ties, or -1 when there is no candidate. */
  method NearestCandidate(m: CutMapping, t: Target, hit: Vec3) returns (numsel: int, mind: nat)
    requires MeshWellFormed(t.obj)
    ensures numsel == -1 <==> forall i :: 0 <= i < |t.obj.selections| ==> !Candidate(m, t, i)
    ensures numsel != -1 ==> 0 <= numsel < |t.obj.selections| && Candidate(m, t, numsel)
                             && mind == SelDist(t, hit, numsel)
    ensures numsel != -1 ==> forall i :: 0 <= i < |t.obj.selections| && Candidate(m, t, i) ==>
      mind <= SelDist(t, hit, i) && (i < numsel ==> mind < SelDist(t, hit, i))
  {
    var sels := t.obj.selections;
    var gore := GoreTex(t.obj.textures);
    numsel := -1;
    mind := 0;
    var i := 0;
    while i < |sels|
      invariant 0 <= i <= |sels|
      invariant numsel == -1 <==> forall c :: 0 <= c < i ==> !Candidate(m, t, c)
      invariant numsel != -1 ==> 0 <= numsel < i && Candidate(m, t, numsel) && mind == SelDist(t, hit, numsel)
      invariant numsel != -1 ==> forall c :: 0 <= c < i && Candidate(m, t, c) ==>
        mind <= SelDist(t, hit, c) && (c < numsel ==> mind < SelDist(t, hit, c))
    {
      var candidate := IsCandidate(m, t, i, gore);
      if candidate {
        var dist := Dist2(hit, t.obj.worldPositions[sels[i].selected[0]]);
        assert dist == SelDist(t, hit, i);
        if numsel == -1 || dist < mind {
          mind := dist;
          numsel := i;
        }
      }
      i := i + 1;
    }
  }

  /** `ARX_NPC_TryToCutSomething`: picks the nearest severable region; if
      it lies within 60 units and its flag is new, records the flag and
      re-applies the cuts, and spawns the severed part when a visible face
      was hidden. `recorded` is the flag added (0 for none), `hid` what
      the re-applied cuts report, and `member` the spawned part. */
  method TryToCutSomething(m: CutMapping, target: Option<Target>, hit: Vec3)
    returns (r: Option<Target>, chosen: int, recorded: Mask, hid: bool, member: Option<Spawned>)
    requires target.Some? ==> MeshWellFormed(target.value.obj)
    ensures target.None? || !target.value.npc || target.value.noGore ==>
      r == target && chosen == -1 && recorded == {} && member.None?
    ensures recorded == {} ==> r == target && !hid
    ensures recorded != {} ==>
      && target.Some? && target.value.npc && !target.value.noGore
      && IsCutFlag(recorded) && !IsAlreadyCut(target.value.cuts, recorded)
      && 0 <= chosen < |target.value.obj.selections| && Candidate(m, target.value, chosen)
      && GetCutFlag(m, target.value.obj.selections[chosen].name) == recorded
      && SelDist(target.value, hit, chosen) < 3600
      && r.Some? && r.value.cuts == RecomputedCuts(target.value.cuts + recorded)
    ensures chosen != -1 ==>
      && target.Some? && 0 <= chosen < |target.value.obj.selections|
      && Candidate(m, target.value, chosen)
      && forall i :: 0 <= i < |target.value.obj.selections| && Candidate(m, target.value, i) ==>
           SelDist(target.value, hit, chosen) <= SelDist(target.value, hit, i)
           && (i < chosen ==> SelDist(target.value, hit, chosen) < SelDist(target.value, hit, i))
    ensures target.Some? && target.value.npc && !target.value.noGore && chosen == -1 ==>
      forall i :: 0 <= i < |target.value.obj.selections| ==> !Candidate(m, target.value, i)
    ensures (&& target.Some? && target.value.npc && !target.value.noGore
             && 0 <= chosen < |target.value.obj.selections|
             && |target.value.obj.selections[chosen].selected| > 0 && SelDist(target.value, hit, chosen) < 3600
             && GetCutFlag(m, target.value.obj.selections[chosen].name) != {}
             && GetCutFlag(m, target.value.obj.selections[chosen].name) !! target.value.cuts) ==>
      recorded == GetCutFlag(m, target.value.obj.selections[chosen].name)
    ensures recorded != {} ==>
      && r.value == target.value.(cuts := r.value.cuts, cut := r.value.cut, obj := target.value.obj.(faces := r.value.obj.faces))
      && |r.value.obj.faces| == |target.value.obj.faces|
      && (forall f :: 0 <= f < |target.value.obj.faces| ==>
            (r.value.obj.faces[f].Hidden() <==>
               CutTouches(target.value.(cuts := target.value.cuts + recorded), r.value.cuts, target.value.obj.faces[f])))
      && (hid <==> NonGoreTouchedBelow(target.value.obj,
                     ActiveSelections(target.value.(cuts := target.value.cuts + recorded), r.value.cuts),
                     target.value.obj.faces, GoreTex(target.value.obj.textures), 6))
    ensures member.Some? <==> hid
    ensures hid ==>
      && r.Some? && MeshWellFormed(r.value.obj) && 0 <= chosen < |r.value.obj.selections|
      && |r.value.obj.selections[chosen].selected| > 0 && member == SpawnMember(r, chosen)
    ensures m == AsWritten ==> recorded != RARM
  {
    r, chosen, recorded, hid, member := target, -1, {}, false, None;
    if target.None? || !target.value.npc || target.value.noGore {
      return;
    }
    var t := target.value;
    var mind;
    chosen, mind := NearestCandidate(m, t, hit);
    if chosen == -1 {
      return;
    }
    var t';
    t', recorded, hid := RecordCut(m, t, chosen, mind);
    r := Some(t');
    if hid {
      member := SpawnMember(r, chosen);
    }
  }

  /** The tail of `ARX_NPC_TryToCutSomething` once a region is chosen: a
      region within 60 units whose flag is nonzero and not yet set gets the
      flag recorded and the cuts re-applied; any other region changes
      nothing. */
  method RecordCut(m: CutMapping, t: Target, chosen: nat, mind: nat) returns (r: Target, recorded: Mask, hid: bool)
    requires t.npc && MeshWellFormed(t.obj) && chosen < |t.obj.selections| && Candidate(m, t, chosen)
    ensures recorded != {} <==>
      mind < 3600 && GetCutFlag(m, t.obj.selections[chosen].name) != {}
      && GetCutFlag(m, t.obj.selections[chosen].name) !! t.cuts
    ensures recorded == {} ==> r == t && !hid
    ensures recorded != {} ==>
      && IsCutFlag(recorded) && !IsAlreadyCut(t.cuts, recorded) && mind < 3600
      && GetCutFlag(m, t.obj.selections[chosen].name) == recorded
      && r.cuts == RecomputedCuts(t.cuts + recorded)
    ensures recorded != {} ==>
      && r == t.(cuts := r.cuts, cut := r.cut, obj := t.obj.(faces := r.obj.faces))
      && |r.obj.faces| == |t.obj.faces|
      && (forall f :: 0 <= f < |t.obj.faces| ==>
            (r.obj.faces[f].Hidden() <==> CutTouches(t.(cuts := t.cuts + recorded), r.cuts, t.obj.faces[f])))
      && (hid <==> NonGoreTouchedBelow(t.obj, ActiveSelections(t.(cuts := t.cuts + recorded), r.cuts),
                                       t.obj.faces, GoreTex(t.obj.textures), 6))
    ensures MeshWellFormed(r.obj) && r.obj.selections == t.obj.selections
    ensures m == AsWritten ==> recorded != RARM
  {
    r, recorded, hid := t, {}, false;
    if mind < 3600 {
      var fl := GetCutFlag(m, t.obj.selections[chosen].name);
      if fl != {} && fl !! t.cuts {
        r, hid := ApplyCuts(t.(cuts := t.cuts + fl));
        HideKeepsWellFormed(t.obj, r.obj.faces);
        recorded := fl;
      }
    }
  }

  /** Changing only face flags keeps a mesh well formed. */
  lemma HideKeepsWellFormed(a: Mesh, faces: seq<Face>)
    requires MeshWellFormed(a) && |faces| == |a.faces|
    requires forall f :: 0 <= f < |faces| ==> SameButHide(faces[f], a.faces[f])
    ensures MeshWellFormed(a.(faces := faces))
  {
    forall f | 0 <= f < |faces|
      ensures faces[f].v0 == a.faces[f].v0 && faces[f].v1 == a.faces[f].v1 && faces[f].v2 == a.faces[f].v2
    {
      assert SameButHide(faces[f], a.faces[f]);
    }
  }

  /** A hit never severs a region that is already cut: the recorded flag's
      region was not cut before, so the cut bits genuinely grow. */
  lemma RecordedFlagIsNew(cuts: Mask, fl: Mask)
    requires IsCutFlag(fl) && !IsAlreadyCut(cuts, fl)
    ensures fl !! cuts && cuts + fl != cuts && (cuts + fl) - fl == cuts
  {
  }

  // ---------------------------------------------------------------------
  // The severed part

  /** A spawned body part: its mesh and where it appears. */
  datatype Spawned = Spawned(mesh: Mesh, pos: Vec3)

  /** `IsNearSelection`: some vertex of selection `s` lies strictly within
      8 units of vertex `v`. */
  predicate IsNearSelection(obj: Mesh, v: nat, s: nat)
    requires MeshWellFormed(obj) && v < |obj.vertices| && s < |obj.selections|
  {
    exists k :: 0 <= k < |obj.selections[s].selected|
      && Dist2(obj.vertices[obj.selections[s].selected[k]], obj.vertices[v]) < 64
  }

  /** A gore-textured face with a corner near selection `s`. */
  predicate NearGore(obj: Mesh, f: Face, s: nat, gore: int)
    requires MeshWellFormed(obj) && s < |obj.selections|
    requires f.v0 < |obj.vertices| && f.v1 < |obj.vertices| && f.v2 < |obj.vertices|
  {
    f.texid == gore && (IsNearSelection(obj, f.v0, s) || IsNearSelection(obj, f.v1, s) || IsNearSelection(obj, f.v2, s))
  }

  /** The source vertex of every vertex of the spawned part, in order: the
      selection's vertices, then the three corners of each gore face near
      the selection. */
  function SpawnSources(obj: Mesh, faces: seq<Face>, s: nat, gore: int): (src: seq<nat>)
    requires MeshWellFormed(obj) && s < |obj.selections|
    requires forall f :: 0 <= f < |faces| ==>
      faces[f].v0 < |obj.vertices| && faces[f].v1 < |obj.vertices| && faces[f].v2 < |obj.vertices|
    ensures forall k :: 0 <= k < |src| ==> src[k] < |obj.vertices|
  {
    if |faces| == 0 then obj.selections[s].selected
    else
      var f := faces[|faces| - 1];
      SpawnSources(obj, faces[..|faces| - 1], s, gore) + (if NearGore(obj, f, s, gore) then [f.v0, f.v1, f.v2] else [])
  }

  /** The number of gore faces near selection `s`. */
  function NearGoreCount(obj: Mesh, faces: seq<Face>, s: nat, gore: int): nat
    requires MeshWellFormed(obj) && s < |obj.selections|
    requires forall f :: 0 <= f < |faces| ==>
      faces[f].v0 < |obj.vertices| && faces[f].v1 < |obj.vertices| && faces[f].v2 < |obj.vertices|
  {
    if |faces| == 0 then 0
    else NearGoreCount(obj, faces[..|faces| - 1], s, gore) + (if NearGore(obj, faces[|faces| - 1], s, gore) then 1 else 0)
  }

  /** `equival`: the last position of `v` among the sources, or -1; later
      copies overwrite earlier ones. */
  function LastIndexOf(src: seq<nat>, v: nat): (r: int)
    ensures -1 <= r < |src|
    ensures r == -1 <==> v !in src
    ensures r != -1 ==> src[r] == v && forall k :: r < k < |src| ==> src[k] != v
  {
    if |src| == 0 then -1
    else if src[|src| - 1] == v then |src| - 1
    else LastIndexOf(src[..|src| - 1], v)
  }

  /** The `unsigned short` cast of a new vertex index. */
  function U16(i: int): nat {
    i % 0x1_0000
  }

  /** Index of the first vertex with the greatest y, or 0 for an empty list. */
  function HighestVertex(vs: seq<Vec3>, best: nat, k: nat): (r: nat)
    requires best < |vs| || (best == 0 && |vs| == 0)
    requires forall i :: 0 <= i < k && i < |vs| ==> vs[i].y <= vs[best].y
    requires forall i :: 0 <= i < best ==> vs[i].y < vs[best].y
    requires best <= k
    decreases |vs| - k
    ensures r < |vs| || (r == 0 && |vs| == 0)
    ensures forall i :: 0 <= i < |vs| ==> vs[i].y <= vs[r].y
    ensures forall i :: 0 <= i < r ==> vs[i].y < vs[r].y
  {
    if k >= |vs| then best
    else if vs[k].y > vs[best].y then HighestVertex(vs, k, k + 1)
    else HighestVertex(vs, best, k + 1)
  }

  /** All three corners of `f` were copied into the part. */
  predicate CornersCopied(f: Face, src: seq<nat>) {
    LastIndexOf(src, f.v0) != -1 && LastIndexOf(src, f.v1) != -1 && LastIndexOf(src, f.v2) != -1
  }

  /** `f` as the part sees it: renumbered to the last copies of its
      corners, made visible, and double-sided when gore-textured. */
  function Remapped(f: Face, src: seq<nat>, gore: int): Face
    requires CornersCopied(f, src)
  {
    f.(v0 := U16(LastIndexOf(src, f.v0)), v1 := U16(LastIndexOf(src, f.v1)), v2 := U16(LastIndexOf(src, f.v2)),
       faceType := f.faceType - {PolyHide} + (if f.texid == gore then {PolyDoubleSided} else {}))
  }

  /** How many of `faces` have all their corners copied. */
  function CopiedCount(faces: seq<Face>, src: seq<nat>): nat {
    if |faces| == 0 then 0
    else CopiedCount(faces[..|faces| - 1], src) + (if CornersCopied(faces[|faces| - 1], src) then 1 else 0)
  }

  /** The faces of the part: every face whose three corners were copied,
      remapped, in the order of the entity's faces. */
  function RemapFaces(faces: seq<Face>, src: seq<nat>, gore: int): (r: seq<Face>)
    ensures |r| == CopiedCount(faces, src) <= |faces|
    ensures forall i :: 0 <= i < |r| ==> !r[i].Hidden()
  {
    if |faces| == 0 then []
    else
      var f := faces[|faces| - 1];
      var rest := RemapFaces(faces[..|faces| - 1], src, gore);
      if CornersCopied(f, src) then rest + [Remapped(f, src, gore)] else rest
  }

  /** No copied face is lost: the `f`-th face, when its corners were all
      copied, appears remapped in the part right after the copied faces
      that precede it. */
  lemma {:induction false} RemapKeepsCopied(faces: seq<Face>, src: seq<nat>, gore: int, f: nat)
    requires f < |faces| && CornersCopied(faces[f], src)
    ensures CopiedCount(faces[..f], src) < |RemapFaces(faces, src, gore)|
    ensures RemapFaces(faces, src, gore)[CopiedCount(faces[..f], src)] == Remapped(faces[f], src, gore)
  {
    var init := faces[..|faces| - 1];
    var rest := RemapFaces(init, src, gore);
    if f < |faces| - 1 {
      RemapKeepsCopied(init, src, gore, f);
      assert init[..f] == faces[..f] && init[f] == faces[f];
    } else {
      assert faces[..f] == init;
    }
  }

  /** The selection's parts can be spawned: the mesh is well formed and
      the selection is not empty. */
  predicate Spawnable(obj: Mesh, num: nat) {
    MeshWellFormed(obj) && num < |obj.selections| && |obj.selections[num].selected| > 0
  }

  /** `ARX_NPC_SpawnMember`, the mesh part: copies the selection's vertices
      and the corners of nearby gore faces (relative to the entity), moves
      the origin to the first highest vertex, and keeps the faces whose
      corners were all copied. None for a null entity or invalid selection. */
  function SpawnMember(ioo: Option<Target>, num: int): (r: Option<Spawned>)
    requires ioo.Some? ==> MeshWellFormed(ioo.value.obj)
    requires ioo.Some? && 0 <= num < |ioo.value.obj.selections| ==> |ioo.value.obj.selections[num].selected| > 0
    ensures r.Some? <==> ioo.Some? && 0 <= num < |ioo.value.obj.selections|
    ensures r.Some? ==>
      var obj := ioo.value.obj;
      && |r.value.mesh.vertices| == |obj.selections[num].selected|
           + 3 * NearGoreCount(obj, obj.faces, num, GoreTex(obj.textures))
      && r.value.mesh.origin < |r.value.mesh.vertices|
      && r.value.mesh.vertices[r.value.mesh.origin] == Zero
      && r.value.mesh.textures == obj.textures
      && r.value.mesh.linked == [] && r.value.mesh.originalTextures == [] && r.value.mesh.pbox.None?
      && (forall i :: 0 <= i < |r.value.mesh.faces| ==> !r.value.mesh.faces[i].Hidden())
  {
    if ioo.None? || num < 0 || num >= |ioo.value.obj.selections| then None
    else
      var obj := ioo.value.obj;
      var sel := obj.selections[num].selected;
      Some(Spawned(SpawnPart(obj, ioo.value.pos, num), obj.worldPositions[sel[|sel| - 1]]))
  }

  /** The mesh of the part severed at selection `num` of an entity at `pos`. */
  function SpawnPart(obj: Mesh, pos: Vec3, num: nat): (p: Mesh)
    requires Spawnable(obj, num)
    ensures |p.vertices| == |p.worldPositions|
      == |obj.selections[num].selected| + 3 * NearGoreCount(obj, obj.faces, num, GoreTex(obj.textures))
    ensures p.origin < |p.vertices| && p.vertices[p.origin] == Zero
    ensures p.textures == obj.textures
    ensures p.linked == [] && p.originalTextures == [] && p.pbox.None?
    ensures forall i :: 0 <= i < |p.faces| ==> !p.faces[i].Hidden()
  {
    var gore := GoreTex(obj.textures);
    var src := SpawnSources(obj, obj.faces, num, gore);
    SpawnSourcesCount(obj, obj.faces, num, gore);
    var pre := Relative(obj.worldPositions, src, pos);
    var o := HighestVertex(pre, 0, 1);
    Mesh("", o, Shifted(pre, o), pre, RemapFaces(obj.faces, src, gore), [], [], [], obj.textures, [], [], None, None, [])
  }

  /** The source positions `ps[src[k]]`, relative to `pos`. */
  function Relative(ps: seq<Vec3>, src: seq<nat>, pos: Vec3): (r: seq<Vec3>)
    requires forall k :: 0 <= k < |src| ==> src[k] < |ps|
    ensures |r| == |src|
    ensures forall k :: 0 <= k < |src| ==> r[k] == ps[src[k]].Minus(pos)
  {
    seq(|src|, k requires 0 <= k < |src| => ps[src[k]].Minus(pos))
  }

  /** The positions `vs` moved so that `vs[o]` is the origin. */
  function Shifted(vs: seq<Vec3>, o: nat): (r: seq<Vec3>)
    requires o < |vs|
    ensures |r| == |vs| && r[o] == Zero
    ensures forall k :: 0 <= k < |vs| ==> r[k] == vs[k].Minus(vs[o]) && r[k].y == vs[k].y - vs[o].y
  {
    seq(|vs|, k requires 0 <= k < |vs| => vs[k].Minus(vs[o]))
  }

  lemma {:induction false} SpawnSourcesCount(obj: Mesh, faces: seq<Face>, s: nat, gore: int)
    requires MeshWellFormed(obj) && s < |obj.selections|
    requires forall f :: 0 <= f < |faces| ==>
      faces[f].v0 < |obj.vertices| && faces[f].v1 < |obj.vertices| && faces[f].v2 < |obj.vertices|
    ensures |SpawnSources(obj, faces, s, gore)| == |obj.selections[s].selected| + 3 * NearGoreCount(obj, faces, s, gore)
    ensures SpawnSources(obj, faces, s, gore)[..|obj.selections[s].selected|] == obj.selections[s].selected
  {
    if |faces| > 0 {
      SpawnSourcesCount(obj, faces[..|faces| - 1], s, gore);
    }
  }

  /** The part's origin is the first of its highest vertices (before the
      shift). */
  lemma SpawnOriginIsHighest(obj: Mesh, pos: Vec3, num: nat)
    requires Spawnable(obj, num)
    ensures var p := SpawnPart(obj, pos, num);
      && (forall k :: 0 <= k < |p.vertices| ==> p.vertices[k].y <= 0)
      && (forall k :: 0 <= k < p.origin ==> p.vertices[k].y < 0)
  {
  }

  /** Renumbering keeps the geometry: each corner of a kept face is, in the
      part, the same world position as in the entity, up to the part's
      translation. */
  lemma {:induction false} RemapKeepsCorners(faces: seq<Face>, src: seq<nat>, gore: int, i: nat)
    requires |src| <= 0x1_0000
    requires i < |RemapFaces(faces, src, gore)|
    ensures exists f :: 0 <= f < |faces| && KeptCorners(faces[f], RemapFaces(faces, src, gore)[i], src)
  {
    if |faces| > 0 {
      var init := faces[..|faces| - 1];
      var rest := RemapFaces(init, src, gore);
      var last := faces[|faces| - 1];
      var e0, e1, e2 := LastIndexOf(src, last.v0), LastIndexOf(src, last.v1), LastIndexOf(src, last.v2);
      if i < |rest| {
        RemapKeepsCorners(init, src, gore, i);
        var f :| 0 <= f < |init| && KeptCorners(init[f], rest[i], src);
        assert RemapFaces(faces, src, gore)[i] == rest[i];
        assert faces[f] == init[f];
      } else {
        assert e0 != -1 && e1 != -1 && e2 != -1;
        U16Small(e0);
        U16Small(e1);
        U16Small(e2);
        assert KeptCorners(last, RemapFaces(faces, src, gore)[i], src);
      }
    }
  }

  lemma U16Small(i: int)
    requires 0 <= i < 0x1_0000
    ensures U16(i) == i
  {
  }

  /** `g` is `f` renumbered: each corner of `g` is a copy of the matching
      corner of `f`, and only the hide and double-sided flags may differ. */
  predicate KeptCorners(f: Face, g: Face, src: seq<nat>) {
    && g.v0 < |src| && g.v1 < |src| && g.v2 < |src|
    && src[g.v0] == f.v0 && src[g.v1] == f.v1 && src[g.v2] == f.v2
    && g.texid == f.texid
    && g.faceType - {PolyHide, PolyDoubleSided} == f.faceType - {PolyHide, PolyDoubleSided}
  }

  /** Each kept face's corners sit, in the part, where the original corners
      sit in the world, shifted by the entity position and the part origin. */
  lemma SpawnKeepsGeometry(obj: Mesh, pos: Vec3, num: nat, i: nat)
    requires Spawnable(obj, num)
    requires |SpawnPart(obj, pos, num).vertices| <= 0x1_0000
    requires i < |SpawnPart(obj, pos, num).faces|
    ensures var p := SpawnPart(obj, pos, num);
      var shift := p.worldPositions[p.origin];
      exists f :: 0 <= f < |obj.faces|
        && p.faces[i].v0 < |p.vertices| && p.faces[i].v1 < |p.vertices| && p.faces[i].v2 < |p.vertices|
        && p.vertices[p.faces[i].v0] == obj.worldPositions[obj.faces[f].v0].Minus(pos).Minus(shift)
        && p.vertices[p.faces[i].v1] == obj.worldPositions[obj.faces[f].v1].Minus(pos).Minus(shift)
        && p.vertices[p.faces[i].v2] == obj.worldPositions[obj.faces[f].v2].Minus(pos).Minus(shift)
  {
    var gore := GoreTex(obj.textures);
    var src := SpawnSources(obj, obj.faces, num, gore);
    SpawnSourcesCount(obj, obj.faces, num, gore);
    RemapKeepsCorners(obj.faces, src, gore, i);
    var f :| 0 <= f < |obj.faces| && KeptCorners(obj.faces[f], RemapFaces(obj.faces, src, gore)[i], src);
  }

}
