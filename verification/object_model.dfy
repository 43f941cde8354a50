/** The 3D object model of `Object.cpp`: meshes with vertex groups, action
    points and named selections; the name lookups over them; texture-name
    classification; copying; re-centring; and the derivation of a bone
    skeleton from an unordered list of vertex groups
    (`EERIE_CreateCedricData`).

    Positions are exact integer vectors, so relative coordinates are plain
    subtraction. */
module ObjectModel {

  import opened Options
  import opened Text

  datatype Vec3 = Vec3(x: int, y: int, z: int) {
    function Minus(o: Vec3): Vec3 { Vec3(x - o.x, y - o.y, z - o.z) }
    function Plus(o: Vec3): Vec3 { Vec3(x + o.x, y + o.y, z + o.z) }
  }

  const Zero: Vec3 := Vec3(0, 0, 0)

  /** A named rigid sub-mesh: its origin vertex and the vertices it lists
      (possibly with repeats). */
  datatype VertexGroup = VertexGroup(name: string, origin: nat, indexes: seq<nat>)

  /** A named attachment marker on a vertex. */
  datatype ActionPoint = ActionPoint(name: string, idx: nat)

  /** A named vertex subset, e.g. a dismemberment region. */
  datatype Selection = Selection(name: string, selected: seq<nat>)

  /** Polygon and texture flags (`POLY_*`). */
  datatype PolyFlag =
    | PolyLateMip | PolyNoCol | PolyClimb | PolyFall | PolyLava
    | PolyWater | PolyTrans | PolyMetal | PolyHide | PolyDoubleSided

  datatype Texture = Texture(name: string, userFlags: set<PolyFlag>)

  /** A triangle: three vertex indices, a texture index (-1 for none) and
      its polygon flags. */
  datatype Face = Face(v0: nat, v1: nat, v2: nat, texid: int, faceType: set<PolyFlag>) {
    predicate Hidden() { PolyHide in faceType }
  }

  datatype PhysicsBox = PhysicsBox(radius: int, vert: seq<Vec3>, stopCount: nat)

  /** A bone: its father's index (-1 for none), its translation in object
      space (`anim.trans`) and its translation relative to the father
      (`init.trans`, equal to `transinit_global`). */
  datatype Bone = Bone(father: int, trans: Vec3, initTrans: Vec3)

  /** The skeleton and, per bone, the vertices it owns (`m_boneVertices`). */
  datatype Skeleton = Skeleton(bones: seq<Bone>, boneVertices: seq<seq<nat>>)

  /** `EERIE_3DOBJ`, restricted to what the modelled operations read or
      write. `linked` holds the attached-object records abstractly. */
  datatype Mesh = Mesh(
    file: string,
    origin: nat,
    vertices: seq<Vec3>,
    worldPositions: seq<Vec3>,
    faces: seq<Face>,
    groups: seq<VertexGroup>,
    actions: seq<ActionPoint>,
    selections: seq<Selection>,
    textures: seq<Option<Texture>>,
    originalTextures: seq<Option<Texture>>,
    linked: seq<nat>,
    pbox: Option<PhysicsBox>,
    skeleton: Option<Skeleton>,
    vertexLocal: seq<Vec3>)

  /** Every index a mesh stores names one of its vertices, and world
      positions are kept per vertex. */
  predicate MeshWellFormed(m: Mesh) {
    && |m.worldPositions| == |m.vertices|
    && m.origin < |m.vertices|
    && (forall f :: 0 <= f < |m.faces| ==>
          m.faces[f].v0 < |m.vertices| && m.faces[f].v1 < |m.vertices| && m.faces[f].v2 < |m.vertices|)
    && (forall s :: 0 <= s < |m.selections| ==>
          forall k :: 0 <= k < |m.selections[s].selected| ==> m.selections[s].selected[k] < |m.vertices|)
    && GroupsWellFormed(|m.vertices|, m.groups)
  }

  // ---------------------------------------------------------------------
  // Name lookups

  /** The index of the first of `names`, from `from` on, equal to `name`,
      or -1: the search every name lookup of the mesh performs. */
  function FirstNamed(names: seq<string>, name: string, from: nat): (r: int)
    decreases |names| - from
    ensures r == -1 || from <= r < |names|
    ensures r >= 0 ==> names[r] == name && forall i :: from <= i < r ==> names[i] != name
    ensures r == -1 ==> forall i :: from <= i < |names| ==> names[i] != name
  {
    if from >= |names| then -1
    else if names[from] == name then from
    else FirstNamed(names, name, from + 1)
  }

  /** `EERIE_OBJECT_GetSelection`: index of the first selection called
      `name`, or -1 (the invalid handle). */
  function GetSelection(obj: Option<Mesh>, name: string): (r: int)
    ensures r == -1 <==> obj.None? || forall i :: 0 <= i < |obj.value.selections| ==> obj.value.selections[i].name != name
    ensures r != -1 ==> 0 <= r < |obj.value.selections| && obj.value.selections[r].name == name
    ensures r != -1 ==> forall i :: 0 <= i < r ==> obj.value.selections[i].name != name
  {
    if obj.None? then -1
    else
      var sels := obj.value.selections;
      var names := seq(|sels|, i requires 0 <= i < |sels| => sels[i].name);
      assert forall i :: 0 <= i < |sels| ==> names[i] == sels[i].name;
      FirstNamed(names, name, 0)
  }

  /** `EERIE_OBJECT_GetGroup`: index of the first group called `name`, or -1. */
  function GetGroup(obj: Option<Mesh>, name: string): (r: int)
    ensures r == -1 <==> obj.None? || forall i :: 0 <= i < |obj.value.groups| ==> obj.value.groups[i].name != name
    ensures r != -1 ==> 0 <= r < |obj.value.groups| && obj.value.groups[r].name == name
    ensures r != -1 ==> forall i :: 0 <= i < r ==> obj.value.groups[i].name != name
  {
    if obj.None? then -1
    else
      var groups := obj.value.groups;
      var names := seq(|groups|, i requires 0 <= i < |groups| => groups[i].name);
      assert forall i :: 0 <= i < |groups| ==> names[i] == groups[i].name;
      FirstNamed(names, name, 0)
  }

  /** `GetGroupOriginByName`: the origin vertex of the first group called
      `name`, or -1. */
  function GetGroupOriginByName(obj: Option<Mesh>, name: string): (r: int)
    ensures r == -1 <==> obj.None? || forall i :: 0 <= i < |obj.value.groups| ==> obj.value.groups[i].name != name
    ensures r != -1 ==> exists g :: 0 <= g < |obj.value.groups| && obj.value.groups[g].name == name
                          && obj.value.groups[g].origin == r
                          && forall i :: 0 <= i < g ==> obj.value.groups[i].name != name
  {
    var g := GetGroup(obj, name);
    if g == -1 then -1 else obj.value.groups[g].origin
  }

  /** `GetActionPointIdx`: the vertex of the first action point called
      `name`, or -1. */
  function GetActionPointIdx(obj: Option<Mesh>, name: string): (r: int)
    ensures r == -1 <==> obj.None? || forall i :: 0 <= i < |obj.value.actions| ==> obj.value.actions[i].name != name
    ensures r != -1 ==> exists a :: 0 <= a < |obj.value.actions| && obj.value.actions[a].name == name
                          && obj.value.actions[a].idx == r
                          && forall i :: 0 <= i < a ==> obj.value.actions[i].name != name
  {
    if obj.None? then -1
    else
      var actions := obj.value.actions;
      var names := seq(|actions|, i requires 0 <= i < |actions| => actions[i].name);
      assert forall i :: 0 <= i < |actions| ==> names[i] == actions[i].name;
      var a := FirstNamed(names, name, 0);
      if a == -1 then -1 else actions[a].idx
  }

  /** Vertex `v` is listed by some group with index `from` or above. */
  predicate ListedFrom(groups: seq<VertexGroup>, from: int, v: nat) {
    exists g :: from <= g < |groups| && 0 <= g && v in groups[g].indexes
  }

  /** `GetFather`: scanning groups `start`, `start - 1`, ..., 0, the first
      (so the greatest-indexed) group listing vertex `origin`, or -1. */
  function GetFather(groups: seq<VertexGroup>, origin: nat, start: int): (r: int)
    requires -1 <= start < |groups|
    decreases start + 1
    ensures -1 <= r <= start
    ensures r >= 0 ==> origin in groups[r].indexes
    ensures forall j :: r < j <= start && 0 <= j ==> origin !in groups[j].indexes
  {
    if start < 0 then -1
    else if origin in groups[start].indexes then start
    else GetFather(groups, origin, start - 1)
  }

  /** `GetActionPointGroup`: the highest-indexed group listing vertex `idx`,
      or -1 (also for a null object or an invalid `idx`). */
  function GetActionPointGroup(obj: Option<Mesh>, idx: int): (r: int)
    ensures r == -1 <==> obj.None? || idx < 0 || !ListedFrom(obj.value.groups, 0, idx)
    ensures r != -1 ==> 0 <= r < |obj.value.groups| && idx in obj.value.groups[r].indexes
                        && !ListedFrom(obj.value.groups, r + 1, idx)
  {
    if obj.None? || idx < 0 then -1
    else GetFather(obj.value.groups, idx, |obj.value.groups| - 1)
  }

  // ---------------------------------------------------------------------
  // Texture classification

  /** `MakeUserFlag`: adds the flags a texture's name implies. A
      water-like name (water, spider web) adds water and transparency and
      never metal; otherwise "[metal]" adds metal. */
  function MakeUserFlag(tc: Option<Texture>): (r: Option<Texture>)
    ensures tc.None? <==> r.None?
    ensures tc.Some? ==> r.value.name == tc.value.name && tc.value.userFlags <= r.value.userFlags
    ensures tc.Some? ==>
      var t := tc.value.name;
      var watery := Contains(t, "water") || Contains(t, "spider_web");
      && (PolyLateMip in r.value.userFlags - tc.value.userFlags ==> Contains(t, "npc_"))
      && (Contains(t, "npc_") ==> PolyLateMip in r.value.userFlags)
      && (Contains(t, "nocol") ==> PolyNoCol in r.value.userFlags)
      && (Contains(t, "climb") ==> PolyClimb in r.value.userFlags)
      && (Contains(t, "fall") ==> PolyFall in r.value.userFlags)
      && (Contains(t, "lava") ==> PolyLava in r.value.userFlags)
      && (watery ==> PolyWater in r.value.userFlags && PolyTrans in r.value.userFlags)
      && (watery ==> (PolyMetal in r.value.userFlags <==> PolyMetal in tc.value.userFlags))
      && (!watery && Contains(t, "[metal]") ==> PolyMetal in r.value.userFlags)
      && (r.value.userFlags - tc.value.userFlags) <= ImpliedFlags(t)
  {
    match tc
    case None => None
    case Some(t) => Some(Texture(t.name, t.userFlags + ImpliedFlags(t.name)))
  }

  /** The flags a texture name implies. */
  function ImpliedFlags(t: string): set<PolyFlag> {
    (if Contains(t, "npc_") then {PolyLateMip} else {})
    + (if Contains(t, "nocol") then {PolyNoCol} else {})
    + (if Contains(t, "climb") then {PolyClimb} else {})
    + (if Contains(t, "fall") then {PolyFall} else {})
    + (if Contains(t, "lava") then {PolyLava} else {})
    + (if Contains(t, "water") || Contains(t, "spider_web") then {PolyWater, PolyTrans}
       else if Contains(t, "[metal]") then {PolyMetal} else {})
  }

  /** Classifying a texture twice changes nothing more. */
  lemma MakeUserFlagIdempotent(tc: Option<Texture>)
    ensures MakeUserFlag(MakeUserFlag(tc)) == MakeUserFlag(tc)
  {
  }

  // ---------------------------------------------------------------------
  // Skeleton derivation: the reference definition

  /** Every group origin and listed vertex is a vertex of the mesh. */
  predicate GroupsWellFormed(n: nat, groups: seq<VertexGroup>) {
    forall g :: 0 <= g < |groups| ==>
      groups[g].origin < n && forall j :: 0 <= j < |groups[g].indexes| ==> groups[g].indexes[j] < n
  }

  predicate NoDup(s: seq<nat>) {
    forall i, j :: 0 <= i < j < |s| ==> s[i] != s[j]
  }

  function Elems(s: seq<nat>): set<nat> {
    set x | x in s
  }

  /** Scans `idx` left to right, keeping each vertex the first time it is
      seen, unless a group after `g` already lists it. */
  function ClaimScan(groups: seq<VertexGroup>, g: nat, idx: seq<nat>, seen: set<nat>): (r: seq<nat>)
    ensures |r| <= |idx|
  {
    if |idx| == 0 then []
    else
      var v := idx[0];
      var rest := ClaimScan(groups, g, idx[1..], seen + {v});
      if v in seen || ListedFrom(groups, g + 1, v) then rest else [v] + rest
  }

  /** The scan keeps exactly the listed vertices neither seen before nor
      listed by a later group, each once. */
  lemma {:induction false} ClaimScanExact(groups: seq<VertexGroup>, g: nat, idx: seq<nat>, seen: set<nat>)
    ensures var r := ClaimScan(groups, g, idx, seen);
      && (forall v :: v in r <==> v in idx && v !in seen && !ListedFrom(groups, g + 1, v))
      && NoDup(r)
  {
    if |idx| > 0 {
      var v := idx[0];
      ClaimScanExact(groups, g, idx[1..], seen + {v});
      assert forall w :: w in idx <==> w == v || w in idx[1..];
    }
  }

  /** The vertices bone `g` claims for itself: those its group lists and no
      later group lists, once each, in listing order. */
  function Claimed(groups: seq<VertexGroup>, g: nat): seq<nat>
    requires g < |groups|
  {
    ClaimScan(groups, g, groups[g].indexes, {})
  }

  /** The vertices below `k` that no group lists, in ascending order. */
  function UnclaimedBelow(groups: seq<VertexGroup>, k: nat): (r: seq<nat>)
    ensures |r| <= k
  {
    if k == 0 then []
    else UnclaimedBelow(groups, k - 1) + (if ListedFrom(groups, 0, k - 1) then [] else [k - 1])
  }

  /** The unclaimed list holds exactly the vertices below `k` that no
      group lists, in strictly ascending order. */
  lemma {:induction false} UnclaimedBelowExact(groups: seq<VertexGroup>, k: nat)
    ensures var r := UnclaimedBelow(groups, k);
      && (forall v: nat :: v in r <==> v < k && !ListedFrom(groups, 0, v))
      && (forall i, j :: 0 <= i < j < |r| ==> r[i] < r[j])
      && (forall i :: 0 <= i < |r| ==> r[i] < k)
  {
    if k > 0 {
      UnclaimedBelowExact(groups, k - 1);
    }
  }

  /** The bone owning vertex `v`: the highest-indexed group listing it,
      else the root bone 0. */
  function Owner(groups: seq<VertexGroup>, v: nat): nat {
    var f := GetFather(groups, v, |groups| - 1);
    if f >= 0 then f else 0
  }

  function Father(groups: seq<VertexGroup>, i: nat): int
    requires i < |groups|
  {
    GetFather(groups, groups[i].origin, i - 1)
  }

  function Range(n: nat): (r: seq<nat>)
    ensures |r| == n && forall i :: 0 <= i < n ==> r[i] == i
  {
    seq(n, i requires 0 <= i => i)
  }

  /** Bone `i` as the group-based construction defines it. */
  function SpecBone(vertices: seq<Vec3>, groups: seq<VertexGroup>, i: nat): Bone
    requires GroupsWellFormed(|vertices|, groups) && i < |groups|
  {
    var f := Father(groups, i);
    var t := vertices[groups[i].origin];
    Bone(f, t, if f >= 0 then t.Minus(vertices[groups[f].origin]) else t)
  }

  /** The skeleton of a mesh, defined declaratively. */
  function SkeletonOf(vertices: seq<Vec3>, groups: seq<VertexGroup>): (sk: Skeleton)
    requires GroupsWellFormed(|vertices|, groups)
    ensures |sk.bones| == |sk.boneVertices| == if |groups| == 0 then 1 else |groups|
  {
    if |groups| == 0 then
      Skeleton([Bone(-1, Zero, Zero)], [Range(|vertices|)])
    else
      Skeleton(
        seq(|groups|, i requires 0 <= i < |groups| => SpecBone(vertices, groups, i)),
        seq(|groups|, i requires 0 <= i < |groups| =>
          Claimed(groups, i) + (if i == 0 then UnclaimedBelow(groups, |vertices|) else [])))
  }

  /** Each vertex relative to its owning bone. */
  function LocalOf(vertices: seq<Vec3>, groups: seq<VertexGroup>): (l: seq<Vec3>)
    requires GroupsWellFormed(|vertices|, groups)
    ensures |l| == |vertices|
  {
    var bones := SkeletonOf(vertices, groups).bones;
    seq(|vertices|, v requires 0 <= v < |vertices| =>
      vertices[v].Minus(bones[OwnerBelow(groups, v, |bones|)].trans))
  }

  /** `Owner`, with the bound on the bone count made explicit. */
  function OwnerBelow(groups: seq<VertexGroup>, v: nat, boneCount: nat): (b: nat)
    requires boneCount == (if |groups| == 0 then 1 else |groups|)
    ensures b == Owner(groups, v) && b < boneCount
  {
    Owner(groups, v)
  }

  // ---------------------------------------------------------------------
  // Properties of the reference skeleton

  /** With no groups: one root bone at the origin owning every vertex in
      ascending order. */
  lemma NoGroupsGivesSingleRoot(vertices: seq<Vec3>, groups: seq<VertexGroup>)
    requires |groups| == 0
    ensures var sk := SkeletonOf(vertices, groups);
      && |sk.bones| == 1 && sk.bones[0].father == -1 && sk.bones[0].trans == Zero
      && sk.boneVertices[0] == Range(|vertices|)
      && LocalOf(vertices, groups) == vertices
  {
  }

  /** With groups: one bone per group, placed at its group's origin. */
  lemma BonePerGroup(vertices: seq<Vec3>, groups: seq<VertexGroup>)
    requires GroupsWellFormed(|vertices|, groups) && |groups| > 0
    ensures var sk := SkeletonOf(vertices, groups);
      && |sk.bones| == |groups|
      && forall i :: 0 <= i < |groups| ==> sk.bones[i].trans == vertices[groups[i].origin]
  {
  }

  /** The father of bone `i` is the greatest earlier group listing its
      origin, else -1; so fathers always precede their children. */
  lemma FatherIsNearestEnclosingGroup(vertices: seq<Vec3>, groups: seq<VertexGroup>, i: nat)
    requires GroupsWellFormed(|vertices|, groups) && i < |groups|
    ensures var f := SkeletonOf(vertices, groups).bones[i].father;
      && -1 <= f < i
      && (f >= 0 ==> groups[i].origin in groups[f].indexes)
      && forall j :: f < j < i && 0 <= j ==> groups[i].origin !in groups[j].indexes
  {
  }

  /** Every vertex of the mesh is owned by exactly one bone, `Owner`: the
      innermost (highest-indexed) group listing it, or bone 0 when no group
      does; and no bone lists a vertex twice. */
  lemma {:induction false} OwnershipExact(vertices: seq<Vec3>, groups: seq<VertexGroup>)
    requires GroupsWellFormed(|vertices|, groups)
    ensures var sk := SkeletonOf(vertices, groups);
      && (forall b :: 0 <= b < |sk.boneVertices| ==> NoDup(sk.boneVertices[b]))
      && (forall b, v :: 0 <= b < |sk.boneVertices| && v in sk.boneVertices[b] ==> v < |vertices|)
      && forall b, v :: 0 <= b < |sk.boneVertices| && 0 <= v < |vertices| ==>
           (v in sk.boneVertices[b] <==> b == Owner(groups, v))
  {
    var sk := SkeletonOf(vertices, groups);
    if |groups| == 0 {
      forall b, v | 0 <= b < |sk.boneVertices| && 0 <= v < |vertices|
        ensures v in sk.boneVertices[b] <==> b == Owner(groups, v)
      {
        assert sk.boneVertices[b][v] == v;
      }
    } else {
      UnclaimedBelowExact(groups, |vertices|);
      forall b | 0 <= b < |groups|
        ensures NoDup(sk.boneVertices[b])
        ensures forall v :: v in sk.boneVertices[b] ==> v < |vertices|
        ensures forall v :: 0 <= v < |vertices| ==> (v in sk.boneVertices[b] <==> b == Owner(groups, v))
      {
        var c := Claimed(groups, b);
        ClaimScanExact(groups, b, groups[b].indexes, {});
        var u := if b == 0 then UnclaimedBelow(groups, |vertices|) else [];
        assert sk.boneVertices[b] == c + u;
        forall v | v in c ensures v < |vertices| {
          var j :| 0 <= j < |groups[b].indexes| && groups[b].indexes[j] == v;
        }
        forall i, j | 0 <= i < j < |c + u| ensures (c + u)[i] != (c + u)[j] {
          if i < |c| && j >= |c| {
            assert (c + u)[i] in c && (c + u)[j] in u;
            assert ListedFrom(groups, 0, (c + u)[i]);
          } else if i >= |c| {
            assert (c + u)[i] == u[i - |c|] && (c + u)[j] == u[j - |c|];
          }
        }
        forall v | 0 <= v < |vertices| ensures v in c + u <==> b == Owner(groups, v) {
          var f := GetFather(groups, v, |groups| - 1);
          if f >= 0 {
            assert ListedFrom(groups, 0, v);
          } else {
            assert !ListedFrom(groups, b + 1, v);
          }
        }
      }
    }
  }

  /** Local vertex coordinates invert the bone translation: adding the
      owning bone's translation back recovers every vertex position. */
  lemma LocalRoundTrip(vertices: seq<Vec3>, groups: seq<VertexGroup>, v: nat)
    requires GroupsWellFormed(|vertices|, groups) && v < |vertices|
    ensures var sk := SkeletonOf(vertices, groups);
      LocalOf(vertices, groups)[v].Plus(sk.bones[Owner(groups, v)].trans) == vertices[v]
  {
  }

  /** Fathers precede children, so following fathers always ends at a root. */
  predicate FathersPrecede(bones: seq<Bone>) {
    forall i :: 0 <= i < |bones| ==> bones[i].father < i
  }

  /** The object-space translation rebuilt by summing relative translations
      from the root down; well defined because fathers precede children. */
  function ChainTranslation(bones: seq<Bone>, i: nat): Vec3
    requires FathersPrecede(bones) && i < |bones|
    decreases i
  {
    var f := bones[i].father;
    if f >= 0 then ChainTranslation(bones, f).Plus(bones[i].initTrans) else bones[i].initTrans
  }

  /** Relative bone translations compose back to the absolute ones: the
      skeleton's `init.trans` values are a faithful relative encoding. */
  lemma {:induction false} RelativeTranslationsCompose(vertices: seq<Vec3>, groups: seq<VertexGroup>, i: nat)
    requires GroupsWellFormed(|vertices|, groups)
    requires i < |SkeletonOf(vertices, groups).bones|
    ensures FathersPrecede(SkeletonOf(vertices, groups).bones)
    ensures ChainTranslation(SkeletonOf(vertices, groups).bones, i) == SkeletonOf(vertices, groups).bones[i].trans
    decreases i
  {
    var bones := SkeletonOf(vertices, groups).bones;
    assert FathersPrecede(bones) by {
      forall k | 0 <= k < |bones| ensures bones[k].father < k {
        if |groups| > 0 {
          FatherIsNearestEnclosingGroup(vertices, groups, k);
        }
      }
    }
    var f := bones[i].father;
    if f >= 0 {
      RelativeTranslationsCompose(vertices, groups, f);
    }
  }

  // ---------------------------------------------------------------------
  // Skeleton derivation: the construction, as the source performs it

  /** The nested search of the fallback loop: does any group list `v`? */
  method IsListed(groups: seq<VertexGroup>, v: nat) returns (found: bool)
    ensures found <==> ListedFrom(groups, 0, v)
  {
    found := false;
    var g := 0;
    while g < |groups| && !found
      invariant 0 <= g <= |groups|
      invariant !found ==> forall h :: 0 <= h < g ==> v !in groups[h].indexes
      invariant found ==> ListedFrom(groups, 0, v)
    {
      var idx := groups[g].indexes;
      var k := 0;
      while k < |idx| && !found
        invariant 0 <= k <= |idx|
        invariant !found ==> v !in idx[..k]
        invariant found ==> v in idx
      {
        if idx[k] == v {
          found := true;
        }
        assert idx[..k + 1] == idx[..k] + [idx[k]];
        k := k + 1;
      }
      if !found {
        assert idx[..k] == idx;
      }
      g := g + 1;
    }
  }

  /** One pass of the group loop: group `i` claims each listed vertex that
      is not yet assigned, in listing order, marking it assigned. */
  method ClaimGroup(groups: seq<VertexGroup>, i: nat, n: nat, taken: seq<bool>)
    returns (verts: seq<nat>, taken': seq<bool>)
    requires GroupsWellFormed(n, groups) && i < |groups| && |taken| == n
    requires forall v :: 0 <= v < n ==> (taken[v] <==> ListedFrom(groups, i + 1, v))
    ensures |taken'| == n
    ensures forall v :: 0 <= v < n ==> (taken'[v] <==> ListedFrom(groups, i, v))
    ensures verts == Claimed(groups, i)
  {
    var idx := groups[i].indexes;
    verts := [];
    taken' := taken;
    var k := 0;
    assert idx[k..] == idx && Elems(idx[..k]) == {};
    while k < |idx|
      invariant 0 <= k <= |idx| && |taken'| == n
      invariant forall v :: 0 <= v < n ==>
        (taken'[v] <==> ListedFrom(groups, i + 1, v) || v in idx[..k])
      invariant verts + ClaimScan(groups, i, idx[k..], Elems(idx[..k])) == Claimed(groups, i)
    {
      var v := idx[k];
      assert idx[k..] == [v] + idx[k + 1..];
      assert idx[..k + 1] == idx[..k] + [v];
      assert Elems(idx[..k + 1]) == Elems(idx[..k]) + {v};
      if !taken'[v] {
        taken' := taken'[v := true];
        verts := verts + [v];
      }
      k := k + 1;
    }
    assert idx[..k] == idx;
    forall v | 0 <= v < n ensures taken'[v] <==> ListedFrom(groups, i, v) {
      if v in idx {
        assert ListedFrom(groups, i, v);
      }
      if ListedFrom(groups, i, v) && !ListedFrom(groups, i + 1, v) {
        var g :| i <= g < |groups| && v in groups[g].indexes;
      }
    }
  }

  /** The group loop, innermost (last) group first: one bone per group at
      its origin, with its father, and the vertices it claims. */
  method CreateBones(vertices: seq<Vec3>, groups: seq<VertexGroup>)
    returns (bones: seq<Bone>, boneVerts: seq<seq<nat>>)
    requires GroupsWellFormed(|vertices|, groups) && |groups| > 0
    ensures |bones| == |boneVerts| == |groups|
    ensures forall g :: 0 <= g < |groups| ==> boneVerts[g] == Claimed(groups, g)
    ensures forall g :: 0 <= g < |groups| ==>
      bones[g] == Bone(Father(groups, g), vertices[groups[g].origin], Zero)
  {
    var n := |vertices|;
    var m := |groups|;
    bones := seq(m, _ => Bone(-1, Zero, Zero));
    boneVerts := seq(m, _ => []);
    var taken := seq(n, _ => false);
    var i := m;
    while i > 0
      invariant 0 <= i <= m
      invariant |taken| == n && |boneVerts| == m && |bones| == m
      invariant forall v :: 0 <= v < n ==> (taken[v] <==> ListedFrom(groups, i, v))
      invariant forall g :: i <= g < m ==> boneVerts[g] == Claimed(groups, g)
      invariant forall g :: i <= g < m ==>
        bones[g] == Bone(Father(groups, g), vertices[groups[g].origin], Zero)
    {
      i := i - 1;
      var verts;
      verts, taken := ClaimGroup(groups, i, n, taken);
      boneVerts := boneVerts[i := verts];
      bones := bones[i := Bone(GetFather(groups, groups[i].origin, i - 1), vertices[groups[i].origin], Zero)];
    }
  }

  /** The fallback loop: vertices no group lists go to bone 0, ascending. */
  method AssignUnclaimed(groups: seq<VertexGroup>, n: nat, root: seq<nat>) returns (root': seq<nat>)
    ensures root' == root + UnclaimedBelow(groups, n)
  {
    root' := root;
    var v := 0;
    while v < n
      invariant 0 <= v <= n
      invariant root' == root + UnclaimedBelow(groups, v)
    {
      var found := IsListed(groups, v);
      UnclaimedNext(groups, root, root', v, found);
      if !found {
        root' := root' + [v];
      }
      v := v + 1;
    }
  }

  /** One more vertex extends the unclaimed list by that vertex exactly
      when no group lists it. */
  lemma UnclaimedNext(groups: seq<VertexGroup>, root: seq<nat>, acc: seq<nat>, v: nat, listed: bool)
    requires listed <==> ListedFrom(groups, 0, v)
    requires acc == root + UnclaimedBelow(groups, v)
    ensures (if listed then acc else acc + [v]) == root + UnclaimedBelow(groups, v + 1)
  {
    assert UnclaimedBelow(groups, v + 1) == UnclaimedBelow(groups, v) + (if listed then [] else [v]);
    assert root + UnclaimedBelow(groups, v) + [v] == root + (UnclaimedBelow(groups, v) + [v]);
  }

  /** The bone loop: each bone's translation relative to its father. */
  method RelativeBones(vertices: seq<Vec3>, groups: seq<VertexGroup>, bones: seq<Bone>) returns (bones': seq<Bone>)
    requires GroupsWellFormed(|vertices|, groups) && |bones| == |groups|
    requires forall g :: 0 <= g < |groups| ==>
      bones[g] == Bone(Father(groups, g), vertices[groups[g].origin], Zero)
    ensures |bones'| == |groups|
    ensures forall g :: 0 <= g < |groups| ==> bones'[g] == SpecBone(vertices, groups, g)
  {
    bones' := bones;
    var b := 0;
    while b < |bones'|
      invariant 0 <= b <= |bones'| == |groups|
      invariant forall g :: 0 <= g < b ==> bones'[g] == SpecBone(vertices, groups, g)
      invariant forall g :: b <= g < |groups| ==> bones'[g] == bones[g]
    {
      var f := bones'[b].father;
      if f >= 0 {
        bones' := bones'[b := bones'[b].(initTrans := bones'[b].trans.Minus(bones'[f].trans))];
      } else {
        bones' := bones'[b := bones'[b].(initTrans := bones'[b].trans)];
      }
      b := b + 1;
    }
  }

  /** The vertex loop: each vertex relative to the bone listing it. */
  method LocalPositions(vertices: seq<Vec3>, groups: seq<VertexGroup>, sk: Skeleton) returns (local: seq<Vec3>)
    requires GroupsWellFormed(|vertices|, groups) && sk == SkeletonOf(vertices, groups)
    ensures local == LocalOf(vertices, groups)
  {
    OwnershipExact(vertices, groups);
    var n := |vertices|;
    local := seq(n, _ => Zero);
    var b := 0;
    while b < |sk.bones|
      invariant 0 <= b <= |sk.bones| && |local| == n
      invariant forall v :: 0 <= v < n && Owner(groups, v) < b ==>
        local[v] == vertices[v].Minus(sk.bones[Owner(groups, v)].trans)
    {
      var verts := sk.boneVertices[b];
      var k := 0;
      while k < |verts|
        invariant 0 <= k <= |verts| && |local| == n
        invariant forall v :: 0 <= v < n && (Owner(groups, v) < b || (Owner(groups, v) == b && v in verts[..k])) ==>
          local[v] == vertices[v].Minus(sk.bones[Owner(groups, v)].trans)
      {
        var v := verts[k];
        assert v in verts;
        assert verts[..k + 1] == verts[..k] + [v];
        local := local[v := vertices[v].Minus(sk.bones[b].trans)];
        k := k + 1;
      }
      assert verts[..k] == verts;
      b := b + 1;
    }
  }

  /** The skeleton of a mesh with at least one group. */
  method GroupSkeleton(vertices: seq<Vec3>, groups: seq<VertexGroup>) returns (sk: Skeleton)
    requires GroupsWellFormed(|vertices|, groups) && |groups| > 0
    ensures sk == SkeletonOf(vertices, groups)
  {
    var bones, boneVerts := CreateBones(vertices, groups);
    var root := AssignUnclaimed(groups, |vertices|, boneVerts[0]);
    bones := RelativeBones(vertices, groups, bones);
    sk := Skeleton(bones, boneVerts[0 := root]);
    var spec := SkeletonOf(vertices, groups);
    assert sk.bones == spec.bones;
    assert forall g :: 0 <= g < |groups| ==> sk.boneVertices[g] == spec.boneVertices[g];
  }

  /** `EERIE_CreateCedricData`: builds the skeleton, the per-bone vertex
      lists and the bone-relative vertex positions of a mesh. */
  method CreateCedricData(obj: Mesh) returns (r: Mesh)
    requires GroupsWellFormed(|obj.vertices|, obj.groups)
    ensures r.skeleton == Some(SkeletonOf(obj.vertices, obj.groups))
    ensures r.vertexLocal == LocalOf(obj.vertices, obj.groups)
    ensures r == obj.(skeleton := r.skeleton, vertexLocal := r.vertexLocal)
  {
    var vertices := obj.vertices;
    var groups := obj.groups;
    var sk: Skeleton;
    if |groups| == 0 {
      var verts: seq<nat> := [];
      var i := 0;
      while i < |vertices|
        invariant 0 <= i <= |vertices| && verts == Range(i)
      {
        verts := verts + [i];
        i := i + 1;
      }
      sk := Skeleton([Bone(-1, Zero, Zero)], [verts]);
      assert sk == SkeletonOf(vertices, groups);
    } else {
      sk := GroupSkeleton(vertices, groups);
    }
    var local := LocalPositions(vertices, groups, sk);
    r := obj.(skeleton := Some(sk), vertexLocal := local);
  }

  // ---------------------------------------------------------------------
  // Copying and re-centring

  /** `Eerie_Copy`: duplicates the structural data, rebuilds the skeleton
      independently, copies the physics box's radius and vertices with a
      reset stop count, and leaves the copy with no attached objects and no
      saved textures. */
  method Copy(obj: Mesh) returns (r: Mesh)
    requires GroupsWellFormed(|obj.vertices|, obj.groups)
    ensures r.file == obj.file && r.origin == obj.origin && r.vertices == obj.vertices
    ensures r.faces == obj.faces && r.groups == obj.groups && r.actions == obj.actions
    ensures r.selections == obj.selections && r.textures == obj.textures
    ensures |r.worldPositions| == |obj.vertices|
    ensures r.linked == [] && r.originalTextures == []
    ensures r.pbox.Some? <==> obj.pbox.Some?
    ensures obj.pbox.Some? ==> r.pbox.value == PhysicsBox(obj.pbox.value.radius, obj.pbox.value.vert, 0)
    ensures r.skeleton == Some(SkeletonOf(obj.vertices, obj.groups))
    ensures r.vertexLocal == LocalOf(obj.vertices, obj.groups)
    ensures obj.skeleton == Some(SkeletonOf(obj.vertices, obj.groups)) ==> r.skeleton == obj.skeleton
  {
    var blank := Mesh(obj.file, obj.origin, obj.vertices, seq(|obj.vertices|, _ => Zero), obj.faces,
                      obj.groups, obj.actions, obj.selections, obj.textures, [], [], None, None, []);
    r := CreateCedricData(blank);
    if obj.pbox.Some? {
      r := r.(pbox := Some(PhysicsBox(obj.pbox.value.radius, obj.pbox.value.vert, 0)));
    }
  }

  /** `EERIE_OBJECT_CenterObjectCoordinates`: translates every vertex so
      that the origin vertex sits at zero (nothing to do when it already
      does, or for a null object). */
  function CenterObjectCoordinates(obj: Option<Mesh>): (r: Option<Mesh>)
    requires obj.Some? ==> obj.value.origin < |obj.value.vertices|
    ensures r.None? <==> obj.None?
    ensures obj.Some? ==> r.value == obj.value.(vertices := r.value.vertices)
    ensures obj.Some? ==> |r.value.vertices| == |obj.value.vertices|
    ensures obj.Some? ==> r.value.vertices[obj.value.origin] == Zero
    ensures obj.Some? ==> forall i, j :: 0 <= i < |obj.value.vertices| && 0 <= j < |obj.value.vertices| ==>
      r.value.vertices[i].Minus(r.value.vertices[j]) == obj.value.vertices[i].Minus(obj.value.vertices[j])
  {
    match obj
    case None => None
    case Some(m) =>
      var offset := m.vertices[m.origin];
      if offset == Zero then obj
      else Some(m.(vertices := seq(|m.vertices|, i requires 0 <= i < |m.vertices| => m.vertices[i].Minus(offset))))
  }

  /** Re-centring an already centred object changes nothing. */
  lemma CenterIdempotent(obj: Option<Mesh>)
    requires obj.Some? ==> obj.value.origin < |obj.value.vertices|
    ensures CenterObjectCoordinates(CenterObjectCoordinates(obj)) == CenterObjectCoordinates(obj)
  {
  }

}
