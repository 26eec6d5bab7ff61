/** Animation frames and the pose transform of anims.py. A frame holds one
    subframe per vertex group; posing a model rotates every vertex by the
    rotation of its group's subframe (as a row vector times the rotation
    matrix) and then adds the subframe's translation. */
module Anims {

  import opened Results
  import opened Mesh

  /** A 3x3 matrix of reals, by rows. */
  datatype Mat3 = Mat3(r0: Vec3, r1: Vec3, r2: Vec3)

  const Identity: Mat3 := Mat3(Vec3(1.0, 0.0, 0.0), Vec3(0.0, 1.0, 0.0), Vec3(0.0, 0.0, 1.0))

  const Zero: Vec3 := Vec3(0.0, 0.0, 0.0)

  /** A quaternion in the (x, y, z, w) order the rotation library takes. */
  datatype Quat = Quat(x: real, y: real, z: real, w: real)

  /** A rotation built from a quaternion. Its direction-cosine matrix is
      computed by a library outside this model, so every operation that needs
      it takes that computation as a parameter `dcm`. */
  datatype Rotation = FromQuat(q: Quat)

  /** The pose of one vertex group: a rotation and a translation. New-style
      subframes also carry their index; the base class has none. */
  datatype Subframe = Subframe(group: int, rot: Rotation, trans: Vec3, index: Option<int>)

  /** One frame of an animation; `groups` is the number of subframes. */
  datatype Frame = Frame(index: int, subframes: seq<Subframe>, groups: nat)

  /** Why posing a model raises. */
  datatype PoseError =
    | GroupOutOfRange  // a vertex group has no subframe
    | MissingNormal    // the model has fewer normals than vertices

  // ---------------------------------------------------------------------
  // Construction

  /** `Frame(index, subframes)`. */
  function MakeFrame(index: int, subframes: seq<Subframe>): (f: Frame)
    ensures f.index == index && f.subframes == subframes
    ensures f.groups == |f.subframes|
  {
    Frame(index, subframes, |subframes|)
  }

  /** The quaternion as a `NewSubframe` receives it: (w, x, y, z). */
  type StoredQuat = (real, real, real, real)

  /** Reorders a stored (w, x, y, z) quaternion to (x, y, z, w). */
  function Reorder(q: StoredQuat): (r: Quat)
    ensures r.w == q.0
  {
    Quat(q.1, q.2, q.3, q.0)
  }

  /** The stored order of a quaternion: (w, x, y, z). */
  function StoredOrder(q: Quat): (r: StoredQuat)
    ensures r.0 == q.w
  {
    (q.w, q.x, q.y, q.z)
  }

  /** Reordering is a pure permutation: it loses nothing in either direction. */
  lemma ReorderRoundTrip(q: StoredQuat, p: Quat)
    ensures StoredOrder(Reorder(q)) == q
    ensures Reorder(StoredOrder(p)) == p
  {
  }

  /** `NewSubframe(group, quat, trans, index)`: the rotation is built from the
      reordered quaternion; group, translation and index are stored as given. */
  function NewSubframe(group: int, quat: StoredQuat, trans: Vec3, index: int): (s: Subframe)
    ensures s.rot.q == Reorder(quat)
    ensures StoredOrder(s.rot.q) == quat
    ensures s.group == group && s.trans == trans && s.index == Some(index)
  {
    ReorderRoundTrip(quat, Reorder(quat));
    Subframe(group, FromQuat(Reorder(quat)), trans, Some(index))
  }

  // ---------------------------------------------------------------------
  // Vector arithmetic

  function Add(a: Vec3, b: Vec3): Vec3 {
    Vec3(a.x + b.x, a.y + b.y, a.z + b.z)
  }

  /** Row vector `v` times matrix `m` (numpy `v.dot(m)`). */
  function RowTimes(v: Vec3, m: Mat3): (r: Vec3)
    ensures m == Identity ==> r == v
  {
    Vec3(v.x * m.r0.x + v.y * m.r1.x + v.z * m.r2.x,
         v.x * m.r0.y + v.y * m.r1.y + v.z * m.r2.y,
         v.x * m.r0.z + v.y * m.r1.z + v.z * m.r2.z)
  }

  /** Multiplication by a matrix is linear. */
  lemma RowTimesLinear(a: Vec3, b: Vec3, m: Mat3)
    ensures RowTimes(Add(a, b), m) == Add(RowTimes(a, m), RowTimes(b, m))
  {
    DotLinear(a.x, a.y, a.z, b.x, b.y, b.z, m.r0.x, m.r1.x, m.r2.x);
    DotLinear(a.x, a.y, a.z, b.x, b.y, b.z, m.r0.y, m.r1.y, m.r2.y);
    DotLinear(a.x, a.y, a.z, b.x, b.y, b.z, m.r0.z, m.r1.z, m.r2.z);
  }

  /** One component of `RowTimesLinear`: a dot product is linear. */
  lemma DotLinear(a1: real, a2: real, a3: real, b1: real, b2: real, b3: real, c1: real, c2: real, c3: real)
    ensures (a1 + b1) * c1 + (a2 + b2) * c2 + (a3 + b3) * c3
            == (a1 * c1 + a2 * c2 + a3 * c3) + (b1 * c1 + b2 * c2 + b3 * c3)
  {
    Distribute(a1, b1, c1);
    Distribute(a2, b2, c2);
    Distribute(a3, b3, c3);
  }

  lemma Distribute(p: real, q: real, k: real)
    ensures (p + q) * k == p * k + q * k
  {
  }

  /** The posed position of `v` under subframe `s`: `v·R + T`. */
  function Transform(v: Vec3, s: Subframe, dcm: Rotation -> Mat3): Vec3 {
    Add(RowTimes(v, dcm(s.rot)), s.trans)
  }

  // ---------------------------------------------------------------------
  // Posing a model

  /** The vertex groups of `verts` that are read before the loop would stop
      at a missing normal all have a subframe. */
  predicate GroupsCovered(f: Frame, verts: seq<Vertex>, normals: nat) {
    forall i :: 0 <= i < |verts| && i <= normals ==> verts[i].group < |f.subframes|
  }

  /** The loop of `apply_to_model` over vertex i onwards, with the normals
      from i onwards. For each vertex it looks up the subframe of its group
      (failing when there is none), then reads the matching normal (failing
      when there is none), and yields the transformed vertex with its group
      kept. The rotated normal is computed and dropped, so only its presence
      matters. */
  function PoseVertices(f: Frame, verts: seq<Vertex>, norms: seq<Normal>, dcm: Rotation -> Mat3)
    : (r: Result<seq<Vertex>, PoseError>)
    decreases |verts|
  {
    if |verts| == 0 then Ok([])
    else if verts[0].group >= |f.subframes| then Err(GroupOutOfRange)
    else if |norms| == 0 then Err(MissingNormal)
    else
      var sf := f.subframes[verts[0].group];
      var v := Point(Transform(verts[0].r, sf, dcm), verts[0].group);
      var rest :- PoseVertices(f, verts[1..], norms[1..], dcm);
      Ok([v] + rest)
  }

  /** The loop fails on a vertex without a subframe when one is reached
      before the normals run out, fails on the missing normal when the
      normals run out first, and otherwise poses vertex i with the subframe
      of its own group. */
  lemma {:induction false} PoseVerticesEach(f: Frame, verts: seq<Vertex>, norms: seq<Normal>, dcm: Rotation -> Mat3)
    ensures var r := PoseVertices(f, verts, norms, dcm);
            && (r == Err(GroupOutOfRange) <==> !GroupsCovered(f, verts, |norms|))
            && (r == Err(MissingNormal) <==> GroupsCovered(f, verts, |norms|) && |norms| < |verts|)
            && (r.Ok? <==> GroupsCovered(f, verts, |norms|) && |verts| <= |norms|)
    ensures var r := PoseVertices(f, verts, norms, dcm);
            r.Ok? ==>
              && |r.value| == |verts|
              && forall i :: 0 <= i < |verts| ==>
                   r.value[i] == Point(Transform(verts[i].r, f.subframes[verts[i].group], dcm), verts[i].group)
    decreases |verts|
  {
    if |verts| > 0 && verts[0].group < |f.subframes| && |norms| > 0 {
      PoseVerticesEach(f, verts[1..], norms[1..], dcm);
      if GroupsCovered(f, verts[1..], |norms| - 1) {
        forall i | 0 <= i < |verts| && i <= |norms|
          ensures verts[i].group < |f.subframes|
        {
          if i > 0 {
            assert verts[i] == verts[1..][i - 1];
          }
        }
      } else {
        var j :| 0 <= j < |verts| - 1 && j <= |norms| - 1 && verts[1..][j].group >= |f.subframes|;
        assert verts[j + 1].group >= |f.subframes|;
      }
    } else if |verts| > 0 && verts[0].group >= |f.subframes| {
      assert !GroupsCovered(f, verts, |norms|) by {
        assert 0 <= 0 <= |norms|;
      }
    }
  }

  /** `Frame.apply_to_model` as written: a new model whose vertices are the
      posed vertices, whose normals list holds those same posed vertices,
      and whose faces and group count are the input's. */
  function ApplyToModel(f: Frame, m: Model, dcm: Rotation -> Mat3): (r: Result<Model, PoseError>)
    ensures r.Ok? <==> GroupsCovered(f, m.verts, |m.norms|) && |m.verts| <= |m.norms|
    ensures r.Ok? ==>
              && |r.value.verts| == |m.verts|
              && r.value.norms == r.value.verts
              && r.value.faces == m.faces && r.value.groups == m.groups
              && forall i :: 0 <= i < |m.verts| ==>
                   r.value.verts[i]
                   == Point(Transform(m.verts[i].r, f.subframes[m.verts[i].group], dcm), m.verts[i].group)
  {
    PoseVerticesEach(f, m.verts, m.norms, dcm);
    var vs :- PoseVertices(f, m.verts, m.norms, dcm);
    Ok(Model(vs, vs, m.faces[..], m.groups))
  }

  /** The normals posing evidently intends: normal i rotated by the rotation
      of vertex i's group (a direction is not translated), tagged with that
      group. */
  function PoseNormals(f: Frame, verts: seq<Vertex>, norms: seq<Normal>, dcm: Rotation -> Mat3): (r: seq<Normal>)
    requires |verts| <= |norms|
    requires forall i :: 0 <= i < |verts| ==> verts[i].group < |f.subframes|
    ensures |r| == |verts|
    ensures forall i :: 0 <= i < |verts| ==>
              r[i] == Point(RowTimes(norms[i].r, dcm(f.subframes[verts[i].group].rot)), verts[i].group)
  {
    seq(|verts|, i requires 0 <= i < |verts| =>
          Point(RowTimes(norms[i].r, dcm(f.subframes[verts[i].group].rot)), verts[i].group))
  }

  /** `apply_to_model` with its normals list corrected to the rotated normals;
      it fails exactly when the code as written does. */
  function ApplyToModelCorrected(f: Frame, m: Model, dcm: Rotation -> Mat3): (r: Result<Model, PoseError>)
    ensures r.Ok? <==> ApplyToModel(f, m, dcm).Ok?
    ensures r.Err? ==> r == ApplyToModel(f, m, dcm)
    ensures r.Ok? ==>
              && r.value.verts == ApplyToModel(f, m, dcm).value.verts
              && r.value.faces == m.faces && r.value.groups == m.groups
              && |r.value.norms| == |m.verts|
              && forall i :: 0 <= i < |m.verts| ==>
                   r.value.norms[i]
                   == Point(RowTimes(m.norms[i].r, dcm(f.subframes[m.verts[i].group].rot)), m.verts[i].group)
  {
    var posed :- ApplyToModel(f, m, dcm);
    Ok(posed.(norms := PoseNormals(f, m.verts, m.norms, dcm)))
  }

  /** The rest pose: when every subframe has the identity rotation and no
      translation, posing leaves the vertices where they are; the corrected
      version also leaves the normals' directions alone. */
  lemma RestPose(f: Frame, m: Model, dcm: Rotation -> Mat3)
    requires forall s :: s in f.subframes ==> dcm(s.rot) == Identity && s.trans == Zero
    requires ApplyToModel(f, m, dcm).Ok?
    ensures ApplyToModel(f, m, dcm).value.verts == m.verts
    ensures forall i :: 0 <= i < |m.verts| ==>
              ApplyToModelCorrected(f, m, dcm).value.norms[i].r == m.norms[i].r
  {
    var r := ApplyToModel(f, m, dcm).value;
    forall i | 0 <= i < |m.verts|
      ensures r.verts[i] == m.verts[i]
    {
      assert f.subframes[m.verts[i].group] in f.subframes;
    }
    forall i | 0 <= i < |m.verts|
      ensures ApplyToModelCorrected(f, m, dcm).value.norms[i].r == m.norms[i].r
    {
      assert f.subframes[m.verts[i].group] in f.subframes;
    }
  }

  /** The code as written loses the normals: in the rest pose, a model with
      one vertex at (1, 0, 0) and its normal along (0, 1, 0) comes back with
      the normal replaced by the vertex position, where the corrected version
      keeps it. */
  lemma NormalsLostWitness()
    ensures var f := MakeFrame(0, [Subframe(0, FromQuat(Quat(0.0, 0.0, 0.0, 1.0)), Zero, None)]);
            var m := NewModel([Point(Vec3(1.0, 0.0, 0.0), 0)], [Point(Vec3(0.0, 1.0, 0.0), 0)], []);
            var dcm := (_: Rotation) => Identity;
            && ApplyToModel(f, m, dcm).Ok?
            && ApplyToModel(f, m, dcm).value.norms[0].r == Vec3(1.0, 0.0, 0.0)
            && ApplyToModelCorrected(f, m, dcm).value.norms[0].r == Vec3(0.0, 1.0, 0.0)
  {
    var f := MakeFrame(0, [Subframe(0, FromQuat(Quat(0.0, 0.0, 0.0, 1.0)), Zero, None)]);
    var m := NewModel([Point(Vec3(1.0, 0.0, 0.0), 0)], [Point(Vec3(0.0, 1.0, 0.0), 0)], []);
    var dcm := (_: Rotation) => Identity;
    assert GroupsCovered(f, m.verts, |m.norms|);
    var sf := f.subframes[0];
    assert dcm(sf.rot) == Identity && sf.trans == Zero;
    assert Transform(m.verts[0].r, sf, dcm) == Vec3(1.0, 0.0, 0.0);
    assert RowTimes(m.norms[0].r, dcm(sf.rot)) == Vec3(0.0, 1.0, 0.0);
  }
}
