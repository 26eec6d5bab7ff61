/** Mesh value types of model.py and the Wavefront OBJ text that
    `Model.save_obj` produces from them. */
module Mesh {

  import opened Results
  import opened Decimal

  /** A 3-component float64 vector (`Vec3.r`); the values the decoder stores
      are exact quotients of 16-bit integers, so reals represent them exactly. */
  datatype Vec3 = Vec3(x: real, y: real, z: real)

  /** `Vertex` and `Normal` are the same record in the source: a vector and
      the vertex group it belongs to. */
  datatype Point = Point(r: Vec3, group: nat)
  type Vertex = Point
  type Normal = Point

  /** A face: four stored vertex indices (0-based, as read), the normal record
      embedded in it, its group and its texture id. */
  datatype Face = Face(verts: (nat, nat, nat, nat), norm: Normal, group: nat, texture: nat)

  datatype Model = Model(verts: seq<Vertex>, norms: seq<Normal>, faces: seq<Face>, groups: nat)

  /** `Model(vertices, normals, faces)` with the default group count. */
  function NewModel(vs: seq<Vertex>, ns: seq<Normal>, fs: seq<Face>): (m: Model)
    ensures m.verts == vs && m.norms == ns && m.faces == fs
    ensures m.groups == 0
  {
    Model(vs, ns, fs, 0)
  }

  // ---------------------------------------------------------------------
  // __repr__

  const ReprHead: string := "model.Model("

  /** The rest of `s` after the literal `lit`, if `s` starts with it. */
  function Expect(s: string, lit: string): (r: Option<string>)
    ensures r.Some? <==> |lit| <= |s| && s[..|lit|] == lit
    ensures r.Some? ==> r.value == s[|lit|..]
  {
    if |lit| <= |s| && s[..|lit|] == lit then Some(s[|lit|..]) else None
  }

  lemma ExpectPrefix(lit: string, rest: string)
    ensures Expect(lit + rest, lit) == Some(rest)
  {
    assert (lit + rest)[..|lit|] == lit;
    assert (lit + rest)[|lit|..] == rest;
  }

  /** A number followed by the literal `lit`, and the text after both. */
  function ReadField(s: string, lit: string): Option<(nat, string)> {
    match ReadNat(s)
    case None => None
    case Some(p) =>
      match Expect(p.1, lit)
      case None => None
      case Some(rest) => Some((p.0, rest))
  }

  lemma ReadFieldShow(n: nat, lit: string, rest: string)
    requires |lit| > 0 && !IsDigit(lit[0])
    ensures ReadField(Show(n) + (lit + rest), lit) == Some((n, rest))
  {
    ReadShow(n, lit + rest);
    ExpectPrefix(lit, rest);
  }

  /** `repr(model)`: the vertex, normal and face counts in words. */
  function Repr(m: Model): (s: string)
    ensures ParseRepr(s) == Some((|m.verts|, |m.norms|, |m.faces|))
  {
    var v, n, f := |m.verts|, |m.norms|, |m.faces|;
    var tail2 := Show(f) + (" faces)" + "");
    var tail1 := Show(n) + (" normals, " + tail2);
    var tail0 := Show(v) + (" vertices, " + tail1);
    ExpectPrefix(ReprHead, tail0);
    ReadFieldShow(v, " vertices, ", tail1);
    ReadFieldShow(n, " normals, ", tail2);
    ReadFieldShow(f, " faces)", "");
    ReprHead + tail0
  }

  /** Recovers the three counts from the text `Repr` writes. */
  function ParseRepr(s: string): Option<(nat, nat, nat)> {
    match Expect(s, ReprHead)
    case None => None
    case Some(s0) =>
      match ReadField(s0, " vertices, ")
      case None => None
      case Some(p0) =>
        match ReadField(p0.1, " normals, ")
        case None => None
        case Some(p1) =>
          match ReadField(p1.1, " faces)")
          case None => None
          case Some(p2) => if p2.1 == "" then Some((p0.0, p1.0, p2.0)) else None
  }

  // ---------------------------------------------------------------------
  // save_obj

  /** The 1-based vertex references of a face line. A face of group 0 is
      written as a quad visiting the stored corners in the order 0, 1, 3, 2;
      any other face as the triangle of corners 0, 1, 2. */
  function FaceRefs(f: Face): (r: seq<nat>)
    ensures |r| == (if f.group == 0 then 4 else 3)
    ensures r[0] == f.verts.0 + 1 && r[1] == f.verts.1 + 1
    ensures f.group == 0 ==> r[2] == f.verts.3 + 1 && r[3] == f.verts.2 + 1
    ensures f.group != 0 ==> r[2] == f.verts.2 + 1
    ensures forall k :: 0 <= k < |r| ==>
              r[k] >= 1 && (r[k] - 1 == f.verts.0 || r[k] - 1 == f.verts.1 ||
                            r[k] - 1 == f.verts.2 || r[k] - 1 == f.verts.3)
  {
    var (a, b, c, d) := f.verts;
    if f.group == 0 then [a + 1, b + 1, d + 1, c + 1] else [a + 1, b + 1, c + 1]
  }

  /** The ` i//i` items of a face line. */
  function RefItems(refs: seq<nat>): string {
    if |refs| == 0 then ""
    else " " + (Show(refs[0]) + ("//" + (Show(refs[0]) + RefItems(refs[1..]))))
  }

  /** The text of one face line. */
  function FaceText(refs: seq<nat>): (s: string)
    ensures ParseFaceText(s) == Some(refs)
  {
    RefItemsReadBack(refs);
    ExpectPrefix("f", RefItems(refs) + "\n");
    "f" + (RefItems(refs) + "\n")
  }

  /** Reads the references back from a face line. */
  function ParseFaceText(s: string): Option<seq<nat>> {
    match Expect(s, "f")
    case None => None
    case Some(rest) => ParseRefItems(rest)
  }

  /** Reads one ` i//i` item: the reference and the text after it. */
  function ParseRefItem(s: string): (r: Option<(nat, string)>)
    ensures r.Some? ==> |r.value.1| < |s|
  {
    match Expect(s, " ")
    case None => None
    case Some(s1) =>
      match ReadField(s1, "//")
      case None => None
      case Some(p1) =>
        match ReadNat(p1.1)
        case None => None
        case Some(p2) => if p1.0 == p2.0 then Some(p2) else None
  }

  function ParseRefItems(s: string): Option<seq<nat>>
    decreases |s|
  {
    if s == "\n" then Some([])
    else
      match ParseRefItem(s)
      case None => None
      case Some(p) =>
        match ParseRefItems(p.1)
        case None => None
        case Some(more) => Some([p.0] + more)
  }

  lemma RefItemReadBack(i: nat, rest: string)
    requires |rest| > 0 && !IsDigit(rest[0])
    ensures ParseRefItem(" " + (Show(i) + ("//" + (Show(i) + rest)))) == Some((i, rest))
  {
    ExpectPrefix(" ", Show(i) + ("//" + (Show(i) + rest)));
    ReadFieldShow(i, "//", Show(i) + rest);
    ReadShow(i, rest);
  }

  lemma {:induction false} RefItemsHead(refs: seq<nat>)
    requires |refs| > 0
    ensures RefItems(refs) + "\n"
            == " " + (Show(refs[0]) + ("//" + (Show(refs[0]) + (RefItems(refs[1..]) + "\n"))))
    ensures (RefItems(refs) + "\n")[0] == ' '
  {
    var t := Show(refs[0]) + ("//" + (Show(refs[0]) + RefItems(refs[1..])));
    assert RefItems(refs) == " " + t;
    assert (" " + t) + "\n" == " " + (t + "\n");
    assert t + "\n" == Show(refs[0]) + ("//" + (Show(refs[0]) + (RefItems(refs[1..]) + "\n")));
  }

  lemma {:induction false} RefItemsReadBack(refs: seq<nat>)
    ensures ParseRefItems(RefItems(refs) + "\n") == Some(refs)
  {
    if |refs| == 0 {
      assert RefItems(refs) + "\n" == "\n";
    } else {
      var i := refs[0];
      var rest := RefItems(refs[1..]) + "\n";
      var s := RefItems(refs) + "\n";
      RefItemsHead(refs);
      assert s != "\n";
      if |refs[1..]| > 0 {
        RefItemsHead(refs[1..]);
      } else {
        assert rest == "\n";
      }
      RefItemReadBack(i, rest);
      RefItemsReadBack(refs[1..]);
      HeadTail(refs);
    }
  }

  lemma HeadTail<T>(s: seq<T>)
    requires |s| > 0
    ensures [s[0]] + s[1..] == s
  {
  }

  /** One line of the OBJ file; vertex and normal lines keep their vector,
      since the float text formatting is not part of this model. */
  datatype ObjLine = Comment(text: string) | Blank | VertexLine(v: Vec3) | NormalLine(n: Vec3) | FaceLine(text: string)

  function VertexLines(vs: seq<Vertex>): (ls: seq<ObjLine>)
    ensures |ls| == |vs| && forall i :: 0 <= i < |vs| ==> ls[i] == VertexLine(vs[i].r)
  {
    seq(|vs|, i requires 0 <= i < |vs| => VertexLine(vs[i].r))
  }

  function NormalLines(ns: seq<Normal>): (ls: seq<ObjLine>)
    ensures |ls| == |ns| && forall i :: 0 <= i < |ns| ==> ls[i] == NormalLine(ns[i].r)
  {
    seq(|ns|, i requires 0 <= i < |ns| => NormalLine(ns[i].r))
  }

  function FaceLines(fs: seq<Face>): (ls: seq<ObjLine>)
    ensures |ls| == |fs|
    ensures forall i :: 0 <= i < |fs| ==> ls[i] == FaceLine(FaceText(FaceRefs(fs[i])))
  {
    seq(|fs|, i requires 0 <= i < |fs| => FaceLine(FaceText(FaceRefs(fs[i]))))
  }

  /** The lines `save_obj` writes, in file order. */
  function ObjDocument(m: Model): (d: seq<ObjLine>)
    ensures |d| == |m.verts| + |m.norms| + |m.faces| + 5
    ensures d[0] == Comment("vertices")
    ensures forall i :: 0 <= i < |m.verts| ==> d[1 + i] == VertexLine(m.verts[i].r)
    ensures d[|m.verts| + 1] == Blank && d[|m.verts| + 2] == Comment("vertex normals")
    ensures forall i :: 0 <= i < |m.norms| ==> d[|m.verts| + 3 + i] == NormalLine(m.norms[i].r)
    ensures d[|m.verts| + |m.norms| + 3] == Blank
    ensures d[|m.verts| + |m.norms| + 4] == Comment("faces")
    ensures forall i :: 0 <= i < |m.faces| ==>
              && d[|m.verts| + |m.norms| + 5 + i].FaceLine?
              && ParseFaceText(d[|m.verts| + |m.norms| + 5 + i].text) == Some(FaceRefs(m.faces[i]))
  {
    [Comment("vertices")] + VertexLines(m.verts)
    + [Blank, Comment("vertex normals")] + NormalLines(m.norms)
    + [Blank, Comment("faces")] + FaceLines(m.faces)
  }
}
