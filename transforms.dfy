/** Homogeneous 4x4 transformation matrices, as the glTF loader builds them
    for a node's translation and scale, and their application to the rows
    of a vertex array. Matrices are sequences of rows over exact reals. */
module Transforms {

  /** A matrix as a sequence of rows. */
  type Matrix = seq<seq<real>>

  /** The numpy failures the helpers can run into. */
  datatype Error =
    | BroadcastError   // operands whose shapes numpy cannot broadcast together
    | IndexError       // a write past the last row of a 4x4 array
    | ShapeMismatch    // a matrix product whose inner dimensions differ

  datatype Result<T> = Ok(value: T) | Err(error: Error)

  predicate IsMatrix(m: Matrix, rows: nat, cols: nat) {
    |m| == rows && forall i :: 0 <= i < rows ==> |m[i]| == cols
  }

  function Identity(n: nat): (m: Matrix)
    ensures IsMatrix(m, n, n)
  {
    seq(n, i => seq(n, j => if i == j then 1.0 else 0.0))
  }

  function Min(a: nat, b: nat): nat { if a <= b then a else b }

  /** Two matrices of the same shape with the same entries are equal. */
  lemma {:induction false} SameEntries(a: Matrix, b: Matrix, rows: nat, cols: nat)
    requires IsMatrix(a, rows, cols) && IsMatrix(b, rows, cols)
    requires forall i, j :: 0 <= i < rows && 0 <= j < cols ==> a[i][j] == b[i][j]
    ensures a == b
  {
    forall i | 0 <= i < rows ensures a[i] == b[i] {
      assert forall j :: 0 <= j < cols ==> a[i][j] == b[i][j];
    }
  }

  /** `translate`: the identity plus the broadcast product of a 4x4 matrix
      whose last column is all ones with the column `translation ++ [0]`.
      numpy broadcasts that column against four rows only when it has four
      entries or one, so the empty translation gives the identity and any
      length other than 0 or 3 fails. */
  function Translate(translation: seq<real>): (r: Result<Matrix>)
    ensures r.Ok? <==> |translation| == 3 || |translation| == 0
    ensures r.Ok? ==> IsMatrix(r.value, 4, 4)
    // the upper-left 3x3 block and the bottom row are those of the identity
    ensures r.Ok? ==> forall i, j :: 0 <= i < 4 && 0 <= j < 3 ==> r.value[i][j] == if i == j then 1.0 else 0.0
    ensures r.Ok? ==> r.value[3][3] == 1.0
    // the translation sits in the last column of the first three rows
    ensures |translation| == 3 ==> forall i :: 0 <= i < 3 ==> r.value[i][3] == translation[i]
    ensures |translation| == 0 ==> r == Ok(Identity(4))
  {
    var column := translation + [0.0];
    if |column| == 4 || |column| == 1 then
      var m := seq(4, i requires 0 <= i < 4 =>
        seq(4, j requires 0 <= j < 4 =>
          (if i == j then 1.0 else 0.0) + (if j == 3 then column[if |column| == 4 then i else 0] else 0.0)));
      if |column| == 1 then
        SameEntries(m, Identity(4), 4, 4);
        Ok(m)
      else
        Ok(m)
    else
      Err(BroadcastError)
  }

  /** The matrix `scale` builds for at most three factors: the identity
      whose leading diagonal entries are replaced by the factors. */
  function ScaleMatrix(scales: seq<real>): (m: Matrix)
    requires |scales| <= 3
    ensures IsMatrix(m, 4, 4)
  {
    seq(4, i requires 0 <= i < 4 =>
      seq(4, j requires 0 <= j < 4 => if i != j then 0.0 else if i < |scales| then scales[i] else 1.0))
  }

  function ToRows(a: array2<real>): (m: Matrix)
    reads a
    ensures IsMatrix(m, a.Length0, a.Length1)
    ensures forall i, j :: 0 <= i < a.Length0 && 0 <= j < a.Length1 ==> m[i][j] == a[i, j]
  {
    seq(a.Length0, i requires 0 <= i < a.Length0 reads a =>
      seq(a.Length1, j requires 0 <= j < a.Length1 reads a => a[i, j]))
  }

  /** `scale`: appends 1 to the factors and writes them, one by one, onto
      the diagonal of a 4x4 identity. A fifth entry has no row to go to. */
  method Scale(scales: seq<real>) returns (r: Result<Matrix>)
    ensures |scales| <= 3 ==> r == Ok(ScaleMatrix(scales))
    ensures |scales| > 3 ==> r == Err(IndexError)
  {
    var iden := new real[4, 4]((i, j) => if i == j then 1.0 else 0.0);
    var padded := scales + [1.0];
    for i := 0 to |padded|
      invariant i <= 4
      invariant forall a, b :: 0 <= a < 4 && 0 <= b < 4 ==>
        iden[a, b] == if a != b then 0.0 else if a < i then padded[a] else 1.0
    {
      if i >= 4 {
        return Err(IndexError);
      }
      iden[i, i] := padded[i];
    }
    var m := ToRows(iden);
    SameEntries(m, ScaleMatrix(scales), 4, 4);
    r := Ok(m);
  }

  lemma ScaleOfOnesIsIdentity()
    ensures ScaleMatrix([1.0, 1.0, 1.0]) == Identity(4)
  {
    SameEntries(ScaleMatrix([1.0, 1.0, 1.0]), Identity(4), 4, 4);
  }

  lemma TranslateOfZeroIsIdentity()
    ensures Translate([0.0, 0.0, 0.0]) == Ok(Identity(4))
  {
    SameEntries(Translate([0.0, 0.0, 0.0]).value, Identity(4), 4, 4);
  }

  function Dot(a: seq<real>, b: seq<real>): real
    requires |a| == |b|
  {
    if |a| == 0 then 0.0 else a[0] * b[0] + Dot(a[1..], b[1..])
  }

  lemma Dot4(a: seq<real>, b: seq<real>)
    requires |a| == 4 && |b| == 4
    ensures Dot(a, b) == a[0] * b[0] + a[1] * b[1] + a[2] * b[2] + a[3] * b[3]
  {
    var a1, b1 := a[1..], b[1..];
    var a2, b2 := a1[1..], b1[1..];
    var a3, b3 := a2[1..], b2[1..];
    assert Dot(a3, b3) == a3[0] * b3[0] + Dot(a3[1..], b3[1..]);
    assert Dot(a2, b2) == a2[0] * b2[0] + Dot(a3, b3);
    assert Dot(a1, b1) == a1[0] * b1[0] + Dot(a2, b2);
  }

  function Column(m: Matrix, cols: nat, j: nat): (c: seq<real>)
    requires IsMatrix(m, |m|, cols) && j < cols
    ensures |c| == |m| && forall i :: 0 <= i < |m| ==> c[i] == m[i][j]
  {
    seq(|m|, i requires 0 <= i < |m| => m[i][j])
  }

  /** `.T` of a matrix with `cols` columns. */
  function Transpose(m: Matrix, cols: nat): (t: Matrix)
    requires IsMatrix(m, |m|, cols)
    ensures IsMatrix(t, cols, |m|)
    ensures forall i, j :: 0 <= i < cols && 0 <= j < |m| ==> t[i][j] == m[j][i]
  {
    seq(cols, i requires 0 <= i < cols => Column(m, cols, i))
  }

  /** A row vector times a matrix with `cols` columns (`np.dot` on a row). */
  function RowTimes(row: seq<real>, m: Matrix, cols: nat): (r: seq<real>)
    requires IsMatrix(m, |row|, cols)
    ensures |r| == cols && forall j :: 0 <= j < cols ==> r[j] == Dot(row, Column(m, cols, j))
  {
    seq(cols, j requires 0 <= j < cols => Dot(row, Column(m, cols, j)))
  }

  /** `np.dot` of two matrices. */
  function MatMul(a: Matrix, b: Matrix, inner: nat, cols: nat): (c: Matrix)
    requires IsMatrix(a, |a|, inner) && IsMatrix(b, inner, cols)
    ensures IsMatrix(c, |a|, cols)
    ensures forall i :: 0 <= i < |a| ==> c[i] == RowTimes(a[i], b, cols)
  {
    seq(|a|, i requires 0 <= i < |a| => RowTimes(a[i], b, cols))
  }

  /** The identity is a left unit of the product: the loader starts every
      node matrix, and the root's parent matrix, from `np.identity(4)`. */
  lemma IdentityTimes(m: Matrix)
    requires IsMatrix(m, 4, 4)
    ensures MatMul(Identity(4), m, 4, 4) == m
  {
    var p := MatMul(Identity(4), m, 4, 4);
    forall i, j | 0 <= i < 4 && 0 <= j < 4
      ensures p[i][j] == m[i][j]
    {
      Dot4(Identity(4)[i], Column(m, 4, j));
    }
    SameEntries(p, m, 4, 4);
  }

  /** `apply_transfomation`: append a column of ones to the vertices, multiply
      by `transformation` on the right, and keep the first `width` columns of
      the product (all of them when it has fewer). The product is only
      defined when `transformation` has `width + 1` rows. */
  function ApplyTransformation(vertices: Matrix, width: nat, transformation: Matrix, tcols: nat): (r: Result<Matrix>)
    requires IsMatrix(vertices, |vertices|, width)
    requires IsMatrix(transformation, |transformation|, tcols)
    ensures r.Ok? <==> |transformation| == width + 1
    ensures r.Ok? ==> IsMatrix(r.value, |vertices|, Min(width, tcols))
    ensures r.Ok? && width <= tcols ==> IsMatrix(r.value, |vertices|, width)
  {
    if |transformation| != width + 1 then
      Err(ShapeMismatch)
    else
      Ok(seq(|vertices|, i requires 0 <= i < |vertices| =>
        RowTimes(vertices[i] + [1.0], transformation, tcols)[..Min(width, tcols)]))
  }

  /** Vertex row `v` moved by the translation in each coordinate. */
  function Shifted(v: Matrix, t: seq<real>): (r: Matrix)
    requires IsMatrix(v, |v|, 3) && |t| == 3
    ensures IsMatrix(r, |v|, 3)
    ensures forall i, j :: 0 <= i < |v| && 0 <= j < 3 ==> r[i][j] == v[i][j] + t[j]
  {
    seq(|v|, i requires 0 <= i < |v| => seq(3, j requires 0 <= j < 3 => v[i][j] + t[j]))
  }

  /** Vertex rows multiplied coordinate by coordinate by the scale factors. */
  function Scaled(v: Matrix, s: seq<real>): (r: Matrix)
    requires IsMatrix(v, |v|, 3) && |s| == 3
    ensures IsMatrix(r, |v|, 3)
    ensures forall i, j :: 0 <= i < |v| && 0 <= j < 3 ==> r[i][j] == v[i][j] * s[j]
  {
    seq(|v|, i requires 0 <= i < |v| => seq(3, j requires 0 <= j < 3 => v[i][j] * s[j]))
  }

  /** One entry of a transformed vertex row: the row, extended by 1, dotted
      with column `j` of the 4x4 matrix, given as `c`. */
  lemma ApplyEntry(v: Matrix, m: Matrix, i: nat, j: nat, c: seq<real>)
    requires IsMatrix(v, |v|, 3) && IsMatrix(m, 4, 4) && i < |v| && j < 3 && c == Column(m, 4, j)
    ensures ApplyTransformation(v, 3, m, 4).Ok?
    ensures ApplyTransformation(v, 3, m, 4).value[i][j] == v[i][0] * c[0] + v[i][1] * c[1] + v[i][2] * c[2] + c[3]
  {
    Dot4(v[i] + [1.0], c);
  }

  /** Applying the transpose of `translate(t)`, as the loader does, adds `t`
      to every vertex row. */
  lemma TranslateMovesVertices(v: Matrix, t: seq<real>)
    requires IsMatrix(v, |v|, 3) && |t| == 3
    ensures Translate(t).Ok?
    ensures ApplyTransformation(v, 3, Transpose(Translate(t).value, 4), 4) == Ok(Shifted(v, t))
  {
    var mt := Transpose(Translate(t).value, 4);
    var r := ApplyTransformation(v, 3, mt, 4);
    forall i, j | 0 <= i < |v| && 0 <= j < 3
      ensures r.value[i][j] == v[i][j] + t[j]
    {
      ApplyEntry(v, mt, i, j, Column(mt, 4, j));
    }
    SameEntries(r.value, Shifted(v, t), |v|, 3);
  }

  /** Applying the transpose of `scale(s)` multiplies every vertex
      coordinate by the matching factor. */
  lemma ScaleMultipliesVertices(v: Matrix, s: seq<real>)
    requires IsMatrix(v, |v|, 3) && |s| == 3
    ensures ApplyTransformation(v, 3, Transpose(ScaleMatrix(s), 4), 4) == Ok(Scaled(v, s))
  {
    var mt := Transpose(ScaleMatrix(s), 4);
    var r := ApplyTransformation(v, 3, mt, 4);
    forall i, j | 0 <= i < |v| && 0 <= j < 3
      ensures r.value[i][j] == v[i][j] * s[j]
    {
      ApplyEntry(v, mt, i, j, Column(mt, 4, j));
    }
    SameEntries(r.value, Scaled(v, s), |v|, 3);
  }

  /** One entry of translate(t) times scale(s): the scale factors on the
      diagonal of the upper 3x3 block and the translation in the last column. */
  lemma ComposedEntry(t: seq<real>, s: seq<real>, a: nat, b: nat)
    requires |t| == 3 && |s| == 3 && a < 4 && b < 4
    ensures Translate(t).Ok?
    ensures MatMul(Translate(t).value, ScaleMatrix(s), 4, 4)[a][b]
            == if b == 3 then (if a == 3 then 1.0 else t[a]) else if a == b then s[b] else 0.0
  {
    var tm := Translate(t).value;
    Dot4(tm[a], Column(ScaleMatrix(s), 4, b));
  }

  /** Column j of the transpose of translate(t) times scale(s), that is, its
      row j, for the three coordinate rows. */
  lemma ComposedColumn(t: seq<real>, s: seq<real>, j: nat)
    requires |t| == 3 && |s| == 3 && j < 3
    ensures Translate(t).Ok?
    ensures Column(Transpose(MatMul(Translate(t).value, ScaleMatrix(s), 4, 4), 4), 4, j)
            == [if j == 0 then s[0] else 0.0, if j == 1 then s[1] else 0.0, if j == 2 then s[2] else 0.0, t[j]]
  {
    ComposedEntry(t, s, j, 0);
    ComposedEntry(t, s, j, 1);
    ComposedEntry(t, s, j, 2);
    ComposedEntry(t, s, j, 3);
  }

  /** Entry (i, j) of the vertices moved by the transpose of translate(t)
      times scale(s). */
  lemma ComposedVertexEntry(v: Matrix, t: seq<real>, s: seq<real>, i: nat, j: nat)
    requires IsMatrix(v, |v|, 3) && |t| == 3 && |s| == 3 && i < |v| && j < 3
    ensures Translate(t).Ok?
    ensures ApplyTransformation(v, 3, Transpose(MatMul(Translate(t).value, ScaleMatrix(s), 4, 4), 4), 4).Ok?
    ensures ApplyTransformation(v, 3, Transpose(MatMul(Translate(t).value, ScaleMatrix(s), 4, 4), 4), 4).value[i][j]
            == v[i][j] * s[j] + t[j]
  {
    var mt := Transpose(MatMul(Translate(t).value, ScaleMatrix(s), 4, 4), 4);
    ComposedColumn(t, s, j);
    ScaleShiftColumn(v, mt, s, t, i, j);
  }

  /** Entry (i, j) of the vertices moved by any 4x4 matrix whose column j
      is that of a scale-then-translate matrix. */
  lemma ScaleShiftColumn(v: Matrix, m: Matrix, s: seq<real>, t: seq<real>, i: nat, j: nat)
    requires IsMatrix(v, |v|, 3) && IsMatrix(m, 4, 4) && |s| == 3 && |t| == 3 && i < |v| && j < 3
    requires Column(m, 4, j)
             == [if j == 0 then s[0] else 0.0, if j == 1 then s[1] else 0.0, if j == 2 then s[2] else 0.0, t[j]]
    ensures ApplyTransformation(v, 3, m, 4).Ok?
    ensures ApplyTransformation(v, 3, m, 4).value[i][j] == v[i][j] * s[j] + t[j]
  {
    var c := Column(m, 4, j);
    ApplyEntry(v, m, i, j, c);
    ScaleShiftEntry(v[i], s, t, j, c);
  }

  /** A row times the column `c` of a scale-then-translate matrix. */
  lemma ScaleShiftEntry(x: seq<real>, s: seq<real>, t: seq<real>, j: nat, c: seq<real>)
    requires |x| == 3 && |s| == 3 && |t| == 3 && j < 3
    requires c == [if j == 0 then s[0] else 0.0, if j == 1 then s[1] else 0.0, if j == 2 then s[2] else 0.0, t[j]]
    ensures x[0] * c[0] + x[1] * c[1] + x[2] * c[2] + c[3] == x[j] * s[j] + t[j]
  {
  }

  /** The loader composes a node's matrix as translate times scale (with no
      rotation); applying its transpose scales each vertex first and then
      moves it. */
  lemma TranslateThenScaleComposes(v: Matrix, t: seq<real>, s: seq<real>)
    requires IsMatrix(v, |v|, 3) && |t| == 3 && |s| == 3
    ensures Translate(t).Ok?
    ensures ApplyTransformation(v, 3, Transpose(MatMul(Translate(t).value, ScaleMatrix(s), 4, 4), 4), 4)
            == Ok(Shifted(Scaled(v, s), t))
  {
    var r := ApplyTransformation(v, 3, Transpose(MatMul(Translate(t).value, ScaleMatrix(s), 4, 4), 4), 4);
    forall i, j | 0 <= i < |v| && 0 <= j < 3
      ensures r.value[i][j] == v[i][j] * s[j] + t[j]
    {
      ComposedVertexEntry(v, t, s, i, j);
    }
    SameEntries(r.value, Shifted(Scaled(v, s), t), |v|, 3);
  }

  /** The transform the loader hands to a mesh on a node with a translation
      and a scale, under the parent matrix `parent`: the node matrix starts
      as the identity and is multiplied by translate(t) and then by
      scale(s), and the parent matrix is multiplied by it. It is the parent
      matrix times translate(t) times scale(s). For a root node the parent
      matrix is the identity, and applying the transpose to the vertices
      scales each vertex and then moves it. */
  lemma NodeTransform(v: Matrix, t: seq<real>, s: seq<real>, parent: Matrix)
    requires IsMatrix(v, |v|, 3) && |t| == 3 && |s| == 3 && IsMatrix(parent, 4, 4)
    ensures Translate(t).Ok?
    ensures var node := MatMul(MatMul(Identity(4), Translate(t).value, 4, 4), ScaleMatrix(s), 4, 4);
            MatMul(parent, node, 4, 4) == MatMul(parent, MatMul(Translate(t).value, ScaleMatrix(s), 4, 4), 4, 4)
    ensures var node := MatMul(MatMul(Identity(4), Translate(t).value, 4, 4), ScaleMatrix(s), 4, 4);
            parent == Identity(4) ==>
              ApplyTransformation(v, 3, Transpose(MatMul(parent, node, 4, 4), 4), 4) == Ok(Shifted(Scaled(v, s), t))
  {
    var tm := Translate(t).value;
    IdentityTimes(tm);
    var node := MatMul(tm, ScaleMatrix(s), 4, 4);
    IdentityTimes(node);
    TranslateThenScaleComposes(v, t, s);
  }
}
