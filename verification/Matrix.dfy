/** Four-by-four matrices kept as columns: the product, and the inverse by shuffled cofactors. */
module Matrix {
  import opened Vectors

  datatype M4 = M4(col0: V4, col1: V4, col2: V4, col3: V4)

  const IDENTITY := M4(V4(1.0, 0.0, 0.0, 0.0), V4(0.0, 1.0, 0.0, 0.0), V4(0.0, 0.0, 1.0, 0.0), V4(0.0, 0.0, 0.0, 1.0))

  function Row(m: M4, i: nat): V4
    requires i < 4
  {
    V4(Lane(m.col0, i), Lane(m.col1, i), Lane(m.col2, i), Lane(m.col3, i))
  }

  /** operator * of two matrices, column by column. */
  function Product(a: M4, b: M4): M4 {
    M4(TimesColumn(a, b.col0), TimesColumn(a, b.col1), TimesColumn(a, b.col2), TimesColumn(a, b.col3))
  }

  /** A matrix times a column, lane by lane of the column. */
  function TimesColumn(a: M4, v: V4): V4 {
    var r := Mul(Swizzle(v, 0, 0, 0, 0), a.col0);
    var r := Madd(Swizzle(v, 1, 1, 1, 1), a.col1, r);
    var r := Madd(Swizzle(v, 2, 2, 2, 2), a.col2, r);
    Madd(Swizzle(v, 3, 3, 3, 3), a.col3, r)
  }

  function Det3(a: V4, b: V4, c: V4, i: nat, j: nat, k: nat): real
    requires i < 4 && j < 4 && k < 4
  {
    Lane(a, i) * (Lane(b, j) * Lane(c, k) - Lane(b, k) * Lane(c, j))
    - Lane(a, j) * (Lane(b, i) * Lane(c, k) - Lane(b, k) * Lane(c, i))
    + Lane(a, k) * (Lane(b, i) * Lane(c, j) - Lane(b, j) * Lane(c, i))
  }

  /** The vector of cofactors of a row above three others. */
  function Cofactors(b: V4, c: V4, d: V4): V4 {
    V4(Det3(b, c, d, 1, 2, 3), -Det3(b, c, d, 0, 2, 3), Det3(b, c, d, 0, 1, 3), -Det3(b, c, d, 0, 1, 2))
  }

  /** The determinant with the given rows. */
  function Det4(a: V4, b: V4, c: V4, d: V4): real {
    Dot44(a, Cofactors(b, c, d))
  }

  function Minor(a: V4, b: V4, i: nat, j: nat): real
    requires i < 4 && j < 4
  {
    Lane(a, i) * Lane(b, j) - Lane(a, j) * Lane(b, i)
  }

  function Negated(v: V4): V4 {
    V4(-v.x, -v.y, -v.z, -v.w)
  }

  lemma SwapCofactors(b: V4, c: V4, d: V4)
    ensures Cofactors(c, b, d) == Negated(Cofactors(b, c, d)) && Cofactors(b, d, c) == Negated(Cofactors(b, c, d))
  {
  }

  /** Alternating sums. */
  function Sum3(x: real, y: real, z: real, p: real, q: real, r: real): real {
    x * p - y * q + z * r
  }

  function Sum4(a: V4, p: real, q: real, r: real, s: real): real {
    a.x * p - a.y * q + a.z * r - a.w * s
  }

  lemma AsAlternatingSum(a: V4, b: V4, c: V4, d: V4)
    ensures Det4(a, b, c, d)
         == Sum4(a, Det3(b, c, d, 1, 2, 3), Det3(b, c, d, 0, 2, 3), Det3(b, c, d, 0, 1, 3), Det3(b, c, d, 0, 1, 2))
  {
    hide Det3;
  }

  /** Expansion along the first two rows together. */
  lemma ByPairs(a: V4, b: V4, c: V4, d: V4)
    ensures Det4(a, b, c, d)
         == Minor(a, b, 0, 1) * Minor(c, d, 2, 3) - Minor(a, b, 0, 2) * Minor(c, d, 1, 3)
          + Minor(a, b, 0, 3) * Minor(c, d, 1, 2) + Minor(a, b, 1, 2) * Minor(c, d, 0, 3)
          - Minor(a, b, 1, 3) * Minor(c, d, 0, 2) + Minor(a, b, 2, 3) * Minor(c, d, 0, 1)
  {
    AsAlternatingSum(a, b, c, d);
    Det3ByRow(b, c, d, 1, 2, 3);
    Det3ByRow(b, c, d, 0, 2, 3);
    Det3ByRow(b, c, d, 0, 1, 3);
    Det3ByRow(b, c, d, 0, 1, 2);
    PairsCollected(a, b, Minor(c, d, 0, 1), Minor(c, d, 0, 2), Minor(c, d, 0, 3),
                   Minor(c, d, 1, 2), Minor(c, d, 1, 3), Minor(c, d, 2, 3));
    hide Det4, Det3, Sum3, Sum4, Minor;
  }

  lemma PairsCollected(a: V4, b: V4, m01: real, m02: real, m03: real, m12: real, m13: real, m23: real)
    ensures Sum4(a, Sum3(b.y, b.z, b.w, m23, m13, m12), Sum3(b.x, b.z, b.w, m23, m03, m02),
                 Sum3(b.x, b.y, b.w, m13, m03, m01), Sum3(b.x, b.y, b.z, m12, m02, m01))
         == Minor(a, b, 0, 1) * m23 - Minor(a, b, 0, 2) * m13 + Minor(a, b, 0, 3) * m12
            + Minor(a, b, 1, 2) * m03 - Minor(a, b, 1, 3) * m02 + Minor(a, b, 2, 3) * m01
  {
    SumSpread(a.x, b.y, b.z, b.w, m23, m13, m12);
    SumSpread(a.y, b.x, b.z, b.w, m23, m03, m02);
    SumSpread(a.z, b.x, b.y, b.w, m13, m03, m01);
    SumSpread(a.w, b.x, b.y, b.z, m12, m02, m01);
    MinorSpread(a, b, 0, 1, m23);
    MinorSpread(a, b, 0, 2, m13);
    MinorSpread(a, b, 0, 3, m12);
    MinorSpread(a, b, 1, 2, m03);
    MinorSpread(a, b, 1, 3, m02);
    MinorSpread(a, b, 2, 3, m01);
    hide Sum3, Minor, Product3;
  }

  function Product3(x: real, y: real, z: real): real {
    x * y * z
  }

  lemma SumSpread(a: real, x: real, y: real, z: real, p: real, q: real, r: real)
    ensures a * Sum3(x, y, z, p, q, r) == Product3(a, x, p) - Product3(a, y, q) + Product3(a, z, r)
  {
  }

  lemma MinorSpread(a: V4, b: V4, i: nat, j: nat, m: real)
    requires i < 4 && j < 4
    ensures Minor(a, b, i, j) * m == Product3(Lane(a, i), Lane(b, j), m) - Product3(Lane(a, j), Lane(b, i), m)
  {
    hide Lane;
  }

  lemma SwapFirst(a: V4, b: V4, c: V4, d: V4)
    ensures Det4(b, a, c, d) == -Det4(a, b, c, d)
  {
    ByPairs(a, b, c, d);
    ByPairs(b, a, c, d);
    hide Det4;
    SwapMinor(a, b, 0, 1);
    SwapMinor(a, b, 0, 2);
    SwapMinor(a, b, 0, 3);
    SwapMinor(a, b, 1, 2);
    SwapMinor(a, b, 1, 3);
    SwapMinor(a, b, 2, 3);
    hide Minor;
  }

  lemma SwapMinor(a: V4, b: V4, i: nat, j: nat)
    requires i < 4 && j < 4
    ensures Minor(b, a, i, j) == -Minor(a, b, i, j)
  {
  }

  lemma SwapOthers(a: V4, b: V4, c: V4, d: V4)
    ensures Det4(a, c, b, d) == -Det4(a, b, c, d) && Det4(a, b, d, c) == -Det4(a, b, c, d)
  {
    SwapCofactors(b, c, d);
    hide Cofactors;
  }

  /** Moving a row to the front costs a sign a step. */
  lemma RowToFront(a: V4, b: V4, c: V4, d: V4)
    ensures Det4(b, a, c, d) == -Det4(a, b, c, d)
    ensures Det4(c, a, b, d) == Det4(a, b, c, d)
    ensures Det4(d, a, b, c) == -Det4(a, b, c, d)
  {
    hide Det4;
    SwapFirst(a, b, c, d);
    SwapOthers(a, b, c, d);
    SwapFirst(a, c, b, d);
    SwapFirst(a, d, b, c);
    SwapOthers(a, b, d, c);
  }

  lemma RepeatedRow(b: V4, c: V4, d: V4)
    ensures Det4(b, b, c, d) == 0.0 && Det4(c, b, c, d) == 0.0 && Det4(d, b, c, d) == 0.0
  {
    hide Det4;
    SwapFirst(b, b, c, d);
    SwapFirst(b, c, c, d);
    SwapOthers(b, c, c, d);
    SwapFirst(b, d, c, d);
    SwapOthers(b, d, c, d);
    SwapOthers(b, c, d, d);
  }

  lemma Det3ByColumn(a: V4, b: V4, c: V4, i: nat, j: nat, k: nat)
    requires i < 4 && j < 4 && k < 4
    ensures Det3(a, b, c, i, j, k)
         == Sum3(Lane(a, i), Lane(b, i), Lane(c, i), Minor(b, c, j, k), Minor(a, c, j, k), Minor(a, b, j, k))
  {
    hide Lane;
  }

  lemma Det3ByRow(a: V4, b: V4, c: V4, i: nat, j: nat, k: nat)
    requires i < 4 && j < 4 && k < 4
    ensures Det3(a, b, c, i, j, k)
         == Sum3(Lane(a, i), Lane(a, j), Lane(a, k), Minor(b, c, j, k), Minor(b, c, i, k), Minor(b, c, i, j))
  {
    hide Lane;
  }

  lemma MinorOfTranspose(m: M4)
    ensures Minor(Row(m, 2), Row(m, 3), 2, 3) == Minor(m.col2, m.col3, 2, 3)
    ensures Minor(Row(m, 1), Row(m, 3), 2, 3) == Minor(m.col2, m.col3, 1, 3)
    ensures Minor(Row(m, 1), Row(m, 2), 2, 3) == Minor(m.col2, m.col3, 1, 2)
    ensures Minor(Row(m, 2), Row(m, 3), 1, 3) == Minor(m.col1, m.col3, 2, 3)
    ensures Minor(Row(m, 1), Row(m, 3), 1, 3) == Minor(m.col1, m.col3, 1, 3)
    ensures Minor(Row(m, 1), Row(m, 2), 1, 3) == Minor(m.col1, m.col3, 1, 2)
    ensures Minor(Row(m, 2), Row(m, 3), 1, 2) == Minor(m.col1, m.col2, 2, 3)
    ensures Minor(Row(m, 1), Row(m, 3), 1, 2) == Minor(m.col1, m.col2, 1, 3)
    ensures Minor(Row(m, 1), Row(m, 2), 1, 2) == Minor(m.col1, m.col2, 1, 2)
  {
  }

  /** The determinant read by rows is the determinant read by columns. */
  lemma DeterminantOfTranspose(m: M4)
    ensures Det4(m.col0, m.col1, m.col2, m.col3) == Det4(Row(m, 0), Row(m, 1), Row(m, 2), Row(m, 3))
  {
    var (r0, r1, r2, r3) := (Row(m, 0), Row(m, 1), Row(m, 2), Row(m, 3));
    var (c0, c1, c2, c3) := (m.col0, m.col1, m.col2, m.col3);
    MinorOfTranspose(m);
    AsAlternatingSum(r0, r1, r2, r3);
    AsAlternatingSum(c0, c1, c2, c3);
    Det3ByColumn(r1, r2, r3, 1, 2, 3);
    Det3ByColumn(r1, r2, r3, 0, 2, 3);
    Det3ByColumn(r1, r2, r3, 0, 1, 3);
    Det3ByColumn(r1, r2, r3, 0, 1, 2);
    Det3ByRow(c1, c2, c3, 1, 2, 3);
    Det3ByColumn(c1, c2, c3, 0, 2, 3);
    Det3ByColumn(c1, c2, c3, 0, 1, 3);
    Det3ByColumn(c1, c2, c3, 0, 1, 2);
    FirstRowAndColumn(c0, r0,
      Sum3(r1.y, r2.y, r3.y, Minor(r2, r3, 2, 3), Minor(r1, r3, 2, 3), Minor(r1, r2, 2, 3)),
      Minor(r2, r3, 2, 3), Minor(r1, r3, 2, 3), Minor(r1, r2, 2, 3),
      Minor(r2, r3, 1, 3), Minor(r1, r3, 1, 3), Minor(r1, r2, 1, 3),
      Minor(r2, r3, 1, 2), Minor(r1, r3, 1, 2), Minor(r1, r2, 1, 2));
    hide Minor, Det3, Det4, Sum3, Sum4;
  }

  /** Expanding along the first row and then the first column, or the other way round. */
  lemma FirstRowAndColumn(c: V4, r: V4, s: real, m11: real, m21: real, m31: real,
                          m12: real, m22: real, m32: real, m13: real, m23: real, m33: real)
    requires c.x == r.x
    ensures Sum4(r, s, Sum3(c.y, c.z, c.w, m11, m21, m31), Sum3(c.y, c.z, c.w, m12, m22, m32),
                 Sum3(c.y, c.z, c.w, m13, m23, m33))
         == Sum4(c, s, Sum3(r.y, r.z, r.w, m11, m12, m13), Sum3(r.y, r.z, r.w, m21, m22, m23),
                 Sum3(r.y, r.z, r.w, m31, m32, m33))
  {
  }

  // ---- The inverse ----

  function Column(m: M4, i: nat): V4
    requires i < 4
  {
    if i == 0 then m.col0 else if i == 1 then m.col1 else if i == 2 then m.col2 else m.col3
  }

  function Determinant(m: M4): real {
    Det4(m.col0, m.col1, m.col2, m.col3)
  }

  /** Column j holds the cofactors of row j: the signed determinants of what is left without row j. */
  function Adjugate(m: M4): M4 {
    var (r0, r1, r2, r3) := (Row(m, 0), Row(m, 1), Row(m, 2), Row(m, 3));
    M4(Cofactors(r1, r2, r3), Negated(Cofactors(r0, r2, r3)), Cofactors(r0, r1, r3), Negated(Cofactors(r0, r1, r2)))
  }

  function Diagonal(d: real): M4 {
    M4(V4(d, 0.0, 0.0, 0.0), V4(0.0, d, 0.0, 0.0), V4(0.0, 0.0, d, 0.0), V4(0.0, 0.0, 0.0, d))
  }

  function Divided(m: M4, k: real): M4 {
    M4(Scale(m.col0, k), Scale(m.col1, k), Scale(m.col2, k), Scale(m.col3, k))
  }

  /** Two columns of the lower rows at a time, as the code shuffles them together. */
  function Factor(col1: V4, col2: V4, col3: V4, a: nat, b: nat): V4
    requires a < 4 && b < 4
  {
    var swp0a := Shuffle(col3, col2, a, a, a, a);
    var swp0b := Shuffle(col3, col2, b, b, b, b);
    var swp00 := Shuffle(col2, col1, b, b, b, b);
    var swp01 := Swizzle(swp0a, 0, 0, 0, 2);
    var swp02 := Swizzle(swp0b, 0, 0, 0, 2);
    var swp03 := Shuffle(col2, col1, a, a, a, a);
    var mul00 := Mul(swp00, swp01);
    Nmadd(swp02, swp03, mul00)
  }

  /** The minors of three rows, one for each column left out. */
  function Minors(m: M4, i: nat, j: nat, k: nat): V4
    requires i < 4 && j < 4 && k < 4
  {
    V4(Det3(m.col1, m.col2, m.col3, i, j, k), Det3(m.col0, m.col2, m.col3, i, j, k),
       Det3(m.col0, m.col1, m.col3, i, j, k), Det3(m.col0, m.col1, m.col2, i, j, k))
  }

  function Spread(m: M4, i: nat): V4
    requires i < 4
  {
    Swizzle(Shuffle(m.col1, m.col0, i, i, i, i), 0, 2, 2, 2)
  }

  lemma FactorIsMinors(m: M4, a: nat, b: nat)
    requires a < 4 && b < 4
    ensures Factor(m.col1, m.col2, m.col3, a, b)
         == V4(Minor(m.col2, m.col3, b, a), Minor(m.col2, m.col3, b, a), Minor(m.col1, m.col3, b, a), Minor(m.col1, m.col2, b, a))
  {
  }

  lemma SumOfFactors(m: M4, i: nat, j: nat, k: nat)
    requires i < 4 && j < 4 && k < 4
    ensures Madd(Spread(m, k), Factor(m.col1, m.col2, m.col3, j, i),
              Nmadd(Spread(m, j), Factor(m.col1, m.col2, m.col3, k, i),
                Mul(Spread(m, i), Factor(m.col1, m.col2, m.col3, k, j)))) == Minors(m, i, j, k)
  {
    FactorIsMinors(m, j, i);
    FactorIsMinors(m, k, i);
    FactorIsMinors(m, k, j);
    Det3ByRow(m.col1, m.col2, m.col3, i, j, k);
    Det3ByRow(m.col0, m.col2, m.col3, i, j, k);
    Det3ByRow(m.col0, m.col1, m.col3, i, j, k);
    Det3ByRow(m.col0, m.col1, m.col2, i, j, k);
    SpreadLanes(m, i);
    SpreadLanes(m, j);
    SpreadLanes(m, k);
    LanesCombine(Spread(m, i), Spread(m, j), Spread(m, k), Factor(m.col1, m.col2, m.col3, k, j),
                 Factor(m.col1, m.col2, m.col3, k, i), Factor(m.col1, m.col2, m.col3, j, i));
    hide Factor, Minor, Det3, Lane, Sum3, Madd, Nmadd, Mul, Spread;
  }

  lemma SpreadLanes(m: M4, i: nat)
    requires i < 4
    ensures Spread(m, i) == V4(Lane(m.col1, i), Lane(m.col0, i), Lane(m.col0, i), Lane(m.col0, i))
  {
  }

  lemma LanesCombine(x: V4, y: V4, z: V4, p: V4, q: V4, r: V4)
    ensures Madd(z, r, Nmadd(y, q, Mul(x, p)))
         == V4(Sum3(x.x, y.x, z.x, p.x, q.x, r.x), Sum3(x.y, y.y, z.y, p.y, q.y, r.y),
               Sum3(x.z, y.z, z.z, p.z, q.z, r.z), Sum3(x.w, y.w, z.w, p.w, q.w, r.w))
  {
  }

  lemma Det3OfTranspose(m: M4, i: nat, j: nat, k: nat, p: nat, q: nat, r: nat)
    requires i < 4 && j < 4 && k < 4 && p < 4 && q < 4 && r < 4
    ensures Det3(Row(m, i), Row(m, j), Row(m, k), p, q, r) == Det3(Column(m, p), Column(m, q), Column(m, r), i, j, k)
  {
    Crossed(m, i, p);
    Crossed(m, i, q);
    Crossed(m, i, r);
    Crossed(m, j, p);
    Crossed(m, j, q);
    Crossed(m, j, r);
    Crossed(m, k, p);
    Crossed(m, k, q);
    Crossed(m, k, r);
    hide Lane, Row, Column;
  }

  lemma Crossed(m: M4, i: nat, p: nat)
    requires i < 4 && p < 4
    ensures Lane(Row(m, i), p) == Lane(Column(m, p), i)
  {
  }

  lemma CofactorsOfRows(m: M4, i: nat, j: nat, k: nat)
    requires i < 4 && j < 4 && k < 4
    ensures Cofactors(Row(m, i), Row(m, j), Row(m, k)) == Mul(V4(1.0, -1.0, 1.0, -1.0), Minors(m, i, j, k))
  {
    Det3OfTranspose(m, i, j, k, 1, 2, 3);
    Det3OfTranspose(m, i, j, k, 0, 2, 3);
    Det3OfTranspose(m, i, j, k, 0, 1, 3);
    Det3OfTranspose(m, i, j, k, 0, 1, 2);
    hide Det3, Row;
  }

  /** One column of a product, lane by lane. */
  lemma ProductLane(a: M4, v: V4)
    ensures TimesColumn(a, v)
         == V4(Dot44(Row(a, 0), v), Dot44(Row(a, 1), v), Dot44(Row(a, 2), v), Dot44(Row(a, 3), v))
  {
    TimesColumnLanes(a, v);
    SumsAsDot(Row(a, 0), v);
    SumsAsDot(Row(a, 1), v);
    SumsAsDot(Row(a, 2), v);
    SumsAsDot(Row(a, 3), v);
    hide Dot44, TimesColumn, ColumnSum;
  }

  function ColumnSum(a: V4, v: V4): real {
    Times(v.w, a.w) + (Times(v.z, a.z) + (Times(v.y, a.y) + Times(v.x, a.x)))
  }

  lemma TimesColumnLanes(a: M4, v: V4)
    ensures TimesColumn(a, v)
         == V4(ColumnSum(V4(a.col0.x, a.col1.x, a.col2.x, a.col3.x), v), ColumnSum(V4(a.col0.y, a.col1.y, a.col2.y, a.col3.y), v),
               ColumnSum(V4(a.col0.z, a.col1.z, a.col2.z, a.col3.z), v), ColumnSum(V4(a.col0.w, a.col1.w, a.col2.w, a.col3.w), v))
  {
    var r0 := Mul(Swizzle(v, 0, 0, 0, 0), a.col0);
    assert r0 == V4(Times(v.x, a.col0.x), Times(v.x, a.col0.y), Times(v.x, a.col0.z), Times(v.x, a.col0.w));
    var r1 := MaddLanes(v, 1, a.col1, r0);
    var r2 := MaddLanes(v, 2, a.col2, r1);
    var r3 := MaddLanes(v, 3, a.col3, r2);
    assert TimesColumn(a, v) == r3;
    hide Times, TimesColumn;
  }

  lemma MaddLanes(v: V4, i: nat, a: V4, c: V4) returns (r: V4)
    requires i < 4
    ensures r == Madd(Swizzle(v, i, i, i, i), a, c)
    ensures var k := Lane(v, i); r == V4(Times(k, a.x) + c.x, Times(k, a.y) + c.y, Times(k, a.z) + c.z, Times(k, a.w) + c.w)
  {
    r := Madd(Swizzle(v, i, i, i, i), a, c);
  }

  lemma SumsAsDot(a: V4, v: V4)
    ensures ColumnSum(a, v) == Dot44(a, v)
  {
  }

  lemma DotScaled(a: V4, b: V4, k: real)
    ensures Dot44(a, Scale(b, k)) == Times(Dot44(a, b), k) && Dot44(Scale(a, k), b) == Times(Dot44(a, b), k)
  {
  }

  lemma DotNegated(a: V4, b: V4)
    ensures Dot44(a, Negated(b)) == -Dot44(a, b)
  {
  }

  /** A row times the cofactors of a row: the determinant on the diagonal, zero elsewhere. */
  lemma RowsTimesAdjugate(m: M4)
    ensures var d := Determinant(m);
            Product(m, Adjugate(m)) == Diagonal(d)
  {
    var (r0, r1, r2, r3) := (Row(m, 0), Row(m, 1), Row(m, 2), Row(m, 3));
    DeterminantOfTranspose(m);
    RowToFront(r0, r1, r2, r3);
    RepeatedRow(r1, r2, r3);
    RepeatedRow(r0, r2, r3);
    RepeatedRow(r0, r1, r3);
    RepeatedRow(r0, r1, r2);
    var adjugate := Adjugate(m);
    ProductLane(m, adjugate.col0);
    ProductLane(m, adjugate.col1);
    ProductLane(m, adjugate.col2);
    ProductLane(m, adjugate.col3);
    AdjugateDots(r0, r1, r2, r3);
    AdjugateDots(r1, r0, r2, r3);
    AdjugateDots(r2, r0, r1, r3);
    AdjugateDots(r3, r0, r1, r2);
    hide Cofactors, TimesColumn, Dot44, Row, Negated;
  }

  /** Dot products with a vector of cofactors, as determinants. */
  lemma AdjugateDots(a: V4, b: V4, c: V4, d: V4)
    ensures Dot44(a, Cofactors(b, c, d)) == Det4(a, b, c, d) && Dot44(a, Negated(Cofactors(b, c, d))) == -Det4(a, b, c, d)
    ensures Dot44(b, Cofactors(b, c, d)) == 0.0 == Dot44(b, Negated(Cofactors(b, c, d)))
    ensures Dot44(c, Cofactors(b, c, d)) == 0.0 == Dot44(c, Negated(Cofactors(b, c, d)))
    ensures Dot44(d, Cofactors(b, c, d)) == 0.0 == Dot44(d, Negated(Cofactors(b, c, d)))
  {
    var v := Cofactors(b, c, d);
    RepeatedRow(b, c, d);
    DotNegated(a, v);
    DotNegated(b, v);
    DotNegated(c, v);
    DotNegated(d, v);
    hide Cofactors, Dot44;
  }

  /** Read across, the adjugate holds the cofactors of the columns. */
  lemma RowsOfAdjugate(m: M4)
    ensures Row(Adjugate(m), 0) == Cofactors(m.col1, m.col2, m.col3)
    ensures Row(Adjugate(m), 1) == Negated(Cofactors(m.col0, m.col2, m.col3))
    ensures Row(Adjugate(m), 2) == Cofactors(m.col0, m.col1, m.col3)
    ensures Row(Adjugate(m), 3) == Negated(Cofactors(m.col0, m.col1, m.col2))
  {
    CofactorsOfRows(m, 1, 2, 3);
    CofactorsOfRows(m, 0, 2, 3);
    CofactorsOfRows(m, 0, 1, 3);
    CofactorsOfRows(m, 0, 1, 2);
    hide Det3;
  }

  lemma AdjugateTimesColumns(m: M4)
    ensures var d := Determinant(m);
            Product(Adjugate(m), m) == Diagonal(d)
  {
    var (c0, c1, c2, c3) := (m.col0, m.col1, m.col2, m.col3);
    RowToFront(c0, c1, c2, c3);
    RowsOfAdjugate(m);
    var adjugate := Adjugate(m);
    ProductLane(adjugate, c0);
    ProductLane(adjugate, c1);
    ProductLane(adjugate, c2);
    ProductLane(adjugate, c3);
    AdjugateDots(c0, c1, c2, c3);
    AdjugateDots(c1, c0, c2, c3);
    AdjugateDots(c2, c0, c1, c3);
    AdjugateDots(c3, c0, c1, c2);
    DotsCommute(adjugate, c0);
    DotsCommute(adjugate, c1);
    DotsCommute(adjugate, c2);
    DotsCommute(adjugate, c3);
    hide Cofactors, TimesColumn, Dot44, Row, Negated, Adjugate, Det4;
  }

  lemma DotsCommute(m: M4, v: V4)
    ensures Dot44(Row(m, 0), v) == Dot44(v, Row(m, 0)) && Dot44(Row(m, 1), v) == Dot44(v, Row(m, 1))
    ensures Dot44(Row(m, 2), v) == Dot44(v, Row(m, 2)) && Dot44(Row(m, 3), v) == Dot44(v, Row(m, 3))
  {
    hide Row;
  }

  lemma DividedColumn(a: M4, v: V4, k: real)
    ensures TimesColumn(a, Scale(v, k)) == Scale(TimesColumn(a, v), k)
    ensures TimesColumn(Divided(a, k), v) == Scale(TimesColumn(a, v), k)
  {
    ProductLane(a, v);
    ProductLane(a, Scale(v, k));
    ProductLane(Divided(a, k), v);
    RowOfDivided(a, k, 0);
    RowOfDivided(a, k, 1);
    RowOfDivided(a, k, 2);
    RowOfDivided(a, k, 3);
    DotScaled(Row(a, 0), v, k);
    DotScaled(Row(a, 1), v, k);
    DotScaled(Row(a, 2), v, k);
    DotScaled(Row(a, 3), v, k);
    ScaledLanes(Dot44(Row(a, 0), v), Dot44(Row(a, 1), v), Dot44(Row(a, 2), v), Dot44(Row(a, 3), v), k);
    hide TimesColumn, Dot44, Divided, Row, Scale, Times;
  }

  lemma ScaledLanes(x: real, y: real, z: real, w: real, k: real)
    ensures Scale(V4(x, y, z, w), k) == V4(Times(x, k), Times(y, k), Times(z, k), Times(w, k))
  {
  }

  lemma RowOfDivided(a: M4, k: real, i: nat)
    requires i < 4
    ensures Row(Divided(a, k), i) == Scale(Row(a, i), k)
  {
    LaneScaled(a.col0, k, i);
    LaneScaled(a.col1, k, i);
    LaneScaled(a.col2, k, i);
    LaneScaled(a.col3, k, i);
    ScaledLanes(Lane(a.col0, i), Lane(a.col1, i), Lane(a.col2, i), Lane(a.col3, i), k);
    hide Lane, Scale, Times;
  }

  lemma LaneScaled(v: V4, k: real, i: nat)
    requires i < 4
    ensures Lane(Scale(v, k), i) == Times(Lane(v, i), k)
  {
  }

  lemma DividedProduct(a: M4, b: M4, k: real)
    ensures Product(a, Divided(b, k)) == Divided(Product(a, b), k)
    ensures Product(Divided(a, k), b) == Divided(Product(a, b), k)
  {
    DividedColumn(a, b.col0, k);
    DividedColumn(a, b.col1, k);
    DividedColumn(a, b.col2, k);
    DividedColumn(a, b.col3, k);
    hide TimesColumn, Scale;
  }

  lemma DiagonalDivided(d: real)
    requires d != 0.0
    ensures Divided(Diagonal(d), 1.0 / d) == IDENTITY
  {
    var k := 1.0 / d;
    assert d * k == 1.0;
  }

  /** The adjugate over the determinant is the inverse, from both sides. */
  lemma AdjugateInverts(m: M4)
    requires Determinant(m) != 0.0
    ensures Product(m, Divided(Adjugate(m), 1.0 / Determinant(m))) == IDENTITY
    ensures Product(Divided(Adjugate(m), 1.0 / Determinant(m)), m) == IDENTITY
  {
    var d, adjugate := Determinant(m), Adjugate(m);
    RowsTimesAdjugate(m);
    AdjugateTimesColumns(m);
    DividedProduct(m, adjugate, 1.0 / d);
    DividedProduct(adjugate, m, 1.0 / d);
    DiagonalDivided(d);
    hide Product, Divided, Adjugate, Determinant;
  }

  /** The four signed vectors of minors are the columns of the adjugate. */
  lemma AdjugateFromMinors(m: M4, signA: V4, signB: V4)
    requires signA == V4(-1.0, 1.0, -1.0, 1.0) && signB == V4(1.0, -1.0, 1.0, -1.0)
    ensures Adjugate(m) == M4(Mul(signB, Minors(m, 1, 2, 3)), Mul(signA, Minors(m, 0, 2, 3)),
                              Mul(signB, Minors(m, 0, 1, 3)), Mul(signA, Minors(m, 0, 1, 2)))
  {
    CofactorsOfRows(m, 1, 2, 3);
    CofactorsOfRows(m, 0, 2, 3);
    CofactorsOfRows(m, 0, 1, 3);
    CofactorsOfRows(m, 0, 1, 2);
    hide Cofactors, Minors, Row;
    OppositeSigns(Minors(m, 0, 2, 3));
    OppositeSigns(Minors(m, 0, 1, 2));
  }

  lemma OppositeSigns(v: V4)
    ensures Negated(Mul(V4(1.0, -1.0, 1.0, -1.0), v)) == Mul(V4(-1.0, 1.0, -1.0, 1.0), v)
  {
  }

  lemma FirstRowShuffled(m: M4)
    ensures Shuffle(Shuffle(m.col0, m.col1, 0, 0, 0, 0), Shuffle(m.col2, m.col3, 0, 0, 0, 0), 0, 2, 0, 2) == Row(m, 0)
  {
  }

  lemma DeterminantFromRow(m: M4)
    ensures Dot44(m.col0, Row(Adjugate(m), 0)) == Determinant(m)
  {
    RowsOfAdjugate(m);
    hide Row, Adjugate, Cofactors, Dot44;
  }

  lemma DotOfDots(r: V4, b: M4, v: V4)
    ensures Dot44(V4(Dot44(r, b.col0), Dot44(r, b.col1), Dot44(r, b.col2), Dot44(r, b.col3)), v)
         == Dot44(r, V4(Dot44(Row(b, 0), v), Dot44(Row(b, 1), v), Dot44(Row(b, 2), v), Dot44(Row(b, 3), v)))
  {
    var (b0, b1, b2, b3) := (Row(b, 0), Row(b, 1), Row(b, 2), Row(b, 3));
    SumOfRows(r, b);
    DotAdd(Scale(b0, r.x), Scale(b1, r.y), Scale(b2, r.z), Scale(b3, r.w), v);
    DotScaled(b0, v, r.x);
    DotScaled(b1, v, r.y);
    DotScaled(b2, v, r.z);
    DotScaled(b3, v, r.w);
    DotByTimes(r, Dot44(b0, v), Dot44(b1, v), Dot44(b2, v), Dot44(b3, v));
    hide Dot44, Row, Scale, Times, Add;
  }

  lemma SumOfRows(r: V4, b: M4)
    ensures V4(Dot44(r, b.col0), Dot44(r, b.col1), Dot44(r, b.col2), Dot44(r, b.col3))
         == Add(Add(Scale(Row(b, 0), r.x), Scale(Row(b, 1), r.y)), Add(Scale(Row(b, 2), r.z), Scale(Row(b, 3), r.w)))
  {
    DotByTimes(r, b.col0.x, b.col0.y, b.col0.z, b.col0.w);
    DotByTimes(r, b.col1.x, b.col1.y, b.col1.z, b.col1.w);
    DotByTimes(r, b.col2.x, b.col2.y, b.col2.z, b.col2.w);
    DotByTimes(r, b.col3.x, b.col3.y, b.col3.z, b.col3.w);
    ScaleByTimes(Row(b, 0), r.x);
    ScaleByTimes(Row(b, 1), r.y);
    ScaleByTimes(Row(b, 2), r.z);
    ScaleByTimes(Row(b, 3), r.w);
    hide Dot44, Scale, Times;
  }

  lemma ScaleByTimes(v: V4, k: real)
    ensures Scale(v, k) == V4(Times(v.x, k), Times(v.y, k), Times(v.z, k), Times(v.w, k))
  {
  }

  lemma DotAdd(a: V4, b: V4, c: V4, d: V4, v: V4)
    ensures Dot44(Add(Add(a, b), Add(c, d)), v) == Dot44(a, v) + Dot44(b, v) + Dot44(c, v) + Dot44(d, v)
  {
  }

  lemma DotByTimes(r: V4, x: real, y: real, z: real, w: real)
    ensures Dot44(r, V4(x, y, z, w)) == Times(x, r.x) + Times(y, r.y) + Times(z, r.z) + Times(w, r.w)
  {
  }

  lemma RowOfProduct(a: M4, b: M4, i: nat)
    requires i < 4
    ensures Row(Product(a, b), i)
         == V4(Dot44(Row(a, i), b.col0), Dot44(Row(a, i), b.col1), Dot44(Row(a, i), b.col2), Dot44(Row(a, i), b.col3))
  {
    ProductLane(a, b.col0);
    ProductLane(a, b.col1);
    ProductLane(a, b.col2);
    ProductLane(a, b.col3);
    LaneOfDots(a, b.col0, i);
    LaneOfDots(a, b.col1, i);
    LaneOfDots(a, b.col2, i);
    LaneOfDots(a, b.col3, i);
    hide TimesColumn, Dot44, Lane;
  }

  lemma LaneOfDots(a: M4, v: V4, i: nat)
    requires i < 4
    ensures Lane(V4(Dot44(Row(a, 0), v), Dot44(Row(a, 1), v), Dot44(Row(a, 2), v), Dot44(Row(a, 3), v)), i) == Dot44(Row(a, i), v)
  {
    hide Dot44, Row;
  }

  /** The product of two matrices does what one after the other does. */
  lemma ProductActs(a: M4, b: M4, v: V4)
    ensures TimesColumn(Product(a, b), v) == TimesColumn(a, TimesColumn(b, v))
  {
    ProductLane(Product(a, b), v);
    ProductLane(b, v);
    ProductLane(a, TimesColumn(b, v));
    RowOfProduct(a, b, 0);
    RowOfProduct(a, b, 1);
    RowOfProduct(a, b, 2);
    RowOfProduct(a, b, 3);
    hide TimesColumn, Dot44, Row, Product;
    DotOfDots(Row(a, 0), b, v);
    DotOfDots(Row(a, 1), b, v);
    DotOfDots(Row(a, 2), b, v);
    DotOfDots(Row(a, 3), b, v);
  }

  lemma ProductAssociates(a: M4, b: M4, c: M4)
    ensures Product(Product(a, b), c) == Product(a, Product(b, c))
  {
    ProductActs(a, b, c.col0);
    ProductActs(a, b, c.col1);
    ProductActs(a, b, c.col2);
    ProductActs(a, b, c.col3);
    hide TimesColumn;
  }

  lemma IdentityColumns(v: V4)
    ensures TimesColumn(IDENTITY, v) == v
  {
    ProductLane(IDENTITY, v);
    hide TimesColumn;
  }

  lemma TimesIdentity(m: M4)
    ensures Product(IDENTITY, m) == m && Product(m, IDENTITY) == m
  {
    IdentityColumns(m.col0);
    IdentityColumns(m.col1);
    IdentityColumns(m.col2);
    IdentityColumns(m.col3);
    UnitColumns(m);
    hide TimesColumn;
  }

  lemma UnitColumns(m: M4)
    ensures TimesColumn(m, V4(1.0, 0.0, 0.0, 0.0)) == m.col0 && TimesColumn(m, V4(0.0, 1.0, 0.0, 0.0)) == m.col1
    ensures TimesColumn(m, V4(0.0, 0.0, 1.0, 0.0)) == m.col2 && TimesColumn(m, V4(0.0, 0.0, 0.0, 1.0)) == m.col3
  {
  }

  /** There is only one matrix that inversion can leave: a left inverse is every right inverse. */
  lemma InverseIsUnique(m: M4, left: M4, right: M4)
    requires Product(left, m) == IDENTITY && Product(m, right) == IDENTITY
    ensures left == right
  {
    ProductAssociates(left, m, right);
    TimesIdentity(left);
    TimesIdentity(right);
    hide Product;
  }

  /** Transforming back recovers the vector. */
  lemma InverseUndoes(m: M4, inverse: M4, v: V4)
    requires Product(inverse, m) == IDENTITY
    ensures TimesColumn(inverse, TimesColumn(m, v)) == v
  {
    ProductActs(inverse, m, v);
    IdentityColumns(v);
    hide TimesColumn, Product;
  }

  /** A matrix that is inverted in place. */
  class Float4x4 {
    var col0: V4
    var col1: V4
    var col2: V4
    var col3: V4

    function Value(): M4
      reads this
    {
      M4(col0, col1, col2, col3)
    }

    constructor (m: M4)
      ensures Value() == m
    {
      col0, col1, col2, col3 := m.col0, m.col1, m.col2, m.col3;
    }

    /** Invert, with an exact reciprocal. */
    method Invert()
      requires Determinant(Value()) != 0.0
      modifies this
      ensures Product(old(Value()), Value()) == IDENTITY && Product(Value(), old(Value())) == IDENTITY
    {
      hide Factor, Swizzle, Shuffle, Mul, Madd, Nmadd, Minors, Dot44, Determinant, Product, Adjugate, Scale, Row;
      ghost var m := M4(col0, col1, col2, col3);
      var fac0 := Factor(col1, col2, col3, 3, 2);
      var fac1 := Factor(col1, col2, col3, 3, 1);
      var fac2 := Factor(col1, col2, col3, 2, 1);
      var fac3 := Factor(col1, col2, col3, 3, 0);
      var fac4 := Factor(col1, col2, col3, 2, 0);
      var fac5 := Factor(col1, col2, col3, 1, 0);

      var signA := V4(-1.0, 1.0, -1.0, 1.0);
      var signB := V4(1.0, -1.0, 1.0, -1.0);

      var vec0 := Swizzle(Shuffle(col1, col0, 0, 0, 0, 0), 0, 2, 2, 2);
      var vec1 := Swizzle(Shuffle(col1, col0, 1, 1, 1, 1), 0, 2, 2, 2);
      var vec2 := Swizzle(Shuffle(col1, col0, 2, 2, 2, 2), 0, 2, 2, 2);
      var vec3 := Swizzle(Shuffle(col1, col0, 3, 3, 3, 3), 0, 2, 2, 2);

      var sub0 := Nmadd(vec2, fac1, Mul(vec1, fac0));
      var sub1 := Nmadd(vec2, fac3, Mul(vec0, fac0));
      var sub2 := Nmadd(vec1, fac3, Mul(vec0, fac1));
      var sub3 := Nmadd(vec1, fac4, Mul(vec0, fac2));

      var add0 := Madd(vec3, fac2, sub0);
      var add1 := Madd(vec3, fac4, sub1);
      var add2 := Madd(vec3, fac5, sub2);
      var add3 := Madd(vec2, fac5, sub3);
      SumOfFactors(m, 1, 2, 3);
      SumOfFactors(m, 0, 2, 3);
      SumOfFactors(m, 0, 1, 3);
      SumOfFactors(m, 0, 1, 2);

      var inv0 := Mul(signB, add0);
      var inv1 := Mul(signA, add1);
      var inv2 := Mul(signB, add2);
      var inv3 := Mul(signA, add3);
      AdjugateFromMinors(m, signA, signB);

      var row0 := Shuffle(inv0, inv1, 0, 0, 0, 0);
      var row1 := Shuffle(inv2, inv3, 0, 0, 0, 0);
      var row2 := Shuffle(row0, row1, 0, 2, 0, 2);
      FirstRowShuffled(Adjugate(m));
      DeterminantFromRow(m);

      var det0 := Dot44(col0, row2);
      var rcp0 := 1.0 / det0;
      AdjugateInverts(m);
      col0 := Scale(inv0, rcp0);
      col1 := Scale(inv1, rcp0);
      col2 := Scale(inv2, rcp0);
      col3 := Scale(inv3, rcp0);
    }
  }
}
