/** The atlas of mip levels that keep the brightest texel of every block. */
module MaxMip {
  import opened Powers
  import opened Wrappers

  type byte = x: nat | x < 256

  /** A three-dimensional array of texels: its shape and what it holds. */
  datatype Image = Image(rows: nat, cols: nat, channels: nat, at: (nat, nat, nat) -> byte)

  function Max(a: byte, b: byte): byte {
    if a < b then b else a
  }

  /** One level down; None where the pairs of texels do not come out even and the reshape fails. */
  function GenerateMaxMipLevel(image: Image): Option<Image> {
    var at := image.at;
    if image.rows == 1 then
      if image.cols % 2 != 0 then None
      else Some(Image(1, image.cols / 2, image.channels, (r: nat, c: nat, k: nat) => Max(at(r, 2 * c, k), at(r, 2 * c + 1, k))))
    else if image.cols == 1 then
      if image.rows % 2 != 0 then None
      else Some(Image(image.rows / 2, 1, image.channels, (r: nat, c: nat, k: nat) => Max(at(2 * r, c, k), at(2 * r + 1, c, k))))
    else if image.rows % 2 != 0 || image.cols % 2 != 0 then None
    else Some(Image(image.rows / 2, image.cols / 2, image.channels, (r: nat, c: nat, k: nat) =>
      Max(Max(at(2 * r, 2 * c, k), at(2 * r, 2 * c + 1, k)), Max(at(2 * r + 1, 2 * c, k), at(2 * r + 1, 2 * c + 1, k)))))
  }

  /** v is the greatest texel of the block of h rows and w columns at r0, c0. */
  ghost predicate IsBlockMax(image: Image, r0: nat, h: nat, c0: nat, w: nat, k: nat, v: byte) {
    && (forall r: nat, c: nat | r0 <= r < r0 + h && c0 <= c < c0 + w :: image.at(r, c, k) <= v)
    && (exists r: nat, c: nat :: r0 <= r < r0 + h && c0 <= c < c0 + w && image.at(r, c, k) == v)
  }

  /** Texel r, c of img is the greatest of its block of the image. */
  ghost predicate TexelHolds(image: Image, img: Image, h: nat, w: nat, r: nat, c: nat, k: nat) {
    IsBlockMax(image, Times(r, h), h, Times(c, w), w, k, img.at(r, c, k))
  }

  /** Each texel of img is the greatest of its block of h rows and w columns of the image. */
  ghost predicate HoldsMax(image: Image, img: Image, h: nat, w: nat) {
    && image.rows == Times(img.rows, h) && image.cols == Times(img.cols, w) && img.channels == image.channels
    && h > 0 && w > 0
    && forall r: nat, c: nat, k: nat | r < img.rows && c < img.cols && k < img.channels ::
         TexelHolds(image, img, h, w, r, c, k)
  }

  /** Two blocks on top of each other, or side by side. */
  lemma JoinRows(image: Image, r0: nat, h: nat, c0: nat, w: nat, k: nat, u: byte, v: byte)
    requires IsBlockMax(image, r0, h, c0, w, k, u) && IsBlockMax(image, r0 + h, h, c0, w, k, v)
    ensures IsBlockMax(image, r0, 2 * h, c0, w, k, Max(u, v))
  {
  }

  lemma JoinCols(image: Image, r0: nat, h: nat, c0: nat, w: nat, k: nat, u: byte, v: byte)
    requires IsBlockMax(image, r0, h, c0, w, k, u) && IsBlockMax(image, r0, h, c0 + w, w, k, v)
    ensures IsBlockMax(image, r0, h, c0, 2 * w, k, Max(u, v))
  {
  }

  lemma TimesTwice(a: nat, h: nat)
    ensures Times(2 * a, h) == Times(a, 2 * h) && Times(2 * a + 1, h) == Times(a, 2 * h) + h
  {
  }

  lemma Halves(n: nat, h: nat)
    requires n % 2 == 0
    ensures Times(n, h) == Times(n / 2, 2 * h)
  {
    TimesTwice(n / 2, h);
  }

  function Doubled(n: nat, h: nat): nat {
    if n == 1 then h else 2 * h
  }

  lemma RowOfTwo(image: Image, img: Image, h: nat, w: nat, r: nat, c: nat, k: nat)
    requires TexelHolds(image, img, h, w, r, 2 * c, k) && TexelHolds(image, img, h, w, r, 2 * c + 1, k)
    ensures IsBlockMax(image, Times(r, h), h, Times(c, 2 * w), 2 * w, k, Max(img.at(r, 2 * c, k), img.at(r, 2 * c + 1, k)))
  {
    hide Times, IsBlockMax, Max;
    TimesTwice(c, w);
    JoinCols(image, Times(r, h), h, Times(c, 2 * w), w, k, img.at(r, 2 * c, k), img.at(r, 2 * c + 1, k));
  }

  lemma ColumnOfTwo(image: Image, img: Image, h: nat, w: nat, r: nat, c: nat, k: nat)
    requires TexelHolds(image, img, h, w, 2 * r, c, k) && TexelHolds(image, img, h, w, 2 * r + 1, c, k)
    ensures IsBlockMax(image, Times(r, 2 * h), 2 * h, Times(c, w), w, k, Max(img.at(2 * r, c, k), img.at(2 * r + 1, c, k)))
  {
    hide Times, IsBlockMax, Max;
    TimesTwice(r, h);
    JoinRows(image, Times(r, 2 * h), h, Times(c, w), w, k, img.at(2 * r, c, k), img.at(2 * r + 1, c, k));
  }

  lemma SquareOfFour(image: Image, img: Image, h: nat, w: nat, r: nat, c: nat, k: nat)
    requires TexelHolds(image, img, h, w, 2 * r, 2 * c, k) && TexelHolds(image, img, h, w, 2 * r, 2 * c + 1, k)
    requires TexelHolds(image, img, h, w, 2 * r + 1, 2 * c, k) && TexelHolds(image, img, h, w, 2 * r + 1, 2 * c + 1, k)
    ensures IsBlockMax(image, Times(r, 2 * h), 2 * h, Times(c, 2 * w), 2 * w, k,
              Max(Max(img.at(2 * r, 2 * c, k), img.at(2 * r, 2 * c + 1, k)), Max(img.at(2 * r + 1, 2 * c, k), img.at(2 * r + 1, 2 * c + 1, k))))
  {
    hide Times, IsBlockMax, Max, TexelHolds;
    RowOfTwo(image, img, h, w, 2 * r, c, k);
    RowOfTwo(image, img, h, w, 2 * r + 1, c, k);
    TimesTwice(r, h);
    JoinRows(image, Times(r, 2 * h), h, Times(c, 2 * w), 2 * w, k, Max(img.at(2 * r, 2 * c, k), img.at(2 * r, 2 * c + 1, k)),
             Max(img.at(2 * r + 1, 2 * c, k), img.at(2 * r + 1, 2 * c + 1, k)));
  }

  /** Going one level down keeps the blocks' greatest texels, in blocks twice as large. */
  lemma LevelKeepsMax(image: Image, img: Image, h: nat, w: nat)
    requires HoldsMax(image, img, h, w) && img.rows > 0 && img.cols > 0
    requires GenerateMaxMipLevel(img).Some?
    ensures HoldsMax(image, GenerateMaxMipLevel(img).value, Doubled(img.rows, h), Doubled(img.cols, w))
  {
    hide Times, IsBlockMax, Max;
    var next := GenerateMaxMipLevel(img).value;
    var (h2, w2) := (Doubled(img.rows, h), Doubled(img.cols, w));
    LevelShape(image, img, h, w);
    forall r: nat, c: nat, k: nat | r < next.rows && c < next.cols && k < next.channels
      ensures TexelHolds(image, next, h2, w2, r, c, k)
    {
      if img.rows == 1 {
        RowOfTwo(image, img, h, w, r, c, k);
      } else if img.cols == 1 {
        ColumnOfTwo(image, img, h, w, r, c, k);
      } else {
        SquareOfFour(image, img, h, w, r, c, k);
      }
    }
  }

  lemma LevelShape(image: Image, img: Image, h: nat, w: nat)
    requires image.rows == Times(img.rows, h) && image.cols == Times(img.cols, w) && img.rows > 0 && img.cols > 0
    requires GenerateMaxMipLevel(img).Some?
    ensures var next := GenerateMaxMipLevel(img).value;
            && image.rows == Times(next.rows, Doubled(img.rows, h)) && image.cols == Times(next.cols, Doubled(img.cols, w))
            && next.channels == img.channels
            && next.rows == (if img.rows == 1 then 1 else img.rows / 2)
            && next.cols == (if img.cols == 1 then 1 else img.cols / 2)
  {
    hide Times, Max;
    if img.rows > 1 {
      Halves(img.rows, h);
    }
    if img.cols > 1 {
      Halves(img.cols, w);
    }
  }

  ghost predicate IsPowerOfTwo(n: nat) {
    exists a: nat :: n == Pow2(a)
  }

  /** What is left of a power of two after halvings is one or even. */
  lemma {:induction false} OddRest(n: nat, p: nat, a: nat)
    requires n * Pow2(p) == Pow2(a) && n % 2 == 1
    ensures n == 1
    decreases p + a
  {
    if p > 0 {
      EvenPart(n, Pow2(p - 1));
      if a > 0 {
        OddRest(n, p - 1, a - 1);
      }
    }
  }

  lemma EvenPart(n: nat, q: nat)
    ensures n * (2 * q) == 2 * (n * q)
  {
  }

  // ---- Sizes and places of the levels ----

  function Half(n: nat): nat {
    if n == 1 then 1 else n / 2
  }

  /** A side of the image on level j. */
  function SizeAt(n: nat, j: nat): nat {
    if j == 0 then n else Half(SizeAt(n, j - 1))
  }

  /** How many texels of that side one texel of level j stands for. */
  function BlockAt(n: nat, j: nat): nat {
    if j == 0 then 1 else Doubled(SizeAt(n, j - 1), BlockAt(n, j - 1))
  }

  /** The first column of level j: the widths of the levels before it. */
  function StartAt(cols: nat, j: nat): nat {
    if j == 0 then 0 else StartAt(cols, j - 1) + SizeAt(cols, j - 1)
  }

  lemma {:induction false} SizesOfPower(a: nat, j: nat)
    ensures SizeAt(Pow2(a), j) == (if j <= a then Pow2(a - j) else 1)
    ensures BlockAt(Pow2(a), j) == (if j <= a then Pow2(j) else Pow2(a))
  {
    if j > 0 {
      SizesOfPower(a, j - 1);
      PowersAboveOne(a);
      if j <= a {
        PowersAboveOne(a - j + 1);
      }
    }
  }

  lemma PowersAboveOne(a: nat)
    ensures Pow2(a) == 1 <==> a == 0
  {
  }

  /** The levels lie side by side: level j starts at 2 cols - 2 cols / 2^j, and the last one ends where the
      atlas does. */
  lemma {:induction false} StartsOfPower(b: nat, j: nat)
    requires j <= b + 1
    ensures StartAt(Pow2(b), j) == (if j <= b then 2 * Pow2(b) - 2 * Pow2(b - j) else 2 * Pow2(b) - 1)
    ensures StartAt(Pow2(b), j) < 2 * Pow2(b) - 1 <==> j <= b
  {
    if j > 0 {
      StartsOfPower(b, j - 1);
      SizesOfPower(b, j - 1);
    }
  }

  lemma {:induction false} StartsGrow(cols: nat, i: nat, j: nat)
    requires i <= j
    ensures StartAt(cols, i) <= StartAt(cols, j)
    ensures i < j ==> StartAt(cols, i) + SizeAt(cols, i) <= StartAt(cols, j)
    decreases j
  {
    if i < j {
      StartsGrow(cols, i, j - 1);
    }
  }

  // ---- The atlas ----

  /** Level j of the image stands in the atlas, with nothing below it. */
  ghost predicate Stored(image: Image, result: array3<byte>, j: nat)
    requires result.Length2 == image.channels
    reads result
  {
    var start, rows, cols := StartAt(image.cols, j), SizeAt(image.rows, j), SizeAt(image.cols, j);
    && start + cols <= result.Length1 && rows <= result.Length0
    && forall r: nat, x: nat, k: nat | r < result.Length0 && start <= x < start + cols && k < image.channels ::
         CellHolds(image, j, r, x - start, k, result[r, x, k])
  }

  /** What the cell for column c of level j must be. */
  ghost predicate CellHolds(image: Image, j: nat, r: nat, c: nat, k: nat, v: byte) {
    if r < SizeAt(image.rows, j) then
      IsBlockMax(image, Times(r, BlockAt(image.rows, j)), BlockAt(image.rows, j),
                 Times(c, BlockAt(image.cols, j)), BlockAt(image.cols, j), k, v)
    else v == 0
  }

  /** Assigns a level to a slice of the atlas. */
  method StoreLevel(result: array3<byte>, img: Image, col: nat, room: nat)
    requires img.rows <= result.Length0 && (room > 0 ==> col + room <= result.Length1) && img.channels == result.Length2
    modifies result
    ensures forall r: nat, x: nat, k: nat | r < result.Length0 && x < result.Length1 && k < result.Length2 ::
              result[r, x, k] == if r < img.rows && col <= x < col + room then img.at(r, x - col, k) else old(result[r, x, k])
  {
    forall r: nat, x: nat, k: nat | r < img.rows && col <= x < col + room && k < result.Length2 {
      result[r, x, k] := img.at(r, x - col, k);
    }
  }

  function Clipped(x: nat, width: nat): nat {
    if x < width then x else width
  }

  /** The last side above one can be halved, or is no power of two. */
  lemma StuckIsNoPower(n: nat, rest: nat, p: nat)
    requires n == Times(rest, Pow2(p)) && rest % 2 == 1 && rest > 1
    ensures !IsPowerOfTwo(n)
  {
    forall a: nat ensures n != Pow2(a) {
      if n == Pow2(a) {
        OddRest(rest, p, a);
      }
    }
  }

  /** A cell of the level that img is: its texel, or nothing below it. */
  lemma CellOfLevel(image: Image, img: Image, j: nat, r: nat, c: nat, k: nat)
    requires HoldsMax(image, img, BlockAt(image.rows, j), BlockAt(image.cols, j))
    requires img.rows == SizeAt(image.rows, j) && c < img.cols && k < image.channels
    ensures CellHolds(image, j, r, c, k, if r < img.rows then img.at(r, c, k) else 0)
  {
    hide IsBlockMax, Times, BlockAt, SizeAt;
    if r < img.rows {
      assert TexelHolds(image, img, BlockAt(image.rows, j), BlockAt(image.cols, j), r, c, k);
    }
  }

  lemma WholeImage(image: Image)
    ensures HoldsMax(image, image, BlockAt(image.rows, 0), BlockAt(image.cols, 0))
    ensures Times(image.rows, Pow2(0)) == image.rows && Times(image.cols, Pow2(0)) == image.cols
  {
  }

  lemma ReshapeFails(img: Image)
    requires GenerateMaxMipLevel(img).None? && (img.rows > 1 || img.cols > 1) && img.rows > 0 && img.cols > 0
    ensures (img.rows % 2 == 1 && img.rows > 1) || (img.cols % 2 == 1 && img.cols > 1)
  {
  }

  lemma ReshapeHalves(img: Image)
    requires GenerateMaxMipLevel(img).Some?
    ensures (img.rows == 1 || img.rows % 2 == 0) && (img.cols == 1 || img.cols % 2 == 0)
  {
  }

  function Count(n: nat, p: nat): nat {
    if n == 1 then p else p + 1
  }

  lemma HalvesCount(n: nat, rest: nat, p: nat)
    requires n == Times(rest, Pow2(p)) && (rest == 1 || rest % 2 == 0)
    ensures n == Times(Half(rest), Pow2(Count(rest, p)))
  {
    if rest != 1 {
      Halves(rest, Pow2(p));
    }
  }

  lemma NextBlocks(n: nat, j: nat)
    ensures BlockAt(n, j + 1) == Doubled(SizeAt(n, j), BlockAt(n, j)) && SizeAt(n, j + 1) == Half(SizeAt(n, j))
    ensures StartAt(n, j + 1) == StartAt(n, j) + SizeAt(n, j)
  {
  }

  lemma OneIsEnd(n: nat, p: nat)
    requires n == Times(1, Pow2(p))
    ensures IsPowerOfTwo(n)
  {
  }

  /** The levels before j stand in the atlas as far as they fit. */
  ghost predicate StoredBefore(image: Image, result: array3<byte>, j: nat)
    requires result.Length2 == image.channels
    reads result
  {
    forall i: nat | i < j && StartAt(image.cols, i) < result.Length1 :: Stored(image, result, i)
  }

  ghost predicate BlankFrom(result: array3<byte>, col: nat)
    reads result
  {
    forall r: nat, x: nat, k: nat | r < result.Length0 && col <= x < result.Length1 && k < result.Length2 :: result[r, x, k] == 0
  }

  /** One slice assignment. A level one column wide still goes into an empty slice, which stores nothing;
      any other difference in width is an error. */
  method AppendLevel(image: Image, result: array3<byte>, img: Image, ghost j: nat, col: nat) returns (ok: bool)
    requires result.Length0 == image.rows && result.Length2 == image.channels
    requires HoldsMax(image, img, BlockAt(image.rows, j), BlockAt(image.cols, j))
    requires img.rows == SizeAt(image.rows, j) <= image.rows && img.cols == SizeAt(image.cols, j) > 0 && col == StartAt(image.cols, j)
    requires img.cols == 1 || col + img.cols <= result.Length1
    requires StoredBefore(image, result, j) && BlankFrom(result, col)
    modifies result
    ensures ok && StoredBefore(image, result, j + 1) && BlankFrom(result, col + img.cols)
  {
    hide Times, CellHolds, BlockAt, SizeAt, StartAt;
    assert img.channels == image.channels;
    hide HoldsMax;
    var width := result.Length1;
    var room := Clipped(col + img.cols, width) - Clipped(col, width);
    if room != img.cols && img.cols != 1 {
      return false;
    }
    label Before:
    StoreLevel(result, img, col, room);
    forall i: nat | i < j + 1 && StartAt(image.cols, i) < width ensures Stored(image, result, i) {
      StartsGrow(image.cols, i, j);
      if i < j {
        assert old@Before(Stored(image, result, i));
      } else {
        forall r: nat, x: nat, k: nat | r < result.Length0 && col <= x < col + img.cols && k < image.channels
          ensures CellHolds(image, j, r, x - col, k, result[r, x, k])
        {
          CellOfLevel(image, img, j, r, x - col, k);
        }
      }
    }
    return true;
  }

  /** generate_max_mip: fails when a level does not reshape, which is when a side is no power of two. */
  method GenerateMaxMip(image: Image) returns (ok: bool, result: array3<byte>, ghost last: nat)
    requires image.rows > 0 && image.cols > 0
    ensures ok <==> IsPowerOfTwo(image.rows) && IsPowerOfTwo(image.cols)
    ensures fresh(result) && result.Length0 == image.rows && result.Length1 == 2 * image.cols - 1 && result.Length2 == image.channels
    ensures ok ==> SizeAt(image.rows, last) == 1 == SizeAt(image.cols, last)
    ensures ok ==> forall i: nat | i < last :: SizeAt(image.rows, i) > 1 || SizeAt(image.cols, i) > 1
    ensures ok ==> forall j: nat | StartAt(image.cols, j) < 2 * image.cols - 1 :: Stored(image, result, j)
  {
    hide Times, HoldsMax, GenerateMaxMipLevel, IsPowerOfTwo, BlockAt, SizeAt, StartAt, Pow2, Count, Stored, StoredBefore, BlankFrom;
    var img := image;
    var rows, cols := image.rows, image.cols;
    result := new byte[rows, 2 * cols - 1, image.channels]((i, j, k) => 0);
    last := 0;
    ghost var p, q := 0, 0;
    FirstSizes(image.rows, image.cols);
    WholeImage(image);
    assert StoredBefore(image, result, 0) && BlankFrom(result, 0) by { BlankAtFirst(image, result); }
    ok := AppendLevel(image, result, img, 0, 0);
    var col := cols;
    while rows > 1 || cols > 1
      invariant rows == SizeAt(image.rows, last) == img.rows && 0 < rows <= image.rows
      invariant cols == SizeAt(image.cols, last) == img.cols && 0 < cols <= image.cols
      invariant HoldsMax(image, img, BlockAt(image.rows, last), BlockAt(image.cols, last))
      invariant image.rows == Times(rows, Pow2(p)) && image.cols == Times(cols, Pow2(q))
      invariant col == StartAt(image.cols, last + 1)
      invariant if cols > 1 then col == 2 * image.cols - cols else col >= 2 * image.cols - 1
      invariant forall i: nat | i < last :: SizeAt(image.rows, i) > 1 || SizeAt(image.cols, i) > 1
      invariant StoredBefore(image, result, last + 1) && BlankFrom(result, col)
      decreases rows + cols
    {
      var level := GenerateMaxMipLevel(img);
      if level.None? {
        ReshapeFails(img);
        if rows % 2 == 1 && rows > 1 {
          StuckIsNoPower(image.rows, rows, p);
        } else {
          StuckIsNoPower(image.cols, cols, q);
        }
        ok := false;
        return;
      }
      Descend(image, img, last, p, q);
      p, q := Count(rows, p), Count(cols, q);
      img := level.value;
      rows := img.rows;
      cols := img.cols;
      last := last + 1;
      NextBlocks(image.cols, last);
      ok := AppendLevel(image, result, img, last, col);
      if !ok {
        return;
      }
      col := col + cols;
    }
    OneIsEnd(image.rows, p);
    OneIsEnd(image.cols, q);
    AllStored(image, result, last);
    ok := true;
  }

  lemma AllStored(image: Image, result: array3<byte>, last: nat)
    requires result.Length1 == 2 * image.cols - 1 && result.Length2 == image.channels
    requires StoredBefore(image, result, last + 1) && StartAt(image.cols, last + 1) >= 2 * image.cols - 1
    ensures forall j: nat | StartAt(image.cols, j) < 2 * image.cols - 1 :: Stored(image, result, j)
  {
    hide Stored, StartAt;
    forall j: nat | StartAt(image.cols, j) < 2 * image.cols - 1 ensures Stored(image, result, j) {
      if j > last {
        StartsGrow(image.cols, last + 1, j);
      }
    }
  }

  lemma BlankAtFirst(image: Image, result: array3<byte>)
    requires result.Length2 == image.channels
    requires forall r: nat, x: nat, k: nat | r < result.Length0 && x < result.Length1 && k < result.Length2 :: result[r, x, k] == 0
    ensures StoredBefore(image, result, 0) && BlankFrom(result, 0)
  {
  }

  lemma FirstSizes(rows: nat, cols: nat)
    ensures SizeAt(rows, 0) == rows && SizeAt(cols, 0) == cols && StartAt(cols, 0) == 0 && StartAt(cols, 1) == cols
  {
  }

  /** Everything the loop keeps about the level itself. */
  lemma Descend(image: Image, img: Image, j: nat, p: nat, q: nat)
    requires GenerateMaxMipLevel(img).Some? && HoldsMax(image, img, BlockAt(image.rows, j), BlockAt(image.cols, j))
    requires img.rows == SizeAt(image.rows, j) > 0 && img.cols == SizeAt(image.cols, j) > 0
    requires image.rows == Times(img.rows, Pow2(p)) && image.cols == Times(img.cols, Pow2(q))
    ensures var next := GenerateMaxMipLevel(img).value;
            && HoldsMax(image, next, BlockAt(image.rows, j + 1), BlockAt(image.cols, j + 1))
            && next.rows == SizeAt(image.rows, j + 1) == Half(img.rows) && next.cols == SizeAt(image.cols, j + 1) == Half(img.cols)
            && next.channels == img.channels
            && image.rows == Times(next.rows, Pow2(Count(img.rows, p))) && image.cols == Times(next.cols, Pow2(Count(img.cols, q)))
    ensures img.rows == 1 || img.rows % 2 == 0
    ensures img.cols == 1 || img.cols % 2 == 0
  {
    LevelKeepsMax(image, img, BlockAt(image.rows, j), BlockAt(image.cols, j));
    LevelShape(image, img, BlockAt(image.rows, j), BlockAt(image.cols, j));
    NextBlocks(image.rows, j);
    NextBlocks(image.cols, j);
    ReshapeHalves(img);
    HalvesCount(image.rows, img.rows, p);
    HalvesCount(image.cols, img.cols, q);
    hide GenerateMaxMipLevel, HoldsMax, BlockAt, SizeAt, Times, Pow2, Count;
  }

  // ---- The layout for sides 2^a and 2^b ----

  function Larger(a: nat, b: nat): nat {
    if a < b then b else a
  }

  /** There are log2 of the larger side, plus one, levels. */
  lemma LevelCount(a: nat, b: nat, last: nat)
    requires SizeAt(Pow2(a), last) == 1 == SizeAt(Pow2(b), last)
    requires forall i: nat | i < last :: SizeAt(Pow2(a), i) > 1 || SizeAt(Pow2(b), i) > 1
    ensures last == Larger(a, b)
  {
    var top := Larger(a, b);
    SizesOfPower(a, last);
    SizesOfPower(b, last);
    SizesOfPower(a, top);
    SizesOfPower(b, top);
  }

  /** All levels find room exactly when the image is not higher than wide. */
  lemma AllLevelsFitExactly(a: nat, b: nat)
    ensures (forall j: nat | j <= Larger(a, b) :: StartAt(Pow2(b), j) < 2 * Pow2(b) - 1) <==> a <= b
  {
    hide StartAt;
    if a <= b {
      forall j: nat | j <= Larger(a, b) ensures StartAt(Pow2(b), j) < 2 * Pow2(b) - 1 {
        StartsOfPower(b, j);
      }
    } else {
      StartsOfPower(b, b + 1);
      assert b + 1 <= Larger(a, b);
    }
  }

  /** Column x belongs to level j. */
  predicate ColumnOf(cols: nat, j: nat, x: nat) {
    StartAt(cols, j) <= x < StartAt(cols, j) + SizeAt(cols, j)
  }

  /** The levels fill the atlas without gap or overlap: every column belongs to exactly one. */
  lemma {:induction false} ColumnsAreFilled(cols: nat, n: nat, x: nat) returns (j: nat)
    requires x < StartAt(cols, n)
    ensures j < n && ColumnOf(cols, j, x)
    ensures forall i: nat | ColumnOf(cols, i, x) :: i == j
    decreases n
  {
    if x < StartAt(cols, n - 1) {
      j := ColumnsAreFilled(cols, n - 1, x);
    } else {
      j := n - 1;
      forall i: nat | ColumnOf(cols, i, x) ensures i == j {
        if i < j {
          StartsGrow(cols, i, j);
        } else {
          StartsGrow(cols, j, i);
        }
      }
    }
  }
}

