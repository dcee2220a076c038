/** A texture's storage laid out image by image, and the table of image addresses that spares the texture
    the sums. Sizes are unbounded here; addresses are numbers. */
module TextureCache {
  import opened Bits
  import opened Powers

  datatype Extent3 = Extent3(x: nat, y: nat, z: nat)

  predicate AllPositive(e: Extent3) {
    e.x > 0 && e.y > 0 && e.z > 0
  }

  function Max(a: nat, b: nat): nat {
    if a < b then b else a
  }

  /** The next multiple of b, or a if it is one. */
  function CeilMultiple(a: nat, b: nat): nat
    requires a > 0 && b > 0
  {
    a - 1 + (b - (a - 1) % b)
  }

  // ---- What a level is to measure ----

  /** e is what is left of n texels at a level: the greatest number of whole steps of 2^level texels, but at least one. */
  predicate IsSideAt(n: nat, level: nat, e: nat) {
    if n < Pow2(level) then e == 1 else e * Pow2(level) <= n < (e + 1) * Pow2(level)
  }

  /** The least count of blocks that cover e texels. */
  predicate IsCover(e: nat, block: nat, count: nat) {
    count > 0 && (count - 1) * block < e <= count * block
  }

  lemma SideAt(n: nat, level: nat)
    requires n > 0
    ensures IsSideAt(n, level, Max(ShiftRight(n, level), 1)) && Max(ShiftRight(n, level), 1) > 0
  {
    ShiftRightDivides(n, level);
    var (p, e) := (Pow2(level), n / Pow2(level));
    DivMod(n, p);
    hide Pow2, ShiftRight;
    StepsOf(n, p, e);
  }

  lemma StepsOf(n: nat, p: nat, e: nat)
    requires p > 0 && n == p * e + n % p && n % p < p
    ensures e * p <= n < (e + 1) * p && (e == 0 <==> n < p)
  {
    assert (e + 1) * p == p * e + p;
    if e > 0 {
      MulMonotone(1, e, p);
    }
  }

  /** Only one number is the side at a level. */
  lemma OneSideAt(n: nat, level: nat, e: nat, d: nat)
    requires IsSideAt(n, level, e) && IsSideAt(n, level, d)
    ensures e == d
  {
    var p := Pow2(level);
    hide Pow2;
    if e < d {
      MulMonotone(e + 1, d, p);
    } else if d < e {
      MulMonotone(d + 1, e, p);
    }
  }

  /** Sides that are powers of two go down by halves to one. */
  lemma PowerSideAt(a: nat, level: nat, e: nat)
    requires IsSideAt(Pow2(a), level, e)
    ensures e == if level <= a then Pow2(a - level) else 1
  {
    var d := if level <= a then Pow2(a - level) else 1;
    if level <= a {
      Pow2Add(a - level, level);
      assert (d + 1) * Pow2(level) == d * Pow2(level) + Pow2(level);
    } else {
      Pow2Monotone(a + 1, level);
    }
    assert IsSideAt(Pow2(a), level, d) by {
      if level <= a {
        Pow2Monotone(level, a);
      }
    }
    OneSideAt(Pow2(a), level, e, d);
  }

  lemma Covers(e: nat, block: nat)
    requires e > 0 && block > 0
    ensures CeilMultiple(e, block) % block == 0 && IsCover(e, block, CeilMultiple(e, block) / block)
  {
    var (q, r) := ((e - 1) / block, (e - 1) % block);
    DivMod(e - 1, block);
    assert CeilMultiple(e, block) == block * (q + 1) by {
      assert block * (q + 1) == block * q + block;
    }
    DivModUnique(CeilMultiple(e, block), block, q + 1, 0);
    Commute(block, q + 1);
    Commute(block, q);
  }

  /** Storage of layers of faces of levels. */
  datatype Storage = Storage(layers: nat, faces: nat, levels: nat, blockSize: nat, blockExtent: Extent3, size: Extent3, data: nat) {

    predicate Valid() {
      layers > 0 && faces > 0 && levels > 0 && blockSize > 0 && AllPositive(blockExtent) && AllPositive(size)
    }

    /** The size of a level in texels, never below one. */
    function Extent(level: nat): (e: Extent3)
      ensures AllPositive(e)
    {
      Extent3(Max(ShiftRight(size.x, level), 1), Max(ShiftRight(size.y, level), 1), Max(ShiftRight(size.z, level), 1))
    }

    function BlockCount(level: nat): Extent3
      requires Valid()
    {
      var e := Extent(level);
      Extent3(CeilMultiple(e.x, blockExtent.x) / blockExtent.x, CeilMultiple(e.y, blockExtent.y) / blockExtent.y,
              CeilMultiple(e.z, blockExtent.z) / blockExtent.z)
    }

    function LevelSize(level: nat): nat
      requires Valid()
    {
      var count := BlockCount(level);
      Times(blockSize, Times(Times(count.x, count.y), count.z))
    }

    /** The bytes of the levels from first up to, not including, last. */
    function LevelsSize(first: nat, last: nat): nat
      requires Valid() && first <= last
      decreases last
    {
      if first == last then 0 else LevelsSize(first, last - 1) + LevelSize(last - 1)
    }

    /** What base_offset promises: the bytes of all images before this one. */
    function Offset(layer: nat, face: nat, level: nat): nat
      requires Valid()
    {
      Times(LevelsSize(0, levels), Times(layer, faces) + face) + LevelsSize(0, level)
    }

    method FaceSize(baseLevel: nat, maxLevel: nat) returns (bytes: nat)
      requires Valid() && baseLevel <= maxLevel < levels
      ensures bytes == LevelsSize(baseLevel, maxLevel + 1)
    {
      hide LevelSize;
      bytes := 0;
      var level := baseLevel;
      while level <= maxLevel
        invariant baseLevel <= level <= maxLevel + 1 && bytes == LevelsSize(baseLevel, level)
      {
        bytes := bytes + LevelSize(level);
        level := level + 1;
      }
    }

    method LayerSize(baseFace: nat, maxFace: nat, baseLevel: nat, maxLevel: nat) returns (bytes: nat)
      requires Valid() && baseFace <= maxFace < faces && baseLevel <= maxLevel < levels
      ensures bytes == Times(LevelsSize(baseLevel, maxLevel + 1), maxFace - baseFace + 1)
    {
      hide LevelsSize;
      bytes := FaceSize(baseLevel, maxLevel);
      bytes := Times(bytes, maxFace - baseFace + 1);
    }

    method BaseOffset(layer: nat, face: nat, level: nat) returns (offset: nat)
      requires Valid() && layer < layers && face < faces && level < levels
      ensures offset == Offset(layer, face, level)
    {
      hide LevelSize, Times;
      var layerSize := LayerSize(0, faces - 1, 0, levels - 1);
      var faceSize := FaceSize(0, levels - 1);
      offset := Times(layerSize, layer) + Times(faceSize, face);
      FacesOfLayers(faceSize, faces, layer, face);
      var index := 0;
      while index < level
        invariant index <= level && offset == Times(faceSize, Times(layer, faces) + face) + LevelsSize(0, index)
      {
        offset := offset + LevelSize(index);
        index := index + 1;
      }
    }
  }

  lemma FacesOfLayers(size: nat, faces: nat, layer: nat, face: nat)
    ensures Times(Times(size, faces), layer) + Times(size, face) == Times(size, Times(layer, faces) + face)
  {
    assert size * faces * layer == size * (layer * faces);
    assert size * (layer * faces + face) == size * (layer * faces) + size * face;
  }

  lemma TimesPositive(a: nat, b: nat)
    requires a > 0 && b > 0
    ensures Times(a, b) > 0
  {
  }

  /** What a level measures: each side is what the level leaves of the storage's, each count the least that covers
      it, and the bytes are those of all its blocks. */
  lemma LevelMeasures(s: Storage, level: nat)
    requires s.Valid()
    ensures var e := s.Extent(level);
            IsSideAt(s.size.x, level, e.x) && IsSideAt(s.size.y, level, e.y) && IsSideAt(s.size.z, level, e.z)
    ensures var (e, count) := (s.Extent(level), s.BlockCount(level));
            && IsCover(e.x, s.blockExtent.x, count.x) && IsCover(e.y, s.blockExtent.y, count.y)
            && IsCover(e.z, s.blockExtent.z, count.z)
    ensures var count := s.BlockCount(level); s.LevelSize(level) == s.blockSize * (count.x * count.y * count.z)
  {
    hide IsSideAt, IsCover, CeilMultiple, ShiftRight;
    SideAt(s.size.x, level);
    SideAt(s.size.y, level);
    SideAt(s.size.z, level);
    var e := s.Extent(level);
    Covers(e.x, s.blockExtent.x);
    Covers(e.y, s.blockExtent.y);
    Covers(e.z, s.blockExtent.z);
  }

  lemma LevelIsNotEmpty(s: Storage, level: nat)
    requires s.Valid()
    ensures s.LevelSize(level) > 0
  {
    LevelMeasures(s, level);
    var count := s.BlockCount(level);
    assert count.x > 0 && count.y > 0 && count.z > 0;
    hide Times, Storage.BlockCount, Storage.Extent, IsSideAt, IsCover;
    TimesPositive(count.x, count.y);
    TimesPositive(Times(count.x, count.y), count.z);
    TimesPositive(s.blockSize, Times(Times(count.x, count.y), count.z));
  }

  // ---- How the images lie in storage ----

  /** The place of an image counted level by level, face by face, layer by layer. */
  function Order(faces: nat, levels: nat, layer: nat, face: nat, level: nat): nat {
    Times(Times(layer, faces) + face, levels) + level
  }

  function LevelOf(count: nat, k: nat): nat
    requires count > 0
  {
    k % count
  }

  /** The bytes of the first k images when each face has `count` levels from `first` on. */
  function ImagesSize(s: Storage, first: nat, count: nat, k: nat): nat
    requires s.Valid() && count > 0
  {
    if k == 0 then 0 else ImagesSize(s, first, count, k - 1) + s.LevelSize(first + LevelOf(count, k - 1))
  }

  lemma LevelInFace(q: nat, count: nat, v: nat)
    requires v < count
    ensures LevelOf(count, Times(q, count) + v) == v && (Times(q, count) + v) / count == q
  {
    assert count * q == q * count;
    DivModUnique(q * count + v, count, q, v);
  }

  lemma {:induction false} ImagesWithinFace(s: Storage, first: nat, count: nat, q: nat, v: nat)
    requires s.Valid() && v <= count && count > 0
    ensures ImagesSize(s, first, count, Times(q, count) + v)
         == ImagesSize(s, first, count, Times(q, count)) + s.LevelsSize(first, first + v)
  {
    hide Times, LevelOf, ImagesSize, Storage.LevelSize;
    if v > 0 {
      ImagesWithinFace(s, first, count, q, v - 1);
      LevelInFace(q, count, v - 1);
      OneMoreImage(s, first, count, Times(q, count) + v - 1);
    }
  }

  lemma OneMoreImage(s: Storage, first: nat, count: nat, k: nat)
    requires s.Valid() && count > 0
    ensures ImagesSize(s, first, count, k + 1) == ImagesSize(s, first, count, k) + s.LevelSize(first + LevelOf(count, k))
  {
    hide LevelOf, Storage.LevelSize;
  }

  lemma NoImages(s: Storage, first: nat, count: nat)
    requires s.Valid() && count > 0
    ensures ImagesSize(s, first, count, 0) == 0
  {
  }

  lemma TimesNext(a: nat, q: nat)
    ensures Times(a, 0) == 0 == Times(0, a) && Times(a, q + 1) == Times(a, q) + a && Times(q + 1, a) == Times(q, a) + a
  {
  }

  lemma {:induction false} ImagesOfFaces(s: Storage, first: nat, count: nat, q: nat)
    requires s.Valid() && count > 0
    ensures ImagesSize(s, first, count, Times(q, count)) == Times(s.LevelsSize(first, first + count), q)
  {
    hide Times, ImagesSize, LevelOf, Storage.LevelsSize, Storage.LevelSize;
    if q == 0 {
      NoImages(s, first, count);
      TimesNext(count, 0);
      TimesNext(s.LevelsSize(first, first + count), 0);
    } else {
      ImagesOfFaces(s, first, count, q - 1);
      ImagesWithinFace(s, first, count, q - 1, count);
      TimesNext(count, q - 1);
      TimesNext(s.LevelsSize(first, first + count), q - 1);
    }
  }

  /** An image's offset is the size of everything before it. */
  lemma OffsetIsSum(s: Storage, layer: nat, face: nat, level: nat)
    requires s.Valid() && level <= s.levels
    ensures s.Offset(layer, face, level) == ImagesSize(s, 0, s.levels, Order(s.faces, s.levels, layer, face, level))
  {
    hide Times, ImagesSize;
    var q := Times(layer, s.faces) + face;
    ImagesOfFaces(s, 0, s.levels, q);
    ImagesWithinFace(s, 0, s.levels, q, level);
  }

  /** A byte belongs to image k. */
  predicate ByteOf(s: Storage, k: nat, b: nat)
    requires s.Valid()
  {
    ImagesSize(s, 0, s.levels, k) <= b < ImagesSize(s, 0, s.levels, k + 1)
  }

  lemma {:induction false} SizesGrow(s: Storage, j: nat, k: nat)
    requires s.Valid() && j <= k
    ensures ImagesSize(s, 0, s.levels, j) <= ImagesSize(s, 0, s.levels, k)
    decreases k
  {
    if j < k {
      SizesGrow(s, j, k - 1);
    }
  }

  /** No byte belongs to two images. */
  lemma ImagesAreDisjoint(s: Storage, j: nat, k: nat, b: nat)
    requires s.Valid() && ByteOf(s, j, b) && ByteOf(s, k, b)
    ensures j == k
  {
    hide ImagesSize, Storage.LevelSize;
    if j < k {
      SizesGrow(s, j + 1, k);
    } else if k < j {
      SizesGrow(s, k + 1, j);
    }
  }

  /** Every byte of the storage belongs to some image of it. */
  lemma {:induction false} EveryByteHasAnImage(s: Storage, n: nat, b: nat) returns (k: nat)
    requires s.Valid() && b < ImagesSize(s, 0, s.levels, n)
    ensures k < n && ByteOf(s, k, b)
  {
    if b < ImagesSize(s, 0, s.levels, n - 1) {
      k := EveryByteHasAnImage(s, n - 1, b);
    } else {
      k := n - 1;
    }
  }

  /** What the storage is resized to. */
  function TotalSize(s: Storage): nat
    requires s.Valid()
  {
    Times(Times(s.LevelsSize(0, s.levels), s.faces), s.layers)
  }

  function ImageCount(layers: nat, faces: nat, levels: nat): nat {
    Times(Times(layers, faces), levels)
  }

  /** The images fill the storage exactly. */
  lemma ImagesFillStorage(s: Storage)
    requires s.Valid()
    ensures ImagesSize(s, 0, s.levels, ImageCount(s.layers, s.faces, s.levels)) == TotalSize(s)
  {
    ImagesOfFaces(s, 0, s.levels, Times(s.layers, s.faces));
    Rearranged(s.LevelsSize(0, s.levels), s.faces, s.layers);
    hide Times;
  }

  lemma Rearranged(a: nat, b: nat, c: nat)
    ensures Times(Times(a, b), c) == Times(a, Times(c, b))
  {
    assert a * b * c == a * (c * b);
  }

  /** The place of an image lies within the count, and tells the image: index_cache is one to one. */
  lemma OrderIsExact(layers: nat, faces: nat, levels: nat, layer: nat, face: nat, level: nat)
    requires layer < layers && face < faces && level < levels
    ensures var k := Order(faces, levels, layer, face, level);
            k < ImageCount(layers, faces, levels) && LevelOf(levels, k) == level
            && FaceOf(faces, levels, k) == face && LayerOf(faces, levels, k) == layer
  {
    hide Times, LevelOf;
    LevelInFace(Times(layer, faces) + face, levels, level);
    LevelInFace(layer, faces, face);
    BelowProduct(layer, layers, faces, face);
    BelowProduct(Times(layer, faces) + face, Times(layers, faces), levels, level);
  }

  lemma BelowProduct(a: nat, n: nat, m: nat, b: nat)
    requires a < n && b < m
    ensures Times(a, m) + b < Times(n, m)
  {
    MulMonotone(a + 1, n, m);
  }

  function FaceOf(faces: nat, levels: nat, k: nat): nat
    requires faces > 0 && levels > 0
  {
    LevelOf(faces, Row(levels, k))
  }

  function LayerOf(faces: nat, levels: nat, k: nat): nat
    requires faces > 0 && levels > 0
  {
    Row(faces, Row(levels, k))
  }

  function Row(count: nat, k: nat): nat
    requires count > 0
  {
    k / count
  }

  /** Every place is some image's: index_cache is onto. */
  lemma OrderIsOnto(layers: nat, faces: nat, levels: nat, k: nat)
    requires faces > 0 && levels > 0 && k < ImageCount(layers, faces, levels)
    ensures LayerOf(faces, levels, k) < layers && FaceOf(faces, levels, k) < faces && LevelOf(levels, k) < levels
    ensures Order(faces, levels, LayerOf(faces, levels, k), FaceOf(faces, levels, k), LevelOf(levels, k)) == k
  {
    RowAndRest(levels, k);
    RowAndRest(faces, Row(levels, k));
    hide Times, LevelOf, Row;
    RowBelow(Row(levels, k), Times(layers, faces), levels, k);
    RowBelow(Row(faces, Row(levels, k)), layers, faces, Row(levels, k));
  }

  lemma RowAndRest(count: nat, k: nat)
    requires count > 0
    ensures Times(Row(count, k), count) + LevelOf(count, k) == k && LevelOf(count, k) < count
  {
    DivMod(k, count);
  }

  lemma RowBelow(row: nat, n: nat, count: nat, k: nat)
    requires Times(row, count) <= k < Times(n, count)
    ensures row < n
  {
    if n <= row {
      MulMonotone(n, row, count);
    }
  }

  // ---- The cache ----

  const MAX_LEVELS := 16

  class Cache {
    const faces: nat
    const levels: nat
    const baseAddresses: array<nat>
    const imageExtent: array<Extent3>
    const imageMemorySize: array<nat>
    const globalMemorySize: nat

    /** The table is what storage answers for a window of layers, faces and levels. */
    ghost predicate Caches(s: Storage, formatExtent: Extent3, baseLayer: nat, layers: nat, baseFace: nat, baseLevel: nat)
      requires s.Valid()
      reads baseAddresses, imageExtent, imageMemorySize
    {
      && faces > 0 && levels > 0 && levels <= MAX_LEVELS
      && baseAddresses.Length == ImageCount(layers, faces, levels)
      && imageExtent.Length == MAX_LEVELS && imageMemorySize.Length == MAX_LEVELS
      && (forall k | 0 <= k < baseAddresses.Length ::
            baseAddresses[k] == Address(s, baseLayer, baseFace, baseLevel, faces, levels, k))
      && (forall v | 0 <= v < levels :: imageMemorySize[v] == s.LevelSize(baseLevel + v))
      && (forall v | 0 <= v < levels :: imageExtent[v] == FormatExtent(s, formatExtent, baseLevel + v))
      && globalMemorySize == ImagesSize(s, baseLevel, levels, ImageCount(layers, faces, levels))
    }

    constructor (s: Storage, formatExtent: Extent3, baseLayer: nat, layers: nat,
                 baseFace: nat, maxFace: nat, baseLevel: nat, maxLevel: nat)
      requires s.Valid() && baseLayer + layers <= s.layers && baseFace <= maxFace < s.faces
      requires baseLevel <= maxLevel < s.levels && maxLevel - baseLevel + 1 <= MAX_LEVELS
      ensures faces == maxFace - baseFace + 1 && levels == maxLevel - baseLevel + 1
      ensures Caches(s, formatExtent, baseLayer, layers, baseFace, baseLevel)
      ensures fresh(baseAddresses) && fresh(imageExtent) && fresh(imageMemorySize)
    {
      hide Times, Storage.Offset, Storage.LevelSize, Storage.LevelsSize, FormatExtent, ImagesSize, LevelOf, FaceOf, LayerOf;
      var faceCount, levelCount := maxFace - baseFace + 1, maxLevel - baseLevel + 1;
      var addresses := new nat[ImageCount(layers, faceCount, levelCount)];
      var layer := 0;
      FirstImage(faceCount, levelCount);
      while layer < layers
        invariant layer <= layers
        invariant Filled(s, addresses[..], baseLayer, baseFace, baseLevel, faceCount, levelCount,
                         Order(faceCount, levelCount, layer, 0, 0))
      {
        var face := 0;
        while face < faceCount
          invariant face <= faceCount
          invariant Filled(s, addresses[..], baseLayer, baseFace, baseLevel, faceCount, levelCount,
                           Order(faceCount, levelCount, layer, face, 0))
        {
          var level := 0;
          while level < levelCount
            invariant level <= levelCount
            invariant Filled(s, addresses[..], baseLayer, baseFace, baseLevel, faceCount, levelCount,
                             Order(faceCount, levelCount, layer, face, level))
          {
            var index := Order(faceCount, levelCount, layer, face, level);
            OrderIsExact(layers, faceCount, levelCount, layer, face, level);
            var offset := s.BaseOffset(baseLayer + layer, baseFace + face, baseLevel + level);
            addresses[index] := s.data + offset;
            level := level + 1;
          }
          NextFace(faceCount, levelCount, layer, face);
          face := face + 1;
        }
        NextLayer(faceCount, levelCount, layer);
        layer := layer + 1;
      }
      var extents, sizes := new Extent3[MAX_LEVELS], new nat[MAX_LEVELS];
      ghost var filled := addresses[..];
      var level := 0;
      while level < levelCount
        invariant level <= levelCount && addresses[..] == filled
        invariant forall v | 0 <= v < level :: sizes[v] == s.LevelSize(baseLevel + v)
        invariant forall v | 0 <= v < level :: extents[v] == FormatExtent(s, formatExtent, baseLevel + v)
      {
        extents[level] := FormatExtent(s, formatExtent, baseLevel + level);
        sizes[level] := s.LevelSize(baseLevel + level);
        level := level + 1;
      }
      var layerSize := s.LayerSize(baseFace, maxFace, baseLevel, maxLevel);
      WindowSize(s, baseLevel, levelCount, faceCount, layers);
      faces := faceCount;
      levels := levelCount;
      baseAddresses := addresses;
      imageExtent := extents;
      imageMemorySize := sizes;
      globalMemorySize := Times(layerSize, layers);
    }

    function GetBaseAddress(layer: nat, face: nat, level: nat): nat
      requires Order(faces, levels, layer, face, level) < baseAddresses.Length
      reads baseAddresses
    {
      baseAddresses[Order(faces, levels, layer, face, level)]
    }

    function GetMemorySize(level: nat): nat
      requires level < imageMemorySize.Length
      reads imageMemorySize
    {
      imageMemorySize[level]
    }
  }

  function Address(s: Storage, baseLayer: nat, baseFace: nat, baseLevel: nat, faces: nat, levels: nat, k: nat): nat
    requires s.Valid() && faces > 0 && levels > 0
  {
    s.data + s.Offset(baseLayer + LayerOf(faces, levels, k), baseFace + FaceOf(faces, levels, k), baseLevel + LevelOf(levels, k))
  }

  function FormatExtent(s: Storage, formatExtent: Extent3, level: nat): Extent3
    requires s.Valid()
  {
    var e := s.Extent(level);
    Extent3(Max(e.x * formatExtent.x / s.blockExtent.x, 1), Max(e.y * formatExtent.y / s.blockExtent.y, 1),
            Max(e.z * formatExtent.z / s.blockExtent.z, 1))
  }

  /** An image's extent in texels of its own format: on each axis the greatest n whose blocks of the storage fit into
      the level's extent in blocks of the format, but at least one. */
  lemma FormatExtentMeasures(s: Storage, formatExtent: Extent3, level: nat)
    requires s.Valid()
    ensures var (e, f, b) := (s.Extent(level), FormatExtent(s, formatExtent, level), s.blockExtent);
            && IsScaled(e.x * formatExtent.x, b.x, f.x) && IsScaled(e.y * formatExtent.y, b.y, f.y)
            && IsScaled(e.z * formatExtent.z, b.z, f.z)
  {
    var e := s.Extent(level);
    hide Storage.Extent, IsScaled;
    Scales(e.x * formatExtent.x, s.blockExtent.x);
    Scales(e.y * formatExtent.y, s.blockExtent.y);
    Scales(e.z * formatExtent.z, s.blockExtent.z);
  }

  predicate IsScaled(n: nat, block: nat, f: nat) {
    if n < block then f == 1 else f * block <= n < (f + 1) * block
  }

  lemma Scales(n: nat, block: nat)
    requires block > 0
    ensures IsScaled(n, block, Max(n / block, 1))
  {
    DivMod(n, block);
    StepsOf(n, block, n / block);
  }

  /** The first n slots hold their addresses. */
  ghost predicate Filled(s: Storage, addresses: seq<nat>, baseLayer: nat, baseFace: nat, baseLevel: nat, faces: nat, levels: nat, n: nat)
    requires s.Valid() && faces > 0 && levels > 0
  {
    n <= |addresses| && forall k | 0 <= k < n :: addresses[k] == Address(s, baseLayer, baseFace, baseLevel, faces, levels, k)
  }

  lemma FirstImage(faces: nat, levels: nat)
    ensures Order(faces, levels, 0, 0, 0) == 0
  {
    TimesNext(faces, 0);
    TimesNext(levels, 0);
    hide Times;
  }

  lemma NextFace(faces: nat, levels: nat, layer: nat, face: nat)
    ensures Order(faces, levels, layer, face, levels) == Order(faces, levels, layer, face + 1, 0)
  {
    TimesNext(levels, Times(layer, faces) + face);
    hide Times;
  }

  lemma NextLayer(faces: nat, levels: nat, layer: nat)
    ensures Order(faces, levels, layer, faces, 0) == Order(faces, levels, layer + 1, 0, 0)
  {
    TimesNext(faces, layer);
    hide Times;
  }

  lemma WindowSize(s: Storage, baseLevel: nat, levels: nat, faces: nat, layers: nat)
    requires s.Valid() && levels > 0
    ensures ImagesSize(s, baseLevel, levels, ImageCount(layers, faces, levels))
         == Times(Times(s.LevelsSize(baseLevel, baseLevel + levels), faces), layers)
  {
    ImagesOfFaces(s, baseLevel, levels, Times(layers, faces));
    Rearranged(s.LevelsSize(baseLevel, baseLevel + levels), faces, layers);
    hide Times;
  }

  /** The table agrees with the formula it replaces for every image of the window. */
  lemma CachedAddressIsOffset(c: Cache, s: Storage, formatExtent: Extent3, baseLayer: nat, layers: nat, baseFace: nat,
                              baseLevel: nat, layer: nat, face: nat, level: nat)
    requires s.Valid() && c.Caches(s, formatExtent, baseLayer, layers, baseFace, baseLevel)
    requires layer < layers && face < c.faces && level < c.levels
    ensures Order(c.faces, c.levels, layer, face, level) < c.baseAddresses.Length
    ensures c.GetBaseAddress(layer, face, level) == s.data + s.Offset(baseLayer + layer, baseFace + face, baseLevel + level)
    ensures c.GetMemorySize(level) == s.LevelSize(baseLevel + level)
  {
    hide Order, LayerOf, FaceOf, LevelOf, FormatExtent, ImagesSize, ImageCount, Storage.Offset, Storage.LevelSize, Storage.Valid;
    OrderIsExact(layers, c.faces, c.levels, layer, face, level);
  }

  /** The bytes of an image lie between two sums, and within the storage. */
  lemma ImageSpan(s: Storage, layer: nat, face: nat, level: nat, k: nat)
    requires s.Valid() && layer < s.layers && face < s.faces && level < s.levels
    requires k == Order(s.faces, s.levels, layer, face, level)
    ensures s.Offset(layer, face, level) == ImagesSize(s, 0, s.levels, k)
    ensures s.Offset(layer, face, level) + s.LevelSize(level) == ImagesSize(s, 0, s.levels, k + 1) <= TotalSize(s)
  {
    hide Order, LayerOf, FaceOf, LevelOf, ImageCount, TotalSize, Storage.Offset, Storage.LevelSize, ImagesSize;
    OrderIsExact(s.layers, s.faces, s.levels, layer, face, level);
    OffsetIsSum(s, layer, face, level);
    OneMoreImage(s, 0, s.levels, k);
    ImagesFillStorage(s);
    SizesGrow(s, k + 1, ImageCount(s.layers, s.faces, s.levels));
  }

  /** The bytes of two different images never overlap, and none lies outside the storage. */
  lemma ImagesApart(s: Storage, layer: nat, face: nat, level: nat, layer2: nat, face2: nat, level2: nat)
    requires s.Valid() && layer < s.layers && face < s.faces && level < s.levels
    requires layer2 < s.layers && face2 < s.faces && level2 < s.levels
    requires !(layer == layer2 && face == face2 && level == level2)
    ensures var (here, there) := (s.Offset(layer, face, level), s.Offset(layer2, face2, level2));
            here + s.LevelSize(level) <= there || there + s.LevelSize(level2) <= here
    ensures s.Offset(layer, face, level) + s.LevelSize(level) <= TotalSize(s)
  {
    hide Order, LayerOf, FaceOf, LevelOf, ImageCount, TotalSize, Storage.Offset, Storage.LevelSize, ImagesSize;
    var j, k := Order(s.faces, s.levels, layer, face, level), Order(s.faces, s.levels, layer2, face2, level2);
    OrderIsExact(s.layers, s.faces, s.levels, layer, face, level);
    OrderIsExact(s.layers, s.faces, s.levels, layer2, face2, level2);
    ImageSpan(s, layer, face, level, j);
    ImageSpan(s, layer2, face2, level2, k);
    if j < k {
      SizesGrow(s, j + 1, k);
    } else {
      SizesGrow(s, k + 1, j);
    }
  }
}

