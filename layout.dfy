/**
 * The 424-byte memory image of a version-8 share code record.
 *
 * The Go program reinterprets its record struct as raw memory, so the byte
 * image is fixed by Go's field order and alignment: every field is a byte
 * array except the packed rank words, which are 4-byte aligned and force a
 * 3-byte zero pad after the talents. This module replaces the reinterpretation
 * with an explicit serialiser `Image` and parser `Parse` at those offsets,
 * with multi-byte words written little-endian.
 */
module Layout {
  import opened FieldCodecs

  const SharecodeMaxTalents := 16
  const SharecodeMaxUnequippedItems := 10
  /** Size of the record image in bytes. */
  const Size := 424

  const VersionOffset := 0
  const UnitItemsOffset := 1
  const BoardUnitIDsOffset := 193
  const SelectedTalentsOffset := 257
  const PadOffset := 289
  const PackedUnitRanksOffset := 292
  const BenchUnitItemsOffset := 324
  const BenchedUnitIDsOffset := 348
  const PackedBenchUnitRanksOffset := 356
  const UnderlordIDsOffset := 360
  const UnderlordRanksOffset := 362
  const UnequippedItemsOffset := 364

  /** Start of each of the twelve regions of the image, in field order, followed by the image size. */
  const Offsets: seq<nat> := [0, 1, 193, 257, 289, 292, 324, 348, 356, 360, 362, 364, 424]

  /** The record. Fixed-size Go arrays are sequences whose dimensions `WellFormed` fixes. */
  datatype V8 = V8(
    version: byte,
    unitItems: seq<seq<EquippedItem3Bytes>>,
    boardUnitIDs: seq<seq<byte>>,
    selectedTalents: seq<seq<byte>>,
    packedUnitRanks: seq<bv32>,
    benchUnitItems: seq<EquippedItem3Bytes>,
    benchedUnitIDs: seq<byte>,
    packedBenchUnitRanks: bv32,
    underlordIDs: seq<byte>,
    underlordRanks: seq<byte>,
    unequippedItems: seq<seq<EquippedItem3Bytes>>)

  /** A rows-by-cols array of arrays. */
  ghost predicate Grid<T>(g: seq<seq<T>>, rows: nat, cols: nat)
  {
    |g| == rows && forall r | 0 <= r < rows :: |g[r]| == cols
  }

  /** Every array of the record has the dimensions Go declares for it. */
  ghost predicate WellFormed(sc: V8)
  {
    && Grid(sc.unitItems, BoardCellNum, BoardCellNum)
    && Grid(sc.boardUnitIDs, BoardCellNum, BoardCellNum)
    && Grid(sc.selectedTalents, SharecodeMaxTalents, 2)
    && |sc.packedUnitRanks| == BoardCellNum
    && |sc.benchUnitItems| == BoardCellNum
    && |sc.benchedUnitIDs| == BoardCellNum
    && |sc.underlordIDs| == 2
    && |sc.underlordRanks| == 2
    && Grid(sc.unequippedItems, SharecodeMaxUnequippedItems, 2)
  }

  /** Laying arrays out one after the other, as Go lays out the elements of an array of arrays. */
  function Flatten<T>(g: seq<seq<T>>): (s: seq<T>)
    ensures |g| == 0 ==> s == []
  {
    if |g| == 0 then [] else g[0] + Flatten(g[1..])
  }

  /** Cutting s into n consecutive pieces of w elements. */
  function Chunks<T>(s: seq<T>, w: nat, n: nat): (g: seq<seq<T>>)
    requires |s| == w * n
    ensures Grid(g, n, w)
  {
    if n == 0 then [] else [s[..w]] + Chunks(s[w..], w, n - 1)
  }

  lemma {:induction false} FlattenAppend<T>(a: seq<seq<T>>, b: seq<seq<T>>)
    ensures Flatten(a + b) == Flatten(a) + Flatten(b)
  {
    if |a| == 0 {
      assert a + b == b;
    } else {
      assert (a + b)[0] == a[0];
      assert (a + b)[1..] == a[1..] + b;
      FlattenAppend(a[1..], b);
    }
  }

  /** A grid of n rows of w elements flattens to w * n elements. */
  lemma {:induction false} FlattenLength<T>(g: seq<seq<T>>, n: nat, w: nat)
    requires Grid(g, n, w)
    ensures |Flatten(g)| == w * n
  {
    if n > 0 {
      FlattenLength(g[1..], n - 1, w);
    }
  }

  lemma Distribute(w: nat, n: nat)
    requires n > 0
    ensures w * n == w + w * (n - 1)
  {
  }

  /** Cutting and then laying out again gives the original sequence. */
  lemma {:induction false} FlattenChunks<T>(s: seq<T>, w: nat, n: nat)
    requires |s| == w * n
    ensures Flatten(Chunks(s, w, n)) == s
  {
    if n > 0 {
      Distribute(w, n);
      FlattenChunks(s[w..], w, n - 1);
      assert Chunks(s, w, n)[1..] == Chunks(s[w..], w, n - 1);
    }
  }

  /** Laying out a grid and cutting it again gives the original grid. */
  lemma {:induction false} ChunksFlatten<T>(g: seq<seq<T>>, w: nat, n: nat)
    requires Grid(g, n, w)
    ensures |Flatten(g)| == w * n && Chunks(Flatten(g), w, n) == g
  {
    FlattenLength(g, n, w);
    if n > 0 {
      ChunksFlatten(g[1..], w, n - 1);
      assert Flatten(g)[..w] == g[0];
      assert Flatten(g)[w..] == Flatten(g[1..]);
    }
  }

  lemma {:induction false} IndexBound(w: nat, n: nat, r: nat, j: nat)
    requires r < n && j < w
    ensures w * r + j < w * n
  {
    if r + 1 < n {
      IndexBound(w, n - 1, r, j);
      Distribute(w, n);
    } else {
      Distribute(w, n);
    }
  }

  /** Element j of row r of a laid-out grid sits at index w * r + j. */
  lemma {:induction false} FlattenIndex<T>(g: seq<seq<T>>, n: nat, w: nat, r: nat, j: nat)
    requires Grid(g, n, w) && r < n && j < w
    ensures |Flatten(g)| == w * n && w * r + j < w * n && Flatten(g)[w * r + j] == g[r][j]
  {
    FlattenLength(g, n, w);
    IndexBound(w, n, r, j);
    assert Flatten(g) == g[0] + Flatten(g[1..]);
    if r == 0 {
      assert w * r + j == j;
    } else {
      FlattenIndex(g[1..], n - 1, w, r - 1, j);
      Distribute(w, r);
    }
  }

  /** The total length of the first k parts. */
  function PrefixLength<T>(parts: seq<seq<T>>, k: nat): nat
    requires k <= |parts|
  {
    if k == 0 then 0 else PrefixLength(parts, k - 1) + |parts[k - 1]|
  }

  /** Part k of a laid-out list of parts starts where the parts before it end. */
  lemma {:induction false} FlattenPart<T>(parts: seq<seq<T>>, k: nat)
    requires k < |parts|
    ensures |Flatten(parts)| >= PrefixLength(parts, k + 1)
    ensures Flatten(parts)[PrefixLength(parts, k)..PrefixLength(parts, k + 1)] == parts[k]
  {
    assert parts == parts[..k] + [parts[k]] + parts[k + 1..];
    FlattenAppend(parts[..k] + [parts[k]], parts[k + 1..]);
    FlattenAppend(parts[..k], [parts[k]]);
    assert Flatten([parts[k]]) == parts[k] by {
      assert [parts[k]][1..] == [];
    }
    PrefixFlattenLength(parts, k);
  }

  lemma {:induction false} PrefixFlattenLength<T>(parts: seq<seq<T>>, k: nat)
    requires k <= |parts|
    ensures |Flatten(parts[..k])| == PrefixLength(parts, k)
    ensures k == |parts| ==> |Flatten(parts)| == PrefixLength(parts, k)
  {
    assert parts[..|parts|] == parts;
    if k > 0 {
      PrefixFlattenLength(parts, k - 1);
      assert parts[..k] == parts[..k - 1] + [parts[k - 1]];
      FlattenAppend(parts[..k - 1], [parts[k - 1]]);
      assert [parts[k - 1]][1..] == [];
    }
  }

  /** The little-endian image of a sequence of words. */
  function WordsBytes(ws: seq<bv32>): (b: seq<byte>)
    ensures |b| == 4 * |ws|
  {
    if |ws| == 0 then [] else WordBytes(ws[0]) + WordsBytes(ws[1..])
  }

  /** The words whose little-endian image is b. */
  function WordsOfBytes(b: seq<byte>): (ws: seq<bv32>)
    requires |b| % 4 == 0
    ensures |ws| == |b| / 4
  {
    if |b| == 0 then [] else [WordOfBytes(b[..4])] + WordsOfBytes(b[4..])
  }

  lemma {:induction false} WordsRoundTrip(ws: seq<bv32>)
    ensures WordsOfBytes(WordsBytes(ws)) == ws
  {
    if |ws| > 0 {
      WordRoundTrip(ws[0]);
      WordsRoundTrip(ws[1..]);
      assert WordsBytes(ws)[..4] == WordBytes(ws[0]);
      assert WordsBytes(ws)[4..] == WordsBytes(ws[1..]);
    }
  }

  lemma {:induction false} WordsBytesRoundTrip(b: seq<byte>)
    requires |b| % 4 == 0
    ensures WordsBytes(WordsOfBytes(b)) == b
  {
    if |b| > 0 {
      WordBytesRoundTrip(b[..4]);
      WordsBytesRoundTrip(b[4..]);
      assert b == b[..4] + b[4..];
    }
  }

  /** The twelve regions of the image in field order, the alignment pad being the fifth. */
  function Parts(sc: V8): seq<seq<byte>>
  {
    [ [sc.version],
      Flatten(Flatten(sc.unitItems)),
      Flatten(sc.boardUnitIDs),
      Flatten(sc.selectedTalents),
      [0, 0, 0],
      WordsBytes(sc.packedUnitRanks),
      Flatten(sc.benchUnitItems),
      sc.benchedUnitIDs,
      WordBytes(sc.packedBenchUnitRanks),
      sc.underlordIDs,
      sc.underlordRanks,
      Flatten(Flatten(sc.unequippedItems)) ]
  }

  /** When consecutive offsets differ by the lengths of the parts, the first k parts end at offs[k]. */
  lemma {:induction false} PrefixLengthAt<T>(parts: seq<seq<T>>, offs: seq<nat>, k: nat)
    requires |offs| == |parts| + 1 && offs[0] == 0 && k <= |parts|
    requires forall j | 0 <= j < |parts| :: offs[j] + |parts[j]| == offs[j + 1]
    ensures PrefixLength(parts, k) == offs[k]
  {
    if k > 0 {
      PrefixLengthAt(parts, offs, k - 1);
    }
  }

  /** Each region of a well-formed record has the length the offsets table gives it. */
  lemma PartLengths(sc: V8)
    requires WellFormed(sc)
    ensures |Parts(sc)| == 12
    ensures forall k | 0 <= k <= 12 :: PrefixLength(Parts(sc), k) == Offsets[k]
  {
    FlattenLength(sc.unitItems, 8, 8);
    FlattenLength(Flatten(sc.unitItems), 64, 3);
    FlattenLength(sc.boardUnitIDs, 8, 8);
    FlattenLength(sc.selectedTalents, 16, 2);
    FlattenLength(sc.benchUnitItems, 8, 3);
    FlattenLength(sc.unequippedItems, 10, 2);
    FlattenLength(Flatten(sc.unequippedItems), 20, 3);
    var p := Parts(sc);
    forall j | 0 <= j < 12 ensures Offsets[j] + |p[j]| == Offsets[j + 1] {
      assert j in {0, 1, 2, 3, 4, 5, 6, 7, 8, 9, 10, 11};
    }
    forall k | 0 <= k <= 12 ensures PrefixLength(p, k) == Offsets[k] {
      PrefixLengthAt(p, Offsets, k);
    }
  }

  /** The byte image of a record: what the Go code hands to the compressor. */
  function Image(sc: V8): (img: seq<byte>)
  {
    Flatten(Parts(sc))
  }

  /** Region k of the image of a well-formed record, as the offsets table places it. */
  lemma ImageRegion(sc: V8, k: nat)
    requires WellFormed(sc) && k < 12
    ensures |Image(sc)| == Size
    ensures Image(sc)[Offsets[k]..Offsets[k + 1]] == Parts(sc)[k]
  {
    PartLengths(sc);
    FlattenPart(Parts(sc), k);
    PrefixFlattenLength(Parts(sc), 12);
  }

  /** The regions of the board: the version and the board's items, unit ids and talents. */
  lemma BoardOffsets(sc: V8)
    requires WellFormed(sc)
    ensures |Image(sc)| == Size
    ensures Image(sc)[VersionOffset] == sc.version
    ensures Image(sc)[UnitItemsOffset..BoardUnitIDsOffset] == Flatten(Flatten(sc.unitItems))
    ensures Image(sc)[BoardUnitIDsOffset..SelectedTalentsOffset] == Flatten(sc.boardUnitIDs)
    ensures Image(sc)[SelectedTalentsOffset..PadOffset] == Flatten(sc.selectedTalents)
  {
    ImageRegion(sc, 0);
    ImageRegion(sc, 1);
    ImageRegion(sc, 2);
    ImageRegion(sc, 3);
    assert Image(sc)[VersionOffset] == Image(sc)[0..1][0];
  }

  /** The zero pad and the board's rank words. */
  lemma RankWordOffsets(sc: V8)
    requires WellFormed(sc)
    ensures |Image(sc)| == Size
    ensures Image(sc)[PadOffset..PackedUnitRanksOffset] == [0, 0, 0]
    ensures Image(sc)[PackedUnitRanksOffset..BenchUnitItemsOffset] == WordsBytes(sc.packedUnitRanks)
  {
    ImageRegion(sc, 4);
    ImageRegion(sc, 5);
  }

  /** The regions after the board: the bench, the underlords and the spare items. */
  lemma BenchOffsets(sc: V8)
    requires WellFormed(sc)
    ensures |Image(sc)| == Size
    ensures Image(sc)[BenchUnitItemsOffset..BenchedUnitIDsOffset] == Flatten(sc.benchUnitItems)
    ensures Image(sc)[BenchedUnitIDsOffset..PackedBenchUnitRanksOffset] == sc.benchedUnitIDs
    ensures Image(sc)[PackedBenchUnitRanksOffset..UnderlordIDsOffset] == WordBytes(sc.packedBenchUnitRanks)
    ensures Image(sc)[UnderlordIDsOffset..UnderlordRanksOffset] == sc.underlordIDs
    ensures Image(sc)[UnderlordRanksOffset..UnequippedItemsOffset] == sc.underlordRanks
    ensures Image(sc)[UnequippedItemsOffset..Size] == Flatten(Flatten(sc.unequippedItems))
  {
    ImageRegion(sc, 6);
    ImageRegion(sc, 7);
    ImageRegion(sc, 8);
    ImageRegion(sc, 9);
    ImageRegion(sc, 10);
    ImageRegion(sc, 11);
  }

  /** The image is 424 bytes, holds every field at its offset and has a zero pad before the rank words. */
  lemma FieldOffsets(sc: V8)
    requires WellFormed(sc)
    ensures |Image(sc)| == Size
    ensures Image(sc)[VersionOffset] == sc.version
    ensures Image(sc)[UnitItemsOffset..BoardUnitIDsOffset] == Flatten(Flatten(sc.unitItems))
    ensures Image(sc)[BoardUnitIDsOffset..SelectedTalentsOffset] == Flatten(sc.boardUnitIDs)
    ensures Image(sc)[SelectedTalentsOffset..PadOffset] == Flatten(sc.selectedTalents)
    ensures Image(sc)[PadOffset..PackedUnitRanksOffset] == [0, 0, 0]
    ensures Image(sc)[PackedUnitRanksOffset..BenchUnitItemsOffset] == WordsBytes(sc.packedUnitRanks)
    ensures Image(sc)[BenchUnitItemsOffset..BenchedUnitIDsOffset] == Flatten(sc.benchUnitItems)
    ensures Image(sc)[BenchedUnitIDsOffset..PackedBenchUnitRanksOffset] == sc.benchedUnitIDs
    ensures Image(sc)[PackedBenchUnitRanksOffset..UnderlordIDsOffset] == WordBytes(sc.packedBenchUnitRanks)
    ensures Image(sc)[UnderlordIDsOffset..UnderlordRanksOffset] == sc.underlordIDs
    ensures Image(sc)[UnderlordRanksOffset..UnequippedItemsOffset] == sc.underlordRanks
    ensures Image(sc)[UnequippedItemsOffset..Size] == Flatten(Flatten(sc.unequippedItems))
  {
    BoardOffsets(sc);
    RankWordOffsets(sc);
    BenchOffsets(sc);
  }

  /** Byte b of the item in board cell (r, c) sits at 1 + 24r + 3c + b. */
  lemma UnitItemOffset(sc: V8, r: nat, c: nat, b: nat)
    requires WellFormed(sc) && r < BoardCellNum && c < BoardCellNum && b < 3
    ensures |Image(sc)| == Size
    ensures Image(sc)[UnitItemsOffset + 24 * r + 3 * c + b] == sc.unitItems[r][c][b]
  {
    ImageRegion(sc, 1);
    FlattenIndex(sc.unitItems, 8, 8, r, c);
    FlattenLength(sc.unitItems, 8, 8);
    FlattenIndex(Flatten(sc.unitItems), 64, 3, 8 * r + c, b);
    assert 3 * (8 * r + c) + b == 24 * r + 3 * c + b;
  }

  /** Unit (r, c)'s id sits at 193 + 8r + c. */
  lemma BoardUnitIDOffset(sc: V8, r: nat, c: nat)
    requires WellFormed(sc) && r < BoardCellNum && c < BoardCellNum
    ensures |Image(sc)| == Size
    ensures Image(sc)[BoardUnitIDsOffset + 8 * r + c] == sc.boardUnitIDs[r][c]
  {
    ImageRegion(sc, 2);
    FlattenIndex(sc.boardUnitIDs, 8, 8, r, c);
  }

  /** Byte b of rank word i sits at 292 + 4i + b, least significant byte first. */
  lemma PackedUnitRankOffset(sc: V8, i: nat, b: nat)
    requires WellFormed(sc) && i < BoardCellNum && b < 4
    ensures |Image(sc)| == Size
    ensures Image(sc)[PackedUnitRanksOffset + 4 * i + b] == WordBytes(sc.packedUnitRanks[i])[b]
  {
    ImageRegion(sc, 5);
    WordsBytesIndex(sc.packedUnitRanks, i, b);
  }

  lemma {:induction false} WordsBytesIndex(ws: seq<bv32>, i: nat, b: nat)
    requires i < |ws| && b < 4
    ensures WordsBytes(ws)[4 * i + b] == WordBytes(ws[i])[b]
  {
    var head, tail := WordBytes(ws[0]), WordsBytes(ws[1..]);
    assert WordsBytes(ws) == head + tail;
    if i > 0 {
      WordsBytesIndex(ws[1..], i - 1, b);
      assert (head + tail)[4 * i + b] == tail[4 * (i - 1) + b];
    }
  }

  /** Reads a record back from its byte image, at the same offsets. */
  function Parse(img: seq<byte>): (sc: V8)
    requires |img| == Size
    ensures WellFormed(sc)
  {
    var items: seq<EquippedItem3Bytes> := Chunks(img[UnitItemsOffset..BoardUnitIDsOffset], 3, 64);
    var unequipped: seq<EquippedItem3Bytes> := Chunks(img[UnequippedItemsOffset..Size], 3, 20);
    V8(
      img[VersionOffset],
      Chunks(items, 8, 8),
      Chunks(img[BoardUnitIDsOffset..SelectedTalentsOffset], 8, 8),
      Chunks(img[SelectedTalentsOffset..PadOffset], 2, 16),
      WordsOfBytes(img[PackedUnitRanksOffset..BenchUnitItemsOffset]),
      Chunks(img[BenchUnitItemsOffset..BenchedUnitIDsOffset], 3, 8),
      img[BenchedUnitIDsOffset..PackedBenchUnitRanksOffset],
      WordOfBytes(img[PackedBenchUnitRanksOffset..UnderlordIDsOffset]),
      img[UnderlordIDsOffset..UnderlordRanksOffset],
      img[UnderlordRanksOffset..UnequippedItemsOffset],
      Chunks(unequipped, 2, 10))
  }

  /** Parsing the image of a well-formed record gives the record back. */
  lemma ParseImage(sc: V8)
    requires WellFormed(sc)
    ensures |Image(sc)| == Size && Parse(Image(sc)) == sc
  {
    FieldOffsets(sc);
    ChunksFlatten(sc.unitItems, 8, 8);
    ChunksFlatten(Flatten(sc.unitItems), 3, 64);
    ChunksFlatten(sc.boardUnitIDs, 8, 8);
    ChunksFlatten(sc.selectedTalents, 2, 16);
    WordsRoundTrip(sc.packedUnitRanks);
    ChunksFlatten(sc.benchUnitItems, 3, 8);
    WordRoundTrip(sc.packedBenchUnitRanks);
    ChunksFlatten(sc.unequippedItems, 2, 10);
    ChunksFlatten(Flatten(sc.unequippedItems), 3, 20);
  }

  /** The image with the alignment pad, bytes 289..291, set to zero. */
  function ClearPad(img: seq<byte>): (c: seq<byte>)
    requires |img| == Size
    ensures |c| == Size
  {
    seq(Size, i requires 0 <= i < Size => if PadOffset <= i < PackedUnitRanksOffset then 0 else img[i])
  }

  /** The board's items parsed from an image lay out again as image bytes 1..192. */
  lemma ParsedUnitItems(img: seq<byte>)
    requires |img| == Size
    ensures Flatten(Flatten(Parse(img).unitItems)) == img[UnitItemsOffset..BoardUnitIDsOffset]
  {
    var items := img[UnitItemsOffset..BoardUnitIDsOffset];
    var slots: seq<EquippedItem3Bytes> := Chunks(items, 3, 64);
    FlattenChunks(slots, 8, 8);
    FlattenChunks(items, 3, 64);
  }

  /** The spare items parsed from an image lay out again as image bytes 364..423. */
  lemma ParsedUnequippedItems(img: seq<byte>)
    requires |img| == Size
    ensures Flatten(Flatten(Parse(img).unequippedItems)) == img[UnequippedItemsOffset..Size]
  {
    var unequipped := img[UnequippedItemsOffset..Size];
    var spare: seq<EquippedItem3Bytes> := Chunks(unequipped, 3, 20);
    FlattenChunks(spare, 2, 10);
    FlattenChunks(unequipped, 3, 20);
  }

  /** The regions before the pad, parsed from an image, lay out again as the image bytes they were read from. */
  lemma ParsedBoardRegion(img: seq<byte>, k: nat)
    requires |img| == Size && k < 4
    ensures Parts(Parse(img))[k] == img[Offsets[k]..Offsets[k + 1]]
  {
    if k == 0 {
      assert [img[0]] == img[0..1];
    } else if k == 1 {
      ParsedUnitItems(img);
    } else if k == 2 {
      FlattenChunks(img[BoardUnitIDsOffset..SelectedTalentsOffset], 8, 8);
    } else {
      FlattenChunks(img[SelectedTalentsOffset..PadOffset], 2, 16);
    }
  }

  /** The regions after the pad, parsed from an image, lay out again as the image bytes they were read from. */
  lemma ParsedBenchRegion(img: seq<byte>, k: nat)
    requires |img| == Size && 4 < k < 12
    ensures Parts(Parse(img))[k] == img[Offsets[k]..Offsets[k + 1]]
  {
    if k == 5 {
      WordsBytesRoundTrip(img[PackedUnitRanksOffset..BenchUnitItemsOffset]);
    } else if k == 6 {
      FlattenChunks(img[BenchUnitItemsOffset..BenchedUnitIDsOffset], 3, 8);
    } else if k == 8 {
      WordBytesRoundTrip(img[PackedBenchUnitRanksOffset..UnderlordIDsOffset]);
    } else if k == 11 {
      ParsedUnequippedItems(img);
    }
  }

  /** Each region other than the pad, parsed from an image, lays out again as the image bytes it was read from. */
  lemma ParsedRegion(img: seq<byte>, k: nat)
    requires |img| == Size && k < 12 && k != 4
    ensures Parts(Parse(img))[k] == img[Offsets[k]..Offsets[k + 1]]
  {
    if k < 4 {
      ParsedBoardRegion(img, k);
    } else {
      ParsedBenchRegion(img, k);
    }
  }

  /** Every region except the pad lies wholly before or wholly after the pad. */
  lemma RegionAvoidsPad(k: nat)
    requires k < 12 && k != 4
    ensures Offsets[k] <= Offsets[k + 1]
    ensures Offsets[k + 1] <= PadOffset || PackedUnitRanksOffset <= Offsets[k]
  {
    assert k in {0, 1, 2, 3, 5, 6, 7, 8, 9, 10, 11};
  }

  /** Clearing the pad leaves every byte outside it unchanged, and the pad is zero. */
  lemma ClearPadRegion(img: seq<byte>, lo: nat, hi: nat)
    requires |img| == Size && lo <= hi <= Size
    ensures hi <= PadOffset || PackedUnitRanksOffset <= lo ==> ClearPad(img)[lo..hi] == img[lo..hi]
    ensures ClearPad(img)[PadOffset..PackedUnitRanksOffset] == [0, 0, 0]
  {
  }

  /** Two images that agree on every region are equal. */
  lemma EqualByRegions(a: seq<byte>, b: seq<byte>)
    requires |a| == Size && |b| == Size
    requires forall k | 0 <= k < 12 :: a[Offsets[k]..Offsets[k + 1]] == b[Offsets[k]..Offsets[k + 1]]
    ensures a == b
  {
    forall i | 0 <= i < Size ensures a[i] == b[i] {
      var k := RegionOf(i);
      assert a[Offsets[k]..Offsets[k + 1]][i - Offsets[k]] == b[Offsets[k]..Offsets[k + 1]][i - Offsets[k]];
    }
  }

  /** The image of a parsed image is that image with its pad cleared; an image with a zero pad comes back unchanged. */
  lemma ImageParse(img: seq<byte>)
    requires |img| == Size
    ensures Image(Parse(img)) == ClearPad(img)
    ensures img[PadOffset..PackedUnitRanksOffset] == [0, 0, 0] ==> Image(Parse(img)) == img
  {
    var sc := Parse(img);
    var c := ClearPad(img);
    ImageRegion(sc, 0);
    forall k | 0 <= k < 12
      ensures Image(sc)[Offsets[k]..Offsets[k + 1]] == c[Offsets[k]..Offsets[k + 1]]
    {
      ImageRegion(sc, k);
      if k == 4 {
        ClearPadRegion(img, 0, 0);
      } else {
        RegionAvoidsPad(k);
        ParsedRegion(img, k);
        ClearPadRegion(img, Offsets[k], Offsets[k + 1]);
      }
    }
    EqualByRegions(Image(sc), c);
    if img[PadOffset..PackedUnitRanksOffset] == [0, 0, 0] {
      forall i | PadOffset <= i < PackedUnitRanksOffset ensures img[i] == 0 {
        assert img[i] == img[PadOffset..PackedUnitRanksOffset][i - PadOffset];
      }
    }
  }

  /** The region an image index falls in. */
  function RegionOf(i: nat): (k: nat)
    requires i < Size
    ensures k < 12 && Offsets[k] <= i < Offsets[k + 1]
  {
    if i < 1 then 0 else if i < 193 then 1 else if i < 257 then 2 else if i < 289 then 3
    else if i < 292 then 4 else if i < 324 then 5 else if i < 348 then 6 else if i < 356 then 7
    else if i < 360 then 8 else if i < 362 then 9 else if i < 364 then 10 else 11
  }

  /** n zero bytes. */
  function Zeros(n: nat): (z: seq<byte>)
    ensures |z| == n && forall i | 0 <= i < n :: z[i] == 0
  {
    seq(n, _ => 0)
  }

  /** The zero-initialised record Go's `V8{}` denotes. */
  function ZeroV8(): (sc: V8)
    ensures WellFormed(sc)
  {
    Parse(Zeros(Size))
  }

  /** The zero record's image is 424 zero bytes, so a decoder that copies nothing returns it. */
  lemma ZeroImage()
    ensures Image(ZeroV8()) == Zeros(Size)
  {
    var z := Zeros(Size);
    assert z[PadOffset..PackedUnitRanksOffset] == [0, 0, 0];
    ImageParse(z);
  }
}
