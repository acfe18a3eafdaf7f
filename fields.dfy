/**
 * Field codecs of the version-8 share code: the 3-byte equipped-item slot,
 * the little-endian 32-bit word the record stores its rank words in, and the
 * packed unit-rank word (4 bits per unit, 8 units per word).
 */
module FieldCodecs {

  type byte = bv8

  /** Number of cells per board row or column, and of units per rank word. */
  const BoardCellNum := 8

  // ---------------------------------------------------------------------
  // Equipped item slot
  // ---------------------------------------------------------------------

  /** An equipped item reference; item id 0 means no item. */
  datatype EquippedItem = EquippedItem(itemID: bv16)

  /** The on-wire slot: low byte of the id, high byte, one unused byte. */
  type EquippedItem3Bytes = s: seq<byte> | |s| == 3 witness [0, 0, 0]

  /** Splits the id little-endian into the first two bytes; the third is always 0. */
  function NewEquippedItem3Bytes(item: EquippedItem): (slot: EquippedItem3Bytes)
    ensures (slot[0] as bv16) | ((slot[1] as bv16) << 8) == item.itemID
    ensures slot[2] == 0
  {
    var i := item.itemID;
    var h, l := (i >> 8) as byte, (i & 0xff) as byte;
    [l, h, 0]
  }

  /** Reads bytes 0 and 1 as a little-endian uint16; byte 2 is never looked at. */
  function ToEquippedItem(slot: EquippedItem3Bytes): (item: EquippedItem)
    ensures item.itemID & 0xff == slot[0] as bv16 && item.itemID >> 8 == slot[1] as bv16
  {
    EquippedItem((slot[0] as bv16) | ((slot[1] as bv16) << 8))
  }

  /** Decoding an encoded slot gives back the item, for every uint16 id. */
  lemma ItemRoundTrip(item: EquippedItem)
    ensures ToEquippedItem(NewEquippedItem3Bytes(item)) == item
  {
  }

  /** Re-encoding a decoded slot keeps bytes 0 and 1 and clears the unused byte. */
  lemma SlotRoundTrip(slot: EquippedItem3Bytes)
    ensures NewEquippedItem3Bytes(ToEquippedItem(slot)) == [slot[0], slot[1], 0]
  {
  }

  /** A slot decodes independently of its third byte. */
  lemma SlotIgnoresThirdByte(a: EquippedItem3Bytes, b: EquippedItem3Bytes)
    requires a[0] == b[0] && a[1] == b[1]
    ensures ToEquippedItem(a) == ToEquippedItem(b)
  {
  }

  /** The item codec's known test vectors. */
  lemma ItemVectors()
    ensures NewEquippedItem3Bytes(EquippedItem(10170)) == [186, 39, 0]
    ensures NewEquippedItem3Bytes(EquippedItem(10171)) == [187, 39, 0]
    ensures NewEquippedItem3Bytes(EquippedItem(10201)) == [217, 39, 0]
    ensures ToEquippedItem([186, 39, 0]).itemID == 10170
    ensures ToEquippedItem([187, 39, 0]).itemID == 10171
    ensures ToEquippedItem([217, 39, 0]).itemID == 10201
  {
  }

  // ---------------------------------------------------------------------
  // Little-endian uint32 in the record image
  // ---------------------------------------------------------------------

  /** The four bytes of a uint32 word, least significant first. */
  function WordBytes(w: bv32): (b: seq<byte>)
    ensures |b| == 4
    ensures (b[0] as bv32) | ((b[1] as bv32) << 8) | ((b[2] as bv32) << 16) | ((b[3] as bv32) << 24) == w
  {
    [(w & 0xff) as byte, ((w >> 8) & 0xff) as byte, ((w >> 16) & 0xff) as byte, (w >> 24) as byte]
  }

  /** The uint32 word whose little-endian bytes are b. */
  function WordOfBytes(b: seq<byte>): (w: bv32)
    requires |b| == 4
    ensures w & 0xff == b[0] as bv32 && (w >> 8) & 0xff == b[1] as bv32
    ensures (w >> 16) & 0xff == b[2] as bv32 && w >> 24 == b[3] as bv32
  {
    (b[0] as bv32) | ((b[1] as bv32) << 8) | ((b[2] as bv32) << 16) | ((b[3] as bv32) << 24)
  }

  lemma WordRoundTrip(w: bv32)
    ensures WordOfBytes(WordBytes(w)) == w
  {
  }

  lemma WordBytesRoundTrip(b: seq<byte>)
    requires |b| == 4
    ensures WordBytes(WordOfBytes(b)) == b
  {
  }

  // ---------------------------------------------------------------------
  // Packed unit ranks
  //
  // The model proper is the two loops, PackUnitRanks and UnpackUnitRanks with
  // their inner loops PackRank and UnpackRank, and the reference definitions
  // PackWord and UnpackWord they are proved equal to. The tables LowMasks and
  // Indices and the lemmas and helper functions between them (BvFacts, BvIsCast,
  // SlotTables, PackStep, PackSlot, MaskedBits, UnpackStep, UnpackSlot, ...)
  // only help the bit-vector proofs along and have no counterpart in the source.
  // ---------------------------------------------------------------------

  /** The masks the packer tests, in nibble-slot order 0..3. */
  const PackMasks: seq<byte> := [1, 2, 4, 8]

  /** The output bit the unpacker sets for each nibble slot 0..3: slot 3 goes to bit 4, not bit 3. */
  const UnpackOffsets: seq<byte> := [0, 1, 2, 4]

  /** LowMasks[k] has the low k bits set: the slots a nibble loop has visited after k steps. */
  const LowMasks: seq<byte> := [0, 1, 3, 7, 15]

  /** The indices 0..7 as bit-vectors, for shift amounts. Only the proofs need this table; the source shifts by `i*4 + k` directly. */
  const Indices: seq<bv32> := [0, 1, 2, 3, 4, 5, 6, 7]

  /**
   * A unit or slot index below 8 as a bit-vector shift amount. It is read
   * from a table, not converted, so that proofs about the shifts stay within
   * bit-vector arithmetic. It is proof scaffolding with no counterpart in the
   * source.
   */
  function Bv(i: nat): (b: bv32)
    requires i < BoardCellNum
  {
    Indices[i]
  }

  lemma BvFacts(i: nat, j: nat)
    requires i < BoardCellNum && j < BoardCellNum
    ensures Bv(i) < 8 && (i < 4 ==> Bv(i) < 4) && (Bv(i) == Bv(j)) == (i == j)
    ensures i + 1 < BoardCellNum ==> Bv(i + 1) == Bv(i) + 1
  {
  }

  /**
   * Go's `1 << (i*4 + k)` computed in a uint32: bit 4i+k of the word, or 0
   * once the shift reaches the word width, which happens exactly when i >= 8.
   */
  function UnitBit(i: nat, k: nat): bv32
    requires k < 4
  {
    if i < BoardCellNum then (1 as bv32) << (4 * Bv(i) + Bv(k)) else 0
  }

  /** UnitBit is the plain shift by 4i+k for the first eight units and 0 for every later one. */
  lemma UnitBitShift(i: nat, k: nat)
    requires k < 4
    ensures i < BoardCellNum ==> UnitBit(i, k) == (1 as bv32) << ((4 * i + k) as bv32)
    ensures i >= BoardCellNum ==> UnitBit(i, k) == 0
  {
    if i < BoardCellNum {
      BvIsCast(i);
      BvIsCast(k);
    }
  }

  /** The table Indices agrees with the conversion of a small index to a bit-vector. */
  lemma BvIsCast(i: nat)
    requires i < BoardCellNum
    ensures Bv(i) == i as bv32
  {
    match i
    case 0 => case 1 => case 2 => case 3 => case 4 => case 5 => case 6 => case 7 =>
  }

  /** What the slot index k stands for in the three tables above. */
  lemma SlotTables(k: nat)
    requires k < 4
    ensures PackMasks[k] == (1 as byte) << Bv(k)
    ensures LowMasks[k] & PackMasks[k] == 0 && LowMasks[k + 1] == LowMasks[k] | PackMasks[k]
    ensures (1 as byte) << UnpackOffsets[k] == Spread(PackMasks[k])
  {
  }

  /** The nibble unit i contributes to the packed word: its low four bits, or 0 past the end of the slice. */
  function RankNibble(ranks: seq<byte>, i: nat): byte
  {
    if i < |ranks| then ranks[i] & 0x0F else 0
  }

  /** Nibble i (bits 4i..4i+3) of a packed word. */
  function NibbleOf(w: bv32, i: nat): byte
    requires i < BoardCellNum
  {
    ((w >> (4 * Bv(i))) & 0x0F) as byte
  }

  /**
   * The unpacker's mapping of one nibble to a rank byte: slot bits 0..2 keep
   * their places and slot bit 3 becomes bit 4 (value 16).
   */
  function Spread(nibble: byte): byte
  {
    (nibble & 7) | ((nibble & 8) << 1)
  }

  /** The word holding the nibbles of the first n units, unit i at bit 4i. */
  function PackPrefix(ranks: seq<byte>, n: nat): bv32
    requires n <= BoardCellNum
  {
    if n == 0 then 0 else PackPrefix(ranks, n - 1) | ((RankNibble(ranks, n - 1) as bv32) << (4 * Bv(n - 1)))
  }

  /** Or-ing a nibble x into the free slot m of p sets nibble m to x and keeps the others. */
  lemma NibbleInsert(p: bv32, x: bv32, m: bv32, j: bv32)
    requires m < 8 && j < 8 && x < 16 && p < (1 as bv32) << (4 * m)
    ensures ((p | (x << (4 * m))) >> (4 * j)) & 0x0F == if j == m then x else (p >> (4 * j)) & 0x0F
    ensures m < 7 ==> p | (x << (4 * m)) < (1 as bv32) << (4 * (m + 1))
  {
  }

  /** Nibble i of the prefix word of the first n units is unit i's nibble for i < n and 0 beyond. */
  lemma {:induction false} PackPrefixNibbles(ranks: seq<byte>, n: nat)
    requires n <= BoardCellNum
    ensures n < BoardCellNum ==> PackPrefix(ranks, n) < (1 as bv32) << (4 * Bv(n))
    ensures forall i | 0 <= i < BoardCellNum :: NibbleOf(PackPrefix(ranks, n), i) == if i < n then RankNibble(ranks, i) else 0
  {
    if n > 0 {
      PackPrefixNibbles(ranks, n - 1);
      var p, x, m := PackPrefix(ranks, n - 1), RankNibble(ranks, n - 1) as bv32, Bv(n - 1);
      BvFacts(n - 1, n - 1);
      forall i | 0 <= i < BoardCellNum
        ensures NibbleOf(PackPrefix(ranks, n), i) == if i < n then RankNibble(ranks, i) else 0
      {
        BvFacts(i, n - 1);
        NibbleInsert(p, x, m, Bv(i));
      }
      NibbleInsert(p, x, m, 0);
    }
  }

  /** Slots past the end of the slice add nothing. */
  lemma {:induction false} PackPrefixPastEnd(ranks: seq<byte>, n: nat)
    requires |ranks| <= n <= BoardCellNum
    ensures PackPrefix(ranks, n) == PackPrefix(ranks, |ranks|)
  {
    if n > |ranks| {
      PackPrefixPastEnd(ranks, n - 1);
    }
  }

  /** A packed word is determined by its eight nibbles. */
  lemma NibblesDetermineWord(a: bv32, b: bv32)
    requires forall i | 0 <= i < BoardCellNum :: NibbleOf(a, i) == NibbleOf(b, i)
    ensures a == b
  {
    assert NibbleOf(a, 0) == NibbleOf(b, 0) && NibbleOf(a, 1) == NibbleOf(b, 1);
    assert NibbleOf(a, 2) == NibbleOf(b, 2) && NibbleOf(a, 3) == NibbleOf(b, 3);
    assert NibbleOf(a, 4) == NibbleOf(b, 4) && NibbleOf(a, 5) == NibbleOf(b, 5);
    assert NibbleOf(a, 6) == NibbleOf(b, 6) && NibbleOf(a, 7) == NibbleOf(b, 7);
  }

  /**
   * Reference definition of packing: nibble i of the word is the low nibble
   * of ranks[i], or 0 when the slice has no entry i.
   */
  function PackWord(ranks: seq<byte>): (w: bv32)
    ensures forall i | 0 <= i < BoardCellNum :: NibbleOf(w, i) == RankNibble(ranks, i)
  {
    PackPrefixNibbles(ranks, BoardCellNum);
    PackPrefix(ranks, BoardCellNum)
  }

  /**
   * Reference definition of unpacking: eight bytes, byte i the spread of
   * nibble i. Only bits 0, 1, 2 and 4 can be set, so every byte is at most 23.
   */
  function UnpackWord(w: bv32): (ranks: seq<byte>)
    ensures |ranks| == BoardCellNum
    ensures forall i | 0 <= i < |ranks| :: ranks[i] & 0xE8 == 0 && ranks[i] <= 23
  {
    seq(BoardCellNum, i requires 0 <= i < BoardCellNum => Spread(NibbleOf(w, i)))
  }

  /** Only the low four bits of each of the first eight ranks matter to packing. */
  lemma PackDependsOnlyOnNibbles(a: seq<byte>, b: seq<byte>)
    requires forall i | 0 <= i < BoardCellNum :: RankNibble(a, i) == RankNibble(b, i)
    ensures PackWord(a) == PackWord(b)
  {
    NibblesDetermineWord(PackWord(a), PackWord(b));
  }

  /** Unpacking a packed slice gives, per unit, the spread of its low nibble: a rank with bit 3 comes back as 16. */
  lemma UnpackPack(ranks: seq<byte>, i: nat)
    requires i < BoardCellNum
    ensures UnpackWord(PackWord(ranks))[i] == Spread(RankNibble(ranks, i))
    ensures i < |ranks| && ranks[i] & 0x0F == 8 ==> UnpackWord(PackWord(ranks))[i] == 16
  {
  }

  /** Unpacking inverts packing exactly for eight ranks that are all below 8. */
  lemma UnpackPackIdentity(ranks: seq<byte>)
    ensures UnpackWord(PackWord(ranks)) == ranks <==> |ranks| == BoardCellNum && forall i | 0 <= i < |ranks| :: ranks[i] < 8
  {
    var u := UnpackWord(PackWord(ranks));
    if u == ranks {
      forall i | 0 <= i < |ranks| ensures ranks[i] < 8 {
        assert Spread(ranks[i] & 0x0F) == ranks[i];
      }
    }
    if |ranks| == BoardCellNum && forall i | 0 <= i < |ranks| :: ranks[i] < 8 {
      forall i | 0 <= i < |ranks| ensures u[i] == ranks[i] {
        assert ranks[i] < 8;
      }
    }
  }

  /**
   * On ranks made of the values 1, 2, 4 and 16, the only ones the unpacker
   * produces, a pack and unpack round trip keeps bits 0..2 and loses bit 4:
   * the packer tests mask 8, never 16.
   */
  lemma {:induction false} UnpackPackOnUnpackedValues(ranks: seq<byte>)
    requires |ranks| == BoardCellNum && forall i | 0 <= i < |ranks| :: ranks[i] & 0xE8 == 0
    ensures UnpackWord(PackWord(ranks)) == seq(BoardCellNum, i requires 0 <= i < BoardCellNum => ranks[i] & 7)
  {
    forall i | 0 <= i < BoardCellNum
      ensures UnpackWord(PackWord(ranks))[i] == ranks[i] & 7
    {
      UnpackPack(ranks, i);
      assert ranks[i] & 0xE8 == 0;
    }
  }

  /** A rank of 16 packs to nothing and so does not come back. */
  lemma SixteenIsDropped()
    ensures PackWord([16]) == 0
    ensures UnpackWord(PackWord([16, 0, 0, 0, 0, 0, 0, 0])) == [0, 0, 0, 0, 0, 0, 0, 0]
  {
    PackDependsOnlyOnNibbles([16], []);
  }

  /** Packing an unpacked word drops bit 3 of every nibble. */
  lemma PackUnpack(w: bv32)
    ensures PackWord(UnpackWord(w)) == w & 0x7777_7777
    ensures PackWord(UnpackWord(w)) == w <==> w & 0x8888_8888 == 0
  {
    var u := UnpackWord(w);
    forall i | 0 <= i < BoardCellNum ensures NibbleOf(PackWord(u), i) == NibbleOf(w & 0x7777_7777, i) {
      var s := Bv(i);
      assert ((w & 0x7777_7777) >> (4 * s)) & 0x0F == ((w >> (4 * s)) & 0x0F) & 7;
    }
    NibblesDetermineWord(PackWord(u), w & 0x7777_7777);
  }

  /** The rank-word test vectors, and the two packings made by the demo program. */
  lemma RankVectors()
    ensures PackWord([0, 2, 0, 2, 0, 0, 0, 0]) == 8224
    ensures UnpackWord(8224) == [0, 2, 0, 2, 0, 0, 0, 0]
    ensures PackWord([2]) == 2
    ensures PackWord([0, 0, 0, 0, 0, 0, 3, 0]) == 0x0300_0000
  {
  }

  /** One step of the packer's inner loop: slot k of unit i is or-ed in when the rank has mask k. */
  lemma PackStep(p: bv32, rank: byte, lm: byte, m: byte, pos: bv32, q: bv32)
    requires pos < 8 && q < 4 && m == (1 as byte) << q && lm & m == 0 && lm < 16
    ensures (p | ((rank & lm) as bv32 << (4 * pos))) | (if rank & m == m then (1 as bv32) << (4 * pos + q) else 0)
         == p | ((rank & (lm | m)) as bv32 << (4 * pos))
  {
  }

  /** The bits of rank selected by lm, placed in unit i's slot; 0 past the eighth unit, where Go's shift overflows. */
  function RankSlot(rank: byte, lm: byte, i: nat): bv32
  {
    if i < BoardCellNum then (rank & lm) as bv32 << (4 * Bv(i)) else 0
  }

  /** The packer's inner-loop step stated on the loop's own variables. */
  lemma PackSlot(p: bv32, rank: byte, i: nat, k: nat)
    requires k < 4
    ensures rank & PackMasks[k] == PackMasks[k] ==>
              (p | RankSlot(rank, LowMasks[k], i)) | UnitBit(i, k) == p | RankSlot(rank, LowMasks[k + 1], i)
    ensures rank & PackMasks[k] != PackMasks[k] ==>
              p | RankSlot(rank, LowMasks[k], i) == p | RankSlot(rank, LowMasks[k + 1], i)
  {
    if i < BoardCellNum {
      SlotTables(k);
      BvFacts(i, k);
      PackStep(p, rank, LowMasks[k], PackMasks[k], Bv(i), Bv(k));
    }
  }

  /** Cap(n) is the number of ranks among the first n that can reach the word. */
  function Cap(n: nat): nat
  {
    if n < BoardCellNum then n else BoardCellNum
  }

  /** Appending unit i's low nibble to the prefix of the units before it gives the prefix through i. */
  lemma PackPrefixStep(ranks: seq<byte>, i: nat)
    requires i < |ranks|
    ensures PackPrefix(ranks, Cap(i + 1)) == PackPrefix(ranks, Cap(i)) | RankSlot(ranks[i], 0x0F, i)
  {
    if i < BoardCellNum {
      assert Cap(i + 1) == i + 1 && Cap(i) == i;
      assert RankNibble(ranks, i) == ranks[i] & 0x0F;
    } else {
      var p := PackPrefix(ranks, BoardCellNum);
      assert RankSlot(ranks[i], 0x0F, i) == 0;
      assert p | 0 == p;
    }
  }

  /** What the packer's inner loop has or-ed into p after testing the first k masks. */
  function MaskedBits(p: bv32, rank: byte, i: nat, k: nat): bv32
    requires k <= 4
  {
    if k == 0 then p
    else
      var q := MaskedBits(p, rank, i, k - 1);
      if rank & PackMasks[k - 1] == PackMasks[k - 1] then q | UnitBit(i, k - 1) else q
  }

  /** After k masks the or-ed bits are the bits of rank selected by LowMasks[k], in unit i's slot. */
  lemma {:induction false} MaskedBitsSlot(p: bv32, rank: byte, i: nat, k: nat)
    requires k <= 4
    ensures MaskedBits(p, rank, i, k) == p | RankSlot(rank, LowMasks[k], i)
  {
    if k == 0 {
      assert RankSlot(rank, LowMasks[0], i) == 0;
    } else {
      MaskedBitsSlot(p, rank, i, k - 1);
      PackSlot(p, rank, i, k - 1);
    }
  }

  /** The packer's inner loop: or-s the bits of rank selected by masks 1, 2, 4 and 8 into unit i's slot. */
  method PackRank(packed: bv32, rank: byte, i: nat) returns (packedUnitRank: bv32)
    ensures packedUnitRank == packed | RankSlot(rank, 0x0F, i)
  {
    packedUnitRank := packed;
    for offsetIndex := 0 to 4
      invariant packedUnitRank == MaskedBits(packed, rank, i, offsetIndex)
    {
      if rank & PackMasks[offsetIndex] == PackMasks[offsetIndex] {
        packedUnitRank := packedUnitRank | UnitBit(i, offsetIndex);
      }
    }
    MaskedBitsSlot(packed, rank, i, 4);
  }

  /** Packs up to eight ranks into one word, 4 bits per unit at bit 4i; ranks past the eighth are shifted out. */
  method PackUnitRanks(ranks: seq<byte>) returns (packedUnitRank: bv32)
    ensures packedUnitRank == PackWord(ranks)
  {
    packedUnitRank := 0;
    for i := 0 to |ranks|
      invariant packedUnitRank == PackPrefix(ranks, Cap(i))
    {
      packedUnitRank := PackRank(packedUnitRank, ranks[i], i);
      PackPrefixStep(ranks, i);
    }
    if |ranks| < BoardCellNum {
      PackPrefixPastEnd(ranks, BoardCellNum);
    }
  }

  /** One step of the unpacker's inner loop: slot k of nibble i sets output bit UnpackOffsets[k]. */
  lemma UnpackStep(w: bv32, lm: byte, m: byte, o: byte, pos: bv32, q: bv32)
    requires pos < 8 && q < 4 && m == (1 as byte) << q && lm & m == 0 && lm < 16
    requires o < 8 && (1 as byte) << o == Spread(m)
    ensures Spread(((w >> (4 * pos)) & 0x0F) as byte & lm)
            | (if w & ((1 as bv32) << (4 * pos + q)) == (1 as bv32) << (4 * pos + q) then (1 as byte) << o else 0)
         == Spread(((w >> (4 * pos)) & 0x0F) as byte & (lm | m))
  {
  }

  /** The unpacker's inner-loop step stated on the loop's own variables. */
  lemma UnpackSlot(w: bv32, i: nat, k: nat)
    requires i < BoardCellNum && k < 4
    ensures Spread(NibbleOf(w, i) & LowMasks[k])
            | (if w & UnitBit(i, k) == UnitBit(i, k) then (1 as byte) << UnpackOffsets[k] else 0)
            == Spread(NibbleOf(w, i) & LowMasks[k + 1])
  {
    SlotTables(k);
    BvFacts(i, k);
    UnpackStep(w, LowMasks[k], PackMasks[k], UnpackOffsets[k], Bv(i), Bv(k));
  }

  /** The unpacker's inner loop: for each set bit of nibble i, or-s output bit 0, 1, 2 or 4 into ranks[i]. */
  method UnpackRank(ranks: array<byte>, packedRanks: bv32, i: nat)
    requires i < ranks.Length && i < BoardCellNum && ranks[i] == 0
    modifies ranks
    ensures ranks[i] == Spread(NibbleOf(packedRanks, i))
    ensures forall j | 0 <= j < ranks.Length && j != i :: ranks[j] == old(ranks[j])
  {
    for offsetIndex := 0 to 4
      invariant ranks[i] == Spread(NibbleOf(packedRanks, i) & LowMasks[offsetIndex])
      invariant forall j | 0 <= j < ranks.Length && j != i :: ranks[j] == old(ranks[j])
    {
      var offset := UnpackOffsets[offsetIndex];
      UnpackSlot(packedRanks, i, offsetIndex);
      if packedRanks & UnitBit(i, offsetIndex) == UnitBit(i, offsetIndex) {
        ranks[i] := ranks[i] | ((1 as byte) << offset);
      }
    }
  }

  /** Unpacks a word into eight fresh rank bytes, mapping nibble slots 0..3 to output bits 0, 1, 2 and 4. */
  method UnpackUnitRanks(packedRanks: bv32) returns (result: seq<byte>)
    ensures result == UnpackWord(packedRanks)
  {
    var ranks := new byte[BoardCellNum](_ => 0);
    for i := 0 to ranks.Length
      invariant forall j | 0 <= j < i :: ranks[j] == Spread(NibbleOf(packedRanks, j))
      invariant forall j | i <= j < ranks.Length :: ranks[j] == 0
    {
      UnpackRank(ranks, packedRanks, i);
    }
    result := ranks[..];
  }
}
