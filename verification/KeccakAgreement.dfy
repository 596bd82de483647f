/** The three hashes of the repository are one function: Keccak-256 over 64-bit lanes. */
module KeccakAgreement {
  import opened KeccakSpec
  import opened KeccakMap
  import opened KeccakWords
  import opened KeccakConstants
  import opened KeccakSponge

  // ---------------------------------------------------------------- bytes of a lane

  predicate Bit(b: Octet, i: nat) {
    if i == 0 then b & 0x01 != 0
    else if i == 1 then b & 0x02 != 0
    else if i == 2 then b & 0x04 != 0
    else if i == 3 then b & 0x08 != 0
    else if i == 4 then b & 0x10 != 0
    else if i == 5 then b & 0x20 != 0
    else if i == 6 then b & 0x40 != 0
    else i == 7 && b & 0x80 != 0
  }

  ghost function BitsOf(b: Octet): Word {
    iset i: nat | i < 8 && Bit(b, i)
  }

  /** `w << 8 | byte`, in 64 bits. */
  ghost function PushC(w: Word, b: Octet): Word {
    Left(w, 8) * MASK64 + BitsOf(b)
  }

  /** The same over integers: little-endian reading by `struct.unpack` and `int.from_bytes`. */
  ghost function PushInt(v: Int, b: Octet): Int {
    Left(v, 8) + BitsOf(b)
  }

  ghost function BitAt(v: Int, i: nat, worth: Octet): Octet {
    if i in v then worth else 0
  }

  /** The low byte. */
  ghost function LowByte(v: Int): Octet {
    BitAt(v, 0, 0x01) | BitAt(v, 1, 0x02) | BitAt(v, 2, 0x04) | BitAt(v, 3, 0x08)
    | BitAt(v, 4, 0x10) | BitAt(v, 5, 0x20) | BitAt(v, 6, 0x40) | BitAt(v, 7, 0x80)
  }

  /** `(uint8_t)(w >> 8 * j)`, and byte j as `struct.pack` and `to_bytes` write it. */
  ghost function ByteC(w: Word, j: nat): Octet {
    LowByte(Right(w, 8 * j))
  }

  ghost function ByteInt(v: Int, j: nat): Octet {
    LowByte(Right(v, 8 * j))
  }

  function BytesOf(c: bv64): (bytes: seq<Octet>)
    ensures |bytes| == 8
  {
    [(c & 0xFF) as bv8, ((c >> 8) & 0xFF) as bv8, ((c >> 16) & 0xFF) as bv8, ((c >> 24) & 0xFF) as bv8,
     ((c >> 32) & 0xFF) as bv8, ((c >> 40) & 0xFF) as bv8, ((c >> 48) & 0xFF) as bv8, ((c >> 56) & 0xFF) as bv8]
  }

  /** A table entry as a lane. */
  ghost function Constant(c: bv64): Word {
    Load(Machine(WORDS_C, [], PushC, ByteC), BytesOf(c))
  }

  ghost const CONSTANTS: seq<Word> := seq(|ROUND_CONSTANTS|,
      i requires 0 <= i < |ROUND_CONSTANTS| => Constant(ROUND_CONSTANTS[i]))

  ghost const MACHINE_C: Machine<Word> := Machine(WORDS_C, CONSTANTS, PushC, ByteC)
  ghost const MACHINE_NESTED: Machine<Int> := Machine(WORDS_NESTED, CONSTANTS, PushInt, ByteInt)
  ghost const MACHINE_FLAT: Machine<Int> := Machine(WORDS_FLAT, CONSTANTS, PushInt, ByteInt)

  // ---------------------------------------------------------------- reading a lane

  /** Nothing leaves the word while fewer than eight bytes have been read. */
  lemma {:induction false} LoadWidens(w: Machine<Int>, bytes: seq<Octet>)
    requires |bytes| <= 8 && w.words.zero == iset{} && w.push == PushInt
    ensures Load(w, bytes) == Load(MACHINE_C, bytes)
    ensures forall i :: i in Load(MACHINE_C, bytes) ==> i < 8 * |bytes|
    decreases |bytes|
  {
    if bytes != [] {
      var v := Load(MACHINE_C, bytes[1..]);
      LoadWidens(w, bytes[1..]);
      PushWidens(v, bytes[0], |bytes| - 1);
    }
  }

  lemma PushWidens(v: Word, b: Octet, n: nat)
    requires n < 8 && forall i :: i in v ==> i < 8 * n
    ensures PushInt(v, b) == PushC(v, b)
    ensures forall i :: i in PushC(v, b) ==> i < 8 * (n + 1)
  {
    forall i | i in Left(v, 8)
      ensures i < 8 * (n + 1)
    {
      assert i - 8 in v;
    }
  }

  lemma LoadRespected(w: Machine<Int>)
    requires w.words.zero == iset{} && w.push == PushInt
    ensures forall bytes :: |bytes| == 8 ==> Load(w, bytes) == Widen(Load(MACHINE_C, bytes))
  {
    forall bytes: seq<Octet> | |bytes| == 8
      ensures Load(w, bytes) == Load(MACHINE_C, bytes)
    {
      LoadWidens(w, bytes);
    }
  }

  // ---------------------------------------------------------------- what a byte is

  /** The bits are numbered from the low one. */
  lemma BitIsShift(b: Octet, i: nat)
    requires i < 8
    ensures Bit(b, i) <==> (b >> i) & 1 == 1
  {
    if i == 0 {
    } else if i == 1 {
    } else if i == 2 {
    } else if i == 3 {
    } else if i == 4 {
    } else if i == 5 {
    } else if i == 6 {
    } else {
    }
  }

  /** Bit i of byte k is bit 8k + i of the lane: lanes are read little-endian. */
  lemma {:induction false} LoadedBit(bytes: seq<Octet>, k: nat, i: nat)
    requires |bytes| <= 8 && k < |bytes| && i < 8
    ensures 8 * k + i in Load(MACHINE_C, bytes) <==> Bit(bytes[k], i)
    decreases |bytes|
  {
    var rest := Load(MACHINE_C, bytes[1..]);
    assert 8 * k + i in Left(rest, 8) <==> k > 0 && 8 * (k - 1) + i in rest;
    if k > 0 {
      LoadedBit(bytes[1..], k - 1, i);
    }
  }

  /** The byte of some bits, written out and read, is the byte. */
  lemma LowByteIs(v: Int, b: Octet)
    requires forall i: nat :: i < 8 ==> (i in v <==> Bit(b, i))
    ensures LowByte(v) == b
  {
    assert 0 in v <==> Bit(b, 0);
    assert 1 in v <==> Bit(b, 1);
    assert 2 in v <==> Bit(b, 2);
    assert 3 in v <==> Bit(b, 3);
    assert 4 in v <==> Bit(b, 4);
    assert 5 in v <==> Bit(b, 5);
    assert 6 in v <==> Bit(b, 6);
    assert 7 in v <==> Bit(b, 7);
  }

  /** Writing a lane gives back the eight bytes it was read from. */
  lemma StoreUndoesLoad(block: seq<Octet>)
    requires |block| == 8
    ensures Store(MACHINE_C, Load(MACHINE_C, block)) == block
    ensures Store(MACHINE_NESTED, Load(MACHINE_NESTED, block)) == block
    ensures Store(MACHINE_FLAT, Load(MACHINE_FLAT, block)) == block
  {
    var v := Load(MACHINE_C, block);
    LoadWidens(MACHINE_NESTED, block);
    LoadWidens(MACHINE_FLAT, block);
    forall j | 0 <= j < 8
      ensures LowByte(Right(v, 8 * j)) == block[j]
    {
      forall i: nat | i < 8
        ensures i in Right(v, 8 * j) <==> Bit(block[j], i)
      {
        LoadedBit(block, j, i);
        assert i in Right(v, 8 * j) <==> 8 * j + i in v;
      }
      LowByteIs(Right(v, 8 * j), block[j]);
    }
  }

  /** A table entry is the lane that is written as its bytes, the low one first. */
  lemma ConstantIsStored(c: bv64)
    ensures Store(MACHINE_C, Constant(c)) == BytesOf(c)
    ensures var b := BytesOf(c);
            c == b[0] as bv64 | (b[1] as bv64 << 8) | (b[2] as bv64 << 16) | (b[3] as bv64 << 24)
               | (b[4] as bv64 << 32) | (b[5] as bv64 << 40) | (b[6] as bv64 << 48) | (b[7] as bv64 << 56)
  {
    SameLoad(BytesOf(c));
    StoreUndoesLoad(BytesOf(c));
  }

  /** Reading a lane does not depend on the constants. */
  lemma {:induction false} SameLoad(bytes: seq<Octet>)
    ensures Load(Machine(WORDS_C, [], PushC, ByteC), bytes) == Load(MACHINE_C, bytes)
    decreases |bytes|
  {
    if bytes != [] {
      SameLoad(bytes[1..]);
    }
  }

  // ---------------------------------------------------------------- one hash

  lemma ConstantsRespected()
    ensures CONSTANTS == Mapped(Widen, CONSTANTS)
  {
  }

  lemma NestedSimulates()
    ensures Simulates(MACHINE_C, MACHINE_NESTED, Widen)
  {
    NestedRespects();
    ConstantsRespected();
    LoadRespected(MACHINE_NESTED);
  }

  lemma FlatSimulates()
    ensures Simulates(MACHINE_C, MACHINE_FLAT, Widen)
  {
    FlatRespects();
    ConstantsRespected();
    LoadRespected(MACHINE_FLAT);
  }

  /** The C demo, the catalogue builder and the drift checker hash every message to the same bytes. */
  lemma ThreeKeccaksAgree(message: seq<Octet>)
    ensures Digest(MACHINE_NESTED, message) == Digest(MACHINE_C, message)
    ensures Digest(MACHINE_FLAT, message) == Digest(MACHINE_C, message)
  {
    NestedSimulates();
    FlatSimulates();
    DigestMaps(MACHINE_C, MACHINE_NESTED, Widen, message);
    DigestMaps(MACHINE_C, MACHINE_FLAT, Widen, message);
  }

  /** Every integer is between 0 and 2^64 - 1. */
  ghost predicate Below(a: seq<Int>) {
    forall k :: 0 <= k < |a| ==> a[k] <= MASK64
  }

  /**
   After any number of absorbed blocks the Python lanes are below 2^64, so writing them as eight bytes
   never raises.
   */
  lemma LanesStayBelow(padded: seq<Octet>)
    ensures Below(Absorb(MACHINE_NESTED, Blank(MACHINE_NESTED), padded))
    ensures Below(Absorb(MACHINE_FLAT, Blank(MACHINE_FLAT), padded))
  {
    NestedSimulates();
    FlatSimulates();
    BlankMaps(MACHINE_C, MACHINE_NESTED, Widen);
    BlankMaps(MACHINE_C, MACHINE_FLAT, Widen);
    AbsorbMaps(MACHINE_C, MACHINE_NESTED, Widen, Blank(MACHINE_C), padded);
    AbsorbMaps(MACHINE_C, MACHINE_FLAT, Widen, Blank(MACHINE_C), padded);
    WidenedIsBelow(Absorb(MACHINE_C, Blank(MACHINE_C), padded));
  }

  lemma WidenedIsBelow(a: seq<Word>)
    ensures Below(Mapped(Widen, a))
  {
    forall k | 0 <= k < |a|
      ensures Mapped(Widen, a)[k] <= MASK64
    {
      assert Mapped(Widen, a)[k] == a[k];
    }
  }
}
