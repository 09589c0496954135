/**
 Byte-order helpers of the bitmap example (source/bitmap.c:31-44).

 The example runs on a big-endian PowerPC host while a Windows bitmap stores
 its header fields little-endian. `Flip32` and `Flip16` reverse the bytes of a
 word; applied to what the host reads through a pointer into the file they give
 the little-endian value of those bytes.
 */
module ByteOrder {

  /** Byte `i` of a 32-bit word, counting from the least significant byte. */
  function Byte32(v: bv32, i: nat): bv8
    requires i < 4
  {
    if i == 0 then (v & 0xFF) as bv8
    else if i == 1 then ((v >> 8) & 0xFF) as bv8
    else if i == 2 then ((v >> 16) & 0xFF) as bv8
    else ((v >> 24) & 0xFF) as bv8
  }

  /** Byte `i` of a 16-bit word, counting from the least significant byte. */
  function Byte16(v: bv16, i: nat): bv8
    requires i < 2
  {
    if i == 0 then (v & 0xFF) as bv8 else ((v >> 8) & 0xFF) as bv8
  }

  /** FLIP32: byte i of the result is byte 3 - i of the argument. */
  function Flip32(value: bv32): (b: bv32)
    ensures Byte32(b, 0) == Byte32(value, 3)
    ensures Byte32(b, 1) == Byte32(value, 2)
    ensures Byte32(b, 2) == Byte32(value, 1)
    ensures Byte32(b, 3) == Byte32(value, 0)
  {
    ((value & 0xFF) << 24)
    | ((value & 0xFF00) << 8)
    | ((value & 0xFF0000) >> 8)
    | ((value & 0xFF000000) >> 24)
  }

  /** FLIP16: the two bytes of the argument change places. */
  function Flip16(value: bv16): (b: bv16)
    ensures Byte16(b, 0) == Byte16(value, 1)
    ensures Byte16(b, 1) == Byte16(value, 0)
  {
    ((value & 0xFF) << 8) | ((value & 0xFF00) >> 8)
  }

  /** Two words are equal when all their bytes are. */
  lemma Bytes32Determine(a: bv32, b: bv32)
    requires forall i | 0 <= i < 4 :: Byte32(a, i) == Byte32(b, i)
    ensures a == b
  {
    assert Byte32(a, 0) == Byte32(b, 0);
    assert Byte32(a, 1) == Byte32(b, 1);
    assert Byte32(a, 2) == Byte32(b, 2);
    assert Byte32(a, 3) == Byte32(b, 3);
  }

  /** Reversing the bytes twice gives the word back. */
  lemma Flip32Involution(v: bv32)
    ensures Flip32(Flip32(v)) == v
  {
    Bytes32Determine(Flip32(Flip32(v)), v);
  }

  lemma Flip16Involution(v: bv16)
    ensures Flip16(Flip16(v)) == v
  {
  }

  /** The word a big-endian host reads through a `u32` pointer at offset `o`. */
  function HostLoad32(b: seq<bv8>, o: nat): (v: bv32)
    requires o + 4 <= |b|
    ensures Byte32(v, 3) == b[o] && Byte32(v, 2) == b[o + 1]
    ensures Byte32(v, 1) == b[o + 2] && Byte32(v, 0) == b[o + 3]
  {
    ((b[o] as bv32) << 24) | ((b[o + 1] as bv32) << 16)
    | ((b[o + 2] as bv32) << 8) | (b[o + 3] as bv32)
  }

  /** The half-word a big-endian host reads through a `u16` pointer at offset `o`. */
  function HostLoad16(b: seq<bv8>, o: nat): (v: bv16)
    requires o + 2 <= |b|
    ensures Byte16(v, 1) == b[o] && Byte16(v, 0) == b[o + 1]
  {
    ((b[o] as bv16) << 8) | (b[o + 1] as bv16)
  }

  /** The little-endian 32-bit field stored at offset `o`. */
  function LoadLE32(b: seq<bv8>, o: nat): (v: bv32)
    requires o + 4 <= |b|
    ensures Byte32(v, 0) == b[o] && Byte32(v, 1) == b[o + 1]
    ensures Byte32(v, 2) == b[o + 2] && Byte32(v, 3) == b[o + 3]
  {
    (b[o] as bv32) | ((b[o + 1] as bv32) << 8)
    | ((b[o + 2] as bv32) << 16) | ((b[o + 3] as bv32) << 24)
  }

  /** The little-endian 16-bit field stored at offset `o`. */
  function LoadLE16(b: seq<bv8>, o: nat): (v: bv16)
    requires o + 2 <= |b|
    ensures Byte16(v, 0) == b[o] && Byte16(v, 1) == b[o + 1]
  {
    (b[o] as bv16) | ((b[o + 1] as bv16) << 8)
  }

  /** The four bytes a little-endian file stores for `v`. */
  function StoreLE32(v: bv32): seq<bv8>
  {
    [Byte32(v, 0), Byte32(v, 1), Byte32(v, 2), Byte32(v, 3)]
  }

  /** The two bytes a little-endian file stores for `v`. */
  function StoreLE16(v: bv16): seq<bv8>
  {
    [Byte16(v, 0), Byte16(v, 1)]
  }

  /** FLIP32 applied to the host's read of a field is the little-endian decode of its bytes. */
  lemma FlipHostLoad32(b: seq<bv8>, o: nat)
    requires o + 4 <= |b|
    ensures Flip32(HostLoad32(b, o)) == LoadLE32(b, o)
  {
    Bytes32Determine(Flip32(HostLoad32(b, o)), LoadLE32(b, o));
  }

  /** FLIP16 applied to the host's read of a field is the little-endian decode of its bytes. */
  lemma FlipHostLoad16(b: seq<bv8>, o: nat)
    requires o + 2 <= |b|
    ensures Flip16(HostLoad16(b, o)) == LoadLE16(b, o)
  {
  }

  /** Loading a 32-bit field from the four bytes stored for `v` gives `v` back. */
  lemma LoadStoreLE32(b: seq<bv8>, o: nat, v: bv32)
    requires o + 4 <= |b|
    requires b[o] == Byte32(v, 0) && b[o + 1] == Byte32(v, 1)
    requires b[o + 2] == Byte32(v, 2) && b[o + 3] == Byte32(v, 3)
    ensures LoadLE32(b, o) == v
  {
    Bytes32Determine(LoadLE32(b, o), v);
  }

  /** Loading a 16-bit field from the two bytes stored for `v` gives `v` back. */
  lemma LoadStoreLE16(b: seq<bv8>, o: nat, v: bv16)
    requires o + 2 <= |b|
    requires b[o] == Byte16(v, 0) && b[o + 1] == Byte16(v, 1)
    ensures LoadLE16(b, o) == v
  {
  }

  /** Loading then storing a 32-bit field gives the bytes back. */
  lemma StoreLoadLE32(b: seq<bv8>, o: nat)
    requires o + 4 <= |b|
    ensures StoreLE32(LoadLE32(b, o)) == b[o..o + 4]
  {
  }

  /** Loading then storing a 16-bit field gives the bytes back. */
  lemma StoreLoadLE16(b: seq<bv8>, o: nat)
    requires o + 2 <= |b|
    ensures StoreLE16(LoadLE16(b, o)) == b[o..o + 2]
  {
  }
}
