/** Which chunks a node has, as a set and as a bit string (network/chunk_availability.cc). */
module Availability {
  import opened Prelude

  // ---------------------------------------------------------------- bits

  function Bit(b: nat, j: nat): bool {
    if j == 0 then b % 2 == 1 else Bit(b / 2, j - 1)
  }

  /** `b |= 1 << j`. */
  function SetBit(b: nat, j: nat): nat {
    if j == 0 then b - b % 2 + 1 else b % 2 + 2 * SetBit(b / 2, j - 1)
  }

  function Pow2(n: nat): (p: nat)
    ensures p > 0
  {
    if n == 0 then 1 else 2 * Pow2(n - 1)
  }

  /** The number whose bit `j` tells whether `base + j` is in the set. */
  function FromBits(ids: set<nat>, base: nat, n: nat): (b: nat)
    ensures b < Pow2(n)
    decreases n
  {
    if n == 0 then 0 else (if base in ids then 1 else 0) + 2 * FromBits(ids, base + 1, n - 1)
  }

  lemma {:induction false} BitOfFromBits(ids: set<nat>, base: nat, n: nat, j: nat)
    requires j < n
    ensures Bit(FromBits(ids, base, n), j) <==> base + j in ids
    decreases n
  {
    if j > 0 {
      BitOfFromBits(ids, base + 1, n - 1, j - 1);
    }
  }

  lemma {:induction false} FromBitsAdd(ids: set<nat>, x: nat, base: nat, n: nat)
    ensures FromBits(ids + {x}, base, n) ==
      if base <= x < base + n then SetBit(FromBits(ids, base, n), x - base) else FromBits(ids, base, n)
    decreases n
  {
    if n > 0 {
      FromBitsAdd(ids, x, base + 1, n - 1);
    }
  }

  /** A number is determined by its bits. */
  lemma {:induction false} BitsDetermine(b: nat, ids: set<nat>, base: nat, n: nat)
    requires b < Pow2(n)
    requires forall j: nat :: j < n ==> (Bit(b, j) <==> base + j in ids)
    ensures b == FromBits(ids, base, n)
    decreases n
  {
    if n > 0 {
      forall j: nat | j < n - 1 ensures Bit(b / 2, j) <==> base + 1 + j in ids {
        assert Bit(b, j + 1) <==> base + (j + 1) in ids;
      }
      BitsDetermine(b / 2, ids, base + 1, n - 1);
      assert Bit(b, 0) <==> base + 0 in ids;
    }
  }

  // ---------------------------------------------------------------- sets and bit strings

  /** The ids whose bits are set. */
  ghost predicate Decodes(mask: Bytes, ids: set<nat>) {
    forall x: nat :: x in ids <==> x / 8 < |mask| && Bit(mask[x / 8], x % 8)
  }

  /** The set that a bit string stands for. */
  function Decoded(mask: Bytes): (ids: set<nat>)
    ensures Decodes(mask, ids)
  {
    set x: nat | x < 8 * |mask| && Bit(mask[x / 8], x % 8)
  }

  /** The bit string of a given length with the bits of a set. */
  function Mask(ids: set<nat>, len: nat): (m: Bytes)
    ensures |m| == len && forall i :: 0 <= i < len ==> m[i] == FromBits(ids, 8 * i, 8)
  {
    assert Pow2(8) == 256 by {
      assert Pow2(4) == 16;
    }
    seq(len, i requires 0 <= i < len => FromBits(ids, 8 * i, 8))
  }

  ghost predicate Increasing(ids: seq<nat>) {
    forall i, j :: 0 <= i < j < |ids| ==> ids[i] < ids[j]
  }

  function Elems(ids: seq<nat>): set<nat> {
    set x | x in ids
  }

  /** The length that the program gives a bit string with a largest id. */
  function MaskLength(ids: seq<nat>): nat {
    if |ids| == 0 then 0 else ids[|ids| - 1] / 8 + ids[|ids| - 1] % 8
  }

  /** A node's set of chunks from a bit string. */
  method Decode(mask: Bytes) returns (chunks: set<nat>)
    ensures Decodes(mask, chunks) && chunks == Decoded(mask)
  {
    chunks := {};
    for i := 0 to |mask|
      invariant forall x: nat :: x in chunks <==> x / 8 < i && Bit(mask[x / 8], x % 8)
    {
      chunks := DecodeByte(chunks, mask, i);
    }
  }

  method DecodeByte(before: set<nat>, mask: Bytes, i: nat) returns (chunks: set<nat>)
    requires i < |mask|
    requires forall x: nat :: x in before <==> x / 8 < i && Bit(mask[x / 8], x % 8)
    ensures forall x: nat :: x in chunks <==> x / 8 < i + 1 && Bit(mask[x / 8], x % 8)
  {
    chunks := before;
    for j := 0 to 8
      invariant forall x: nat :: x in chunks <==> (x / 8 < i || (x / 8 == i && x % 8 < j)) && Bit(mask[x / 8], x % 8)
    {
      if Bit(mask[i], j) {
        chunks := chunks + {8 * i + j};
      }
    }
  }

  /** The bit string of a set, whose ids are visited in increasing order; a byte behind the end is not kept. */
  method Bitmask(ids: seq<nat>) returns (mask: Bytes)
    requires Increasing(ids)
    ensures mask == Mask(Elems(ids), MaskLength(ids))
  {
    if |ids| == 0 {
      return [];
    }
    var len := MaskLength(ids);
    mask := seq(len, i => 0);
    Empty(len);
    assert Elems(ids[..0]) == {};
    for k := 0 to |ids|
      invariant mask == Mask(Elems(ids[..k]), len)
    {
      var x := ids[k];
      assert Elems(ids[..k + 1]) == Elems(ids[..k]) + {x};
      MaskAdd(Elems(ids[..k]), x, len);
      if x / 8 < len {
        mask := mask[x / 8 := SetBit(mask[x / 8], x % 8)];
      }
    }
    assert ids[..|ids|] == ids;
  }

  lemma Empty(len: nat)
    ensures Mask({}, len) == seq(len, i => 0)
  {
    forall i | 0 <= i < len ensures Mask({}, len)[i] == 0 {
      NoBits(8 * i, 8);
    }
  }

  lemma {:induction false} NoBits(base: nat, n: nat)
    ensures FromBits({}, base, n) == 0
    decreases n
  {
    if n > 0 {
      NoBits(base + 1, n - 1);
    }
  }

  lemma MaskAdd(ids: set<nat>, x: nat, len: nat)
    ensures x / 8 < len ==>
      var b := SetBit(Mask(ids, len)[x / 8], x % 8);
      b < 256 && Mask(ids + {x}, len) == Mask(ids, len)[x / 8 := b]
    ensures x / 8 >= len ==> Mask(ids + {x}, len) == Mask(ids, len)
  {
    var all := Mask(ids + {x}, len);
    forall i | 0 <= i < len
      ensures all[i] == if i == x / 8 then SetBit(Mask(ids, len)[i], x % 8) else Mask(ids, len)[i]
    {
      FromBitsAdd(ids, x, 8 * i, 8);
    }
  }

  // ---------------------------------------------------------------- round trips

  /** A bit string keeps the ids that it is long enough for. */
  lemma MaskDecodes(ids: set<nat>, len: nat)
    ensures Decodes(Mask(ids, len), set x | x in ids && x / 8 < len)
  {
    var mask := Mask(ids, len);
    forall x: nat ensures x / 8 < |mask| && Bit(mask[x / 8], x % 8) <==> x in ids && x / 8 < len {
      if x / 8 < len {
        BitOfFromBits(ids, 8 * (x / 8), 8, x % 8);
      }
    }
  }

  /** Only one set decodes a bit string. */
  lemma DecodesUnique(mask: Bytes, a: set<nat>, b: set<nat>)
    requires Decodes(mask, a) && Decodes(mask, b)
    ensures a == b
  {
  }

  /**
   The ids come back exactly when there are none or the largest is not a multiple of 8; if
   it is, then this id alone is lost.
   */
  lemma BitmaskRoundTrip(ids: seq<nat>, decoded: set<nat>)
    requires Increasing(ids) && Decodes(Mask(Elems(ids), MaskLength(ids)), decoded)
    ensures decoded == Elems(ids) <==> |ids| == 0 || ids[|ids| - 1] % 8 != 0
    ensures |ids| > 0 && ids[|ids| - 1] % 8 == 0 ==> decoded == Elems(ids) - {ids[|ids| - 1]}
  {
    var len := MaskLength(ids);
    MaskDecodes(Elems(ids), len);
    DecodesUnique(Mask(Elems(ids), len), decoded, set x | x in Elems(ids) && x / 8 < len);
    if |ids| > 0 {
      var max := ids[|ids| - 1];
      assert max in Elems(ids);
      forall x | x in Elems(ids) ensures x / 8 < len <==> x != max || max % 8 != 0 {
        var k :| 0 <= k < |ids| && ids[k] == x;
      }
    }
  }

  /** With one byte for the largest id and all below it nothing is lost. */
  lemma IntendedRoundTrip(ids: seq<nat>, decoded: set<nat>)
    requires Increasing(ids) && |ids| > 0
    requires Decodes(Mask(Elems(ids), ids[|ids| - 1] / 8 + 1), decoded)
    ensures decoded == Elems(ids)
  {
    var len := ids[|ids| - 1] / 8 + 1;
    MaskDecodes(Elems(ids), len);
    DecodesUnique(Mask(Elems(ids), len), decoded, set x | x in Elems(ids) && x / 8 < len);
    forall x | x in Elems(ids) ensures x / 8 < len {
      var k :| 0 <= k < |ids| && ids[k] == x;
    }
  }

  /** A byte of a bit string, which goes on with zeros. */
  function ByteAt(mask: Bytes, i: nat): byte {
    if i < |mask| then mask[i] else 0
  }

  /**
   Decoding a bit string and encoding the set again gives the same bytes up to zeros at the
   end, exactly when the largest id is not a multiple of 8.
   */
  lemma MaskRoundTrip(mask: Bytes, ids: seq<nat>)
    requires Increasing(ids) && Decodes(mask, Elems(ids))
    ensures (forall i: nat :: ByteAt(Mask(Elems(ids), MaskLength(ids)), i) == ByteAt(mask, i)) <==>
            |ids| == 0 || ids[|ids| - 1] % 8 != 0
  {
    var len := MaskLength(ids);
    if |ids| > 0 && ids[|ids| - 1] % 8 == 0 {
      var max := ids[|ids| - 1];
      assert max in Elems(ids);
      assert Bit(mask[len], 0) && ByteAt(mask, len) != 0;
      assert ByteAt(Mask(Elems(ids), len), len) == 0;
    } else {
      forall i: nat ensures ByteAt(Mask(Elems(ids), len), i) == ByteAt(mask, i) {
        SameByte(mask, Elems(ids), i);
        if i >= len {
          NoneBeyond(ids, i);
          NothingThere(Elems(ids), 8 * i, 8);
        }
      }
    }
  }

  lemma NoneBeyond(ids: seq<nat>, i: nat)
    requires Increasing(ids) && i >= MaskLength(ids)
    requires |ids| > 0 ==> ids[|ids| - 1] % 8 != 0
    ensures forall x :: 8 * i <= x < 8 * i + 8 ==> x !in Elems(ids)
  {
    forall x | x in Elems(ids) ensures x < 8 * i {
      var k :| 0 <= k < |ids| && ids[k] == x;
    }
  }

  lemma {:induction false} NothingThere(ids: set<nat>, base: nat, n: nat)
    requires forall x :: base <= x < base + n ==> x !in ids
    ensures FromBits(ids, base, n) == 0
    decreases n
  {
    if n > 0 {
      NothingThere(ids, base + 1, n - 1);
    }
  }

  lemma SameByte(mask: Bytes, ids: set<nat>, i: nat)
    requires Decodes(mask, ids)
    ensures ByteAt(mask, i) == FromBits(ids, 8 * i, 8)
  {
    assert Pow2(8) == 256 by {
      assert Pow2(4) == 16;
    }
    if i < |mask| {
      forall j: nat | j < 8 ensures Bit(mask[i], j) <==> 8 * i + j in ids {
        assert (8 * i + j) / 8 == i && (8 * i + j) % 8 == j;
      }
      BitsDetermine(mask[i], ids, 8 * i, 8);
    } else {
      forall x | 8 * i <= x < 8 * i + 8 ensures x !in ids {
        assert x / 8 == i;
      }
      NothingThere(ids, 8 * i, 8);
    }
  }
}
