/** Types, constants and error codes shared by the whole model. */
module Prelude {

  type byte = x: int | 0 <= x < 256

  type Bytes = seq<byte>

  datatype Option<+T> = None | Some(value: T)

  datatype ErrorCode =
    | OK
    | NOT_FOUND
    | ACCESS_DENIED
    | TOO_LONG
    | NO_DATA
    | BAD_TYPE
    | INTERNAL_ERROR

  // Widths of the integer types of the program.
  const U32 := 0x1_0000_0000
  const U64 := 0x1_0000_0000_0000_0000

  // Bytes of one chunk of the flat disk (4 MB).
  const CHUNK_SIZE := 4194304

  // Byte 0, the terminator of every C string, and the path separator.
  const NUL: byte := 0
  const SLASH: byte := 47

  /** The chunk that holds an offset of the flat disk. */
  function ChunkOf(off: nat): (id: nat)
    ensures id * 4194304 <= off < id * 4194304 + 4194304
  {
    off / 4194304
  }

  /** The position of an offset inside its chunk. */
  function Within(off: nat): (r: nat)
    ensures r < 4194304 && off == ChunkOf(off) * 4194304 + r
  {
    off % 4194304
  }

  /** An offset is determined by its chunk and its position in it. */
  lemma SplitOffset(id: nat, r: nat)
    requires r < CHUNK_SIZE
    ensures ChunkOf(id * 4194304 + r) == id && Within(id * 4194304 + r) == r
  {
  }

  lemma ChunkMonotone(a: nat, b: nat)
    requires a <= b
    ensures ChunkOf(a) <= ChunkOf(b)
  {
  }

  /** The value of an expression over unsigned 64-bit words. */
  function Wrap64(x: int): (r: nat)
    ensures r < U64 && (0 <= x < U64 ==> r == x)
  {
    x % 0x1_0000_0000_0000_0000
  }

  function Min(a: int, b: int): int {
    if a <= b then a else b
  }

  lemma ConcatAssociates<T>(a: seq<T>, b: seq<T>, c: seq<T>)
    ensures a + b + c == a + (b + c)
  {
  }

  /** The values of a function on the elements of a sequence. */
  function Mapped<T, U>(xs: seq<T>, f: T -> U): (ys: seq<U>)
    ensures |ys| == |xs|
    ensures forall i :: 0 <= i < |xs| ==> ys[i] == f(xs[i])
  {
    seq(|xs|, i requires 0 <= i < |xs| => f(xs[i]))
  }

  ghost predicate Distinct<T>(s: seq<T>) {
    forall i, j :: 0 <= i < j < |s| ==> s[i] != s[j]
  }

  lemma DistinctCons<T>(x: T, s: seq<T>)
    ensures Distinct([x] + s) <==> x !in s && Distinct(s)
  {
    var t := [x] + s;
    if Distinct(t) {
      forall i | 0 <= i < |s| ensures s[i] != x {
        assert t[0] != t[i + 1];
      }
      forall i, j | 0 <= i < j < |s| ensures s[i] != s[j] {
        assert t[i + 1] != t[j + 1];
      }
    }
  }

  /** Distinct integers below a bound are no more than the bound: the pigeonhole principle. */
  lemma {:induction false} DistinctBounded(s: seq<int>, lo: int, hi: int)
    requires Distinct(s)
    requires lo <= hi
    requires forall i :: 0 <= i < |s| ==> lo <= s[i] < hi
    ensures |s| <= hi - lo
    decreases hi - lo
  {
    if |s| == 0 {
      return;
    }
    assert lo <= s[0] < hi;
    if hi - 1 in s {
      var k :| 0 <= k < |s| && s[k] == hi - 1;
      var rest := s[..k] + s[k + 1..];
      forall i | 0 <= i < |rest| ensures lo <= rest[i] < hi - 1 {
        var j := if i < k then i else i + 1;
        assert rest[i] == s[j] && s[j] != s[k];
      }
      assert Distinct(rest);
      DistinctBounded(rest, lo, hi - 1);
    } else {
      forall i | 0 <= i < |s| ensures s[i] < hi - 1 {
        assert s[i] in s;
      }
      DistinctBounded(s, lo, hi - 1);
    }
  }

  /** A set whose members all occur in a sequence is no larger than the sequence. */
  lemma {:induction false} SetWithin(s: set<nat>, q: seq<nat>)
    requires forall x :: x in s ==> x in q
    ensures |s| <= |q|
  {
    if |q| > 0 {
      var n := |q| - 1;
      var rest := s - {q[n]};
      forall x | x in rest ensures x in q[..n] {
        var i :| 0 <= i < |q| && q[i] == x;
        assert q[..n][i] == x;
      }
      SetWithin(rest, q[..n]);
      assert |s| <= |rest| + 1 by {
        if q[n] in s {
          assert s == rest + {q[n]};
        } else {
          assert s == rest;
        }
      }
    } else {
      assert forall x :: x in s ==> x in q;
      assert s == {};
    }
  }

  /** A subset is no larger. */
  lemma {:induction false} SubsetSize<T>(a: set<T>, b: set<T>)
    requires a <= b
    ensures |a| <= |b|
  {
    if a != {} {
      var x :| x in a;
      SubsetSize(a - {x}, b - {x});
    }
  }
}
