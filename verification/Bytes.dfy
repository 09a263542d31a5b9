/** Little-endian integers and C strings inside a byte image. */
module ByteImage {
  import opened Prelude

  // ---------------------------------------------------------------- little-endian integers

  /** The `width` low bytes of a value, least significant byte first. */
  function ToLE(v: nat, width: nat): (bs: Bytes)
    ensures |bs| == width
  {
    if width == 0 then [] else [v % 256] + ToLE(v / 256, width - 1)
  }

  function FromLE(bs: Bytes): nat {
    if |bs| == 0 then 0 else bs[0] + 256 * FromLE(bs[1..])
  }

  function Pow256(width: nat): (p: nat)
    ensures p > 0
  {
    if width == 0 then 1 else 256 * Pow256(width - 1)
  }

  lemma {:induction false} LERoundTrip(v: nat, width: nat)
    requires v < Pow256(width)
    ensures FromLE(ToLE(v, width)) == v
  {
    if width > 0 {
      LERoundTrip(v / 256, width - 1);
      assert ToLE(v, width)[1..] == ToLE(v / 256, width - 1);
    }
  }

  lemma Pow256Values()
    ensures Pow256(4) == U32
    ensures Pow256(8) == U64
  {
    assert Pow256(2) == 65536;
    assert Pow256(4) == 65536 * 65536;
    assert Pow256(6) == 65536 * 65536 * 65536;
  }

  /** The 64-bit word stored at an offset. */
  function Word(img: Bytes, off: nat): nat
    requires off + 8 <= |img|
  {
    FromLE(img[off..off + 8])
  }

  /** The 32-bit half word stored at an offset. */
  function Half(img: Bytes, off: nat): nat
    requires off + 4 <= |img|
  {
    FromLE(img[off..off + 4])
  }

  // ---------------------------------------------------------------- bytes at an offset

  predicate At(img: Bytes, off: nat, bs: Bytes) {
    off + |bs| <= |img| && img[off..off + |bs|] == bs
  }

  predicate WordAt(img: Bytes, off: nat, v: nat) {
    At(img, off, ToLE(v, 8))
  }

  predicate HalfAt(img: Bytes, off: nat, v: nat) {
    At(img, off, ToLE(v, 4))
  }

  lemma {:induction false} FromLEBound(bs: Bytes)
    ensures FromLE(bs) < Pow256(|bs|)
  {
    if |bs| > 0 {
      FromLEBound(bs[1..]);
    }
  }

  lemma HalfBound(img: Bytes, off: nat)
    requires off + 4 <= |img|
    ensures Half(img, off) < U32
  {
    Pow256Values();
    FromLEBound(img[off..off + 4]);
  }

  lemma ReadWord(img: Bytes, off: nat, v: nat)
    requires WordAt(img, off, v) && v < U64
    ensures off + 8 <= |img| && Word(img, off) == v
  {
    Pow256Values();
    LERoundTrip(v, 8);
  }

  lemma ReadHalf(img: Bytes, off: nat, v: nat)
    requires HalfAt(img, off, v) && v < U32
    ensures off + 4 <= |img| && Half(img, off) == v
  {
    Pow256Values();
    LERoundTrip(v, 4);
  }

  lemma AtByte(img: Bytes, off: nat, bs: Bytes, i: nat)
    requires At(img, off, bs) && i < |bs|
    ensures img[off + i] == bs[i]
  {
    assert img[off..off + |bs|][i] == img[off + i];
  }

  lemma AtFrame(a: Bytes, b: Bytes, off: nat, bs: Bytes)
    requires At(a, off, bs) && off + |bs| <= |b|
    requires forall k :: off <= k < off + |bs| ==> a[k] == b[k]
    ensures At(b, off, bs)
  {
  }

  lemma AtConcat(img: Bytes, off: nat, x: Bytes, y: Bytes)
    ensures At(img, off, x + y) <==> At(img, off, x) && At(img, off + |x|, y)
  {
    var n := off + |x| + |y|;
    if n <= |img| {
      var s := img[off..n];
      assert s[..|x|] == img[off..off + |x|] && s[|x|..] == img[off + |x|..n];
      assert (x + y)[..|x|] == x && (x + y)[|x|..] == y;
      assert s == s[..|x|] + s[|x|..];
    }
  }

  /** The image `b` is `a` with `bs` stored at `off`. */
  ghost predicate Patched(a: Bytes, b: Bytes, off: nat, bs: Bytes) {
    && |a| == |b|
    && At(b, off, bs)
    && forall k :: 0 <= k < |a| && !(off <= k < off + |bs|) ==> a[k] == b[k]
  }

  lemma AtPatched(a: Bytes, b: Bytes, off: nat, bs: Bytes, o: nat, w: Bytes)
    requires Patched(a, b, off, bs) && At(a, o, w)
    requires o + |w| <= off || off + |bs| <= o
    ensures At(b, o, w)
  {
    AtFrame(a, b, o, w);
  }

  // ---------------------------------------------------------------- runs of stores

  /** A store of bytes at an offset: an assignment through a typed pointer, or a `strncpy`. */
  datatype Store = Store(off: nat, bs: Bytes) {
    function End(): nat {
      off + |bs|
    }
  }

  /** Stores at increasing, disjoint places below a limit. */
  ghost predicate Ascending(ws: seq<Store>, limit: nat) {
    && (forall i :: 0 <= i < |ws| ==> ws[i].End() <= limit)
    && (forall i, j :: 0 <= i < j < |ws| ==> ws[i].End() <= ws[j].off)
  }

  ghost predicate Touches(ws: seq<Store>, k: nat) {
    exists i :: 0 <= i < |ws| && ws[i].off <= k < ws[i].End()
  }

  /** The image `b` is `a` after the stores. */
  ghost predicate Applied(a: Bytes, b: Bytes, ws: seq<Store>) {
    && |a| == |b|
    && (forall i :: 0 <= i < |ws| ==> At(b, ws[i].off, ws[i].bs))
    && (forall k :: 0 <= k < |a| && !Touches(ws, k) ==> a[k] == b[k])
  }

  // ---------------------------------------------------------------- C strings

  ghost predicate NulFree(s: Bytes) {
    NUL !in s
  }

  function Zeros(n: nat): (z: Bytes)
    ensures |z| == n && forall i :: 0 <= i < n ==> z[i] == 0
  {
    if n == 0 then [] else [0] + Zeros(n - 1)
  }

  /** The bytes `strncpy(dst, src, n)` stores: `src` up to its first NUL, then NULs. */
  function Strncpy(src: Bytes, n: nat): (r: Bytes)
    ensures |r| == n
  {
    if n == 0 then []
    else if |src| == 0 || src[0] == 0 then Zeros(n)
    else [src[0]] + Strncpy(src[1..], n - 1)
  }

  /** A string together with its terminator, as `strncpy` of `|s| + 1` bytes leaves it. */
  function CString(s: Bytes): (r: Bytes)
    ensures |r| == |s| + 1
  {
    Strncpy(s, |s| + 1)
  }

  lemma {:induction false} CStringOfNulFree(s: Bytes)
    requires NulFree(s)
    ensures CString(s) == s + [0]
  {
    if |s| > 0 {
      assert s[0] in s;
      CStringOfNulFree(s[1..]);
      assert s == [s[0]] + s[1..];
    } else {
      assert Zeros(1) == [0];
    }
  }

  /** Every byte after the first NUL is NUL: the values that survive `strncpy`. */
  ghost predicate NulTail(s: Bytes) {
    forall i, j :: 0 <= i < j < |s| && s[i] == 0 ==> s[j] == 0
  }

  /** A value copied by `strncpy` is stored unchanged exactly when nothing but NULs follows its first NUL. */
  lemma {:induction false} StrncpyKeeps(s: Bytes)
    ensures CString(s)[..|s|] == s <==> NulTail(s)
  {
    var c := CString(s);
    if |s| == 0 {
    } else if s[0] == 0 {
      assert c == Zeros(|s| + 1);
      if c[..|s|] == s {
        forall j | 0 <= j < |s| ensures s[j] == 0 {
          assert s[j] == c[..|s|][j] == c[j];
        }
      }
      if NulTail(s) {
        forall j | 0 <= j < |s| ensures s[j] == c[j] {
        }
        assert c[..|s|] == s;
      }
    } else {
      var rest := s[1..];
      StrncpyKeeps(rest);
      assert c == [s[0]] + CString(rest);
      assert c[..|s|] == [s[0]] + CString(rest)[..|rest|];
      assert s == [s[0]] + rest;
      if NulTail(rest) {
        forall i, j | 0 <= i < j < |s| && s[i] == 0 ensures s[j] == 0 {
          assert rest[i - 1] == 0 && rest[j - 1] == s[j];
        }
      } else {
        var i, j :| 0 <= i < j < |rest| && rest[i] == 0 && rest[j] != 0;
        assert s[i + 1] == 0 && s[j + 1] != 0;
      }
      if c[..|s|] == s {
        assert CString(rest)[..|rest|] == c[..|s|][1..] == rest;
      }
    }
  }

  /** The stored string at an offset: its bytes up to the first NUL. */
  function StringAt(img: Bytes, off: nat): Bytes
    decreases |img| - off
  {
    if off >= |img| || img[off] == 0 then [] else [img[off]] + StringAt(img, off + 1)
  }

  lemma {:induction false} StringRead(img: Bytes, off: nat, s: Bytes)
    requires At(img, off, s + [0]) && NulFree(s)
    ensures StringAt(img, off) == s && off + |s| < |img|
    decreases |s|
  {
    AtByte(img, off, s + [0], 0);
    if |s| > 0 {
      assert s[0] in s;
      assert s + [0] == [s[0]] + (s[1..] + [0]);
      AtConcat(img, off, [s[0]], s[1..] + [0]);
      StringRead(img, off + 1, s[1..]);
    }
  }

  // ---------------------------------------------------------------- comparing strings

  datatype Order = Less | Equal | Greater | Fault

  /** The order `std::sort` uses on strings: byte by byte, a proper prefix first. */
  function Compare(x: Bytes, y: Bytes): Order {
    if |x| == 0 then (if |y| == 0 then Equal else Less)
    else if |y| == 0 then Greater
    else if x[0] < y[0] then Less
    else if x[0] > y[0] then Greater
    else Compare(x[1..], y[1..])
  }

  /** `strcmp` of the stored string at `off` with the NUL-terminated `name`; `Fault` when it runs off the image. */
  function StrcmpAt(img: Bytes, off: nat, name: Bytes): Order
    decreases |name|
  {
    if off >= |img| then Fault
    else
      var c, d := img[off], if |name| == 0 then 0 else name[0];
      if c < d then Less
      else if c > d then Greater
      else if c == 0 then Equal
      else StrcmpAt(img, off + 1, name[1..])
  }

  /** `strcmp` on a stored NUL-free string agrees with the order used for sorting. */
  lemma {:induction false} StrcmpIsCompare(img: Bytes, off: nat, s: Bytes, name: Bytes)
    requires At(img, off, s + [0]) && NulFree(s) && NulFree(name)
    ensures StrcmpAt(img, off, name) == Compare(s, name)
    decreases |name|
  {
    AtByte(img, off, s + [0], 0);
    if |s| > 0 {
      assert s[0] in s;
    }
    if |name| > 0 {
      assert name[0] in name;
    }
    if |s| > 0 && |name| > 0 && s[0] == name[0] {
      assert s + [0] == [s[0]] + (s[1..] + [0]);
      AtConcat(img, off, [s[0]], s[1..] + [0]);
      StrcmpIsCompare(img, off + 1, s[1..], name[1..]);
    }
  }

  lemma {:induction false} CompareEqual(x: Bytes, y: Bytes)
    ensures Compare(x, y) == Equal <==> x == y
    ensures Compare(x, y) == Less <==> Compare(y, x) == Greater
    ensures Compare(x, y) != Fault
  {
    if |x| > 0 && |y| > 0 {
      CompareEqual(x[1..], y[1..]);
      assert x == [x[0]] + x[1..] && y == [y[0]] + y[1..];
    }
  }

  lemma {:induction false} CompareTransitive(x: Bytes, y: Bytes, z: Bytes)
    requires Compare(x, y) == Less && Compare(y, z) == Less
    ensures Compare(x, z) == Less
  {
    if |x| > 0 && x[0] == y[0] == z[0] {
      CompareTransitive(x[1..], y[1..], z[1..]);
    }
  }
}
