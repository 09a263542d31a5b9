/**
 How the reader resolves paths on the raw image (meta/meta_file_system.cc), as functions
 of the image, and what they find when the image encodes a tree.

 The program follows stored offsets without checking them, and searches with 32-bit
 indices. A read outside the image and an overflowing index have no defined result
 there; here they yield `Undefined`.
 */
module ImageLookup {
  import opened Prelude
  import opened ByteImage
  import opened SourceTree
  import opened Image

  /** What a table search returns: an offset, where 0 means that there is no such row. */
  datatype Search = Offset(n: nat) | Undefined

  predicate RowInImage(img: Bytes, table: nat, i: nat) {
    table + Rows(i) + ENTRY <= |img|
  }

  /** The comparison of row `i` with a name. */
  function RowOrder(img: Bytes, table: nat, i: nat, name: Bytes): Order {
    if RowInImage(img, table, i) then StrcmpAt(img, Word(img, table + Rows(i)), name) else Fault
  }

  function RowValue(img: Bytes, table: nat, i: nat): nat
    requires RowInImage(img, table, i)
  {
    Word(img, table + Rows(i) + WORD)
  }

  /** Binary search in rows `a` to `b`; the row left over is compared last. */
  function BinSearch(img: Bytes, table: nat, a: nat, b: int, name: Bytes): Search
    decreases b - a
  {
    if a < b then
      var m := (a + b) / 2;
      if a + b >= 0x8000_0000 then Undefined else
      match RowOrder(img, table, m, name)
      case Fault => Undefined
      case Equal => Offset(RowValue(img, table, m))
      case Less => BinSearch(img, table, m + 1, b, name)
      case Greater => BinSearch(img, table, a, m - 1, name)
    else
      match RowOrder(img, table, a, name)
      case Fault => Undefined
      case Equal => Offset(RowValue(img, table, a))
      case _ => Offset(0)
  }

  /** A 32-bit unsigned value converted to a signed one. */
  function ToSigned(x: nat): int {
    if x < 0x8000_0000 then x else x - 0x1_0000_0000
  }

  function FindRow(img: Bytes, table: nat, size: nat, name: Bytes): Search {
    if size == 0 then Offset(0) else BinSearch(img, table, 0, ToSigned(size - 1), name)
  }

  /** The child of the node at `off`: its rows are expected right behind `struct Node`. */
  function GetChild(img: Bytes, off: nat, name: Bytes): Search {
    if off + NODE > |img| then Undefined
    else ChildIn(img, off + NODE, IsDir(Half(img, off)), Word(img, off + LENGTH) % 0x1_0000_0000, name)
  }

  function ChildIn(img: Bytes, table: nat, isDir: bool, size: nat, name: Bytes): Search {
    if isDir then FindRow(img, table, size, name) else Offset(0)
  }

  /** Follow components one by one from the node at `off`. */
  function Locate(img: Bytes, off: nat, comps: seq<Bytes>): Search
    decreases |comps|
  {
    if |comps| == 0 then Offset(off)
    else
      match GetChild(img, off, comps[0])
      case Undefined => Undefined
      case Offset(n) => if n == 0 then Offset(0) else Locate(img, n, comps[1..])
  }

  // ---------------------------------------------------------------- searching a sorted table

  /** Row `i` of a table holds a name and a value. */
  ghost predicate Row(img: Bytes, table: nat, i: nat, name: Bytes, value: nat) {
    && RowInImage(img, table, i)
    && At(img, Word(img, table + Rows(i)), name + [0])
    && RowValue(img, table, i) == value
  }

  ghost predicate Table(img: Bytes, table: nat, names: seq<Bytes>, values: seq<nat>) {
    && |names| == |values| <= MAX_ROWS
    && (forall i :: 0 <= i < |names| ==> NulFree(names[i]) && Row(img, table, i, names[i], values[i]))
    && SortedNames(names)
  }

  lemma RowCompare(img: Bytes, table: nat, names: seq<Bytes>, values: seq<nat>, i: nat, name: Bytes)
    requires Table(img, table, names, values) && i < |names| && NulFree(name)
    ensures RowOrder(img, table, i, name) == Compare(names[i], name)
  {
    assert Row(img, table, i, names[i], values[i]);
    StrcmpIsCompare(img, Word(img, table + Rows(i)), names[i], name);
  }

  ghost predicate SortedNames(names: seq<Bytes>) {
    forall i, j :: 0 <= i < j < |names| ==> Compare(names[i], names[j]) == Less
  }

  /** One comparison tells on which side of row `m` a row with the name lies. */
  lemma Probe(names: seq<Bytes>, m: nat, name: Bytes)
    requires SortedNames(names) && m < |names|
    ensures Compare(names[m], name) == Equal ==> names[m] == name
    ensures forall i :: 0 <= i < |names| && names[i] == name ==>
              match Compare(names[m], name)
              case Less => m < i
              case Greater => i < m
              case _ => i == m
  {
    CompareEqual(names[m], name);
    forall i | 0 <= i < |names| && names[i] == name
      ensures match Compare(names[m], name) case Less => m < i case Greater => i < m case _ => i == m
    {
      CompareEqual(names[i], names[m]);
    }
  }

  /** The row in which the search ends, on the names alone. */
  ghost function SearchEnd(names: seq<Bytes>, a: nat, b: int, name: Bytes): nat
    requires a < |names| && b < |names|
    decreases b - a
  {
    if a < b then
      var m := (a + b) / 2;
      match Compare(names[m], name)
      case Less => SearchEnd(names, m + 1, b, name)
      case Greater => SearchEnd(names, a, m - 1, name)
      case _ => m
    else a
  }

  /** Opens `Between`. */
  ghost predicate OpenBetween(k: int) {
    true
  }

  /** A row with the name, if there is one, lies between `a` and `b`; a closed definition. */
  ghost predicate Between(names: seq<Bytes>, a: int, b: int, name: Bytes) {
    forall k: int {:trigger OpenBetween(k)} :: OpenBetween(k) ==>
      forall i :: 0 <= i < |names| && names[i] == name ==> a <= i <= b
  }

  lemma ProbeNarrows(names: seq<Bytes>, a: nat, b: int, name: Bytes)
    requires SortedNames(names) && a < b < |names| && Between(names, a, b, name)
    ensures var m := (a + b) / 2;
      match Compare(names[m], name)
      case Less => Between(names, m + 1, b, name)
      case Greater => Between(names, a, m - 1, name)
      case _ => Between(names, m, m, name)
  {
    assert OpenBetween(0);
    Probe(names, (a + b) / 2, name);
  }

  lemma {:induction false} SearchEndFinds(names: seq<Bytes>, a: nat, b: int, name: Bytes, r: nat)
    requires SortedNames(names) && a < |names| && b < |names| && Between(names, a, b, name)
    requires r == SearchEnd(names, a, b, name)
    ensures r < |names| && Between(names, r, r, name)
    decreases b - a
  {
    if a < b {
      var m := (a + b) / 2;
      ProbeNarrows(names, a, b, name);
      SearchEndStep(names, a, b, name);
      match Compare(names[m], name)
      case Less => SearchEndFinds(names, m + 1, b, name, r);
      case Greater => SearchEndFinds(names, a, m - 1, name, r);
      case _ =>
    } else {
      assert OpenBetween(0);
    }
  }

  /** What a comparison with `name` and a hit yield on each row. */
  ghost predicate Probes(img: Bytes, table: nat, names: seq<Bytes>, values: seq<nat>, name: Bytes) {
    && |names| == |values| <= MAX_ROWS
    && forall i :: 0 <= i < |names| ==>
         && RowInImage(img, table, i)
         && RowOrder(img, table, i, name) == Compare(names[i], name)
         && RowValue(img, table, i) == values[i]
  }

  lemma BinSearchStep(img: Bytes, table: nat, a: nat, b: int, name: Bytes)
    requires a < b && a + b < 0x8000_0000
    ensures var m := (a + b) / 2;
      match RowOrder(img, table, m, name)
      case Less => BinSearch(img, table, a, b, name) == BinSearch(img, table, m + 1, b, name)
      case Greater => BinSearch(img, table, a, b, name) == BinSearch(img, table, a, m - 1, name)
      case _ => true
  {
  }

  lemma SearchEndStep(names: seq<Bytes>, a: nat, b: int, name: Bytes)
    requires a < b < |names|
    ensures var m := (a + b) / 2;
      match Compare(names[m], name)
      case Less => SearchEnd(names, a, b, name) == SearchEnd(names, m + 1, b, name)
      case Greater => SearchEnd(names, a, b, name) == SearchEnd(names, a, m - 1, name)
      case _ => true
  {
  }

  ghost predicate ResultAt(
      img: Bytes, table: nat, names: seq<Bytes>, values: seq<nat>, a: nat, b: int, name: Bytes)
    requires |names| == |values| && a < |names| && b < |names|
  {
    var m := SearchEnd(names, a, b, name);
    && m < |names|
    && BinSearch(img, table, a, b, name) == Offset(if Compare(names[m], name) == Equal then values[m] else 0)
  }

  lemma SearchEndsHere(
      img: Bytes, table: nat, names: seq<Bytes>, values: seq<nat>, a: nat, b: int, name: Bytes)
    requires Probes(img, table, names, values, name)
    requires a < |names| && b < |names|
    requires a < b ==> Compare(names[(a + b) / 2], name) == Equal
    ensures ResultAt(img, table, names, values, a, b, name)
  {
    var m := if a < b then (a + b) / 2 else a;
    assert RowOrder(img, table, m, name) == Compare(names[m], name);
    CompareEqual(names[m], name);
  }

  lemma SearchGoesOn(
      img: Bytes, table: nat, names: seq<Bytes>, values: seq<nat>, a: nat, b: int, name: Bytes)
    requires Probes(img, table, names, values, name)
    requires a < b < |names|
    ensures var m := (a + b) / 2;
      && (Compare(names[m], name) == Less && ResultAt(img, table, names, values, m + 1, b, name) ==>
            ResultAt(img, table, names, values, a, b, name))
      && (Compare(names[m], name) == Greater && ResultAt(img, table, names, values, a, m - 1, name) ==>
            ResultAt(img, table, names, values, a, b, name))
  {
    var m := (a + b) / 2;
    assert RowOrder(img, table, m, name) == Compare(names[m], name);
    BinSearchStep(img, table, a, b, name);
    SearchEndStep(names, a, b, name);
  }

  lemma {:induction false} SearchEndIsResult(
      img: Bytes, table: nat, names: seq<Bytes>, values: seq<nat>, a: nat, b: int, name: Bytes)
    requires Probes(img, table, names, values, name)
    requires a < |names| && b < |names|
    ensures ResultAt(img, table, names, values, a, b, name)
    decreases b - a
  {
    if a < b {
      var m := (a + b) / 2;
      SearchGoesOn(img, table, names, values, a, b, name);
      CompareEqual(names[m], name);
      if Compare(names[m], name) == Less {
        SearchEndIsResult(img, table, names, values, m + 1, b, name);
      } else if Compare(names[m], name) == Greater {
        SearchEndIsResult(img, table, names, values, a, m - 1, name);
      } else {
        SearchEndsHere(img, table, names, values, a, b, name);
      }
    } else {
      SearchEndsHere(img, table, names, values, a, b, name);
    }
  }

  /** A search of sorted names ends at the name exactly when it is there. */
  lemma EndHasName(names: seq<Bytes>, name: Bytes)
    requires |names| > 0 && SortedNames(names) && NulFree(name) && forall i :: 0 <= i < |names| ==> NulFree(names[i])
    ensures var k := SearchEnd(names, 0, |names| - 1, name);
      && k < |names| && (Compare(names[k], name) == Equal <==> names[k] == name)
      && forall i :: 0 <= i < |names| && names[i] == name ==> i == k
  {
    assert OpenBetween(0);
    var k := SearchEnd(names, 0, |names| - 1, name);
    SearchEndFinds(names, 0, |names| - 1, name, k);
    CompareEqual(names[k], name);
  }

  /** A search returns the value of the row with the name, or 0 when there is none. */
  lemma FindRowCorrect(img: Bytes, table: nat, names: seq<Bytes>, values: seq<nat>, name: Bytes)
    requires Table(img, table, names, values) && NulFree(name)
    ensures forall i :: 0 <= i < |names| && names[i] == name ==>
              FindRow(img, table, |names|, name) == Offset(values[i])
    ensures (forall i :: 0 <= i < |names| ==> names[i] != name) ==>
              FindRow(img, table, |names|, name) == Offset(0)
  {
    if |names| > 0 {
      forall i | 0 <= i < |names|
        ensures RowInImage(img, table, i) && RowOrder(img, table, i, name) == Compare(names[i], name)
        ensures RowValue(img, table, i) == values[i]
      {
        RowCompare(img, table, names, values, i, name);
      }
      EndHasName(names, name);
      SearchEndIsResult(img, table, names, values, 0, |names| - 1, name);
    }
  }

  /** The row that a search compares next. */
  function Middle(a: nat, b: int): nat {
    if a < b then (a + b) / 2 else a
  }

  ghost predicate InRow(img: Bytes, table: nat, m: nat, r: Search) {
    RowInImage(img, table, m) && r == Offset(RowValue(img, table, m))
  }

  lemma MiddleWithin(a: nat, b: int, size: nat)
    requires a < size && b < size
    ensures Middle(a, b) < size
    ensures a < b ==> a <= Middle(a, b) < b
  {
  }

  /** Opens `Yields`. */
  ghost predicate OpenSearch(k: int) {
    true
  }

  /** What a search yields; a closed definition. */
  ghost predicate Yields(img: Bytes, table: nat, a: nat, b: int, name: Bytes, r: Search) {
    forall k: int {:trigger OpenSearch(k)} :: OpenSearch(k) ==> r == BinSearch(img, table, a, b, name)
  }

  /** A comparison that ends a search with an offset found it in the row compared. */
  lemma SearchFound(img: Bytes, table: nat, a: nat, b: int, name: Bytes, r: Search)
    requires Yields(img, table, a, b, name, r) && r.Offset? && r.n != 0
    ensures a < b ==> a + b < 0x8000_0000
    ensures RowOrder(img, table, Middle(a, b), name) != Fault
    ensures RowOrder(img, table, Middle(a, b), name) == Equal ==> InRow(img, table, Middle(a, b), r)
    ensures RowOrder(img, table, Middle(a, b), name) != Equal ==> a < b
  {
    assert OpenSearch(0);
  }

  lemma LessGoesOn(img: Bytes, table: nat, a: nat, b: int, name: Bytes, r: Search)
    requires Yields(img, table, a, b, name, r) && a < b && a + b < 0x8000_0000
    requires RowOrder(img, table, Middle(a, b), name) == Less
    ensures Yields(img, table, Middle(a, b) + 1, b, name, r)
  {
    assert OpenSearch(0);
    BinSearchStep(img, table, a, b, name);
  }

  lemma GreaterGoesOn(img: Bytes, table: nat, a: nat, b: int, name: Bytes, r: Search)
    requires Yields(img, table, a, b, name, r) && a < b && a + b < 0x8000_0000
    requires RowOrder(img, table, Middle(a, b), name) == Greater
    ensures Yields(img, table, a, Middle(a, b) - 1, name, r)
  {
    assert OpenSearch(0);
    BinSearchStep(img, table, a, b, name);
  }

  lemma {:induction false} SearchEndsInRow(img: Bytes, table: nat, a: nat, b: int, size: nat, name: Bytes, r: Search)
    returns (m: nat)
    requires a < size && b < size && Yields(img, table, a, b, name, r) && r.Offset? && r.n != 0
    ensures m < size && InRow(img, table, m, r)
    decreases b - a
  {
    SearchFound(img, table, a, b, name, r);
    MiddleWithin(a, b, size);
    m := Middle(a, b);
    match RowOrder(img, table, m, name) {
      case Less =>
        LessGoesOn(img, table, a, b, name, r);
        m := SearchEndsInRow(img, table, m + 1, b, size, name, r);
      case Greater =>
        GreaterGoesOn(img, table, a, b, name, r);
        m := SearchEndsInRow(img, table, a, m - 1, size, name, r);
      case _ =>
    }
  }

  /** Whatever the bytes of a table are, an offset that a search finds is the value of one of its rows. */
  lemma SearchHitsRow(img: Bytes, table: nat, a: nat, b: int, size: nat, name: Bytes, r: Search) returns (m: nat)
    requires a < size && b < size
    requires r == BinSearch(img, table, a, b, name) && r.Offset? && r.n != 0
    ensures m < size && InRow(img, table, m, r)
  {
    m := SearchEndsInRow(img, table, a, b, size, name, r);
  }
}
