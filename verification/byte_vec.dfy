/** The slice of `Vec<u8>` the exec scratch buffer uses: contents plus the
    allocated capacity, which is what "no allocation after fork" is about. */
module ByteVec {
  import opened Sys

  datatype Vec = Vec(contents: seq<byte>, capacity: nat) {
    /** A vector never holds more than it has room for. */
    predicate Valid()
    {
      |contents| <= capacity
    }
  }

  function Max(a: int, b: int): int { if a < b then b else a }

  /** `Vec::with_capacity(n)`. */
  function WithCapacity(n: nat): (v: Vec)
    ensures v.Valid() && v.contents == [] && v.capacity == n
  {
    Vec([], n)
  }

  /** Capacity after making room for `need` elements: unchanged when they
      already fit (no reallocation), otherwise the standard library's
      amortised growth (at least double, at least `need`, at least 8). */
  function Grown(capacity: nat, need: nat): (c: nat)
    ensures need <= c && capacity <= c
    ensures need <= capacity ==> c == capacity
  {
    if need <= capacity then capacity else Max(8, Max(2 * capacity, need))
  }

  /** `Vec::truncate(n)`: keeps the first `n` elements, capacity untouched. */
  function Truncate(v: Vec, n: nat): (w: Vec)
    requires v.Valid()
    ensures w.Valid() && w.capacity == v.capacity
    ensures n <= |v.contents| ==> w.contents == v.contents[..n]
    ensures |v.contents| <= n ==> w.contents == v.contents
  {
    if n < |v.contents| then v.(contents := v.contents[..n]) else v
  }

  /** `Vec::extend_from_slice(s)`. */
  function ExtendFromSlice(v: Vec, s: seq<byte>): (w: Vec)
    requires v.Valid()
    ensures w.Valid() && w.contents == v.contents + s
    ensures w.capacity == Grown(v.capacity, |v.contents| + |s|)
  {
    Vec(v.contents + s, Grown(v.capacity, |v.contents| + |s|))
  }

  /** `Vec::push(b)`. */
  function Push(v: Vec, b: byte): (w: Vec)
    requires v.Valid()
    ensures w.Valid() && w.contents == v.contents + [b]
    ensures w.capacity == Grown(v.capacity, |v.contents| + 1)
  {
    Vec(v.contents + [b], Grown(v.capacity, |v.contents| + 1))
  }

  /** The slices laid end to end. */
  function Concat(slices: seq<seq<byte>>): seq<byte>
  {
    if slices == [] then [] else Concat(slices[..|slices| - 1]) + slices[|slices| - 1]
  }

  lemma Concat3(a: seq<byte>, b: seq<byte>, c: seq<byte>)
    ensures Concat([a, b, c]) == a + b + c
  {
    assert [a, b, c][..2] == [a, b];
    assert [a, b][..1] == [a];
    Concat1(a);
    assert Concat([a, b]) == a + b;
  }

  lemma Concat1(a: seq<byte>)
    ensures Concat([a]) == a
  {
    assert [a][..0] == [];
  }

  /** A prefix of the slices never concatenates to more than all of them. */
  lemma {:induction false} ConcatPrefixLength(slices: seq<seq<byte>>, k: nat)
    requires k <= |slices|
    ensures |Concat(slices[..k])| <= |Concat(slices)|
    decreases |slices|
  {
    if k < |slices| {
      var init := slices[..|slices| - 1];
      assert slices[..k] == init[..k];
      ConcatPrefixLength(init, k);
    } else {
      assert slices[..k] == slices;
    }
  }
}
