/** The last-access tracker: a string -> int64 dictionary. Every operation of the original
    runs under the map's own read/write lock; here each one is a single atomic step. */
module StrInt64 {
  import opened GoInt

  /** `small` holds only pairs that `big` holds too. */
  ghost predicate IsSubMap(small: map<string, int64>, big: map<string, int64>)
  {
    forall k :: k in small ==> k in big && small[k] == big[k]
  }

  /** The number of entries a sampling loop that stops once `count > bound` copies out of
      a map of `size` entries: `bound + 1` of them, never fewer than none, never more than
      there are. */
  function SampleSize(size: nat, bound: int): (r: nat)
  {
    Min(size, Max(bound + 1, 0))
  }

  /** The value `AddOne` stores over `v`: Go's `int64` addition wraps past the maximum. */
  function Incremented(v: int64): (r: int64)
    ensures v < INT64_MAX ==> r == v + 1
    ensures v == INT64_MAX ==> r == INT64_MIN
  {
    Wrap64(v + 1)
  }

  /** The value `SubOne` stores over `v`: one less, floored at 0. The floor is applied to
      the wrapped difference, so the most negative `int64` becomes the most positive. */
  function Decremented(v: int64): (r: int64)
    ensures r >= 0
    ensures v != INT64_MIN ==> r == Max(v - 1, 0)
    ensures v == INT64_MIN ==> r == INT64_MAX
  {
    var after := Wrap64(v - 1);
    if after <= 0 then 0 else after
  }

  /** `SubOne` undoes `AddOne` on every counter value that `AddOne` does not wrap and that
      the floor does not clip. */
  lemma DecrementUndoesIncrement(v: int64)
    requires 0 <= v < INT64_MAX
    ensures Decremented(Incremented(v)) == v
  {
  }

  class StringInt64Map {
    var BM: map<string, int64>

    constructor ()
      ensures BM == map[]
    {
      BM := map[];
    }

    /** The stored value, or 0 for a key that is not present. */
    function Get(k: string): (v: int64)
      reads this
      ensures k in BM ==> v == BM[k]
      ensures k !in BM ==> v == 0
    {
      if k in BM then BM[k] else 0
    }

    /** Stores `v` under `k` and reports whether that changed the map. */
    method Set(k: string, v: int64) returns (changed: bool)
      modifies this`BM
      ensures BM == old(BM)[k := v]
      ensures Get(k) == v
      ensures changed <==> !(k in old(BM) && old(BM)[k] == v)
    {
      if k !in BM {
        BM := BM[k := v];
      } else if BM[k] != v {
        BM := BM[k := v];
      } else {
        return false;
      }
      return true;
    }

    function Check(k: string): (present: bool)
      reads this
      ensures present <==> k in BM
    {
      k in BM
    }

    /** Removes `k`; removing an absent key leaves the map as it was. */
    method Delete(k: string)
      modifies this`BM
      ensures BM == old(BM) - {k}
      ensures k !in BM
      ensures k !in old(BM) ==> BM == old(BM)
    {
      BM := BM - {k};
    }

    /** A copy of the whole map, built entry by entry. */
    method Items() returns (r: map<string, int64>)
      ensures r == BM
    {
      r := map[];
      var rest := BM.Keys;
      while rest != {}
        invariant rest <= BM.Keys
        invariant r.Keys == BM.Keys - rest
        invariant IsSubMap(r, BM)
        decreases rest
      {
        var k :| k in rest;
        r := r[k := BM[k]];
        rest := rest - {k};
      }
    }

    /** The loop that `SomeItems` and `SomeOfItems` share: walk the entries in an
        unspecified order, stop as soon as more than `bound` have been copied. */
    method Sample(bound: int) returns (r: map<string, int64>)
      ensures IsSubMap(r, BM)
      ensures |r| == SampleSize(|BM|, bound)
    {
      r := map[];
      var count := 0;
      var rest := BM.Keys;
      while rest != {}
        invariant rest <= BM.Keys
        invariant r.Keys !! rest
        invariant r.Keys + rest == BM.Keys
        invariant IsSubMap(r, BM)
        invariant count == |r| && |r| + |rest| == |BM|
        invariant count <= Max(bound + 1, 0)
        decreases rest
      {
        var k :| k in rest;
        if count > bound {
          break;
        }
        r := r[k := BM[k]];
        count := count + 1;
        rest := rest - {k};
      }
    }

    /** Some entries of the map: `n + 1` of them when there are that many (the loop tests
        `count > n` before copying), all of them otherwise, none when `n` is negative. */
    method SomeItems(n: int64) returns (r: map<string, int64>)
      ensures IsSubMap(r, BM)
      ensures |r| == SampleSize(|BM|, n)
    {
      r := Sample(n);
    }

    /** Some entries of the map, about a `1/n` share of them: the loop stops once more than
        `Count() / n` (Go's truncating division) have been copied. The quotient is computed
        inside the loop, so a zero `n` panics only when the map has an entry; on an empty
        map the loop never runs and the result is empty. */
    method SomeOfItems(n: int64) returns (r: map<string, int64>)
      requires n != 0 || BM == map[]
      ensures IsSubMap(r, BM)
      ensures BM == map[] ==> r == map[]
      ensures n != 0 ==> |r| == SampleSize(|BM|, TruncDiv(|BM|, n))
    {
      var length := Count();
      if length == 0 {
        return map[];
      }
      r := Sample(TruncDiv(length, n));
    }

    /** The keys of the map, each once, in an unspecified order. */
    method Keys() returns (r: seq<string>)
      ensures forall k :: k in r <==> k in BM
      ensures forall i, j :: 0 <= i < j < |r| ==> r[i] != r[j]
    {
      r := [];
      var rest := BM.Keys;
      while rest != {}
        invariant rest <= BM.Keys
        invariant forall k :: k in r <==> k in BM && k !in rest
        invariant forall i, j :: 0 <= i < j < |r| ==> r[i] != r[j]
        decreases rest
      {
        var k :| k in rest;
        r := r + [k];
        rest := rest - {k};
      }
    }

    function Count(): (n: nat)
      reads this
      ensures n == |BM.Keys|
    {
      |BM|
    }

    /** Adds one to the counter under `k`, an absent key counting as 0. */
    method AddOne(k: string)
      modifies this`BM
      ensures BM == old(BM)[k := Incremented(old(Get(k)))]
    {
      var before := Get(k);
      BM := BM[k := Wrap64(before as int + 1)];
    }

    /** Subtracts one from the counter under `k`, an absent key counting as 0; the stored
        value is never negative. */
    method SubOne(k: string)
      modifies this`BM
      ensures BM == old(BM)[k := Decremented(old(Get(k)))]
      ensures BM[k] >= 0
    {
      var before := Get(k);
      var after := Wrap64(before as int - 1);
      if after <= 0 {
        BM := BM[k := 0];
      } else {
        BM := BM[k := after];
      }
    }
  }
}
