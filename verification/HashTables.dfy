/** A hash table of values that do not carry their own hash: a bucket array that
    finds, inserts and grows only through the hashes and closures its caller
    passes, the way `hashbrown::HashTable` is used by the store and the loader. */
module HashTables {
  import opened Basics

  /** Everything a bucket array holds, with multiplicity. */
  ghost function Held<T>(bs: seq<seq<T>>): multiset<T> {
    if bs == [] then multiset{} else Held(bs[..|bs| - 1]) + multiset(bs[|bs| - 1])
  }

  /** Every element lies in the bucket that `hasher` assigns to it. */
  ghost predicate Filed<T(!new)>(bs: seq<seq<T>>, hasher: T --> U64) {
    forall b | 0 <= b < |bs| :: FiledAt(bs[b], b, |bs|, hasher)
  }

  ghost predicate FiledAt<T(!new)>(bucket: seq<T>, b: nat, n: nat, hasher: T --> U64)
    requires b < n
  {
    forall x | x in bucket :: hasher.requires(x) && hasher(x) % n == b
  }

  lemma {:induction false} HeldContains<T>(bs: seq<seq<T>>, b: nat)
    requires b < |bs|
    ensures forall x | x in bs[b] :: x in Held(bs)
  {
    if b < |bs| - 1 {
      HeldContains(bs[..|bs| - 1], b);
    }
  }

  lemma {:induction false} HeldLocate<T>(bs: seq<seq<T>>, x: T) returns (b: nat)
    requires x in Held(bs)
    ensures b < |bs| && x in bs[b]
  {
    if x in bs[|bs| - 1] {
      b := |bs| - 1;
    } else {
      b := HeldLocate(bs[..|bs| - 1], x);
    }
  }

  lemma {:induction false} HeldPut<T>(bs: seq<seq<T>>, b: nat, x: T)
    requires b < |bs|
    ensures Held(bs[b := bs[b] + [x]]) == Held(bs) + multiset{x}
  {
    var bs' := bs[b := bs[b] + [x]];
    if b == |bs| - 1 {
      assert bs'[..|bs| - 1] == bs[..|bs| - 1];
    } else {
      HeldPut(bs[..|bs| - 1], b, x);
      assert bs'[..|bs| - 1] == bs[..|bs| - 1][b := bs[b] + [x]];
    }
  }

  lemma {:induction false} HeldEmpty<T>(bs: seq<seq<T>>)
    requires forall b | 0 <= b < |bs| :: bs[b] == []
    ensures Held(bs) == multiset{}
  {
    if bs != [] {
      HeldEmpty(bs[..|bs| - 1]);
    }
  }

  lemma FiledPut<T(!new)>(bs: seq<seq<T>>, x: T, hasher: T --> U64)
    requires bs != [] && Filed(bs, hasher) && hasher.requires(x)
    ensures var b := hasher(x) % |bs|; Filed(bs[b := bs[b] + [x]], hasher)
  {
    var b := hasher(x) % |bs|;
    var bs' := bs[b := bs[b] + [x]];
    forall c | 0 <= c < |bs'|
      ensures FiledAt(bs'[c], c, |bs'|, hasher)
    {
      assert FiledAt(bs[c], c, |bs|, hasher);
    }
  }

  /** The scan of one bucket. */
  function FindIn<T>(bucket: seq<T>, eq: T --> bool): (r: Option<T>)
    requires forall x | x in bucket :: eq.requires(x)
    ensures r.Some? ==> r.value in bucket && eq(r.value)
    ensures r.None? ==> forall x | x in bucket :: !eq(x)
  {
    if bucket == [] then None
    else if eq(bucket[0]) then Some(bucket[0])
    else FindIn(bucket[1..], eq)
  }

  class HashTable<T(!new)> {
    var buckets: array<seq<T>>
    var count: nat

    ghost function Items(): multiset<T>
      reads this, buckets
    {
      Held(buckets[..])
    }

    ghost predicate Valid()
      reads this, buckets
    {
      buckets.Length > 0 && count == |Items()|
    }

    ghost predicate FiledBy(hasher: T --> U64)
      reads this, buckets
    {
      Filed(buckets[..], hasher)
    }

    constructor WithCapacity(capacity: nat)
      ensures Valid() && fresh(buckets) && Items() == multiset{}
      ensures forall hasher: T --> U64 :: FiledBy(hasher)
    {
      buckets := new seq<T>[capacity + 1](_ => []);
      count := 0;
      new;
      HeldEmpty(buckets[..]);
    }

    /** The first element of the bucket for `hash` that satisfies `eq`. */
    function Find(hash: U64, eq: T --> bool): (r: Option<T>)
      requires Valid()
      requires forall x | x in Items() :: eq.requires(x)
      reads this, buckets
      ensures r.Some? ==> r.value in Items() && eq(r.value)
    {
      HeldContains(buckets[..], hash % buckets.Length);
      FindIn(buckets[hash % buckets.Length], eq)
    }

    /** When the elements are filed by `hasher` and `eq` never accepts an element
        whose hash is not the probed one, a probe misses exactly when no element
        of the whole table is accepted: collisions cost nothing but time. */
    lemma FindMissesExactly(hash: U64, eq: T --> bool, hasher: T --> U64)
      requires Valid() && FiledBy(hasher)
      requires forall x | x in Items() :: eq.requires(x) && hasher.requires(x)
      requires forall x | x in Items() :: eq(x) ==> hasher(x) == hash
      ensures Find(hash, eq).None? <==> forall x | x in Items() :: !eq(x)
    {
      if Find(hash, eq).None? {
        forall x | x in Items()
          ensures !eq(x)
        {
          var b := HeldLocate(buckets[..], x);
          assert FiledAt(buckets[..][b], b, buckets.Length, hasher);
        }
      }
    }

    /** Appends `value` to its bucket, re-filing everything into a larger array
        first when the load factor is reached. Uniqueness is not checked. */
    method InsertUnique(hash: U64, value: T, hasher: T --> U64)
      requires Valid() && FiledBy(hasher)
      requires hasher.requires(value) && hasher(value) == hash
      modifies this, buckets
      ensures Valid() && FiledBy(hasher)
      ensures Items() == old(Items()) + multiset{value}
      ensures buckets == old(buckets) || fresh(buckets)
    {
      if 8 * (count + 1) > 7 * buckets.Length {
        Grow(hasher);
      }
      PutAt(buckets, hash, value, hasher);
      count := count + 1;
    }

    /** Doubles the bucket array. The old buckets say nothing about where an
        element belongs in the new array; only `hasher` does. */
    method Grow(hasher: T --> U64)
      requires Valid() && FiledBy(hasher)
      modifies this
      ensures Valid() && FiledBy(hasher)
      ensures Items() == old(Items())
      ensures fresh(buckets) && buckets.Length == 2 * old(buckets.Length)
    {
      var larger := RefileAll(buckets[..], 2 * buckets.Length, hasher);
      buckets := larger;
    }
  }

  method RefileAll<T(!new)>(bs: seq<seq<T>>, n: nat, hasher: T --> U64) returns (larger: array<seq<T>>)
    requires n > 0 && Filed(bs, hasher)
    ensures fresh(larger) && larger.Length == n
    ensures Held(larger[..]) == Held(bs) && Filed(larger[..], hasher)
  {
    larger := new seq<T>[n](_ => []);
    HeldEmpty(larger[..]);
    var i := 0;
    while i < |bs|
      invariant 0 <= i <= |bs|
      invariant Held(larger[..]) == Held(bs[..i])
      invariant Filed(larger[..], hasher)
    {
      assert FiledAt(bs[i], i, |bs|, hasher);
      assert bs[..i + 1][..i] == bs[..i];
      Refile(larger, bs[i], hasher);
      i := i + 1;
    }
    assert bs[..i] == bs;
  }

  lemma TakeOneMore<T>(s: seq<T>, j: nat)
    requires j < |s|
    ensures s[j] in s && multiset(s[..j + 1]) == multiset(s[..j]) + multiset{s[j]}
  {
    assert s[..j + 1] == s[..j] + [s[j]];
  }

  method Refile<T(!new)>(target: array<seq<T>>, bucket: seq<T>, hasher: T --> U64)
    requires target.Length > 0 && Filed(target[..], hasher)
    requires forall x | x in bucket :: hasher.requires(x)
    modifies target
    ensures Filed(target[..], hasher)
    ensures Held(target[..]) == old(Held(target[..])) + multiset(bucket)
  {
    ghost var held := Held(target[..]);
    var j := 0;
    while j < |bucket|
      invariant 0 <= j <= |bucket|
      invariant Filed(target[..], hasher)
      invariant Held(target[..]) == held + multiset(bucket[..j])
    {
      TakeOneMore(bucket, j);
      PutAt(target, hasher(bucket[j]), bucket[j], hasher);
      j := j + 1;
    }
    assert bucket[..j] == bucket;
  }

  /** Files one element under the hash it was probed with. */
  method PutAt<T(!new)>(target: array<seq<T>>, hash: U64, x: T, hasher: T --> U64)
    requires target.Length > 0 && Filed(target[..], hasher)
    requires hasher.requires(x) && hasher(x) == hash
    modifies target
    ensures Filed(target[..], hasher)
    ensures Held(target[..]) == old(Held(target[..])) + multiset{x}
  {
    ghost var before := target[..];
    var b := hash % target.Length;
    HeldPut(before, b, x);
    FiledPut(before, x, hasher);
    target[b] := target[b] + [x];
    assert target[..] == before[b := before[b] + [x]];
  }
}
