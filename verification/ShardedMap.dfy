/** The sharded int -> int64 map against one flat map. */
module ShardedMap {
  import opened Varint

  const TWO_32: int := 0x1_0000_0000

  // ----- the hash

  /** Arithmetic shift right of a signed 64-bit word. */
  function ShiftRight(x: bv64, n: bv6): bv64 {
    if x >= 0x8000_0000_0000_0000 then !(!x >> n) else x >> n
  }

  /** The first five mixing rounds, in wrapping 64-bit arithmetic. */
  function Rounds(key: bv64): bv64 {
    var k1 := (key + 0x7ed55d16) + (key << 12);
    var k2 := (k1 ^ 0xc761c23c) ^ ShiftRight(k1, 19);
    var k3 := (k2 + 0x165667b1) + (k2 << 5);
    var k4 := (k3 + 0xd3a2646c) ^ (k3 << 9);
    (k4 + 0xfd7046c5) + (k4 << 3)
  }

  function LastRound(key: bv64): bv64 {
    (key ^ 0xb55a4f09) ^ ShiftRight(key, 16)
  }

  function Mix(key: bv64): bv64 {
    LastRound(Rounds(key))
  }

  /** The signed value the mixing rounds leave. */
  function Mixed(key: int): int {
    var word := Mix((key % TWO_64) as bv64);
    if word >= 0x8000_0000_0000_0000 then word as int - TWO_64 else word as int
  }

  /** Go's remainder takes the sign of the dividend. */
  function Remainder(a: int, n: int): (r: int)
    requires n >= 1
    ensures -n < r < n && (a >= 0 ==> r >= 0) && (a <= 0 ==> r <= 0)
  {
    if a >= 0 then a % n else -(-a % n)
  }

  /** uint32 of the remainder, reduced once more: a negative remainder wraps before the reduction. */
  function Home(key: int, shardCount: int): (h: int)
    requires shardCount >= 1
    ensures 0 <= h < shardCount
  {
    Remainder(Mixed(key), shardCount) % TWO_32 % shardCount
  }

  /** The last round cancels the sign bit, so the hash is never negative, not even for negative keys. */
  lemma MixedNotNegative(key: int)
    ensures Mixed(key) >= 0
  {
    hide Rounds, LastRound;
    SignCancels(Rounds((key % TWO_64) as bv64));
  }

  lemma SignCancels(key: bv64)
    ensures LastRound(key) < 0x8000_0000_0000_0000
  {}

  /** So up to 2^32 shards the home is the plain remainder; the wrap of a negative one never happens. */
  lemma HomeIsRemainder(key: int, shardCount: int)
    requires 1 <= shardCount <= TWO_32
    ensures Home(key, shardCount) == Mixed(key) % shardCount
  {
    hide Mixed;
    MixedNotNegative(key);
    var r := Mixed(key) % shardCount;
    SmallRemainder(r, TWO_32);
    SmallRemainder(r, shardCount);
  }

  lemma SmallRemainder(r: int, n: int)
    requires 0 <= r < n
    ensures r % n == r
  {}

  /** The words of the keys 0, 1, -1 and 123456789. */
  lemma MixInstances()
    ensures Mix(0) == 475834520164647 && Mix(1) == 475843793027510
    ensures Mix(0xffff_ffff_ffff_ffff) == 475845040980354 && Mix(123456789) == 77274515265433293
  {}

  // ----- the shards as one map

  type Shard = map<int, int>

  ghost predicate Homed(shards: seq<Shard>) {
    |shards| >= 1 &&
    forall i, k :: 0 <= i < |shards| && k in shards[i] ==> Home(k, |shards|) == i
  }

  ghost function Flat(shards: seq<Shard>): map<int, int> {
    if shards == [] then map[] else Flat(shards[..|shards| - 1]) + shards[|shards| - 1]
  }

  function Sizes(shards: seq<Shard>): int {
    if shards == [] then 0 else Sizes(shards[..|shards| - 1]) + |shards[|shards| - 1]|
  }

  ghost predicate Disjoint(shards: seq<Shard>) {
    forall i, j, k :: 0 <= i < j < |shards| && k in shards[i] ==> k !in shards[j]
  }

  lemma {:induction false} FlatKeys(shards: seq<Shard>, k: int)
    ensures k in Flat(shards) <==> exists i :: 0 <= i < |shards| && k in shards[i]
  {
    if shards != [] {
      var n := |shards| - 1;
      FlatKeys(shards[..n], k);
      assert shards == shards[..n] + [shards[n]];
    }
  }

  lemma {:induction false} FlatValue(shards: seq<Shard>, i: nat, k: int)
    requires Disjoint(shards) && i < |shards| && k in shards[i]
    ensures k in Flat(shards) && Flat(shards)[k] == shards[i][k]
  {
    var n := |shards| - 1;
    if i < n {
      FlatValue(shards[..n], i, k);
    }
  }

  /** Shards without a common key together hold as many entries as the flat map. */
  lemma {:induction false} SizesIsFlatSize(shards: seq<Shard>)
    requires Disjoint(shards)
    ensures Sizes(shards) == |Flat(shards)|
  {
    if shards != [] {
      var n := |shards| - 1;
      SizesIsFlatSize(shards[..n]);
      var front, last := Flat(shards[..n]), shards[n];
      forall k | k in front ensures k !in last {
        FlatKeys(shards[..n], k);
      }
      assert (front + last).Keys == front.Keys + last.Keys;
      assert |front.Keys + last.Keys| == |front.Keys| + |last.Keys|;
    }
  }

  lemma HomedDisjoint(shards: seq<Shard>)
    requires Homed(shards)
    ensures Disjoint(shards)
  {
    hide Home;
    forall i, j, k | 0 <= i < j < |shards| && k in shards[i] ensures k !in shards[j] {
      assert Home(k, |shards|) == i;
    }
  }

  /** A key is in the flat map exactly when it is in its home shard, with the same value. */
  lemma HomeLookup(shards: seq<Shard>, k: int)
    requires Homed(shards)
    ensures k in Flat(shards) <==> k in shards[Home(k, |shards|)]
    ensures k in Flat(shards) ==> Flat(shards)[k] == shards[Home(k, |shards|)][k]
  {
    hide Home;
    HomedDisjoint(shards);
    FlatKeys(shards, k);
    if k in shards[Home(k, |shards|)] {
      FlatValue(shards, Home(k, |shards|), k);
    }
  }

  /** Changing one key in its home shard changes that key, and nothing else, in the flat map. */
  lemma ReplaceHomeShard(shards: seq<Shard>, k: int, shard: Shard)
    requires Homed(shards)
    requires forall j :: j != k ==> (j in shard <==> j in shards[Home(k, |shards|)])
    requires forall j :: j != k && j in shard ==> shard[j] == shards[Home(k, |shards|)][j]
    ensures Homed(shards[Home(k, |shards|) := shard])
    ensures Flat(shards[Home(k, |shards|) := shard]) ==
            if k in shard then Flat(shards)[k := shard[k]] else Flat(shards) - {k}
  {
    hide Home;
    var h := Home(k, |shards|);
    var shards' := shards[h := shard];
    forall i, j | 0 <= i < |shards'| && j in shards'[i] ensures Home(j, |shards'|) == i {
      assert i != h ==> j in shards[i];
    }
    forall j ensures j in Flat(shards') <==> (if j == k then k in shard else j in Flat(shards))
    {
      HomeLookup(shards, j);
      HomeLookup(shards', j);
    }
    forall j | j in Flat(shards')
      ensures Flat(shards')[j] == if j == k then shard[k] else Flat(shards)[j]
    {
      HomeLookup(shards, j);
      HomeLookup(shards', j);
    }
  }

  class ConcurrentMap {
    const shardCount: int
    const shards: array<Shard>

    ghost predicate Valid()
      reads shards
    {
      shards.Length == shardCount >= 1 && Homed(shards[..])
    }

    ghost function Contents(): map<int, int>
      reads shards
    {
      Flat(shards[..])
    }

    constructor (shardCount: int)
      requires shardCount >= 1
      ensures Valid() && fresh(shards) && Contents() == map[]
    {
      this.shardCount := shardCount;
      var fresh_ := new Shard[shardCount](_ => map[]);
      shards := fresh_;
      new;
      forall k ensures k !in Flat(fresh_[..]) {
        FlatKeys(fresh_[..], k);
      }
    }

    function GetShard(key: int): (h: int)
      requires Valid()
      reads shards
      ensures 0 <= h < shards.Length && h == Home(key, shards.Length)
    {
      Home(key, shardCount)
    }

    /** Replaces the home shard of a key by one that differs from it at most in that key. */
    method Store(key: int, shard: Shard)
      requires Valid()
      requires forall j :: j != key ==> (j in shard <==> j in shards[GetShard(key)])
      requires forall j :: j != key && j in shard ==> shard[j] == shards[GetShard(key)][j]
      modifies shards
      ensures Valid()
      ensures Contents() == if key in shard then old(Contents())[key := shard[key]] else old(Contents()) - {key}
    {
      hide Home;
      ReplaceHomeShard(shards[..], key, shard);
      ghost var before := shards[..];
      shards[GetShard(key)] := shard;
      assert shards[..] == before[Home(key, |before|) := shard];
    }

    method Set(key: int, value: int)
      requires Valid()
      modifies shards
      ensures Valid() && Contents() == old(Contents())[key := value]
    {
      var items := shards[GetShard(key)];
      Store(key, items[key := value]);
    }

    method Upsert(key: int, value: int, cb: (bool, int, int) -> int) returns (res: int)
      requires Valid()
      modifies shards
      ensures Valid() && Contents() == old(Contents())[key := res]
      ensures res == cb(key in old(Contents()), if key in old(Contents()) then old(Contents())[key] else 0, value)
    {
      HomeLookup(shards[..], key);
      var items := shards[GetShard(key)];
      var v, ok := if key in items then items[key] else 0, key in items;
      res := cb(ok, v, value);
      Store(key, items[key := res]);
    }

    method SetIfAbsent(key: int, value: int) returns (stored: bool)
      requires Valid()
      modifies shards
      ensures Valid() && stored == (key !in old(Contents()))
      ensures Contents() == if stored then old(Contents())[key := value] else old(Contents())
    {
      HomeLookup(shards[..], key);
      var items := shards[GetShard(key)];
      stored := key !in items;
      if stored {
        Store(key, items[key := value]);
      }
    }

    method Get(key: int) returns (val: int, ok: bool)
      requires Valid()
      ensures ok <==> key in Contents()
      ensures val == if ok then Contents()[key] else 0
    {
      HomeLookup(shards[..], key);
      var items := shards[GetShard(key)];
      val, ok := if key in items then items[key] else 0, key in items;
    }

    method Has(key: int) returns (ok: bool)
      requires Valid()
      ensures ok <==> key in Contents()
    {
      HomeLookup(shards[..], key);
      ok := key in shards[GetShard(key)];
    }

    method Count() returns (count: int)
      requires Valid()
      ensures count == |Contents()|
    {
      count := 0;
      for i := 0 to shardCount
        invariant count == Sizes(shards[..i])
      {
        assert shards[..i + 1][..i] == shards[..i];
        count := count + |shards[i]|;
      }
      assert shards[..shardCount] == shards[..];
      HomedDisjoint(shards[..]);
      SizesIsFlatSize(shards[..]);
    }

    method Remove(key: int)
      requires Valid()
      modifies shards
      ensures Valid() && Contents() == old(Contents()) - {key}
    {
      var items := shards[GetShard(key)];
      Store(key, items - {key});
    }

    /** The callback decides; its answer is returned even when there was nothing to remove. */
    method RemoveCb(key: int, cb: (int, int, bool) -> bool) returns (remove: bool)
      requires Valid()
      modifies shards
      ensures Valid()
      ensures remove == cb(key, if key in old(Contents()) then old(Contents())[key] else 0, key in old(Contents()))
      ensures Contents() == if remove then old(Contents()) - {key} else old(Contents())
    {
      HomeLookup(shards[..], key);
      var items := shards[GetShard(key)];
      var v, ok := if key in items then items[key] else 0, key in items;
      remove := cb(key, v, ok);
      if remove && ok {
        Store(key, items - {key});
      }
    }

    method Pop(key: int) returns (v: int, exists_: bool)
      requires Valid()
      modifies shards
      ensures Valid() && Contents() == old(Contents()) - {key}
      ensures exists_ <==> key in old(Contents())
      ensures v == if exists_ then old(Contents())[key] else 0
    {
      HomeLookup(shards[..], key);
      var items := shards[GetShard(key)];
      v, exists_ := if key in items then items[key] else 0, key in items;
      Store(key, items - {key});
    }
  }
}
