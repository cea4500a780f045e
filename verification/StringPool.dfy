/** The pool of dictionary strings and the two maps into it. */
module StringPool {
  import opened Base

  const DATA_POOL_CAPACITY := 1000000

  /** size rounded up to a multiple of four. */
  function Aligned(size: nat): (r: nat)
    ensures r % 4 == 0 && size <= r < size + 4
  {
    (size + 3) / 4 * 4
  }

  /** A request of this size passes a check against the capacity. */
  predicate Passes(capacity: nat, fill: nat, size: nat) {
    fill % 4 == 0 && fill + size <= capacity
  }

  /** Checking before rounding keeps an aligned fill level inside every pool whose capacity is aligned, and no other. */
  lemma RoundingStaysInsideExactly(capacity: nat)
    ensures capacity % 4 == 0
      <==> forall fill: nat, size: nat ::
        Passes(capacity, fill, size) ==> fill + Aligned(size) <= capacity
  {
    if capacity % 4 != 0 {
      var fill, size := capacity / 4 * 4, capacity % 4;
      assert Passes(capacity, fill, size) && fill + Aligned(size) > capacity;
    } else {
      forall fill: nat, size: nat | Passes(capacity, fill, size)
        ensures fill + Aligned(size) <= capacity
      {
        RoundingBy(capacity, fill, size);
      }
    }
  }

  lemma RoundingBy(capacity: nat, fill: nat, size: nat)
    requires capacity % 4 == 0 && fill % 4 == 0 && fill + size <= capacity
    ensures fill + Aligned(size) <= capacity && (fill + Aligned(size)) % 4 == 0
  {
    hide Aligned;
    var units, full, used := Aligned(size) / 4, capacity / 4, fill / 4;
    assert Aligned(size) == 4 * units && capacity == 4 * full && fill == 4 * used;
    assert units < full - used + 1;
  }

  /** A block handed out: where it starts in the pool, and what was stored there. */
  datatype Block = Block(start: nat, data: seq<Byte>)

  /** The block is aligned, lies below the fill level, and still holds what was stored in it. */
  predicate Intact(b: Block, pool: seq<Byte>, fill: nat) {
    b.start % 4 == 0 && b.start + |b.data| <= fill <= |pool| && pool[b.start..b.start + |b.data|] == b.data
  }

  /** All blocks are intact, and each ends before the next begins. */
  ghost predicate LaidOut(blocks: seq<Block>, pool: seq<Byte>, fill: nat) {
    && (forall b | b in blocks :: Intact(b, pool, fill))
    && (forall i, j | 0 <= i < j < |blocks| :: blocks[i].start + |blocks[i].data| <= blocks[j].start)
  }

  lemma NothingLaidOut(pool: seq<Byte>)
    ensures LaidOut([], pool, 0)
  {
  }

  /** Writing above the fill level leaves the blocks laid out, and the new one with them. */
  lemma OneMore(blocks: seq<Block>, pool: seq<Byte>, fill: nat, data: seq<Byte>, pool': seq<Byte>, fill': nat)
    requires LaidOut(blocks, pool, fill) && fill % 4 == 0 && fill <= |pool| == |pool'|
    requires fill + |data| <= fill' <= |pool'|
    requires pool'[..fill] == pool[..fill] && pool'[fill..fill + |data|] == data
    ensures LaidOut(blocks + [Block(fill, data)], pool', fill')
  {
    forall b | b in blocks
      ensures Intact(b, pool', fill')
    {
      assert Intact(b, pool, fill);
      assert pool[b.start..b.start + |b.data|] == pool[..fill][b.start..b.start + |b.data|];
      assert pool'[b.start..b.start + |b.data|] == pool'[..fill][b.start..b.start + |b.data|];
    }
    forall i | 0 <= i < |blocks|
      ensures blocks[i].start + |blocks[i].data| <= fill
    {
      assert Intact(blocks[i], pool, fill);
    }
  }

  /** A pointer is a position in the pool. */
  type Pointer = nat

  class Dictionary {
    var dataPool: array?<Byte>
    var dataPoolSize: nat
    var stringKeyMap: map<string, Option<Pointer>>
    var intKeyMap: map<int, Option<Pointer>>
    /** The blocks handed out since the pool was last cleared, in order. */
    ghost var blocks: seq<Block>

    constructor ()
      ensures Valid() && blocks == [] && dataPool == null && stringKeyMap == map[] && intKeyMap == map[]
    {
      dataPool, dataPoolSize, stringKeyMap, intKeyMap, blocks := null, 0, map[], map[], [];
    }

    /** The fill level is aligned and within the capacity, and the blocks handed out are laid out below it. */
    ghost predicate Valid()
      reads this, dataPool
    {
      && dataPoolSize % 4 == 0 && dataPoolSize <= DATA_POOL_CAPACITY
      && (dataPool == null ==> dataPoolSize == 0 && blocks == [])
      && (dataPool != null ==> dataPool.Length == DATA_POOL_CAPACITY && LaidOut(blocks, dataPool[..], dataPoolSize))
    }

    /** The pointer is to a block handed out since the last clearing. */
    ghost predicate Live(p: Pointer)
      reads this
    {
      exists b | b in blocks :: b.start == p
    }

    /** What the pointer reaches is a block handed out since the last clearing, still as it was stored. */
    ghost predicate PointsAtIntact(p: Pointer)
      reads this, dataPool
    {
      dataPool != null && exists b | b in blocks :: b.start == p && Intact(b, dataPool[..], dataPoolSize)
    }

    /** Every value in the two maps is a null pointer or a live block. */
    ghost predicate MapsLive()
      reads this
    {
      && (forall k | k in stringKeyMap && stringKeyMap[k].Some? :: Live(stringKeyMap[k].value))
      && (forall k | k in intKeyMap && intKeyMap[k].Some? :: Live(intKeyMap[k].value))
    }

    /** None for a null pointer; outOfMemory is malloc failing. The size check comes before the rounding. */
    method AddPoolData(data: seq<Byte>, outOfMemory: bool) returns (p: Option<Pointer>)
      requires Valid()
      modifies this`dataPool, this`dataPoolSize, this`blocks, dataPool
      ensures Valid()
      ensures old(dataPool) != null ==> dataPool == old(dataPool)
      ensures old(dataPool) == null && dataPool != null ==> fresh(dataPool)
      ensures p == None <==> old(dataPoolSize) + |data| > 1000000 || (old(dataPool) == null && outOfMemory)
      ensures p == None ==> dataPoolSize == old(dataPoolSize) && blocks == old(blocks)
      ensures p.Some? ==> p.value == old(dataPoolSize) && dataPoolSize == old(dataPoolSize) + Aligned(|data|)
      ensures p.Some? ==> blocks == old(blocks) + [Block(p.value, data)]
      ensures old(MapsLive()) ==> MapsLive()
    {
      hide LaidOut, Aligned, Spliced;
      if dataPoolSize + |data| > DATA_POOL_CAPACITY {
        return None;
      }
      if dataPool == null {
        if outOfMemory {
          return None;
        }
        dataPool := new Byte[DATA_POOL_CAPACITY](_ => 0);
        NothingLaidOut(dataPool[..]);
      }
      var start := dataPoolSize;
      ghost var was := dataPool[..];
      assert LaidOut(blocks, was, start);
      CopyInto(dataPool, start, data);
      var dataSize := Aligned(|data|);
      RoundingBy(DATA_POOL_CAPACITY, start, |data|);
      dataPoolSize := dataPoolSize + dataSize;
      p := Some(dataPoolSize - dataSize);
      assert dataPool[..][..start] == was[..start];
      OneMore(blocks, was, start, data, dataPool[..], dataPoolSize);
      blocks := blocks + [Block(start, data)];
      assert forall b | b in old(blocks) :: b in blocks;
    }

    /** A null value, as AddPoolData returns when it fails, is stored like any other. */
    method AddDictionaryEntry(key: Option<string>, intKey: int, value: Option<Pointer>)
      modifies this`stringKeyMap, this`intKeyMap
      ensures stringKeyMap == if key.Some? then old(stringKeyMap)[key.value := value] else old(stringKeyMap)
      ensures intKeyMap == if intKey != 0 then old(intKeyMap)[intKey := value] else old(intKeyMap)
      ensures old(MapsLive()) && (value.Some? ==> Live(value.value)) ==> MapsLive()
    {
      if key.Some? {
        stringKeyMap := stringKeyMap[key.value := value];
      }
      if intKey != 0 {
        intKeyMap := intKeyMap[intKey := value];
      }
    }

    method GetDictionaryValue(key: string) returns (p: Option<Pointer>)
      ensures p == if key in stringKeyMap then stringKeyMap[key] else None
      ensures MapsLive() && Valid() && p.Some? ==> PointsAtIntact(p.value)
    {
      p := if key in stringKeyMap then stringKeyMap[key] else None;
    }

    method GetDictionaryValueByInt(intKey: int) returns (p: Option<Pointer>)
      ensures p == if intKey in intKeyMap then intKeyMap[intKey] else None
      ensures MapsLive() && Valid() && p.Some? ==> PointsAtIntact(p.value)
    {
      p := if intKey in intKeyMap then intKeyMap[intKey] else None;
    }

    /** The pool is kept and filled anew from its start; nothing reaches the old blocks any more. */
    method ClearDictionaryPool()
      requires Valid()
      modifies this`dataPoolSize, this`stringKeyMap, this`intKeyMap, this`blocks
      ensures Valid() && dataPoolSize == 0 && blocks == [] && stringKeyMap == map[] && intKeyMap == map[] && MapsLive()
    {
      dataPoolSize := 0;
      stringKeyMap := map[];
      intKeyMap := map[];
      blocks := [];
    }
  }
}
