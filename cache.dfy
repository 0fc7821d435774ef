/** The `Cache` object: a fixed array of slots and the clock and counters,
    updated in place by `Access`. Its state is tied to the value model
    `CacheModel.State`, and each access is proved to perform `CacheModel.Step`. */
module CacheSim {
  import opened CacheModel

  class Cache {
    const numBlocks: nat
    /** Sizes only the unused data payload of each slot; tag derivation does not use it. */
    const blockSize: int
    const cache: array<Block>
    var currentTime: nat
    var cacheMisses: nat
    var readMisses: nat
    var writeMisses: nat
    var cacheSearches: nat

    /** The object's fields as a model state. */
    ghost function Model(): State
      reads this, cache
    {
      State(cache[..], currentTime, cacheSearches, cacheMisses, readMisses, writeMisses)
    }

    ghost predicate Valid()
      reads this, cache
    {
      cache.Length == numBlocks && CacheModel.Valid(Model())
    }

    constructor (numBlocks: nat, blockSize: int)
      requires numBlocks >= 1
      requires blockSize >= 0
      ensures Valid() && fresh(cache)
      ensures this.numBlocks == numBlocks && this.blockSize == blockSize
      ensures Model() == Init(numBlocks)
    {
      this.numBlocks := numBlocks;
      this.blockSize := blockSize;
      cache := new Block[numBlocks](_ => EmptyBlock);
      currentTime, cacheMisses, readMisses, writeMisses, cacheSearches := 0, 0, 0, 0, 0;
      new;
      assert cache[..] == Init(numBlocks).slots;
    }

    /** The search loop: the first valid slot holding `tag`, or -1. */
    method Search(tag: int) returns (blockIndex: int)
      requires cache.Length == numBlocks
      ensures blockIndex == FirstMatchFrom(cache[..], tag, 0)
    {
      blockIndex := -1;
      var i := 0;
      while i < numBlocks
        invariant 0 <= i <= numBlocks
        invariant forall j :: 0 <= j < i ==> !Matches(cache[j], tag)
      {
        if cache[i].valid && cache[i].tag == tag {
          blockIndex := i;
          break;
        }
        i := i + 1;
      }
    }

    /** The replacement loop: one left-to-right pass keeping the last slot that
        is invalid or strictly older than the running minimum. */
    method FindVictim() returns (lruIndex: int)
      requires cache.Length == numBlocks
      ensures lruIndex == Victim(cache[..], currentTime)
    {
      lruIndex := -1;
      var minTime := currentTime;
      for i := 0 to numBlocks
        invariant Candidate(lruIndex, minTime) == LruScan(cache[..], i, currentTime)
      {
        if !cache[i].valid || cache[i].lastAccessTime < minTime {
          lruIndex := i;
          minTime := cache[i].lastAccessTime;
        }
      }
    }

    /** The hit update of slot `i`: the new time, and the dirty bit on a write. */
    method TouchSlot(i: int, write: bool)
      requires cache.Length == numBlocks && 0 <= i < numBlocks
      modifies cache
      ensures cache[..] == old(cache[..])[i := Touch(old(cache[i]), currentTime, write)]
    {
      var block := cache[i].(lastAccessTime := currentTime);
      if write {
        block := block.(dirty := true);
      }
      cache[i] := block;
    }

    /** The victim load of slot `i`: valid, the new tag, the dirty bit on a
        write, and the new time. */
    method LoadSlot(i: int, tag: int, write: bool)
      requires cache.Length == numBlocks && 0 <= i < numBlocks
      modifies cache
      ensures cache[..] == old(cache[..])[i := Load(old(cache[i]), tag, currentTime, write)]
    {
      var victim := cache[i].(valid := true, tag := tag);
      if write {
        victim := victim.(dirty := true);
      }
      cache[i] := victim.(lastAccessTime := currentTime);
    }

    /** One read or write of `memoryAddress`: a linear search for the tag, and
        on a miss a single replacement pass followed by loading the victim. */
    method Access(memoryAddress: int, write: bool)
      requires Valid()
      requires memoryAddress >= 0
      modifies this, cache
      ensures Model() == Step(old(Model()), memoryAddress, write)
      ensures Valid()
    {
      ghost var s0 := cache[..];
      ghost var m0 := Model();
      currentTime := currentTime + 1;
      cacheSearches := cacheSearches + 1;

      var tag := Tag(memoryAddress);
      var blockIndex := Search(tag);
      var hit := blockIndex != -1;

      if !hit {
        cacheMisses := cacheMisses + 1;
        if write {
          writeMisses := writeMisses + 1;
        } else {
          readMisses := readMisses + 1;
        }

        var lruIndex := FindVictim();
        LoadKeepsInvariant(s0, m0.currentTime, tag, write);
        blockIndex := lruIndex;
        ghost var m1 := State(s0[blockIndex := Load(s0[blockIndex], tag, currentTime, write)],
          currentTime, cacheSearches, cacheMisses, readMisses, writeMisses);
        assert Step(m0, memoryAddress, write) == m1;
        LoadSlot(blockIndex, tag, write);
      } else {
        ghost var m1 := State(s0[blockIndex := Touch(s0[blockIndex], currentTime, write)],
          currentTime, cacheSearches, cacheMisses, readMisses, writeMisses);
        assert Step(m0, memoryAddress, write) == m1;
        TouchSlot(blockIndex, write);
      }
    }
  }
}
