/** Value-level model of the fully-associative LRU cache: one slot record per
    block, the whole cache state as a datatype, and `Step`, the effect of one
    `access` call. The class in cache.dfy is proved to follow `Step`. */
module CacheModel {

  /** The source forms a tag by shifting the address right by 4 bits, the
      block offset, whatever block size it was given. On a non-negative address
      that is division by 2^4 = 16: addresses in the same span of 16 share a tag. */
  const OffsetSpan: nat := 16

  /** One cache slot (the metadata of a `CacheBlock`; its data vector is never used). */
  datatype Block = Block(valid: bool, dirty: bool, tag: int, lastAccessTime: int)

  /** A slot as the `CacheBlock` constructor leaves it: invalid, clean, tag -1, time 0. */
  const EmptyBlock: Block := Block(false, false, -1, 0)

  /** The tag of a non-negative address: the address shifted right by
      4 bits, i.e. the index of its 16-address span. */
  function Tag(address: nat): (t: nat)
    ensures t * OffsetSpan <= address < t * OffsetSpan + OffsetSpan
  {
    address / OffsetSpan
  }

  /** The hit test of the search loop. An invalid slot never hits, whatever
      its tag holds (so the sentinel tag -1 of an untouched slot is harmless). */
  predicate Matches(b: Block, tag: int)
    ensures !b.valid ==> !Matches(b, tag)
    ensures Matches(b, tag) ==> b.tag == tag
  {
    b.valid && b.tag == tag
  }

  predicate IsHit(s: seq<Block>, tag: int)
  {
    exists i :: 0 <= i < |s| && Matches(s[i], tag)
  }

  /** The first slot at index `i` or later that matches `tag`, or -1. */
  function FirstMatchFrom(s: seq<Block>, tag: int, i: nat): (r: int)
    requires i <= |s|
    ensures r == -1 || i <= r < |s|
    ensures r == -1 <==> forall j :: i <= j < |s| ==> !Matches(s[j], tag)
    ensures r != -1 ==> Matches(s[r], tag) && forall j :: i <= j < r ==> !Matches(s[j], tag)
    decreases |s| - i
  {
    if i == |s| then -1
    else if Matches(s[i], tag) then i
    else FirstMatchFrom(s, tag, i + 1)
  }

  /** The running state `(lruIndex, minTime)` of the replacement scan. */
  datatype Candidate = Candidate(index: int, minTime: int)

  /** The replacement scan after its first `n` slots, started with
      `lruIndex = -1` and `minTime = now`: a slot becomes the candidate when it
      is invalid or strictly older than the running minimum; the candidate's
      time is then that slot's time. */
  function LruScan(s: seq<Block>, n: nat, now: int): (c: Candidate)
    requires n <= |s|
    ensures -1 <= c.index < n
    ensures c.index != -1 ==> c.minTime == s[c.index].lastAccessTime
    ensures c.index == -1 ==> c.minTime == now
  {
    if n == 0 then Candidate(-1, now)
    else
      var c := LruScan(s, n - 1, now);
      if !s[n - 1].valid || s[n - 1].lastAccessTime < c.minTime
      then Candidate(n - 1, s[n - 1].lastAccessTime)
      else c
  }

  /** The slot the replacement scan picks over the whole cache, or -1. */
  function Victim(s: seq<Block>, now: int): (v: int)
    ensures -1 <= v < |s|
  {
    LruScan(s, |s|, now).index
  }

  /** The scan is still at -1 exactly when every slot it has passed is valid
      and no older than the starting time `now`. */
  lemma {:induction false} LruScanUnset(s: seq<Block>, n: nat, now: int)
    requires n <= |s|
    ensures LruScan(s, n, now).index == -1 <==>
      forall j :: 0 <= j < n ==> s[j].valid && s[j].lastAccessTime >= now
  {
    if n > 0 {
      LruScanUnset(s, n - 1, now);
    }
  }

  /** The replacement rule stated outright: when some slot is invalid, the
      highest-indexed invalid slot; otherwise the lowest-indexed slot holding the
      smallest lastAccessTime. */
  ghost predicate IsLruVictim(s: seq<Block>, v: int)
  {
    0 <= v < |s| &&
    if exists j :: 0 <= j < |s| && !s[j].valid then
      !s[v].valid && forall j :: v < j < |s| ==> s[j].valid
    else
      (forall j :: 0 <= j < |s| ==> s[v].lastAccessTime <= s[j].lastAccessTime) &&
      (forall j :: 0 <= j < v ==> s[v].lastAccessTime < s[j].lastAccessTime)
  }

  /** What holds of the slots of a reachable cache whose clock reads `t`. */
  ghost predicate SlotsInvariant(s: seq<Block>, t: int)
  {
    // invalid slots are untouched; valid ones carry a real tag and a past time
    (forall i :: 0 <= i < |s| ==>
      if s[i].valid then s[i].tag >= 0 && 1 <= s[i].lastAccessTime <= t
      else s[i] == EmptyBlock) &&
    // the cache fills from the end: invalid slots form a prefix
    (forall i, j :: 0 <= i < j < |s| && s[i].valid ==> s[j].valid) &&
    // no two valid slots share a tag or a timestamp
    (forall i, j :: 0 <= i < j < |s| && s[i].valid && s[j].valid ==>
      s[i].tag != s[j].tag && s[i].lastAccessTime != s[j].lastAccessTime)
  }

  /** The fields of a `Cache` object. */
  datatype State = State(
    slots: seq<Block>,
    currentTime: nat,
    cacheSearches: nat,
    cacheMisses: nat,
    readMisses: nat,
    writeMisses: nat)

  /** The consistency of a reachable cache state. */
  ghost predicate Valid(st: State)
  {
    |st.slots| >= 1 &&
    st.cacheSearches == st.currentTime &&
    st.cacheMisses == st.readMisses + st.writeMisses &&
    st.cacheMisses <= st.cacheSearches &&
    SlotsInvariant(st.slots, st.currentTime)
  }

  /** The state the `Cache` constructor builds. */
  function Init(numBlocks: nat): (r: State)
    requires numBlocks >= 1
    ensures Valid(r) && |r.slots| == numBlocks
    ensures forall i :: 0 <= i < numBlocks ==> !r.slots[i].valid
    ensures r.currentTime == 0 && r.cacheMisses == 0
  {
    State(seq(numBlocks, _ => EmptyBlock), 0, 0, 0, 0, 0)
  }

  /** A hit refreshes the slot's time and marks it dirty on a write; the slot
      keeps its validity and tag, so it still matches what it matched. */
  function Touch(b: Block, now: int, write: bool): (r: Block)
    ensures r.valid == b.valid && r.tag == b.tag
    ensures r.lastAccessTime == now
    ensures r.dirty <==> b.dirty || write
  {
    b.(lastAccessTime := now, dirty := b.dirty || write)
  }

  /** A miss loads the victim: it then matches the new tag and carries the new
      time; its dirty bit is set on a write and otherwise kept, never cleared. */
  function Load(b: Block, tag: int, now: int, write: bool): (r: Block)
    ensures Matches(r, tag) && r.lastAccessTime == now
    ensures r.dirty <==> b.dirty || write
  {
    Block(true, b.dirty || write, tag, now)
  }

  /** Once the scan has passed an invalid slot, its candidate is the last
      invalid slot seen, with running minimum 0. */
  lemma {:induction false} LruScanAfterInvalid(s: seq<Block>, t: int, n: nat)
    requires SlotsInvariant(s, t)
    requires n <= |s| && exists j :: 0 <= j < n && !s[j].valid
    ensures var c := LruScan(s, n, t + 1);
      0 <= c.index < n && !s[c.index].valid && c.minTime == 0 &&
      forall j :: c.index < j < n ==> s[j].valid
  {
    if s[n - 1].valid {
      assert exists j :: 0 <= j < n - 1 && !s[j].valid;
      LruScanAfterInvalid(s, t, n - 1);
    }
  }

  /** Over valid slots only, the candidate is the first slot holding the
      smallest time seen so far. */
  lemma {:induction false} LruScanAllValid(s: seq<Block>, t: int, n: nat)
    requires SlotsInvariant(s, t)
    requires 0 < n <= |s| && forall j :: 0 <= j < n ==> s[j].valid
    ensures var c := LruScan(s, n, t + 1);
      0 <= c.index < n && c.minTime == s[c.index].lastAccessTime &&
      (forall j :: 0 <= j < n ==> c.minTime <= s[j].lastAccessTime) &&
      (forall j :: 0 <= j < c.index ==> c.minTime < s[j].lastAccessTime)
  {
    if n > 1 {
      LruScanAllValid(s, t, n - 1);
    }
  }

  /** The single replacement pass always lands in range and realises the
      replacement rule, provided the slots are those of a reachable state. */
  lemma VictimIsLru(s: seq<Block>, t: int)
    requires SlotsInvariant(s, t)
    requires |s| >= 1
    ensures IsLruVictim(s, Victim(s, t + 1))
  {
    if exists j :: 0 <= j < |s| && !s[j].valid {
      LruScanAfterInvalid(s, t, |s|);
    } else {
      LruScanAllValid(s, t, |s|);
    }
  }

  /** The replacement rule names at most one slot. */
  lemma LruVictimUnique(s: seq<Block>, v: int, w: int)
    requires IsLruVictim(s, v) && IsLruVictim(s, w)
    ensures v == w
  {
  }

  lemma TouchKeepsInvariant(s: seq<Block>, t: nat, h: int, write: bool)
    requires SlotsInvariant(s, t)
    requires 0 <= h < |s| && s[h].valid
    ensures SlotsInvariant(s[h := Touch(s[h], t + 1, write)], t + 1)
  {
  }

  lemma LoadKeepsInvariant(s: seq<Block>, t: nat, tag: nat, write: bool)
    requires SlotsInvariant(s, t)
    requires |s| >= 1 && !IsHit(s, tag)
    ensures 0 <= Victim(s, t + 1) < |s|
    ensures SlotsInvariant(s[Victim(s, t + 1) := Load(s[Victim(s, t + 1)], tag, t + 1, write)], t + 1)
  {
    VictimIsLru(s, t);
  }

  /** One `access(address, write)` call. */
  function Step(st: State, address: nat, write: bool): (r: State)
    requires Valid(st)
    ensures Valid(r) && |r.slots| == |st.slots|
  {
    var now := st.currentTime + 1;
    var tag := Tag(address);
    var h := FirstMatchFrom(st.slots, tag, 0);
    if h != -1 then
      TouchKeepsInvariant(st.slots, st.currentTime, h, write);
      State(st.slots[h := Touch(st.slots[h], now, write)],
            now, st.cacheSearches + 1, st.cacheMisses, st.readMisses, st.writeMisses)
    else
      LoadKeepsInvariant(st.slots, st.currentTime, tag, write);
      var v := Victim(st.slots, now);
      State(st.slots[v := Load(st.slots[v], tag, now, write)],
            now, st.cacheSearches + 1, st.cacheMisses + 1,
            if write then st.readMisses else st.readMisses + 1,
            if write then st.writeMisses + 1 else st.writeMisses)
  }

  /** Clock and counters: every access advances the clock and the search
      count by one; a miss (and only a miss) counts once, as a write miss
      exactly when `write` holds. */
  lemma StepCounters(st: State, address: nat, write: bool)
    requires Valid(st)
    ensures var r := Step(st, address, write);
      r.currentTime == st.currentTime + 1 &&
      r.cacheSearches == st.cacheSearches + 1 &&
      (r.cacheMisses == st.cacheMisses + 1 <==> !IsHit(st.slots, Tag(address))) &&
      (IsHit(st.slots, Tag(address)) ==>
        r.cacheMisses == st.cacheMisses && r.readMisses == st.readMisses &&
        r.writeMisses == st.writeMisses) &&
      (!IsHit(st.slots, Tag(address)) ==>
        r.writeMisses == st.writeMisses + (if write then 1 else 0) &&
        r.readMisses == st.readMisses + (if write then 0 else 1))
  {
  }

  /** On a hit, the matching slot (the only one, by tag uniqueness) gets the new
      time and, on a write, the dirty bit; nothing else changes. */
  lemma StepHit(st: State, address: nat, write: bool)
    requires Valid(st) && IsHit(st.slots, Tag(address))
    ensures var r := Step(st, address, write);
      var h := FirstMatchFrom(st.slots, Tag(address), 0);
      0 <= h < |st.slots| && Matches(st.slots[h], Tag(address)) &&
      (forall j :: 0 <= j < |st.slots| && Matches(st.slots[j], Tag(address)) ==> j == h) &&
      r.slots[h].valid && r.slots[h].tag == st.slots[h].tag &&
      r.slots[h].lastAccessTime == r.currentTime &&
      r.slots[h].dirty == (st.slots[h].dirty || write) &&
      (forall j :: 0 <= j < |st.slots| && j != h ==> r.slots[j] == st.slots[j])
  {
    var h := FirstMatchFrom(st.slots, Tag(address), 0);
    forall j | 0 <= j < |st.slots| && Matches(st.slots[j], Tag(address))
      ensures j == h
    {
    }
  }

  /** On a miss, the victim chosen by the replacement rule is loaded with the
      tag and the new time; its dirty bit becomes true on a write and is kept
      otherwise (even when it is already true); nothing else changes. */
  lemma StepMiss(st: State, address: nat, write: bool)
    requires Valid(st) && !IsHit(st.slots, Tag(address))
    ensures var r := Step(st, address, write);
      var v := Victim(st.slots, st.currentTime + 1);
      IsLruVictim(st.slots, v) &&
      r.slots[v] == Block(true, st.slots[v].dirty || write, Tag(address), r.currentTime) &&
      (forall j :: 0 <= j < |st.slots| && j != v ==> r.slots[j] == st.slots[j])
  {
    VictimIsLru(st.slots, st.currentTime);
  }

  /** After any access exactly one slot has changed: it is valid, holds the
      address's tag, carries the new time, and is dirty iff it was or the
      access writes. Valid slots stay valid and dirty bits are never cleared. */
  lemma StepTouchesOneSlot(st: State, address: nat, write: bool)
    requires Valid(st)
    ensures var r := Step(st, address, write);
      (exists i :: 0 <= i < |r.slots| &&
        Matches(r.slots[i], Tag(address)) && r.slots[i].lastAccessTime == r.currentTime &&
        r.slots[i].dirty == (st.slots[i].dirty || write) &&
        forall j :: 0 <= j < |r.slots| && j != i ==> r.slots[j] == st.slots[j]) &&
      (forall i :: 0 <= i < |r.slots| && st.slots[i].valid ==> r.slots[i].valid) &&
      (forall i :: 0 <= i < |r.slots| && st.slots[i].dirty ==> r.slots[i].dirty)
  {
    var r := Step(st, address, write);
    var h := FirstMatchFrom(st.slots, Tag(address), 0);
    var i := if h != -1 then h else Victim(st.slots, st.currentTime + 1);
    if h == -1 {
      StepMiss(st, address, write);
    }
    assert Matches(r.slots[i], Tag(address));
  }

  /** A request of the caller: an address and whether it is a write. */
  datatype Request = Request(address: nat, write: bool)

  /** A sequence of accesses, in order. */
  function Run(st: State, rs: seq<Request>): (r: State)
    requires Valid(st)
    ensures Valid(r) && |r.slots| == |st.slots|
    ensures r.cacheSearches == st.cacheSearches + |rs|
    ensures st.cacheMisses <= r.cacheMisses <= st.cacheMisses + |rs|
    decreases |rs|
  {
    if rs == [] then st
    else
      StepCounters(st, rs[0].address, rs[0].write);
      Run(Step(st, rs[0].address, rs[0].write), rs[1..])
  }
}
