/** Consequences over access sequences: sweeps of consecutive addresses and
    read-then-write pairs, as the demonstration driver issues them, and short
    sequences that show the replacement rule, the fixed 4-bit offset and the
    dirty bit. */
module Scenarios {
  import opened CacheModel

  /** The first access to a fresh cache is always a miss. */
  lemma ColdStartMisses(numBlocks: nat, address: nat, write: bool)
    requires numBlocks >= 1
    ensures !IsHit(Init(numBlocks).slots, Tag(address))
    ensures Step(Init(numBlocks), address, write).cacheMisses == 1
  {
    StepCounters(Init(numBlocks), address, write);
  }

  /** An empty cache fills from the end: the first load goes into the
      highest-indexed slot and leaves every other slot invalid. */
  lemma FirstLoadUsesLastSlot(numBlocks: nat, address: nat, write: bool)
    requires numBlocks >= 1
    ensures var r := Step(Init(numBlocks), address, write);
      Matches(r.slots[numBlocks - 1], Tag(address)) &&
      r.slots[numBlocks - 1].lastAccessTime == 1 &&
      forall j :: 0 <= j < numBlocks - 1 ==> !r.slots[j].valid
  {
    var st := Init(numBlocks);
    StepMiss(st, address, write);
    LruVictimUnique(st.slots, Victim(st.slots, 1), numBlocks - 1);
  }

  /** Accessing an address right after accessing it is a hit. */
  lemma SecondAccessHits(st: State, address: nat, first: bool, second: bool)
    requires Valid(st)
    ensures var r := Step(st, address, first);
      IsHit(r.slots, Tag(address)) &&
      Step(r, address, second).cacheMisses == r.cacheMisses &&
      Step(r, address, second).readMisses == r.readMisses &&
      Step(r, address, second).writeMisses == r.writeMisses
  {
    StepTouchesOneSlot(st, address, first);
    StepCounters(Step(st, address, first), address, second);
  }

  /** The read-then-write pair of the driver's last loops: the write to the
      address just read always hits and leaves its slot dirty. */
  lemma ReadThenWriteHits(st: State, address: nat)
    requires Valid(st)
    ensures var r1 := Step(st, address, false);
      var r2 := Step(r1, address, true);
      r2.cacheMisses == r1.cacheMisses && r2.writeMisses == r1.writeMisses &&
      exists i :: 0 <= i < |r2.slots| && Matches(r2.slots[i], Tag(address)) && r2.slots[i].dirty
  {
    SecondAccessHits(st, address, false, true);
    var r1 := Step(st, address, false);
    StepCounters(r1, address, true);
    StepTouchesOneSlot(r1, address, true);
  }

  /** A run followed by one more access ends where that access takes the
      run's final state. */
  lemma {:induction false} RunAppend(st: State, rs: seq<Request>, rq: Request)
    requires Valid(st)
    ensures Run(st, rs + [rq]) == Step(Run(st, rs), rq.address, rq.write)
    decreases |rs|
  {
    if rs == [] {
      assert [rq][1..] == [];
    } else {
      assert (rs + [rq])[1..] == rs[1..] + [rq];
      RunAppend(Step(st, rs[0].address, rs[0].write), rs[1..], rq);
    }
  }

  /** The run of the first `k` requests is the run of the first `k - 1`
      followed by request `k - 1`. */
  lemma RunPrefixStep(st: State, rs: seq<Request>, k: nat)
    requires Valid(st) && 0 < k <= |rs|
    ensures Run(st, rs[..k]) == Step(Run(st, rs[..k - 1]), rs[k - 1].address, rs[k - 1].write)
  {
    assert rs[..k] == rs[..k - 1] + [rs[k - 1]];
    RunAppend(st, rs[..k - 1], rs[k - 1]);
  }

  /** An access whose tag equals that of the access just before it hits: the
      earlier access left the tag resident, so no miss is counted. */
  lemma SameTagAsPredecessorHits(st: State, rs: seq<Request>, k: nat)
    requires Valid(st) && 0 < k < |rs|
    requires Tag(rs[k - 1].address) == Tag(rs[k].address)
    ensures IsHit(Run(st, rs[..k]).slots, Tag(rs[k].address))
    ensures Run(st, rs[..k + 1]).cacheMisses == Run(st, rs[..k]).cacheMisses
  {
    RunPrefixStep(st, rs, k);
    StepTouchesOneSlot(Run(st, rs[..k - 1]), rs[k - 1].address, rs[k - 1].write);
    RunPrefixStep(st, rs, k + 1);
    StepCounters(Run(st, rs[..k]), rs[k].address, rs[k].write);
  }

  /** The accesses `lo`, `lo + 1`, ..., `lo + n - 1`, as the driver's loops
      issue them. */
  function Sweep(lo: nat, n: nat, write: bool): (rs: seq<Request>)
    ensures |rs| == n && forall k :: 0 <= k < n ==> rs[k] == Request(lo + k, write)
  {
    seq(n, k requires 0 <= k < n => Request(lo + k, write))
  }

  /** An address that does not open a 16-address span shares its
      predecessor's tag. */
  lemma SpanInterior(address: nat)
    requires address % OffsetSpan != 0
    ensures Tag(address - 1) == Tag(address)
  {
  }

  /** Spatial locality: in a sweep, every access that does not open a new
      16-address span hits. */
  lemma SweepHitsWithinSpan(st: State, lo: nat, n: nat, write: bool, k: nat)
    requires Valid(st) && 0 < k < n && (lo + k) % OffsetSpan != 0
    ensures IsHit(Run(st, Sweep(lo, n, write)[..k]).slots, Tag(lo + k))
    ensures Run(st, Sweep(lo, n, write)[..k + 1]).cacheMisses ==
      Run(st, Sweep(lo, n, write)[..k]).cacheMisses
  {
    SpanInterior(lo + k);
    SameTagAsPredecessorHits(st, Sweep(lo, n, write), k);
  }

  /** A sweep of `n` consecutive addresses that starts on a span boundary
      misses at most once for each 16-address span it covers. */
  lemma SweepMissesAtMostOncePerSpan(st: State, lo: nat, n: nat, write: bool)
    requires Valid(st) && lo % OffsetSpan == 0
    ensures Run(st, Sweep(lo, n, write)).cacheMisses <=
      st.cacheMisses + (n + OffsetSpan - 1) / OffsetSpan
  {
    var sw := Sweep(lo, n, write);
    SweepPrefixMisses(st, lo, sw, n);
    assert sw[..n] == sw;
  }

  /** The first `k` accesses of a sweep from a span boundary miss at most once
      per span they cover. */
  lemma {:induction false} SweepPrefixMisses(st: State, lo: nat, sw: seq<Request>, k: nat)
    requires Valid(st) && lo % OffsetSpan == 0
    requires forall j :: 0 <= j < |sw| ==> sw[j].address == lo + j
    requires k <= |sw|
    ensures Run(st, sw[..k]).cacheMisses <= st.cacheMisses + (k + OffsetSpan - 1) / OffsetSpan
    decreases k
  {
    if k > 0 {
      var prev := Run(st, sw[..k - 1]);
      SweepPrefixMisses(st, lo, sw, k - 1);
      RunPrefixStep(st, sw, k);
      SpanCount(lo, k);
      if (lo + k - 1) % OffsetSpan != 0 {
        SpanInterior(lo + k - 1);
        SameTagAsPredecessorHits(st, sw, k - 1);
      } else {
        StepCounters(prev, sw[k - 1].address, sw[k - 1].write);
      }
    }
  }

  /** Counting spans: the `n`-th address of a sweep from a span boundary opens
      a new span exactly when the span count grows. */
  lemma SpanCount(lo: nat, n: nat)
    requires lo % OffsetSpan == 0 && n > 0
    ensures (lo + n - 1) % OffsetSpan != 0 ==>
      n - 1 > 0 &&
      (n + OffsetSpan - 2) / OffsetSpan == (n + OffsetSpan - 1) / OffsetSpan
    ensures (lo + n - 1) % OffsetSpan == 0 ==>
      (n + OffsetSpan - 2) / OffsetSpan + 1 == (n + OffsetSpan - 1) / OffsetSpan
  {
  }

  /** `n` copies of one request. */
  function Repeat(rq: Request, n: nat): (rs: seq<Request>)
    ensures |rs| == n && forall k :: 0 <= k < n ==> rs[k] == rq
  {
    seq(n, _ => rq)
  }

  /** The repeat-hit law: a run of accesses to one address misses at most
      once, and only when the address was not resident to begin with. */
  lemma {:induction false} RepeatedAccessMissesAtMostOnce(st: State, rq: Request, n: nat)
    requires Valid(st)
    ensures Run(st, Repeat(rq, n)).cacheMisses ==
      st.cacheMisses + (if n > 0 && !IsHit(st.slots, Tag(rq.address)) then 1 else 0)
    decreases n
  {
    if n > 0 {
      var r1 := Step(st, rq.address, rq.write);
      StepCounters(st, rq.address, rq.write);
      StepTouchesOneSlot(st, rq.address, rq.write);
      assert Repeat(rq, n)[1..] == Repeat(rq, n - 1);
      RepeatedAccessMissesAtMostOnce(r1, rq, n - 1);
      assert IsHit(r1.slots, Tag(rq.address));
    }
  }

  /** From a fresh cache, `n >= 1` accesses to one address give one miss and
      `n - 1` hits. */
  lemma ColdRepeatOneMiss(numBlocks: nat, rq: Request, n: nat)
    requires numBlocks >= 1 && n >= 1
    ensures var r := Run(Init(numBlocks), Repeat(rq, n));
      r.cacheMisses == 1 && r.cacheSearches - r.cacheMisses == n - 1
  {
    RepeatedAccessMissesAtMostOnce(Init(numBlocks), rq, n);
  }

  /** A one-slot cache misses on every access whose tag differs from the one
      before it (the first request must not be resident). */
  lemma {:induction false} OneBlockThrashes(st: State, rs: seq<Request>)
    requires Valid(st) && |st.slots| == 1
    requires |rs| > 0 ==> !IsHit(st.slots, Tag(rs[0].address))
    requires forall k :: 0 < k < |rs| ==> Tag(rs[k - 1].address) != Tag(rs[k].address)
    ensures Run(st, rs).cacheMisses == st.cacheMisses + |rs|
    decreases |rs|
  {
    if |rs| > 0 {
      var r1 := Step(st, rs[0].address, rs[0].write);
      StepCounters(st, rs[0].address, rs[0].write);
      StepTouchesOneSlot(st, rs[0].address, rs[0].write);
      assert Matches(r1.slots[0], Tag(rs[0].address));
      var rest := rs[1..];
      forall k | 0 < k < |rest|
        ensures Tag(rest[k - 1].address) != Tag(rest[k].address)
      {
        assert rest[k - 1] == rs[k] && rest[k] == rs[k + 1];
      }
      if |rest| > 0 {
        assert rest[0] == rs[1];
      }
      OneBlockThrashes(r1, rest);
    }
  }

  /** Alternating reads of addresses 0 and 16 (tags 0 and 1). */
  function Alternating(n: nat): (rs: seq<Request>)
    ensures |rs| == n
  {
    seq(n, k => Request(if k % 2 == 0 then 0 else 16, false))
  }

  /** The thrashing scenario: a one-slot cache that does not hold tag 0
      misses on every access of the alternation 0, 16, 0, ... */
  lemma AlternatingThrashes(st: State, n: nat)
    requires Valid(st) && |st.slots| == 1 && !IsHit(st.slots, 0)
    ensures Run(st, Alternating(n)).cacheMisses == st.cacheMisses + n
  {
    var rs := Alternating(n);
    forall k | 0 < k < |rs|
      ensures Tag(rs[k - 1].address) != Tag(rs[k].address)
    {
      assert Tag(0) == 0 && Tag(16) == 1;
    }
    assert n > 0 ==> Tag(rs[0].address) == 0;
    OneBlockThrashes(st, rs);
  }

  /** From a fresh one-slot cache the alternation misses every time: the miss
      count equals the search count. */
  lemma AlternatingThrashesFromCold(numBlocks: nat, n: nat)
    requires numBlocks == 1
    ensures var r := Run(Init(numBlocks), Alternating(n));
      r.cacheMisses == n && r.cacheSearches == n
  {
    AlternatingThrashes(Init(numBlocks), n);
  }

  /** The LRU scenario: in a fresh two-slot cache, reading A, B, A, C (three
      distinct tags) evicts B, the least recently used block, and keeps A. */
  lemma TwoBlockLru(numBlocks: nat, a: nat, b: nat, c: nat)
    requires numBlocks == 2
    requires Tag(a) != Tag(b) && Tag(b) != Tag(c) && Tag(a) != Tag(c)
    ensures var r := Run(Init(numBlocks), [Request(a, false), Request(b, false), Request(a, false), Request(c, false)]);
      IsHit(r.slots, Tag(a)) && IsHit(r.slots, Tag(c)) && !IsHit(r.slots, Tag(b)) &&
      r.cacheMisses == 3
  {
    var s0 := Init(numBlocks);
    var s1 := State([EmptyBlock, Block(true, false, Tag(a), 1)], 1, 1, 1, 1, 0);
    var s2 := State([Block(true, false, Tag(b), 2), Block(true, false, Tag(a), 1)], 2, 2, 2, 2, 0);
    var s3 := State([Block(true, false, Tag(b), 2), Block(true, false, Tag(a), 3)], 3, 3, 2, 2, 0);
    var s4 := State([Block(true, false, Tag(c), 4), Block(true, false, Tag(a), 3)], 4, 4, 3, 3, 0);
    TwoBlockLruFirst(numBlocks, a);
    TwoBlockLruSecond(s1, a, b);
    assert Matches(s2.slots[1], Tag(a));
    StepHit(s2, a, false);
    StepCounters(s2, a, false);
    assert Step(s2, a, false) == s3;
    TwoBlockLruFourth(s3, a, b, c);
    var rs := [Request(a, false), Request(b, false), Request(a, false), Request(c, false)];
    assert Run(s0, rs) == Run(s1, rs[1..]);
    assert Run(s1, rs[1..]) == Run(s2, rs[2..]);
    assert Run(s2, rs[2..]) == Run(s3, rs[3..]);
    assert Run(s3, rs[3..]) == Run(s4, rs[4..]);
    assert rs[4..] == [];
    assert Matches(s4.slots[0], Tag(c)) && Matches(s4.slots[1], Tag(a));
  }

  lemma TwoBlockLruFirst(numBlocks: nat, a: nat)
    requires numBlocks == 2
    ensures Step(Init(numBlocks), a, false) ==
      State([EmptyBlock, Block(true, false, Tag(a), 1)], 1, 1, 1, 1, 0)
  {
    var s0 := Init(numBlocks);
    StepMiss(s0, a, false);
    StepCounters(s0, a, false);
    VictimIsLru(s0.slots, s0.currentTime);
    LruVictimUnique(s0.slots, Victim(s0.slots, 1), 1);
  }

  lemma TwoBlockLruSecond(s1: State, a: nat, b: nat)
    requires s1 == State([EmptyBlock, Block(true, false, Tag(a), 1)], 1, 1, 1, 1, 0)
    requires Tag(a) != Tag(b)
    ensures Valid(s1) && Step(s1, b, false) ==
      State([Block(true, false, Tag(b), 2), Block(true, false, Tag(a), 1)], 2, 2, 2, 2, 0)
  {
    StepMiss(s1, b, false);
    StepCounters(s1, b, false);
    VictimIsLru(s1.slots, s1.currentTime);
    LruVictimUnique(s1.slots, Victim(s1.slots, 2), 0);
  }

  lemma TwoBlockLruFourth(s3: State, a: nat, b: nat, c: nat)
    requires s3 == State([Block(true, false, Tag(b), 2), Block(true, false, Tag(a), 3)], 3, 3, 2, 2, 0)
    requires Tag(a) != Tag(b) && Tag(b) != Tag(c) && Tag(a) != Tag(c)
    ensures Valid(s3) && Step(s3, c, false) ==
      State([Block(true, false, Tag(c), 4), Block(true, false, Tag(a), 3)], 4, 4, 3, 3, 0)
  {
    StepMiss(s3, c, false);
    StepCounters(s3, c, false);
    VictimIsLru(s3.slots, s3.currentTime);
    LruVictimUnique(s3.slots, Victim(s3.slots, 4), 0);
  }

  /** A read miss that reloads a dirty slot leaves it dirty: in a one-slot
      cache, write `a`, then read `b` of another tag. */
  lemma ReadMissKeepsDirtyBit(numBlocks: nat, a: nat, b: nat)
    requires numBlocks == 1 && Tag(a) != Tag(b)
    ensures Run(Init(numBlocks), [Request(a, true), Request(b, false)]).slots[0] ==
      Block(true, true, Tag(b), 2)
  {
    var s0 := Init(numBlocks);
    var s1 := Step(s0, a, true);
    StepMiss(s0, a, true);
    assert s1.slots[0] == Block(true, true, Tag(a), 1);
    var s2 := Step(s1, b, false);
    StepMiss(s1, b, false);
    var rs := [Request(a, true), Request(b, false)];
    assert Run(s0, rs) == Run(s1, rs[1..]);
    assert Run(s1, rs[1..]) == Run(s2, rs[2..]);
    assert rs[2..] == [];
  }
}
