/** The flow cache: a slot table over a pool with timestamps, a free list, eviction and maintenance. */
module FlowCacheModel {
  import opened HashScheme
  import opened SlotStore
  import opened Bits16
  import opened SlotTableModel
  import opened FlowState
  import opened FlowTimeout

  /** Width of one wave of a bucket scan. */
  const STAGE_SLOTS: nat := 4

  /** Most buckets that one filter-and-reclaim pass takes. */
  const STEP_MAX_BKS: nat := 256

  class FlowCache {
    const sc: Scheme
    const cfg: Config
    const ht: SlotTable
    /** Per pool entry: the time of the last access, 0 when free; and the link to the next free entry. */
    const lastTs: array<nat>
    const next: array<nat>

    var freeHead: nat
    var eff: nat
    var stats: Stats
    var cursor: nat
    var lastMaintTsc: Tsc
    var lastMaintFills: nat
    var lastStartBk: nat
    var lastSweepBk: nat

    /** The free list from its head on. */
    ghost var free: seq<nat>
    /** Entries deleted by key or index, or dropped by a flush. */
    ghost var removed: nat

    ghost function Snap(): Cache
      reads this`free, this`stats, this`eff, this`removed, ht.buckets, ht.node, lastTs
    {
      Cache(ht.St(), lastTs[..], free, stats, eff, removed)
    }

    /** The links of the free entries spell out the free list; so it ends and has no cycle. */
    ghost predicate Linked()
      reads this`free, this`freeHead, next
    {
      && next.Length == cfg.maxEntries + 1
      && FreeListOk(free, cfg.maxEntries)
      && freeHead == (if free == [] then NIL else free[0])
      && forall k :: 0 <= k < |free| ==> next[free[k]] == ListAfter(free, k)
    }

    ghost predicate Base()
      reads this`free, this`freeHead, this`stats, this`eff, this`removed, ht, ht.buckets, ht.node, lastTs, next
    {
      && ht.sc == sc && ht.Valid() && lastTs != next
      && cfg.nbBk == sc.nbBk && ConfigOk(cfg)
      && Linked() && PoolOk(sc, cfg.maxEntries, Snap())
    }

    ghost predicate Valid()
      reads this`free, this`freeHead, this`stats, this`eff, this`removed, ht, ht.buckets, ht.node, lastTs, next
    {
      Base() && Counted(sc, Snap())
    }

    // ------------------------------------------------------------ init and flush

    static method ZeroBuckets(buckets: array<Bucket>)
      modifies buckets
      ensures forall x :: 0 <= x < buckets.Length ==> buckets[x] == EMPTY_BUCKET
    {
      for x := 0 to buckets.Length
        invariant forall y :: 0 <= y < x ==> buckets[y] == EMPTY_BUCKET
      {
        buckets[x] := EMPTY_BUCKET;
      }
    }

    static method ZeroPool(node: array<Node>, lastTs: array<nat>)
      requires node.Length == lastTs.Length
      modifies node, lastTs
      ensures forall i :: 0 <= i < node.Length ==> node[i].slotField == 0 && node[i].hashField == 0
      ensures forall i :: 0 <= i < node.Length ==> node[i].key == old(node[i].key) && lastTs[i] == 0
    {
      for i := 0 to node.Length
        invariant forall j :: 0 <= j < i ==> node[j].slotField == 0 && node[j].hashField == 0 && lastTs[j] == 0
        invariant forall j :: 0 <= j < node.Length ==> node[j].key == old(node[j].key)
      {
        node[i] := node[i].(hashField := 0, slotField := 0);
        lastTs[i] := 0;
      }
    }

    /** An empty cache over caller-provided memory; cell 0 of each pool array is the unused NIL cell. */
    constructor (sc: Scheme, settings: Settings, buckets: array<Bucket>, node: array<Node>,
                 lastTs: array<nat>, next: array<nat>)
      requires sc.Lawful() && buckets.Length == sc.nbBk
      requires 0 < node.Length == lastTs.Length == next.Length && lastTs != next
      modifies buckets, node, lastTs, next
      ensures this.sc == sc && this.cfg == MakeConfig(settings, sc.nbBk, node.Length - 1)
      ensures ht.buckets == buckets && ht.node == node && this.lastTs == lastTs && this.next == next && fresh(ht)
      ensures Valid() && (forall j: nat :: !Stored(sc, Snap().st, j)) && |free| == cfg.maxEntries
      ensures stats == Stats(0, 0, 0, 0, 0, 0, 0, 0, 0, 0, 0, 0, 0, 0, 0) && removed == 0 && cursor == 0 && lastMaintTsc == 0 && lastMaintFills == 0
      ensures eff == (if settings.timeout == 0 then 1 else settings.timeout) && lastStartBk == 0 && lastSweepBk == 0
    {
      ZeroBuckets(buckets);
      ZeroPool(node, lastTs);
      this.sc, this.cfg := sc, MakeConfig(settings, sc.nbBk, node.Length - 1);
      ht := new SlotTable(sc, buckets, node);
      this.lastTs, this.next := lastTs, next;
      eff := if settings.timeout != 0 then settings.timeout else 1;
      stats, cursor, lastMaintTsc, lastMaintFills, lastStartBk, lastSweepBk := NO_STATS, 0, 0, 0, 0, 0;
      freeHead, free, removed := NIL, [], 0;
      new;
      hide PoolOk, Inv, Counted, Stored, Linked, Base, Live, FreeListOk, KeysUnique, ListAfter, SlotOk, Threshold64;
      MakeConfigOk(settings, sc.nbBk, node.Length - 1);
      BuildFreeList();
    }

    /** Puts cell e, which is larger than every free one, at the head of the free list. */
    method LinkFirst(e: nat)
      requires Linked() && 0 < e <= cfg.maxEntries && |free| == e - 1
      requires forall k :: 0 <= k < |free| ==> free[k] == e - 1 - k
      modifies this`freeHead, this`free, next
      ensures Linked() && |free| == e && forall k :: 0 <= k < e ==> free[k] == e - k
    {
      ghost var tail := free;
      FreeListCons(tail, e, cfg.maxEntries);
      next[e] := freeHead;
      freeHead := e;
      free := [e] + free;
      hide FreeListOk, ListAfter;
      forall k | 0 <= k < |free|
        ensures free[k] == e - k && next[free[k]] == ListAfter(free, k)
      {
        if 0 < k {
          assert free[k] == tail[k - 1] && next[tail[k - 1]] == ListAfter(tail, k - 1);
        }
      }
    }

    method LinkAll()
      requires next.Length == cfg.maxEntries + 1 && freeHead == NIL && free == []
      modifies this`freeHead, this`free, next
      ensures Linked() && |free| == cfg.maxEntries
      ensures forall k :: 0 <= k < |free| ==> free[k] == cfg.maxEntries - k
    {
      for i := 0 to cfg.maxEntries
        invariant Linked() && |free| == i
        invariant forall k :: 0 <= k < i ==> free[k] == i - k
      {
        LinkFirst(i + 1);
      }
    }

    /** Puts every pool entry on an empty free list. */
    method BuildFreeList()
      requires ht.sc == sc && ht.Valid() && lastTs != next && cfg.nbBk == sc.nbBk && ConfigOk(cfg)
      requires lastTs.Length == next.Length == ht.node.Length == cfg.maxEntries + 1
      requires freeHead == NIL && free == []
      requires forall j: nat :: !Stored(sc, ht.St(), j)
      requires forall i :: 0 <= i < lastTs.Length ==> lastTs[i] == 0
      requires stats.reliefEvictions + stats.maintEvictions + removed == stats.fills
      requires stats.lookups == stats.hits + stats.misses && stats.reliefEvictions == stats.reliefBk0 + stats.reliefBk1
      modifies this`freeHead, this`free, next
      ensures Valid() && |free| == cfg.maxEntries
    {
      LinkAll();
      assert Live(sc, ht.St()) == {};
      ListedAll(cfg.maxEntries, free);
      ghost var cs := Snap();
      forall i | 1 <= i <= cfg.maxEntries
        ensures Placed(sc, cs, i)
      {
        assert i in free;
      }
    }

    /** Drops every entry; memory and statistics stay. */
    method Flush()
      requires Valid()
      modifies this`freeHead, this`free, this`removed, ht`nb, ht.buckets, lastTs, next
      ensures Valid() && (forall j: nat :: !Stored(sc, Snap().st, j)) && |free| == cfg.maxEntries
      ensures removed == old(removed) + |Live(sc, old(Snap().st))|
      ensures Flushed(sc, cfg.maxEntries, old(Snap()), Snap())
    {
      ghost var live := |Live(sc, ht.St())|;
      assert live + stats.reliefEvictions + stats.maintEvictions + removed == stats.fills;
      assert stats.lookups == stats.hits + stats.misses && stats.reliefEvictions == stats.reliefBk0 + stats.reliefBk1;
      hide Counted, Stored;
      ZeroBuckets(ht.buckets);
      EmptyInv(sc, ht.St());
      freeHead, free := NIL, [];
      removed := removed + live;
      ht.nb := 0;
      ClearStamps();
      hide FreeListOk, KeysUnique;
      BuildFreeList();
    }

    method ClearStamps()
      modifies lastTs
      ensures forall i :: 0 <= i < lastTs.Length ==> lastTs[i] == 0
    {
      for i := 0 to lastTs.Length
        invariant forall j :: 0 <= j < i ==> lastTs[j] == 0
      {
        lastTs[i] := 0;
      }
    }

    // ------------------------------------------------------------ free list and eviction

    /** Gives a stored entry's pool cell back to the free list. */
    method FreeEntry(e: nat)
      requires Linked() && lastTs.Length == next.Length && lastTs != next
      requires 0 < e <= cfg.maxEntries && e !in free
      modifies this`freeHead, this`free, lastTs, next
      ensures Linked() && free == [e] + old(free)
      ensures lastTs[..] == old(lastTs[..])[e := 0]
    {
      ghost var tail := free;
      FreeListCons(tail, e, cfg.maxEntries);
      lastTs[e] := 0;
      next[e] := freeHead;
      freeHead := e;
      free := [e] + free;
      hide FreeListOk, ListAfter;
      forall k | 0 <= k < |free|
        ensures next[free[k]] == ListAfter(free, k)
      {
        if 0 < k {
          assert free[k] == tail[k - 1] && next[tail[k - 1]] == ListAfter(tail, k - 1);
        }
      }
    }

    /** Removes the occupant of a slot and frees its pool cell. */
    method EvictSlot(bk: nat, slot: nat) returns (ghost e: nat)
      requires Base() && bk < sc.nbBk && slot < SLOTS && ht.St().b[bk].idx[slot] != NIL
      modifies this`freeHead, this`free, ht`nb, ht.buckets, lastTs, next
      ensures Base() && e == old(ht.St()).b[bk].idx[slot]
      ensures Purged(sc, old(Snap()), {e}, Snap()) && stats == old(stats)
    {
      ghost var cs := Snap();
      SlotLaws(sc, cs.st, bk, slot);
      var i := ht.RemoveAt(bk, slot);
      assert Placed(sc, cs, i);
      FreeEntry(i);
      e := i;
      EvictOne(sc, cs, e, Snap(), cfg.maxEntries);
    }

    /** The occupied slots of a bucket, in order. */
    method UsedSlots(bk: nat) returns (used: seq<nat>)
      requires Base() && bk < sc.nbBk
      ensures OccupiedList(Snap(), bk, SLOTS, used)
    {
      used := [];
      for slot := 0 to SLOTS
        invariant OccupiedList(Snap(), bk, slot, used)
      {
        if ht.buckets[bk].idx[slot] != NIL {
          used := used + [slot];
        }
      }
    }

    /** Reads one wave of entries. */
    method ScanWave(bk: nat, before: Tsc, used: seq<nat>, base: nat, count: nat,
                    expired0: seq<nat>, oldest0: int, oldestTs0: nat)
      returns (expired: seq<nat>, oldest: int, oldestTs: nat)
      requires bk < ht.buckets.Length && UsedOk(Snap(), bk, used) && base + count <= |used|
      requires expired0 == FilterExpired(Snap(), bk, before, used[..base])
      requires oldest0 == OldestOf(Snap(), bk, expired0) && RunningMin(Snap(), bk, oldest0, oldestTs0)
      ensures expired == FilterExpired(Snap(), bk, before, used[..base + count])
      ensures oldest == OldestOf(Snap(), bk, expired) && RunningMin(Snap(), bk, oldest, oldestTs)
    {
      ghost var cs := Snap();
      expired, oldest, oldestTs := expired0, oldest0, oldestTs0;
      for s := 0 to count
        invariant expired == FilterExpired(cs, bk, before, used[..base + s])
        invariant oldest == OldestOf(cs, bk, expired) && RunningMin(cs, bk, oldest, oldestTs)
      {
        var slot := used[base + s];
        ScanOne(cs, bk, before, used, base + s, expired, oldest, oldestTs);
        var ts := lastTs[ht.buckets[bk].idx[slot]];
        if ts < before {
          expired := expired + [slot];
          if ts < oldestTs {
            oldestTs := ts;
            oldest := slot;
          }
        }
      }
    }

    /**
     * Lists the expired slots of a bucket and picks the oldest one. The entries are visited in waves
     * of four, the next wave being announced to the memory system while the current one is read.
     */
    method ScanBucketSlots(bk: nat, before: Tsc) returns (expired: seq<nat>, oldest: int)
      requires Base() && bk < sc.nbBk
      ensures ScanResult(Snap(), bk, before, expired, oldest)
    {
      hide PoolOk, Inv, Linked, OccupiedList, ScanResult, FilterExpired, OldestOf;
      var used := UsedSlots(bk);
      UsedInRange(sc, cfg.maxEntries, Snap(), bk, used);
      expired, oldest := [], -1;
      var oldestTs: nat := U64_MAX;
      ScanNothing(Snap(), bk, before);
      assert used[..0] == [];
      var curBase: nat := 0;
      var curCount: nat := if |used| < STAGE_SLOTS then |used| else STAGE_SLOTS;
      var nextBase: nat := curCount;
      while curCount != 0
        invariant nextBase == curBase + curCount <= |used|
        invariant curCount == 0 ==> curBase == |used|
        invariant expired == FilterExpired(Snap(), bk, before, used[..curBase])
        invariant oldest == OldestOf(Snap(), bk, expired) && RunningMin(Snap(), bk, oldest, oldestTs)
        decreases |used| - curBase
      {
        var nextCount: nat := 0;
        while nextCount < STAGE_SLOTS && nextBase < |used|
          invariant nextBase == curBase + curCount + nextCount <= |used|
          decreases |used| - nextBase
        {
          nextCount := nextCount + 1;
          nextBase := nextBase + 1;
        }
        expired, oldest, oldestTs := ScanWave(bk, before, used, curBase, curCount, expired, oldest, oldestTs);
        curBase := curBase + curCount;
        curCount := nextCount;
      }
      assert used[..|used|] == used;
      ScanDone(sc, cfg.maxEntries, Snap(), bk, before, used);
    }

    /** Evicts the oldest expired entry of a bucket, if there is one. */
    method ReclaimBucket(bk: nat, before: Tsc) returns (did: bool, ghost slot: nat)
      requires Base() && bk < sc.nbBk
      modifies this`freeHead, this`free, ht`nb, ht.buckets, lastTs, next
      ensures Base() && stats == old(stats)
      ensures Reclaimed(sc, old(Snap()), bk, before, did, slot, Snap())
    {
      var expired, victim := ScanBucketSlots(bk, before);
      slot := 0;
      if |expired| == 0 {
        return false, 0;
      }
      ghost var e := EvictSlot(bk, victim);
      did, slot := true, victim;
    }

    /** Evicts the entry in position n of the list of expired slots, the earlier ones being gone. */
    method EvictListed(ghost cs: Cache, bk: nat, ghost before: nat, expired: seq<nat>, n: nat)
      requires Base() && bk < sc.nbBk && n < |expired| && Ascending(expired)
      requires PoolOk(sc, cfg.maxEntries, cs) && bk < |cs.st.b|
      requires forall i :: 0 <= i < |expired| ==> expired[i] < SLOTS && ExpiredAt(cs, bk, expired[i], before)
      requires Purged(sc, cs, Occupants(cs, bk, expired[..n]), Snap())
      modifies this`freeHead, this`free, ht`nb, ht.buckets, lastTs, next
      ensures Base() && stats == old(stats)
      ensures Purged(sc, cs, Occupants(cs, bk, expired[..n + 1]), Snap())
      ensures |Occupants(cs, bk, expired[..n + 1])| == |Occupants(cs, bk, expired[..n])| + 1
    {
      hide PoolOk, Inv, Purged, Expired, Stored, Occupants, Linked;
      ghost var cs1, g := Snap(), Occupants(cs, bk, expired[..n]);
      StillThere(sc, cs, cfg.maxEntries, bk, before, expired, n, cs1);
      ghost var e := EvictSlot(bk, expired[n]);
      PurgedTrans(sc, cs, g, cs1, {e}, Snap());
      assert expired[..n + 1] == expired[..n] + [expired[n]];
      OccupantsSnoc(cs, bk, expired[..n], expired[n]);
    }

    /** Evicts every expired entry of a bucket. */
    method ReclaimBucketAll(bk: nat, before: Tsc) returns (n: nat)
      requires Base() && bk < sc.nbBk
      modifies this`freeHead, this`free, ht`nb, ht.buckets, lastTs, next
      ensures Base() && stats == old(stats)
      ensures Purged(sc, old(Snap()), Expired(sc, old(Snap()), {bk}, before), Snap())
      ensures n == |Expired(sc, old(Snap()), {bk}, before)|
    {
      hide PoolOk, Purged, Expired, Linked;
      ghost var cs := Snap();
      var expired, oldest := ScanBucketSlots(bk, before);
      PurgedNothing(sc, cs, cs);
      assert Occupants(cs, bk, expired[..0]) == {};
      n := 0;
      while n < |expired|
        invariant n <= |expired|
        invariant Base() && stats == cs.stats
        invariant Purged(sc, cs, Occupants(cs, bk, expired[..n]), Snap())
        invariant |Occupants(cs, bk, expired[..n])| == n
      {
        EvictListed(cs, bk, before, expired, n);
        n := n + 1;
      }
      assert expired[..n] == expired;
      ExpiredOfBucket(sc, cs, cfg.maxEntries, bk, before, expired, oldest);
    }

    /** Updates counters; entries do not move. */
    method Tally(s: Stats)
      requires Base()
      modifies this`stats
      ensures Base() && stats == s
    {
      ghost var cs := Snap();
      stats := s;
      StatsAside(sc, cfg.maxEntries, cs, {}, cs, Snap());
    }

    /** The same while a purge since cs is under way. */
    method TallyPurged(s: Stats, ghost cs: Cache, ghost gone: set<nat>)
      requires Base() && Purged(sc, cs, gone, Snap())
      modifies this`stats
      ensures Base() && stats == s && Purged(sc, cs, gone, Snap())
    {
      hide PoolOk, Purged, Inv, Linked;
      ghost var c0 := Snap();
      stats := s;
      StatsAside(sc, cfg.maxEntries, cs, gone, c0, Snap());
    }

    // ------------------------------------------------------------ timeout and maintenance

    method UpdateEffTimeout()
      requires cfg.timeout == 0 || cfg.timeoutMin <= cfg.timeout
      modifies this`eff
      ensures eff == EffTimeout(cfg, ht.nb)
    {
      var live, maxTsc, lo, hi := ht.nb, cfg.timeout, cfg.timeoutLo, cfg.timeoutHi;
      if cfg.totalSlots == 0 || maxTsc == 0 {
        eff := maxTsc;
        return;
      }
      if live <= lo {
        eff := maxTsc;
      } else if live >= hi {
        eff := cfg.timeoutMin;
      } else {
        var spanEntries, usedEntries, spanTsc := hi - lo, live - lo, maxTsc - cfg.timeoutMin;
        var shrink := Shrink(usedEntries, spanTsc, spanEntries);
        eff := maxTsc - shrink;
      }
      if eff == 0 {
        eff := 1;
      }
    }

    /** One bucket of a sweep: what was purged before plus the expired entries of this bucket. */
    method SweepBucket(ghost cs: Cache, ghost xs: set<nat>, bk: nat, before: Tsc) returns (n: nat)
      requires Base() && bk < sc.nbBk && PoolOk(sc, cfg.maxEntries, cs)
      requires Purged(sc, cs, Expired(sc, cs, xs, before), Snap())
      modifies this`freeHead, this`free, ht`nb, ht.buckets, lastTs, next
      ensures Base() && stats == old(stats)
      ensures Purged(sc, cs, Expired(sc, cs, xs + {bk}, before), Snap())
      ensures |Expired(sc, cs, xs + {bk}, before)| == |Expired(sc, cs, xs, before)| + n
    {
      hide Inv, Expired, Linked;
      ghost var cs1 := Snap();
      n := ReclaimBucketAll(bk, before);
      ExpiredJoin(sc, cfg.maxEntries, cs, xs, cs1, {bk}, before);
      PurgedTrans(sc, cs, Expired(sc, cs, xs, before), cs1, Expired(sc, cs1, {bk}, before), Snap());
    }

    /** The same with the counters of a plain sweep. */
    method SweepCounted(ghost cs: Cache, ghost xs: set<nat>, bk: nat, before: Tsc) returns (n: nat)
      requires Base() && bk < sc.nbBk && PoolOk(sc, cfg.maxEntries, cs)
      requires Purged(sc, cs, Expired(sc, cs, xs, before), Snap())
      modifies this`freeHead, this`free, this`stats, ht`nb, ht.buckets, lastTs, next
      ensures Base()
      ensures stats == old(stats).(maintChecks := old(stats).maintChecks + 1, maintEvictions := old(stats).maintEvictions + n)
      ensures Purged(sc, cs, Expired(sc, cs, xs + {bk}, before), Snap())
      ensures |Expired(sc, cs, xs + {bk}, before)| == |Expired(sc, cs, xs, before)| + n
    {
      hide PoolOk, Inv, Expired, Purged, Linked;
      TallyPurged(stats.(maintChecks := stats.maintChecks + 1), cs, Expired(sc, cs, xs, before));
      n := SweepBucket(cs, xs, bk, before);
      TallyPurged(stats.(maintEvictions := stats.maintEvictions + n), cs, Expired(sc, cs, xs + {bk}, before));
    }

    /** Evicts the expired entries of bucketCount consecutive buckets, wrapping around at the end of the table. */
    method MaintainGrouped(startBk: nat, bucketCount: nat, now: Tsc) returns (evicted: nat)
      requires Valid() && 0 < sc.nbBk
      modifies this`freeHead, this`free, this`stats, ht`nb, ht.buckets, lastTs, next
      ensures Valid()
      ensures var gone := Expired(sc, old(Snap()), Swept(Wrap(startBk, sc.nbBk), bucketCount, sc.nbBk), ExpireBefore(now, eff));
              Purged(sc, old(Snap()), gone, Snap()) && evicted == |gone|
      ensures SweptExactly(sc, old(Snap()), startBk, bucketCount, 0, eff, now, evicted, Snap())
      ensures stats == old(stats).(maintChecks := old(stats).maintChecks + bucketCount,
                                   maintEvictions := old(stats).maintEvictions + evicted)
    {
      hide PoolOk, Inv, Expired, Purged, Linked, Wrap, Counted, SweptExactly;
      ghost var cs := Snap();
      ghost var start := Wrap(startBk, sc.nbBk);
      var before := ExpireBefore(now, eff);
      var nextBk := Wrap(startBk, sc.nbBk);
      evicted := 0;
      ExpiredNone(sc, cs, before);
      PurgedNothing(sc, cs, cs);
      for t := 0 to bucketCount
        invariant Base() && nextBk == Pos(start, t, sc.nbBk) < sc.nbBk
        invariant Purged(sc, cs, Expired(sc, cs, Swept(start, t, sc.nbBk), before), Snap())
        invariant evicted == |Expired(sc, cs, Swept(start, t, sc.nbBk), before)|
        invariant stats == cs.stats.(maintChecks := cs.stats.maintChecks + t, maintEvictions := cs.stats.maintEvictions + evicted)
      {
        var curBk := nextBk;
        nextBk := NextBk(nextBk, sc.nbBk);
        var reclaimed := SweepCounted(cs, Swept(start, t, sc.nbBk), curBk, before);
        evicted := evicted + reclaimed;
      }
      SweepCounts(sc, cs, Expired(sc, cs, Swept(start, bucketCount, sc.nbBk), before), Snap());
      CrowdedZero(sc, cfg.maxEntries, cs, Swept(start, bucketCount, sc.nbBk), before);
      SweepLaw(sc, cfg.maxEntries, cs, startBk, bucketCount, 0, now, evicted, Snap());
    }

    /** The number of occupied slots of a bucket. */
    method BucketUsedSlots(bk: nat) returns (n: nat)
      requires Base() && bk < sc.nbBk
      ensures n == UsedCount(ht.St().b[bk].idx) == |Occupied(ht.St().b[bk].idx)|
    {
      UsedIsSize(ht.buckets[bk].idx);
      var zeros := FindX16(ht.buckets[bk].idx, NIL);
      UsedByMask(ht.buckets[bk].idx, zeros);
      n := LANES - Count(zeros);
    }

    /** First pass of a filtered sweep: the buckets with more than skip entries. */
    method FilterCrowded(startBk: nat, count: nat, skip: nat) returns (work: seq<nat>)
      requires Base() && startBk < sc.nbBk && count <= sc.nbBk
      modifies this`stats
      ensures Base()
      ensures Elems(work) == Crowded(ht.St(), Swept(startBk, count, sc.nbBk), skip) && |work| == |Elems(work)|
      ensures |work| <= count && forall k :: 0 <= k < |work| ==> work[k] < sc.nbBk
      ensures stats == old(stats).(maintChecks := old(stats).maintChecks + count,
                                   maintSkipped := old(stats).maintSkipped + (count - |work|))
    {
      hide PoolOk, Inv, Linked, Elems, Crowded, Swept, Pos;
      ghost var cs := Snap();
      SweptNothing(cs.st, startBk, sc.nbBk, skip);
      PosClosed(startBk, 0, sc.nbBk);
      work := [];
      NoElems();
      var scanBk := startBk;
      for i := 0 to count
        invariant scanBk == Pos(startBk, i, sc.nbBk) && (scanBk < sc.nbBk)
        invariant Base()
        invariant Elems(work) == Crowded(cs.st, Swept(startBk, i, sc.nbBk), skip) && |work| == |Elems(work)| <= i
        invariant forall k :: 0 <= k < |work| ==> work[k] < sc.nbBk
        invariant stats == cs.stats.(maintChecks := cs.stats.maintChecks + i, maintSkipped := cs.stats.maintSkipped + (i - |work|))
      {
        Tally(stats.(maintChecks := stats.maintChecks + 1));
        var usedSlots := BucketUsedSlots(scanBk);
        FilterStep(cs.st, startBk, i, sc.nbBk, skip, work, scanBk);
        if usedSlots <= skip {
          Tally(stats.(maintSkipped := stats.maintSkipped + 1));
        } else {
          work := work + [scanBk];
        }
        scanBk := NextBk(scanBk, sc.nbBk);
      }
    }

    /** Filters the buckets of one chunk first and then reclaims the remaining ones. */
    method FilterReclaim(startBk: nat, count: nat, before: Tsc, skip: nat) returns (evicted: nat)
      requires Base() && startBk < sc.nbBk && count <= sc.nbBk
      modifies this`freeHead, this`free, this`stats, ht`nb, ht.buckets, lastTs, next
      ensures Base()
      ensures var gone := Expired(sc, old(Snap()), Crowded(old(ht.St()), Swept(startBk, count, sc.nbBk), skip), before);
              Purged(sc, old(Snap()), gone, Snap()) && evicted == |gone|
      ensures StepCounters(old(stats), stats, count, evicted)
    {
      hide PoolOk, Inv, Linked, Expired, Purged, Crowded, Swept, Pos;
      ghost var cs0 := Snap();
      var work := FilterCrowded(startBk, count, skip);
      ghost var cs := Snap();
      evicted := 0;
      PurgedNothing(sc, cs0, cs);
      ExpiredNone(sc, cs0, before);
      assert Elems(work[..0]) == {};
      for i := 0 to |work|
        invariant Base()
        invariant Purged(sc, cs0, Expired(sc, cs0, Elems(work[..i]), before), Snap())
        invariant evicted == |Expired(sc, cs0, Elems(work[..i]), before)|
        invariant stats == cs.stats.(maintEvictions := cs.stats.maintEvictions + evicted)
      {
        var reclaimed := SweepBucket(cs0, Elems(work[..i]), work[i], before);
        assert work[..i + 1] == work[..i] + [work[i]];
        ElemsSnoc(work[..i], work[i]);
        TallyPurged(stats.(maintEvictions := stats.maintEvictions + reclaimed), cs0, Expired(sc, cs0, Elems(work[..i + 1]), before));
        evicted := evicted + reclaimed;
      }
      assert work[..|work|] == work;
    }

    /** One chunk of a cursor-driven sweep; cs is the state in which the sweep began. */
    method SweepChunk(ghost cs: Cache, ghost start: nat, ghost d: nat, curBk: nat, chunk: nat, before: Tsc, skip: nat)
      returns (n: nat, curBk': nat)
      requires Base() && PoolOk(sc, cfg.maxEntries, cs) && 0 < sc.nbBk && start < sc.nbBk && d + chunk <= sc.nbBk
      requires curBk == Pos(start, d, sc.nbBk) && curBk < sc.nbBk
      requires Purged(sc, cs, Expired(sc, cs, Crowded(cs.st, Swept(start, d, sc.nbBk), skip), before), Snap())
      modifies this`freeHead, this`free, this`stats, ht`nb, ht.buckets, lastTs, next
      ensures Base() && StepCounters(old(stats), stats, chunk, n)
      ensures curBk' == Pos(start, d + chunk, sc.nbBk) && curBk' < sc.nbBk
      ensures Purged(sc, cs, Expired(sc, cs, Crowded(cs.st, Swept(start, d + chunk, sc.nbBk), skip), before), Snap())
      ensures |Expired(sc, cs, Crowded(cs.st, Swept(start, d + chunk, sc.nbBk), skip), before)|
           == |Expired(sc, cs, Crowded(cs.st, Swept(start, d, sc.nbBk), skip), before)| + n
    {
      hide PoolOk, Inv, Linked, Expired, Purged, Crowded, Swept, Pos;
      ghost var cs1 := Snap();
      n := FilterReclaim(curBk, chunk, before, skip);
      ChunkStep(sc, cfg.maxEntries, cs, start, d, chunk, skip, before, cs1, Snap());
      PosClosed(curBk, chunk, sc.nbBk);
      SweptJoin(start, d, chunk, sc.nbBk);
      curBk' := if curBk + chunk >= sc.nbBk then curBk + chunk - sc.nbBk else curBk + chunk;
    }

    /** Sweeps width buckets from startBk in chunks. */
    method SweepFrom(startBk: nat, width: nat, before: Tsc, skip: nat) returns (evicted: nat, curBk: nat)
      requires Base() && startBk < sc.nbBk && width <= sc.nbBk
      modifies this`freeHead, this`free, this`stats, ht`nb, ht.buckets, lastTs, next
      ensures Base() && StepCounters(old(stats), stats, width, evicted)
      ensures curBk == Pos(startBk, width, sc.nbBk) && curBk < sc.nbBk
      ensures var gone := Expired(sc, old(Snap()), Crowded(old(ht.St()), Swept(startBk, width, sc.nbBk), skip), before);
              Purged(sc, old(Snap()), gone, Snap()) && evicted == |gone|
    {
      hide PoolOk, Inv, Linked, Expired, Purged, Crowded, Swept;
      ghost var cs := Snap();
      var left: nat := width;
      curBk, evicted := startBk, 0;
      PurgedNothing(sc, cs, cs);
      ExpiredNone(sc, cs, before);
      SweptNothing(cs.st, startBk, sc.nbBk, skip);
      while left > 0
        invariant left <= width && Base()
        invariant curBk == Pos(startBk, width - left, sc.nbBk) && curBk < sc.nbBk
        invariant Purged(sc, cs, Expired(sc, cs, Crowded(cs.st, Swept(startBk, width - left, sc.nbBk), skip), before), Snap())
        invariant evicted == |Expired(sc, cs, Crowded(cs.st, Swept(startBk, width - left, sc.nbBk), skip), before)|
        invariant StepCounters(cs.stats, stats, width - left, evicted)
      {
        var chunk := if left > STEP_MAX_BKS then STEP_MAX_BKS else left;
        var n;
        n, curBk := SweepChunk(cs, startBk, width - left, curBk, chunk, before, skip);
        evicted := evicted + n;
        left := left - chunk;
      }
    }

    /** A cursor-driven sweep over at most one lap, in chunks. */
    method StepGrouped(bucketCount: nat, now: Tsc, skip: nat) returns (evicted: nat)
      requires Valid() && 0 < sc.nbBk
      modifies this`freeHead, this`free, this`stats, this`cursor, this`lastStartBk, this`lastSweepBk, ht`nb, ht.buckets, lastTs, next
      ensures Valid()
      ensures StepSwept(sc, old(Snap()), Wrap(old(cursor), sc.nbBk), bucketCount, now, skip, evicted, Snap())
      ensures lastStartBk == Wrap(old(cursor), sc.nbBk) && lastSweepBk == Width(bucketCount, sc.nbBk)
      ensures cursor == Pos(lastStartBk, lastSweepBk, sc.nbBk)
      ensures StepCounters(old(stats), stats, lastSweepBk, evicted)
      ensures lastSweepBk == if bucketCount < sc.nbBk then bucketCount else sc.nbBk
      ensures SweptExactly(sc, old(Snap()), old(cursor), lastSweepBk, skip, eff, now, evicted, Snap())
      ensures cursor == (old(cursor) + lastSweepBk) % sc.nbBk
    {
      hide PoolOk, Inv, Linked, Expired, Purged, Crowded, Swept, Pos, Wrap, Counted, SweptExactly;
      ghost var cs := Snap();
      var width := if bucketCount > sc.nbBk then sc.nbBk else bucketCount;
      var before := ExpireBefore(now, eff);
      var startBk := Wrap(cursor, sc.nbBk);
      var curBk;
      evicted, curBk := SweepFrom(startBk, width, before, skip);
      SweepCounts(sc, cs, Expired(sc, cs, Crowded(cs.st, Swept(startBk, width, sc.nbBk), skip), before), Snap());
      StepLaw(sc, cfg.maxEntries, cs, cursor, bucketCount, now, skip, evicted, Snap());
      RecordSweep(curBk, startBk, width);
    }

    /** Remembers where the next sweep begins and what the last one covered. */
    method RecordSweep(curBk: nat, startBk: nat, width: nat)
      requires Valid()
      modifies this`cursor, this`lastStartBk, this`lastSweepBk
      ensures Valid() && Snap() == old(Snap())
      ensures cursor == curBk && lastStartBk == startBk && lastSweepBk == width
    {
      cursor := curBk;
      lastStartBk := startBk;
      lastSweepBk := width;
    }

    /** Adapts the timeout to the present fill level; entries do not move. */
    method Retime()
      requires Base()
      modifies this`eff
      ensures Base() && eff == EffTimeout(cfg, ht.nb)
      ensures Snap() == old(Snap()).(eff := eff)
    {
      ghost var cs := Snap();
      UpdateEffTimeout();
      EffAside(sc, cfg.maxEntries, cs, Snap());
    }

    /** Evicts the expired entries of a range of buckets under the timeout for the present fill level. */
    method Maintain(startBk: nat, bucketCount: nat, now: Tsc) returns (evicted: nat)
      requires Valid() && 0 < sc.nbBk
      modifies this`freeHead, this`free, this`stats, this`eff, ht`nb, ht.buckets, lastTs, next
      ensures Valid() && eff == EffTimeout(cfg, old(ht.nb))
      ensures var cs := old(Snap()).(eff := eff);
              var gone := Expired(sc, cs, Swept(Wrap(startBk, sc.nbBk), bucketCount, sc.nbBk), ExpireBefore(now, eff));
              Purged(sc, cs, gone, Snap()) && evicted == |gone|
      ensures SweptExactly(sc, old(Snap()), startBk, bucketCount, 0, eff, now, evicted, Snap())
      ensures stats == old(stats).(maintCalls := old(stats).maintCalls + 1, maintChecks := old(stats).maintChecks + bucketCount,
                                   maintEvictions := old(stats).maintEvictions + evicted)
    {
      hide PoolOk, Inv, Linked, Expired, Purged, Swept, Wrap, EffTimeout, SweptExactly;
      ghost var cs0 := Snap();
      Tally(stats.(maintCalls := stats.maintCalls + 1));
      Retime();
      ghost var cs1 := Snap();
      evicted := MaintainGrouped(startBk, bucketCount, now);
      AsideApart(sc, cs0, cs1);
      PurgedBase(sc, cs0.(eff := eff), cs1, Swept(Wrap(startBk, sc.nbBk), bucketCount, sc.nbBk), ExpireBefore(now, eff), Snap());
    }

    /** A sweep from a given bucket with a given threshold. */
    method MaintainStepEx(startBk: nat, bucketCount: nat, skip: nat, now: Tsc) returns (evicted: nat)
      requires Valid() && 0 < sc.nbBk
      modifies this`freeHead, this`free, this`stats, this`eff, this`cursor, this`lastStartBk, this`lastSweepBk, ht`nb, ht.buckets, lastTs, next
      ensures Valid() && eff == EffTimeout(cfg, old(ht.nb))
      ensures StepSwept(sc, old(Snap()).(eff := eff), Wrap(startBk, sc.nbBk), bucketCount, now, skip, evicted, Snap())
      ensures cursor == Pos(Wrap(startBk, sc.nbBk), Width(bucketCount, sc.nbBk), sc.nbBk)
      ensures StepCounters(Called(old(stats)), stats, Width(bucketCount, sc.nbBk), evicted)
      ensures SweptExactly(sc, old(Snap()), startBk, if bucketCount < sc.nbBk then bucketCount else sc.nbBk, skip, eff, now, evicted, Snap())
      ensures lastStartBk == Wrap(startBk, sc.nbBk) && lastSweepBk == Width(bucketCount, sc.nbBk)
    {
      hide PoolOk, Inv, Linked, EffTimeout, Wrap, Crowded, Swept, Expired, Purged, SweptExactly;
      ghost var cs0 := Snap();
      Tally(Called(stats));
      ghost var cs1 := Snap();
      evicted := RunStep(Wrap(startBk, sc.nbBk), bucketCount, skip, now);
      StepBase(sc, cs0.(eff := eff), cs1.(eff := eff), Wrap(startBk, sc.nbBk), bucketCount, now, skip, evicted, Snap());
      EffAside(sc, cfg.maxEntries, cs0, cs0.(eff := eff));
      StepLaw(sc, cfg.maxEntries, cs0.(eff := eff), startBk, bucketCount, now, skip, evicted, Snap());
      AsideApart(sc, cs0, cs0.(eff := eff));
    }

    /** The common end of both step functions: adapt the timeout, set the cursor, sweep. */
    method RunStep(start: nat, bucketCount: nat, skip: nat, now: Tsc) returns (evicted: nat)
      requires Valid() && start < sc.nbBk
      modifies this`freeHead, this`free, this`stats, this`eff, this`cursor, this`lastStartBk, this`lastSweepBk, ht`nb, ht.buckets, lastTs, next
      ensures Valid() && eff == EffTimeout(cfg, old(ht.nb))
      ensures StepSwept(sc, old(Snap()).(eff := eff), start, bucketCount, now, skip, evicted, Snap())
      ensures cursor == Pos(start, Width(bucketCount, sc.nbBk), sc.nbBk)
      ensures lastStartBk == start && lastSweepBk == Width(bucketCount, sc.nbBk)
      ensures StepCounters(old(stats), stats, Width(bucketCount, sc.nbBk), evicted)
    {
      hide PoolOk, Inv, Linked, Expired, Purged, Swept, EffTimeout, Crowded;
      ghost var cs0 := Snap();
      Retime();
      RecordSweep(start, lastStartBk, lastSweepBk);
      ghost var cs1 := Snap();
      WrapSmall(start, sc.nbBk);
      evicted := StepGrouped(bucketCount, now, skip);
      StepBase(sc, cs0.(eff := eff), cs1, start, bucketCount, now, skip, evicted, Snap());
    }

    /**
     * The throttled garbage collection: a full sweep when idle, otherwise a sweep whose width grows
     * with the elapsed time and the number of new entries, or nothing at all.
     */
    method MaintainStep(now: Tsc, idle: bool) returns (evicted: nat)
      requires Valid() && 0 < sc.nbBk
      modifies this`freeHead, this`free, this`stats, this`eff, this`cursor, this`lastStartBk, this`lastSweepBk
      modifies this`lastMaintTsc, this`lastMaintFills, ht`nb, ht.buckets, lastTs, next
      ensures Valid()
      ensures var scale := StepScale(cfg, Sub64(now, old(lastMaintTsc)), Sub64(old(stats).fills, old(lastMaintFills)));
              var sweep := if idle then sc.nbBk else Mul32(cfg.maintBaseBk, scale);
              if !idle && scale == 0 then
                && evicted == 0 && cursor == old(cursor) && lastMaintTsc == old(lastMaintTsc) && lastMaintFills == old(lastMaintFills)
                && lastStartBk == old(lastStartBk) && lastSweepBk == old(lastSweepBk)
                && Snap() == old(Snap()).(stats := old(stats).(maintStepCalls := old(stats).maintStepCalls + 1))
              else
                && eff == EffTimeout(cfg, old(ht.nb))
                && StepSwept(sc, old(Snap()).(eff := eff), Wrap(old(cursor), sc.nbBk), sweep, now,
                             if idle then 0 else cfg.pressure, evicted, Snap())
                && cursor == Pos(Wrap(old(cursor), sc.nbBk), Width(sweep, sc.nbBk), sc.nbBk)
                && lastStartBk == Wrap(old(cursor), sc.nbBk) && lastSweepBk == Width(sweep, sc.nbBk)
                && StepCounters(Called(old(stats)), stats, Width(sweep, sc.nbBk), evicted)
                && lastMaintTsc == now && lastMaintFills == old(stats).fills
      ensures var added := old(stats).fills - old(lastMaintFills);
              0 <= added <= U64_MAX ==>
                Throttled(sc, cfg, old(Snap()), old(cursor), old(lastMaintTsc), added, now, idle, evicted, Snap(), cursor, lastMaintTsc)
    {
      hide PoolOk, Inv, Linked, StepSwept, EffTimeout, Wrap, Sub64, Throttled, StepScale, Mul32, Pos, Width;
      var sweep, skip;
      ghost var cs0 := Snap();
      Tally(stats.(maintStepCalls := stats.maintStepCalls + 1));
      ghost var cs1 := Snap();
      if idle {
        sweep, skip := sc.nbBk, 0;
      } else {
        var scale := StepScale(cfg, Sub64(now, lastMaintTsc), Sub64(stats.fills, lastMaintFills));
        if scale == 0 {
          evicted := 0;
          ThrottledStep(cs0, old(cursor), old(lastMaintTsc), old(lastMaintFills), now, idle, 0, Snap(), cursor, lastMaintTsc);
          return;
        }
        sweep := Mul32(cfg.maintBaseBk, scale);
        skip := cfg.pressure;
      }
      evicted := RunThrottled(sweep, skip, now);
      StepBase(sc, cs0.(eff := eff), cs1.(eff := eff), Wrap(old(cursor), sc.nbBk), sweep, now, skip, evicted, Snap());
      ThrottledStep(cs0, old(cursor), old(lastMaintTsc), old(lastMaintFills), now, idle, evicted, Snap(), cursor, lastMaintTsc);
    }

    lemma ThrottledStep(cs: Cache, cursor0: nat, last: Tsc, fills: nat, now: Tsc, idle: bool, evicted: nat, cs': Cache, cursor': nat, last': nat)
      requires PoolOk(sc, cfg.maxEntries, cs) && 0 < sc.nbBk
      requires var scale := StepScale(cfg, Sub64(now, last), Sub64(cs.stats.fills, fills));
               var sweep := if idle then sc.nbBk else Mul32(cfg.maintBaseBk, scale);
               if !idle && scale == 0 then
                 evicted == 0 && cursor' == cursor0 && last' == last && cs' == cs.(stats := cs'.stats)
               else
                 && StepSwept(sc, cs.(eff := cs'.eff), Wrap(cursor0, sc.nbBk), sweep, now, if idle then 0 else cfg.pressure, evicted, cs')
                 && cursor' == Pos(Wrap(cursor0, sc.nbBk), Width(sweep, sc.nbBk), sc.nbBk) && last' == now
      ensures 0 <= cs.stats.fills - fills <= U64_MAX ==>
                Throttled(sc, cfg, cs, cursor0, last, cs.stats.fills - fills, now, idle, evicted, cs', cursor', last')
    {
      hide StepSwept, Throttled, StepScale, Mul32, Wrap, Pos, Width, PoolOk;
      if 0 <= cs.stats.fills - fills <= U64_MAX {
        ThrottledBy(sc, cfg, cs, cursor0, last, cs.stats.fills - fills, now, idle, evicted, cs', cursor', last');
      }
    }

    method RunThrottled(sweep: nat, skip: nat, now: Tsc) returns (evicted: nat)
      requires Valid() && 0 < sc.nbBk
      modifies this`freeHead, this`free, this`stats, this`eff, this`cursor, this`lastStartBk, this`lastSweepBk
      modifies this`lastMaintTsc, this`lastMaintFills, ht`nb, ht.buckets, lastTs, next
      ensures Valid() && eff == EffTimeout(cfg, old(ht.nb))
      ensures StepSwept(sc, old(Snap()).(eff := eff), Wrap(old(cursor), sc.nbBk), sweep, now, skip, evicted, Snap())
      ensures lastMaintTsc == now && lastMaintFills == old(stats).fills
      ensures cursor == Pos(Wrap(old(cursor), sc.nbBk), Width(sweep, sc.nbBk), sc.nbBk)
      ensures lastStartBk == Wrap(old(cursor), sc.nbBk) && lastSweepBk == Width(sweep, sc.nbBk)
      ensures StepCounters(old(stats).(maintCalls := old(stats).maintCalls + 1), stats, Width(sweep, sc.nbBk), evicted)
    {
      hide PoolOk, Inv, Linked, EffTimeout, Wrap, Crowded, Swept, Expired, Purged;
      ghost var cs0 := Snap();
      Stamp(now);
      Tally(stats.(maintCalls := stats.maintCalls + 1));
      ghost var cs1 := Snap();
      evicted := RunStep(Wrap(cursor, sc.nbBk), sweep, skip, now);
      StepBase(sc, cs0.(eff := eff), cs1.(eff := eff), Wrap(old(cursor), sc.nbBk), sweep, now, skip, evicted, Snap());
    }

    /** Remembers when the last garbage collection ran. */
    method Stamp(now: Tsc)
      requires Valid()
      modifies this`lastMaintTsc, this`lastMaintFills
      ensures Valid() && Snap() == old(Snap()) && lastMaintTsc == now && lastMaintFills == stats.fills
    {
      lastMaintTsc := now;
      lastMaintFills := stats.fills;
    }

    // ------------------------------------------------------------ deletion by index and walk

    /** Takes a stored entry out of the table and frees its cell; true if the entry was stored. */
    method Delete(e: nat) returns (did: bool)
      requires Valid() && 0 < e <= cfg.maxEntries
      modifies this`freeHead, this`free, this`removed, ht`nb, ht.buckets, lastTs, next
      ensures Valid() && stats == old(stats)
      ensures Deleted(sc, old(Snap()), e, did, Snap())
    {
      ghost var cs := Snap();
      assert Placed(sc, cs, e);
      var r := ht.Remove(e);
      if r == NIL {
        return false;
      }
      FreeEntry(e);
      removed := removed + 1;
      did := true;
      DeleteOne(sc, cs, e, Snap(), cfg.maxEntries);
    }

    /** Deletes the entry with a pool index, if it is stored. */
    method RemoveIdx(entryIdx: nat) returns (r: int)
      requires Valid()
      modifies this`freeHead, this`free, this`removed, ht`nb, ht.buckets, lastTs, next
      ensures Valid() && stats == old(stats)
      ensures r == if Stored(sc, old(Snap()).st, entryIdx) then 1 else 0
      ensures if r == 1 then Deleted(sc, old(Snap()), entryIdx, true, Snap()) else Snap() == old(Snap())
    {
      if entryIdx == 0 || entryIdx > cfg.maxEntries {
        return 0;
      }
      var did := Delete(entryIdx);
      r := if did then 1 else 0;
    }

    /** Calls cb on every stored entry in pool order and stops at the first negative answer. */
    method Walk(cb: nat -> int) returns (rc: int, visited: seq<nat>)
      requires Valid()
      ensures Ascending(visited) && forall k :: 0 <= k < |visited| ==> Stored(sc, Snap().st, visited[k])
      ensures rc <= 0 && forall k :: 0 <= k < |visited| - 1 ==> cb(visited[k]) >= 0
      ensures rc == 0 ==> (forall j: nat :: Stored(sc, Snap().st, j) ==> j in visited) && forall k :: 0 <= k < |visited| ==> cb(visited[k]) >= 0
      ensures rc < 0 ==> |visited| > 0 && rc == cb(visited[|visited| - 1])
    {
      hide PoolOk, Inv, Linked, Stored, Counted;
      ghost var cs := Snap();
      PoolSizes(sc, cfg.maxEntries, cs);
      visited := [];
      rc := 0;
      for i := 0 to cfg.maxEntries
        invariant Walked(cs.ts, i, visited)
        invariant forall k :: 0 <= k < |visited| ==> cb(visited[k]) >= 0
      {
        WalkedNext(cs.ts, i, visited);
        if lastTs[i + 1] != 0 {
          visited := visited + [i + 1];
          rc := cb(i + 1);
          if rc < 0 {
            WalkedStored(sc, cfg.maxEntries, cs, i + 1, visited);
            return;
          }
        }
      }
      WalkedStored(sc, cfg.maxEntries, cs, cfg.maxEntries, visited);
      rc := 0;
    }
  }
}
