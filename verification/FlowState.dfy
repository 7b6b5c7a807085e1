/** The flow cache as a value: the slot table, timestamps, free list and counters, and what each step does to them. */
module FlowState {
  import opened HashScheme
  import opened SlotStore
  import Bits16

  const U64_MAX: nat := 0xFFFF_FFFF_FFFF_FFFF

  /** A 64-bit time stamp. */
  type Tsc = t: nat | t <= U64_MAX

  /** Settings fixed at initialisation. */
  datatype Config = Config(
    maxEntries: nat, nbBk: nat, totalSlots: nat,
    timeout: nat, timeoutMin: nat, timeoutLo: nat, timeoutHi: nat,
    reliefMid: nat, reliefHi: nat, pressure: nat,
    maintInterval: nat, maintBaseBk: nat, maintFillThreshold: nat)

  datatype Stats = Stats(
    lookups: nat, hits: nat, misses: nat, fills: nat, fillFull: nat,
    reliefCalls: nat, reliefChecks: nat, reliefEvictions: nat, reliefBk0: nat, reliefBk1: nat,
    maintCalls: nat, maintChecks: nat, maintEvictions: nat, maintStepCalls: nat, maintSkipped: nat)

  const NO_STATS: Stats := Stats(0, 0, 0, 0, 0, 0, 0, 0, 0, 0, 0, 0, 0, 0, 0)

  /** What the caller may choose; 0 means the default for pressure and maintBaseBk. */
  datatype Settings = Settings(timeout: nat, pressure: nat, maintInterval: nat, maintBaseBk: nat, maintFillThreshold: nat)

  const DEFAULT_PRESSURE: nat := 1

  /** parts/64 of all slots. */
  function Threshold64(totalSlots: nat, parts: nat): nat {
    totalSlots * parts / 64
  }

  function MakeConfig(s: Settings, nbBk: nat, maxEntries: nat): Config {
    var total := nbBk * SLOTS;
    Config(maxEntries, nbBk, total,
           s.timeout, if s.timeout / 8 == 0 then 1 else s.timeout / 8,
           Threshold64(total, 38), Threshold64(total, 48),
           Threshold64(total, 45), Threshold64(total, 48),
           if s.pressure != 0 then s.pressure else DEFAULT_PRESSURE,
           s.maintInterval, if s.maintBaseBk != 0 then s.maintBaseBk else nbBk, s.maintFillThreshold)
  }

  /** ts[i] is the last access of pool entry i, 0 for a free entry; removed counts explicit deletions and flushed entries. */
  datatype Cache = Cache(st: Store, ts: seq<nat>, free: seq<nat>, stats: Stats, eff: nat, removed: nat)

  // ------------------------------------------------------------ invariant

  /** The element after position k of a list, NIL at its end. */
  ghost function ListAfter(list: seq<nat>, k: nat): nat {
    if k + 1 < |list| then list[k + 1] else NIL
  }

  ghost predicate FreeListOk(free: seq<nat>, max: nat) {
    && (forall k :: 0 <= k < |free| ==> 0 < free[k] <= max)
    && forall j, k :: 0 <= j < k < |free| ==> free[j] != free[k]
  }

  lemma FreeListCons(free: seq<nat>, e: nat, max: nat)
    requires FreeListOk(free, max) && 0 < e <= max && forall k :: 0 <= k < |free| ==> free[k] != e
    ensures FreeListOk([e] + free, max) && ListAfter([e] + free, 0) == if free == [] then NIL else free[0]
    ensures forall k :: 0 < k <= |free| ==> ([e] + free)[k] == free[k - 1] && ListAfter([e] + free, k) == ListAfter(free, k - 1)
  {
  }

  /** Pool entry i is in exactly one place: in the table with a timestamp, or on the free list without one. */
  ghost predicate Placed(sc: Scheme, cs: Cache, i: nat)
    requires i < |cs.ts|
  {
    && (Stored(sc, cs.st, i) <==> i !in cs.free)
    && (Stored(sc, cs.st, i) <==> cs.ts[i] != 0)
  }

  ghost predicate Counted(sc: Scheme, cs: Cache) {
    && |Live(sc, cs.st)| + cs.stats.reliefEvictions + cs.stats.maintEvictions + cs.removed == cs.stats.fills
    && cs.stats.lookups == cs.stats.hits + cs.stats.misses
    && cs.stats.reliefEvictions == cs.stats.reliefBk0 + cs.stats.reliefBk1
  }

  ghost predicate CacheInv(sc: Scheme, max: nat, cs: Cache) {
    PoolOk(sc, max, cs) && Counted(sc, cs)
  }

  /** The part of the invariant that speaks of the pool and the table. */
  ghost predicate PoolOk(sc: Scheme, max: nat, cs: Cache) {
    && sc.Lawful() && Inv(sc, cs.st)
    && |cs.st.n| == max + 1 && |cs.ts| == max + 1
    && FreeListOk(cs.free, max)
    && (forall i :: 1 <= i <= max ==> Placed(sc, cs, i))
  }

  /** Free entries and stored entries add up to the pool. */
  lemma PoolPartition(sc: Scheme, max: nat, cs: Cache)
    requires PoolOk(sc, max, cs)
    ensures |cs.free| + |Live(sc, cs.st)| == max
  {
    DistinctSize(cs.free);
    RangeSize(max);
    FreeOrLive(sc, max, cs);
    SetSplit(Range(max), Elems(cs.free), Live(sc, cs.st));
  }

  lemma FreeOrLive(sc: Scheme, max: nat, cs: Cache)
    requires PoolOk(sc, max, cs)
    ensures forall i: nat :: i in Live(sc, cs.st) <==> i in Range(max) && i !in Elems(cs.free)
    ensures forall i: nat :: i in Elems(cs.free) ==> i in Range(max)
  {
    RangeSize(max);
    forall i: nat
      ensures i in Live(sc, cs.st) <==> i in Range(max) && i !in Elems(cs.free)
      ensures i in Elems(cs.free) ==> i in Range(max)
    {
      PlacedWhere(sc, max, cs, i);
    }
  }

  lemma SetSplit(all: set<nat>, f: set<nat>, l: set<nat>)
    requires forall i: nat :: i in l <==> i in all && i !in f
    requires forall i: nat :: i in f ==> i in all
    ensures |f| + |l| == |all|
  {
    assert l == all - f;
    assert f <= all;
  }

  lemma PlacedWhere(sc: Scheme, max: nat, cs: Cache, i: nat)
    requires PoolOk(sc, max, cs)
    ensures i in Live(sc, cs.st) <==> 1 <= i <= max && i !in cs.free
    ensures i in cs.free ==> 1 <= i <= max
  {
    if 1 <= i <= max {
      assert Placed(sc, cs, i);
    }
  }

  lemma {:induction false} DistinctSize(s: seq<nat>)
    requires forall j, k :: 0 <= j < k < |s| ==> s[j] != s[k]
    ensures |Elems(s)| == |s|
  {
    if s != [] {
      var t, x := s[..|s| - 1], s[|s| - 1];
      DistinctSize(t);
      assert Elems(s) == Elems(t) + {x};
    }
  }

  lemma ListedAll(max: nat, free: seq<nat>)
    requires |free| == max && forall k :: 0 <= k < max ==> free[k] == max - k
    ensures forall i :: 1 <= i <= max ==> i in free
  {
    forall i | 1 <= i <= max
      ensures i in free
    {
      assert free[max - i] == i;
    }
  }

  ghost function Elems(s: seq<nat>): set<nat> {
    set i | i in s
  }

  ghost function Range(n: nat): set<nat> {
    if n == 0 then {} else Range(n - 1) + {n}
  }

  lemma {:induction false} RangeSize(n: nat)
    ensures |Range(n)| == n
    ensures forall i: nat :: i in Range(n) <==> 1 <= i <= n
  {
    if n > 0 {
      RangeSize(n - 1);
      forall i: nat
        ensures i in Range(n) <==> 1 <= i <= n
      {
        assert i in Range(n) <==> i in Range(n - 1) || i == n;
      }
    }
  }

  // ------------------------------------------------------------ eviction

  /** Entries older than this are expired. */
  function ExpireBefore(now: nat, eff: nat): nat {
    if now > eff then now - eff else 0
  }

  /** The entries in gone leave the table for the free list; nothing else moves. */
  ghost predicate Purged(sc: Scheme, cs: Cache, gone: set<nat>, cs': Cache) {
    && |cs'.st.b| == |cs.st.b| && cs'.st.n == cs.st.n && |cs'.ts| == |cs.ts|
    && (forall j :: j in gone ==> Stored(sc, cs.st, j) && j < |cs.ts|)
    && (forall j: nat :: Stored(sc, cs'.st, j) <==> Stored(sc, cs.st, j) && j !in gone)
    && (forall j :: 0 <= j < |cs.ts| ==> cs'.ts[j] == if j in gone then 0 else cs.ts[j])
    && (forall x, s :: 0 <= x < |cs.st.b| && 0 <= s < SLOTS ==> SlotPurged(cs.st, gone, cs'.st, x, s))
    && |cs'.free| == |cs.free| + |gone| && cs'.free[|gone|..] == cs.free
    && (forall j: nat :: j in cs'.free <==> j in cs.free || j in gone)
    && cs'.eff == cs.eff && cs'.removed == cs.removed
  }

  ghost predicate SlotPurged(st: Store, gone: set<nat>, st': Store, x: nat, s: nat) {
    && x < |st.b| && x < |st'.b| && |st'.b[x].idx| == |st.b[x].idx| && |st'.b[x].hash| == |st.b[x].hash|
    && s < |st.b[x].idx| && s < |st.b[x].hash|
    && st'.b[x].idx[s] == (if st.b[x].idx[s] in gone then NIL else st.b[x].idx[s])
    && st'.b[x].hash[s] == (if st.b[x].idx[s] in gone then 0 else st.b[x].hash[s])
  }

  /** A purge leaves a valid table. */
  lemma PurgedInv(sc: Scheme, cs: Cache, gone: set<nat>, cs': Cache)
    requires Inv(sc, cs.st) && Purged(sc, cs, gone, cs')
    ensures Inv(sc, cs'.st)
  {
    forall x | 0 <= x < |cs'.st.b|
      ensures |cs'.st.b[x].hash| == SLOTS && |cs'.st.b[x].idx| == SLOTS
    {
      assert SlotPurged(cs.st, gone, cs'.st, x, 0);
    }
    forall x, s | 0 <= x < |cs'.st.b| && 0 <= s < SLOTS
      ensures SlotOk(sc, cs'.st, x, s)
    {
      assert SlotPurged(cs.st, gone, cs'.st, x, s) && SlotOk(sc, cs.st, x, s);
    }
    hide SlotPurged, SlotOk;
  }

  lemma PurgedNothing(sc: Scheme, cs: Cache, cs': Cache)
    requires Inv(sc, cs.st)
    requires cs'.st == cs.st && cs'.ts == cs.ts && cs'.free == cs.free && cs'.eff == cs.eff && cs'.removed == cs.removed
    ensures Purged(sc, cs, {}, cs')
  {
  }

  /** The counters play no part in where entries are. */
  lemma StatsAside(sc: Scheme, max: nat, cs: Cache, gone: set<nat>, c1: Cache, c2: Cache)
    requires c2 == c1.(stats := c2.stats)
    ensures Purged(sc, cs, gone, c1) ==> Purged(sc, cs, gone, c2)
    ensures PoolOk(sc, max, c1) ==> PoolOk(sc, max, c2)
  {
    if PoolOk(sc, max, c1) {
      forall i | 1 <= i <= max
        ensures Placed(sc, c2, i)
      {
        assert Placed(sc, c1, i);
      }
    }
  }

  lemma TailOfTail(f1: seq<nat>, m: nat, f2: seq<nat>, n: nat, f3: seq<nat>)
    requires |f2| == |f1| + m && f2[m..] == f1 && |f3| == |f2| + n && f3[n..] == f2
    ensures f3[m + n..] == f1
  {
    assert f3[m + n..] == f3[n..][m..];
  }

  lemma PurgedTrans(sc: Scheme, c1: Cache, g1: set<nat>, c2: Cache, g2: set<nat>, c3: Cache)
    requires Purged(sc, c1, g1, c2) && Purged(sc, c2, g2, c3)
    ensures Purged(sc, c1, g1 + g2, c3) && g1 !! g2
  {
    hide Stored;
    PurgedSizes(sc, c1, g1, c2, g2, c3);
    forall x, s | 0 <= x < |c1.st.b| && 0 <= s < SLOTS
      ensures SlotPurged(c1.st, g1 + g2, c3.st, x, s)
    {
      assert SlotPurged(c1.st, g1, c2.st, x, s) && SlotPurged(c2.st, g2, c3.st, x, s);
    }
    hide SlotPurged;
  }

  lemma PurgedSizes(sc: Scheme, c1: Cache, g1: set<nat>, c2: Cache, g2: set<nat>, c3: Cache)
    requires Purged(sc, c1, g1, c2) && Purged(sc, c2, g2, c3)
    ensures g1 !! g2 && |g1 + g2| == |g1| + |g2| && |c3.free| == |c1.free| + |g1 + g2| && c3.free[|g1 + g2|..] == c1.free
  {
    hide Stored, SlotPurged;
    assert g1 !! g2;
    assert |g1 + g2| == |g1| + |g2|;
    TailOfTail(c1.free, |g1|, c2.free, |g2|, c3.free);
  }

  /** A purge keeps every pool entry in exactly one place. */
  lemma PurgedPool(sc: Scheme, max: nat, cs: Cache, gone: set<nat>, cs': Cache)
    requires PoolOk(sc, max, cs) && Purged(sc, cs, gone, cs')
    ensures PoolOk(sc, max, cs')
  {
    PurgedInv(sc, cs, gone, cs');
    hide SlotPurged, Inv;
    PurgedFree(sc, max, cs, gone, cs');
    forall i | 1 <= i <= max
      ensures Placed(sc, cs', i)
    {
      assert Placed(sc, cs, i);
    }
  }

  lemma PurgedFree(sc: Scheme, max: nat, cs: Cache, gone: set<nat>, cs': Cache)
    requires PoolOk(sc, max, cs) && Purged(sc, cs, gone, cs')
    ensures FreeListOk(cs'.free, max)
  {
    forall j: nat | j in gone
      ensures j !in cs.free && 1 <= j <= max
    {
      LiveMembers(sc, cs.st);
      PlacedWhere(sc, max, cs, j);
    }
    JoinedList(cs.free, gone, cs'.free, max);
  }

  lemma JoinedList(free: seq<nat>, gone: set<nat>, free': seq<nat>, max: nat)
    requires FreeListOk(free, max) && |free'| == |free| + |gone|
    requires forall j: nat :: j in free' <==> j in free || j in gone
    requires forall j: nat :: j in gone ==> j !in free && 1 <= j <= max
    ensures FreeListOk(free', max)
  {
    assert Elems(free') == Elems(free) + gone;
    DistinctSize(free);
    assert Elems(free) !! gone;
    SizeDistinct(free');
    forall k | 0 <= k < |free'|
      ensures 0 < free'[k] <= max
    {
      assert free'[k] in free';
    }
  }

  /** A list with as many elements as members repeats none. */
  lemma {:induction false} SizeDistinct(s: seq<nat>)
    requires |Elems(s)| == |s|
    ensures forall j, k :: 0 <= j < k < |s| ==> s[j] != s[k]
  {
    if s != [] {
      var t, x := s[..|s| - 1], s[|s| - 1];
      assert Elems(s) == Elems(t) + {x};
      ElemsSize(t);
      assert x !in Elems(t);
      SizeDistinct(t);
      forall j | 0 <= j < |t|
        ensures s[j] != x
      {
        assert s[j] in Elems(t);
      }
    }
  }

  lemma {:induction false} ElemsSize(s: seq<nat>)
    ensures |Elems(s)| <= |s|
  {
    if s != [] {
      var t, x := s[..|s| - 1], s[|s| - 1];
      ElemsSize(t);
      assert Elems(s) == Elems(t) + {x};
    }
  }

  /** The occupant of a slot that has expired. */
  ghost predicate ExpiredAt(cs: Cache, x: nat, s: nat, before: nat) {
    && x < |cs.st.b| && s < |cs.st.b[x].idx|
    && cs.st.b[x].idx[s] != NIL && cs.st.b[x].idx[s] < |cs.ts|
    && cs.ts[cs.st.b[x].idx[s]] < before
  }

  /** The expired stored entries of a set of buckets. */
  ghost function Expired(sc: Scheme, cs: Cache, xs: set<nat>, before: nat): set<nat> {
    set j | 0 <= j < |cs.ts| && j < |cs.st.n| && Stored(sc, cs.st, j)
            && sc.bucket(cs.st.n[j].hashField) in xs && cs.ts[j] < before
  }

  /** Slot s holds the oldest expired entry of bucket x, the first one among equals. */
  ghost predicate Oldest(cs: Cache, x: nat, s: nat, before: nat) {
    ExpiredAt(cs, x, s, before)
    && forall t :: 0 <= t < SLOTS && ExpiredAt(cs, x, t, before) ==> NotOlder(cs, x, s, t)
  }

  /** Evicting one stored entry. */
  lemma EvictOne(sc: Scheme, cs: Cache, e: nat, cs': Cache, max: nat)
    requires PoolOk(sc, max, cs) && Removed(sc, cs.st, e, cs'.st) && Inv(sc, cs'.st)
    requires Stored(sc, cs.st, e) && SlotCleared(sc, cs.st, e, cs'.st)
    requires cs'.ts == cs.ts[e := 0] && cs'.free == [e] + cs.free && cs'.eff == cs.eff && cs'.removed == cs.removed
    ensures Purged(sc, cs, {e}, cs') && PoolOk(sc, max, cs')
  {
    assert Placed(sc, cs, e);
    forall x, s | 0 <= x < |cs.st.b| && 0 <= s < SLOTS
      ensures SlotPurged(cs.st, {e}, cs'.st, x, s)
    {
      assert SlotOk(sc, cs.st, x, s);
    }
    forall i | 1 <= i <= max
      ensures Placed(sc, cs', i)
    {
      assert Placed(sc, cs, i);
    }
  }

  /** The slot of e is cleared, every other slot is as before. */
  ghost predicate SlotCleared(sc: Scheme, st: Store, e: nat, st': Store) {
    && Shape(sc, st) && e < |st.n| && sc.bucket(st.n[e].hashField) < |st.b| && st.n[e].slotField < SLOTS
    && st' == Cleared(sc, st, sc.bucket(st.n[e].hashField), st.n[e].slotField)
  }

  /** What reclaiming one entry of bucket x does: the oldest expired entry goes, if any has expired. */
  ghost predicate Reclaimed(sc: Scheme, cs: Cache, x: nat, before: nat, did: bool, slot: nat, cs': Cache) {
    if did then
      Oldest(cs, x, slot, before) && Purged(sc, cs, {cs.st.b[x].idx[slot]}, cs')
    else
      cs' == cs && forall s :: 0 <= s < SLOTS ==> !ExpiredAt(cs, x, s, before)
  }

  // ------------------------------------------------------------ bucket scan

  ghost predicate Ascending(s: seq<nat>) {
    forall j, k :: 0 <= j < k < |s| ==> s[j] < s[k]
  }

  /** The occupied slots of bucket x below limit, in order. */
  ghost predicate OccupiedList(cs: Cache, x: nat, limit: nat, used: seq<nat>)
    requires x < |cs.st.b| && limit <= |cs.st.b[x].idx|
  {
    && (forall k :: 0 <= k < |used| ==> used[k] < limit && cs.st.b[x].idx[used[k]] != NIL)
    && Ascending(used)
    && (forall s :: 0 <= s < limit && cs.st.b[x].idx[s] != NIL ==> s in used)
  }

  /** The listed slots hold entries with a timestamp. */
  ghost predicate UsedOk(cs: Cache, x: nat, used: seq<nat>) {
    && x < |cs.st.b|
    && forall k :: 0 <= k < |used| ==> used[k] < |cs.st.b[x].idx| && NIL != cs.st.b[x].idx[used[k]] < |cs.ts|
  }

  lemma UsedInRange(sc: Scheme, max: nat, cs: Cache, x: nat, used: seq<nat>)
    requires PoolOk(sc, max, cs) && x < |cs.st.b| && OccupiedList(cs, x, SLOTS, used)
    ensures UsedOk(cs, x, used)
  {
    forall k | 0 <= k < |used|
      ensures cs.st.b[x].idx[used[k]] < |cs.ts|
    {
      assert SlotOk(sc, cs.st, x, used[k]);
    }
  }

  /** The expired slots among the listed ones, in list order. */
  ghost function FilterExpired(cs: Cache, x: nat, before: nat, slots: seq<nat>): seq<nat> {
    if slots == [] then []
    else
      var rest, s := FilterExpired(cs, x, before, slots[..|slots| - 1]), slots[|slots| - 1];
      if ExpiredAt(cs, x, s, before) then rest + [s] else rest
  }

  /** The timestamp of the occupant of a slot. */
  ghost function TsAt(cs: Cache, x: nat, s: nat): nat {
    if x < |cs.st.b| && s < |cs.st.b[x].idx| && cs.st.b[x].idx[s] < |cs.ts| then cs.ts[cs.st.b[x].idx[s]] else 0
  }

  /** The first slot with the least timestamp, -1 for an empty list. */
  ghost function OldestOf(cs: Cache, x: nat, slots: seq<nat>): (o: int)
    ensures -1 <= o && (o == -1 <==> slots == [])
    ensures 0 <= o ==> o in slots
  {
    if slots == [] then -1
    else
      var o, s := OldestOf(cs, x, slots[..|slots| - 1]), slots[|slots| - 1];
      if o < 0 || TsAt(cs, x, s) < TsAt(cs, x, o) then s else o
  }

  /** The occupant of slot t is younger than that of slot s, or as old but in a later slot. */
  ghost predicate NotOlder(cs: Cache, x: nat, s: int, t: nat) {
    && 0 <= s && x < |cs.st.b| && s < |cs.st.b[x].idx| && t < |cs.st.b[x].idx|
    && cs.st.b[x].idx[s] < |cs.ts| && cs.st.b[x].idx[t] < |cs.ts|
    && (cs.ts[cs.st.b[x].idx[s]] < cs.ts[cs.st.b[x].idx[t]]
        || (cs.ts[cs.st.b[x].idx[s]] == cs.ts[cs.st.b[x].idx[t]] && s <= t))
  }

  /** All expired slots of bucket x in order, and the slot of the oldest one. */
  ghost predicate ScanResult(cs: Cache, x: nat, before: nat, expired: seq<nat>, oldest: int) {
    && (forall k :: 0 <= k < |expired| ==> expired[k] < SLOTS && ExpiredAt(cs, x, expired[k], before))
    && Ascending(expired)
    && (forall s :: 0 <= s < SLOTS && ExpiredAt(cs, x, s, before) ==> s in expired)
    && (oldest == -1 <==> expired == [])
    && -1 <= oldest < SLOTS
    && (oldest >= 0 ==> Oldest(cs, x, oldest, before))
  }

  /** The running minimum of a scan: the timestamp of the oldest expired entry, or the largest word. */
  ghost predicate RunningMin(cs: Cache, x: nat, oldest: int, ts: nat) {
    ts == if oldest < 0 then U64_MAX else TsAt(cs, x, oldest)
  }

  lemma {:induction false} FilterExpiredMembers(cs: Cache, x: nat, before: nat, slots: seq<nat>)
    ensures forall s: nat :: s in FilterExpired(cs, x, before, slots) <==> s in slots && ExpiredAt(cs, x, s, before)
  {
    if slots != [] {
      var t, u := slots[..|slots| - 1], slots[|slots| - 1];
      FilterExpiredMembers(cs, x, before, t);
      assert slots == t + [u];
      var e := FilterExpired(cs, x, before, t);
      forall s: nat
        ensures s in slots <==> s in t || s == u
        ensures s in e + [u] <==> s in e || s == u
      {
      }
    }
  }

  /** The effect of visiting used slot number p on the list, the oldest slot and the running minimum. */
  lemma ScanOne(cs: Cache, x: nat, before: Tsc, used: seq<nat>, p: nat, e: seq<nat>, o: int, m: nat)
    requires p < |used| && x < |cs.st.b| && used[p] < |cs.st.b[x].idx| && NIL != cs.st.b[x].idx[used[p]] < |cs.ts|
    requires e == FilterExpired(cs, x, before, used[..p]) && o == OldestOf(cs, x, e) && RunningMin(cs, x, o, m)
    ensures var slot := used[p];
            var ts := TsAt(cs, x, slot);
            if ts < before then
              && FilterExpired(cs, x, before, used[..p + 1]) == e + [slot]
              && OldestOf(cs, x, e + [slot]) == (if ts < m then slot else o)
              && RunningMin(cs, x, if ts < m then slot else o, if ts < m then ts else m)
            else FilterExpired(cs, x, before, used[..p + 1]) == e
  {
    assert used[..p + 1] == used[..p] + [used[p]];
    FilterSnoc(cs, x, before, used[..p], used[p]);
    OldestSnoc(cs, x, e, used[p]);
  }

  lemma ScanNothing(cs: Cache, x: nat, before: nat)
    ensures FilterExpired(cs, x, before, []) == [] && OldestOf(cs, x, []) == -1
  {
  }

  lemma {:induction false} FilterSnoc(cs: Cache, x: nat, before: nat, slots: seq<nat>, s: nat)
    ensures FilterExpired(cs, x, before, slots + [s])
         == FilterExpired(cs, x, before, slots) + if ExpiredAt(cs, x, s, before) then [s] else []
  {
    assert (slots + [s])[..|slots|] == slots;
  }

  lemma {:induction false} OldestSnoc(cs: Cache, x: nat, slots: seq<nat>, s: nat)
    ensures var o := OldestOf(cs, x, slots);
            OldestOf(cs, x, slots + [s]) == if o < 0 || TsAt(cs, x, s) < TsAt(cs, x, o) then s else o
  {
    assert (slots + [s])[..|slots|] == slots;
  }

  lemma {:induction false} FilterExpiredAscends(cs: Cache, x: nat, before: nat, slots: seq<nat>)
    requires Ascending(slots)
    ensures Ascending(FilterExpired(cs, x, before, slots))
  {
    if slots != [] {
      var t, s := slots[..|slots| - 1], slots[|slots| - 1];
      FilterExpiredAscends(cs, x, before, t);
      FilterExpiredMembers(cs, x, before, t);
      var e := FilterExpired(cs, x, before, t);
      assert slots == t + [s];
      FilterSnoc(cs, x, before, t, s);
      forall k | 0 <= k < |e|
        ensures e[k] < s
      {
        assert e[k] in e;
      }
      assert Ascending(e + [s]);
    }
  }

  /** The listed slots of bucket x name cells of the pool. */
  ghost predicate Listed(cs: Cache, x: nat, slots: seq<nat>) {
    forall k :: 0 <= k < |slots| ==> x < |cs.st.b| && slots[k] < |cs.st.b[x].idx| && cs.st.b[x].idx[slots[k]] < |cs.ts|
  }

  lemma {:induction false} OldestOfIsOldest(cs: Cache, x: nat, slots: seq<nat>)
    requires Ascending(slots) && Listed(cs, x, slots)
    ensures forall k :: 0 <= k < |slots| ==> NotOlder(cs, x, OldestOf(cs, x, slots), slots[k])
  {
    if slots != [] {
      var r, s := slots[..|slots| - 1], slots[|slots| - 1];
      OldestOfIsOldest(cs, x, r);
      OldestSnoc(cs, x, r, s);
      assert slots == r + [s];
      var o := OldestOf(cs, x, r);
      if o >= 0 {
        var i: nat :| i < |r| && r[i] == o;
        assert o < s;
      }
      hide OldestOf, Ascending;
      forall k | 0 <= k < |slots|
        ensures NotOlder(cs, x, OldestOf(cs, x, slots), slots[k])
      {
        if k < |r| {
          assert NotOlder(cs, x, o, r[k]);
        }
      }
    }
  }

  lemma ScanDone(sc: Scheme, max: nat, cs: Cache, x: nat, before: nat, used: seq<nat>)
    requires PoolOk(sc, max, cs) && x < |cs.st.b| && OccupiedList(cs, x, SLOTS, used)
    ensures var e := FilterExpired(cs, x, before, used);
            ScanResult(cs, x, before, e, OldestOf(cs, x, e))
  {
    assert |cs.st.b[x].idx| == SLOTS;
    hide PoolOk;
    var e := FilterExpired(cs, x, before, used);
    FilterExpiredMembers(cs, x, before, used);
    FilterExpiredAscends(cs, x, before, used);
    ScanListed(cs, x, before, used, e);
    OldestOfIsOldest(cs, x, e);
    hide FilterExpired, OldestOf, NotOlder, Ascending;
    forall s | 0 <= s < SLOTS && ExpiredAt(cs, x, s, before)
      ensures s in e
    {
    }
    ScanOldest(cs, x, before, e);
  }

  lemma ScanListed(cs: Cache, x: nat, before: nat, used: seq<nat>, e: seq<nat>)
    requires x < |cs.st.b| && SLOTS <= |cs.st.b[x].idx| && OccupiedList(cs, x, SLOTS, used)
    requires forall s: nat :: s in e <==> s in used && ExpiredAt(cs, x, s, before)
    ensures Listed(cs, x, e) && forall k :: 0 <= k < |e| ==> e[k] < SLOTS && ExpiredAt(cs, x, e[k], before)
  {
    forall k | 0 <= k < |e|
      ensures e[k] < SLOTS && ExpiredAt(cs, x, e[k], before)
    {
      assert e[k] in e;
    }
  }

  lemma ScanOldest(cs: Cache, x: nat, before: nat, e: seq<nat>)
    requires forall k :: 0 <= k < |e| ==> e[k] < SLOTS && ExpiredAt(cs, x, e[k], before)
    requires forall k :: 0 <= k < |e| ==> NotOlder(cs, x, OldestOf(cs, x, e), e[k])
    requires forall s :: 0 <= s < SLOTS && ExpiredAt(cs, x, s, before) ==> s in e
    ensures var o := OldestOf(cs, x, e);
            o < SLOTS && (o >= 0 ==> Oldest(cs, x, o, before))
  {
    var o := OldestOf(cs, x, e);
    if o >= 0 {
      var i: nat :| i < |e| && e[i] == o;
      forall t | 0 <= t < SLOTS && ExpiredAt(cs, x, t, before)
        ensures NotOlder(cs, x, o, t)
      {
        var k: nat :| k < |e| && e[k] == t;
      }
    }
  }

  // ------------------------------------------------------------ reclaiming a bucket

  /** The entries in the listed slots of bucket x. */
  ghost function Occupants(cs: Cache, x: nat, slots: seq<nat>): set<nat> {
    if slots == [] then {}
    else
      var r, s := Occupants(cs, x, slots[..|slots| - 1]), slots[|slots| - 1];
      if x < |cs.st.b| && s < |cs.st.b[x].idx| then r + {cs.st.b[x].idx[s]} else r
  }

  lemma {:induction false} OccupantsSnoc(cs: Cache, x: nat, slots: seq<nat>, s: nat)
    requires x < |cs.st.b| && s < |cs.st.b[x].idx|
    ensures Occupants(cs, x, slots + [s]) == Occupants(cs, x, slots) + {cs.st.b[x].idx[s]}
  {
    assert (slots + [s])[..|slots|] == slots;
  }

  lemma {:induction false} OccupantsMembers(cs: Cache, x: nat, slots: seq<nat>)
    requires x < |cs.st.b| && forall s: nat :: s in slots ==> s < |cs.st.b[x].idx|
    ensures forall s: nat :: s in slots ==> cs.st.b[x].idx[s] in Occupants(cs, x, slots)
    ensures forall j: nat :: j in Occupants(cs, x, slots) ==> exists s: nat :: s in slots && cs.st.b[x].idx[s] == j
  {
    if slots != [] {
      var r, u := slots[..|slots| - 1], slots[|slots| - 1];
      assert slots == r + [u];
      assert u in slots;
      assert forall s: nat :: s in r ==> s in slots;
      OccupantsMembers(cs, x, r);
      OccupantsSnoc(cs, x, r, u);
      forall j: nat | j in Occupants(cs, x, slots)
        ensures exists s: nat :: s in slots && cs.st.b[x].idx[s] == j
      {
        if j == cs.st.b[x].idx[u] {
          assert u in slots;
        } else {
          var s: nat :| s in r && cs.st.b[x].idx[s] == j;
          assert s in slots;
        }
      }
    }
  }

  /** The occupants of the expired slots of a bucket are its expired entries. */
  lemma ExpiredOfBucket(sc: Scheme, cs: Cache, max: nat, x: nat, before: nat, e: seq<nat>, oldest: int)
    requires PoolOk(sc, max, cs) && x < |cs.st.b| && ScanResult(cs, x, before, e, oldest)
    ensures Occupants(cs, x, e) == Expired(sc, cs, {x}, before)
  {
    forall s: nat | s in e
      ensures s < SLOTS && ExpiredAt(cs, x, s, before)
    {
    }
    OccupantsMembers(cs, x, e);
    forall j: nat
      ensures j in Occupants(cs, x, e) <==> j in Expired(sc, cs, {x}, before)
    {
      if j in Occupants(cs, x, e) {
        var s: nat :| s in e && cs.st.b[x].idx[s] == j;
        SlotLaws(sc, cs.st, x, s);
      }
      if j in Expired(sc, cs, {x}, before) {
        StoredLaws(sc, cs.st, j);
        assert ExpiredAt(cs, x, cs.st.n[j].slotField, before);
      }
    }
  }

  /** A later slot of the list still holds its entry after the earlier ones have been purged. */
  lemma StillThere(sc: Scheme, cs: Cache, max: nat, x: nat, before: nat, e: seq<nat>, k: nat, cs': Cache)
    requires PoolOk(sc, max, cs) && x < |cs.st.b| && k < |e| && Ascending(e)
    requires forall i :: 0 <= i < |e| ==> e[i] < SLOTS && ExpiredAt(cs, x, e[i], before)
    requires Purged(sc, cs, Occupants(cs, x, e[..k]), cs')
    ensures x < |cs'.st.b| && e[k] < |cs'.st.b[x].idx| && cs'.st.b[x].idx[e[k]] == cs.st.b[x].idx[e[k]] != NIL
    ensures cs.st.b[x].idx[e[k]] !in Occupants(cs, x, e[..k])
  {
    var j := cs.st.b[x].idx[e[k]];
    forall s: nat | s in e[..k]
      ensures s < SLOTS && s != e[k]
    {
    }
    OccupantsMembers(cs, x, e[..k]);
    if j in Occupants(cs, x, e[..k]) {
      var s: nat :| s in e[..k] && cs.st.b[x].idx[s] == j;
      SlotLaws(sc, cs.st, x, s);
      SlotLaws(sc, cs.st, x, e[k]);
    }
    assert SlotPurged(cs.st, Occupants(cs, x, e[..k]), cs'.st, x, e[k]);
  }

  // ------------------------------------------------------------ division

  lemma Multiple(q: nat, d: nat)
    requires 0 < d
    ensures q * d % d == 0 && q * d / d == q
  {
    DivUnique(q * d, d, q, 0);
  }

  lemma DivUnique(x: nat, d: nat, q: nat, r: nat)
    requires 0 < d && x == q * d + r && r < d
    ensures x / d == q && x % d == r
  {
    var q2, r2 := x / d, x % d;
    assert x == q2 * d + r2;
    if q < q2 {
      Within(q, q2, d);
    } else if q2 < q {
      Within(q2, q, d);
    }
  }

  lemma Within(a: int, b: nat, d: nat)
    requires 0 < d
    ensures a * d < b * d <==> a < b
    ensures a < b ==> a * d + d <= b * d
  {
    if a < b {
      Times(b - a, d);
      assert (b - a) * d == b * d - a * d;
    } else {
      assert (a - b) * d == a * d - b * d;
    }
  }

  lemma Times(a: nat, d: nat)
    requires 1 <= a
    ensures a * d >= d
  {
  }

  // ------------------------------------------------------------ sweeps

  /** x & mask, for a table of nb buckets, nb a power of two. */
  function Wrap(x: nat, nb: nat): (r: nat)
    requires 0 < nb
    ensures r < nb
  {
    x % nb
  }

  /** (x + 1) & mask. */
  function NextBk(x: nat, nb: nat): nat {
    if x + 1 == nb then 0 else x + 1
  }

  /** The bucket that a sweep from start reaches after t steps. */
  function Pos(start: nat, t: nat, nb: nat): nat {
    if t == 0 then start else NextBk(Pos(start, t - 1, nb), nb)
  }

  /** The buckets that a sweep of width t from start visits. */
  ghost function Swept(start: nat, t: nat, nb: nat): set<nat> {
    if t == 0 then {} else Swept(start, t - 1, nb) + {Pos(start, t - 1, nb)}
  }

  lemma {:induction false} PosClosed(start: nat, t: nat, nb: nat)
    requires start < nb && t <= nb
    ensures Pos(start, t, nb) == if start + t < nb then start + t else start + t - nb
  {
    if t > 0 {
      PosClosed(start, t - 1, nb);
    }
  }

  lemma ModNext(a: nat, nb: nat)
    requires 0 < nb
    ensures (a + 1) % nb == NextBk(a % nb, nb)
  {
    var q, r := a / nb, a % nb;
    assert a == q * nb + r;
    if r + 1 == nb {
      assert a + 1 == (q + 1) * nb;
      DivUnique(a + 1, nb, q + 1, 0);
    } else {
      DivUnique(a + 1, nb, q, r + 1);
    }
  }

  /** Stepping from bucket to bucket is counting modulo the number of buckets. */
  lemma {:induction false} PosMod(start: nat, t: nat, nb: nat)
    requires 0 < nb
    ensures Pos(Wrap(start, nb), t, nb) == (start + t) % nb
  {
    if t > 0 {
      PosMod(start, t - 1, nb);
      ModNext(start + t - 1, nb);
    }
  }

  /** Bucket x is one of width buckets from start on, counted modulo the number of buckets. */
  ghost predicate InArc(x: nat, start: nat, width: nat, nb: nat) {
    0 < nb && exists i: nat :: i < width && x == Around(start, i, nb)
  }

  ghost function Around(start: nat, i: nat, nb: nat): nat
    requires 0 < nb
  {
    (start + i) % nb
  }

  lemma SweptArc(start: nat, width: nat, nb: nat, x: nat)
    requires 0 < nb
    ensures x in Swept(Wrap(start, nb), width, nb) <==> InArc(x, start, width, nb)
  {
    if x in Swept(Wrap(start, nb), width, nb) {
      var k := SweptWhere(Wrap(start, nb), width, nb, x);
      PosMod(start, k, nb);
      assert x == Around(start, k, nb);
    }
    hide Swept, Pos, Wrap;
    if InArc(x, start, width, nb) {
      var i: nat :| i < width && x == Around(start, i, nb);
      PosMod(start, i, nb);
      SweptHas(Wrap(start, nb), i, width, nb);
    }
  }

  lemma {:induction false} PosInRange(start: nat, t: nat, nb: nat)
    requires start < nb
    ensures Pos(start, t, nb) < nb
  {
    if t > 0 {
      PosInRange(start, t - 1, nb);
    }
  }

  /** Consecutive sweeps join: the second one starts where the first one ended. */
  lemma {:induction false} SweptJoin(start: nat, a: nat, b: nat, nb: nat)
    ensures Pos(Pos(start, a, nb), b, nb) == Pos(start, a + b, nb)
    ensures Swept(start, a, nb) + Swept(Pos(start, a, nb), b, nb) == Swept(start, a + b, nb)
  {
    if b > 0 {
      SweptJoin(start, a, b - 1, nb);
    }
  }

  lemma {:induction false} SweptHas(start: nat, k: nat, t: nat, nb: nat)
    requires k < t
    ensures Pos(start, k, nb) in Swept(start, t, nb)
  {
    if k < t - 1 {
      SweptHas(start, k, t - 1, nb);
    }
  }

  lemma {:induction false} SweptWhere(start: nat, t: nat, nb: nat, x: nat) returns (k: nat)
    requires start < nb && x in Swept(start, t, nb)
    ensures k < t && Pos(start, k, nb) == x && x < nb
  {
    if x == Pos(start, t - 1, nb) {
      k := t - 1;
      PosInRange(start, k, nb);
    } else {
      k := SweptWhere(start, t - 1, nb, x);
    }
  }

  /** A sweep at least as wide as the table visits every bucket. */
  lemma SweptAll(start: nat, t: nat, nb: nat)
    requires start < nb <= t
    ensures forall x: nat :: x < nb <==> x in Swept(start, t, nb)
  {
    forall x: nat
      ensures x < nb <==> x in Swept(start, t, nb)
    {
      if x < nb {
        var k := if start <= x then x - start else x + nb - start;
        PosClosed(start, k, nb);
        SweptHas(start, k, t, nb);
      }
      if x in Swept(start, t, nb) {
        var k := SweptWhere(start, t, nb, x);
      }
    }
  }

  /** Within one lap, no bucket is visited twice. */
  lemma PosFresh(start: nat, t: nat, nb: nat)
    requires start < nb && t < nb
    ensures Pos(start, t, nb) !in Swept(start, t, nb)
  {
    if Pos(start, t, nb) in Swept(start, t, nb) {
      var k := SweptWhere(start, t, nb, Pos(start, t, nb));
      PosClosed(start, k, nb);
      PosClosed(start, t, nb);
    }
  }

  lemma PurgedCount(sc: Scheme, cs: Cache, gone: set<nat>, cs': Cache)
    requires Purged(sc, cs, gone, cs')
    ensures Live(sc, cs'.st) == Live(sc, cs.st) - gone
    ensures |Live(sc, cs'.st)| == |Live(sc, cs.st)| - |gone|
  {
    var l, l' := Live(sc, cs.st), Live(sc, cs'.st);
    assert gone <= l;
    forall j: nat
      ensures j in l' <==> j in l && j !in gone
    {
    }
    assert l' == l - gone;
  }

  /** A sweep that counts its evictions keeps the counters balanced. */
  lemma SweepCounts(sc: Scheme, cs: Cache, gone: set<nat>, cs': Cache)
    requires Counted(sc, cs) && Purged(sc, cs, gone, cs')
    requires cs'.stats == cs.stats.(maintChecks := cs'.stats.maintChecks, maintSkipped := cs'.stats.maintSkipped,
                                    maintEvictions := cs.stats.maintEvictions + |gone|)
    ensures Counted(sc, cs')
  {
    PurgedCount(sc, cs, gone, cs');
  }

  lemma ExpiredNone(sc: Scheme, cs: Cache, before: nat)
    ensures Expired(sc, cs, {}, before) == {}
  {
  }

  // ------------------------------------------------------------ occupancy

  /** The number of occupied slots of a bucket. */
  ghost function UsedCount(idx: seq<nat>): nat {
    if idx == [] then 0 else UsedCount(idx[..|idx| - 1]) + if idx[|idx| - 1] != NIL then 1 else 0
  }

  /** The occupied slots of a bucket. */
  ghost function Occupied(idx: seq<nat>): set<nat> {
    set s | 0 <= s < |idx| && idx[s] != NIL
  }

  lemma {:induction false} UsedIsSize(idx: seq<nat>)
    ensures UsedCount(idx) == |Occupied(idx)|
  {
    if idx != [] {
      var n := |idx| - 1;
      UsedIsSize(idx[..n]);
      assert Occupied(idx) == if idx[n] != NIL then Occupied(idx[..n]) + {n} else Occupied(idx[..n]);
    }
  }

  lemma {:induction false} UsedByMask(idx: seq<nat>, zeros: seq<bool>)
    requires |idx| == |zeros| && forall i :: 0 <= i < |idx| ==> (zeros[i] <==> idx[i] == NIL)
    ensures UsedCount(idx) + Bits16.Count(zeros) == |idx|
  {
    if idx != [] {
      var n := |idx| - 1;
      UsedByMask(idx[..n], zeros[..n]);
    }
  }

  /** The buckets among xs that hold more than skip entries. */
  ghost function Crowded(st: Store, xs: set<nat>, skip: nat): set<nat> {
    set x | x in xs && x < |st.b| && UsedCount(st.b[x].idx) > skip
  }

  /** The buckets of a work list. */
  lemma {:induction false} ElemsSnoc(s: seq<nat>, x: nat)
    ensures Elems(s + [x]) == Elems(s) + {x}
  {
  }

  /** Purging other buckets leaves a bucket as it was. */
  lemma UntouchedBucket(sc: Scheme, cs: Cache, max: nat, xs: set<nat>, before: nat, cs': Cache, x: nat)
    requires PoolOk(sc, max, cs) && PoolOk(sc, max, cs') && Purged(sc, cs, Expired(sc, cs, xs, before), cs')
    requires x < |cs.st.b| && x !in xs
    ensures x < |cs'.st.b| && cs'.st.b[x].idx == cs.st.b[x].idx
  {
    var gone := Expired(sc, cs, xs, before);
    forall s | 0 <= s < SLOTS
      ensures cs'.st.b[x].idx[s] == cs.st.b[x].idx[s]
    {
      assert SlotPurged(cs.st, gone, cs'.st, x, s);
      assert SlotOk(sc, cs.st, x, s);
    }
  }

  lemma UntouchedCrowded(sc: Scheme, cs: Cache, max: nat, xs: set<nat>, before: nat, cs': Cache, ys: set<nat>, skip: nat)
    requires PoolOk(sc, max, cs) && PoolOk(sc, max, cs') && Purged(sc, cs, Expired(sc, cs, xs, before), cs')
    requires xs !! ys
    ensures Crowded(cs'.st, ys, skip) == Crowded(cs.st, ys, skip)
  {
    forall x | x in ys && x < |cs.st.b|
      ensures cs'.st.b[x].idx == cs.st.b[x].idx
    {
      UntouchedBucket(sc, cs, max, xs, before, cs', x);
    }
  }

  /** Purging ys after xs purges both. */
  lemma ExpiredJoin(sc: Scheme, max: nat, cs: Cache, xs: set<nat>, cs1: Cache, ys: set<nat>, before: nat)
    requires Purged(sc, cs, Expired(sc, cs, xs, before), cs1) && PoolOk(sc, max, cs)
    ensures Expired(sc, cs, xs, before) + Expired(sc, cs1, ys, before) == Expired(sc, cs, xs + ys, before)
  {
    forall j: nat
      ensures j in Expired(sc, cs, xs, before) + Expired(sc, cs1, ys, before) <==> j in Expired(sc, cs, xs + ys, before)
    {
    }
  }

  lemma SweptDisjoint(start: nat, a: nat, b: nat, nb: nat)
    requires start < nb && a + b <= nb
    ensures Swept(start, a, nb) !! Swept(Pos(start, a, nb), b, nb)
  {
    PosInRange(start, a, nb);
    forall x | x in Swept(start, a, nb) && x in Swept(Pos(start, a, nb), b, nb)
      ensures false
    {
      var j := SweptWhere(start, a, nb, x);
      var k := SweptWhere(Pos(start, a, nb), b, nb, x);
      SweptJoin(start, a, k, nb);
      PosClosed(start, j, nb);
      PosClosed(start, a + k, nb);
    }
  }

  /** One more chunk of a filtered sweep. */
  lemma ChunkStep(sc: Scheme, max: nat, cs: Cache, start: nat, d: nat, chunk: nat, skip: nat, before: nat, cs1: Cache, cs2: Cache)
    requires PoolOk(sc, max, cs) && PoolOk(sc, max, cs1) && 0 < sc.nbBk && start < sc.nbBk && d + chunk <= sc.nbBk
    requires Purged(sc, cs, Expired(sc, cs, Crowded(cs.st, Swept(start, d, sc.nbBk), skip), before), cs1)
    requires Purged(sc, cs1, Expired(sc, cs1, Crowded(cs1.st, Swept(Pos(start, d, sc.nbBk), chunk, sc.nbBk), skip), before), cs2)
    ensures var whole := Expired(sc, cs, Crowded(cs.st, Swept(start, d + chunk, sc.nbBk), skip), before);
            && Purged(sc, cs, whole, cs2)
            && |whole| == |Expired(sc, cs, Crowded(cs.st, Swept(start, d, sc.nbBk), skip), before)|
                        + |Expired(sc, cs1, Crowded(cs1.st, Swept(Pos(start, d, sc.nbBk), chunk, sc.nbBk), skip), before)|
  {
    hide PoolOk, Purged, Expired, Inv, Crowded, Swept, Pos;
    var nb := sc.nbBk;
    var a, b := Swept(start, d, nb), Swept(Pos(start, d, nb), chunk, nb);
    var xs, ys := Crowded(cs.st, a, skip), Crowded(cs.st, b, skip);
    SweptDisjoint(start, d, chunk, nb);
    SweptJoin(start, d, chunk, nb);
    CrowdedJoin(cs.st, a, b, skip);
    UntouchedCrowded(sc, cs, max, xs, before, cs1, b, skip);
    ExpiredJoin(sc, max, cs, xs, cs1, ys, before);
    PurgedTrans(sc, cs, Expired(sc, cs, xs, before), cs1, Expired(sc, cs1, ys, before), cs2);
    assert Swept(start, d + chunk, nb) == a + b;
  }

  lemma CrowdedJoin(st: Store, a: set<nat>, b: set<nat>, skip: nat)
    ensures Crowded(st, a + b, skip) == Crowded(st, a, skip) + Crowded(st, b, skip)
    ensures Crowded(st, a, skip) <= a
    ensures a !! b ==> Crowded(st, a, skip) !! b
  {
  }

  /** With threshold 0 no expired entry is skipped. */
  lemma CrowdedZero(sc: Scheme, max: nat, cs: Cache, xs: set<nat>, before: nat)
    requires PoolOk(sc, max, cs)
    ensures Expired(sc, cs, Crowded(cs.st, xs, 0), before) == Expired(sc, cs, xs, before)
  {
    forall j: nat
      ensures j in Expired(sc, cs, Crowded(cs.st, xs, 0), before) <==> j in Expired(sc, cs, xs, before)
    {
      if j in Expired(sc, cs, xs, before) {
        StoredLaws(sc, cs.st, j);
        UsedPositive(cs.st.b[sc.bucket(cs.st.n[j].hashField)].idx, cs.st.n[j].slotField);
      }
    }
  }

  lemma {:induction false} UsedPositive(idx: seq<nat>, s: nat)
    requires s < |idx| && idx[s] != NIL
    ensures 0 < UsedCount(idx)
  {
    if s < |idx| - 1 {
      UsedPositive(idx[..|idx| - 1], s);
    }
  }

  /** Every stored entry lies in a bucket of the table, so a sweep over all buckets sees them all. */
  lemma ExpiredEverywhere(sc: Scheme, max: nat, cs: Cache, xs: set<nat>, before: nat, cs': Cache)
    requires PoolOk(sc, max, cs) && Purged(sc, cs, Expired(sc, cs, xs, before), cs')
    requires forall x: nat :: x < sc.nbBk ==> x in xs
    ensures forall j: nat :: Stored(sc, cs'.st, j) <==> Stored(sc, cs.st, j) && cs.ts[j] >= before
  {
    forall j: nat | Stored(sc, cs.st, j)
      ensures j in Expired(sc, cs, xs, before) <==> cs.ts[j] < before
    {
    }
  }

  lemma ExpiryLaw(now: nat, eff: nat, t: nat)
    ensures t < ExpireBefore(now, eff) <==> t + eff < now
  {
  }

  /** Entry j must go in a sweep of width buckets from start: more than skip slots of its bucket are taken, and its last access was more than eff ago. */
  ghost predicate Overdue(sc: Scheme, cs: Cache, start: nat, width: nat, skip: nat, eff: nat, now: nat, j: nat) {
    && Stored(sc, cs.st, j) && j < |cs.ts| && cs.ts[j] + eff < now
    && InArc(sc.bucket(cs.st.n[j].hashField), start, width, |cs.st.b|)
    && |Occupied(cs.st.b[sc.bucket(cs.st.n[j].hashField)].idx)| > skip
  }

  /** The entries that must go are gone, no others, and their number is the result. */
  ghost predicate SweptExactly(sc: Scheme, cs: Cache, start: nat, width: nat, skip: nat, eff: nat, now: nat, evicted: nat, cs': Cache) {
    && (forall j: nat :: Stored(sc, cs'.st, j) <==> Stored(sc, cs.st, j) && !Overdue(sc, cs, start, width, skip, eff, now, j))
    && evicted == |Live(sc, cs.st)| - |Live(sc, cs'.st)|
  }

  lemma OverdueIsExpired(sc: Scheme, max: nat, cs: Cache, start: nat, width: nat, skip: nat, now: nat, j: nat)
    requires PoolOk(sc, max, cs) && 0 < sc.nbBk
    ensures Overdue(sc, cs, start, width, skip, cs.eff, now, j)
       <==> j in Expired(sc, cs, Crowded(cs.st, Swept(Wrap(start, sc.nbBk), width, sc.nbBk), skip), ExpireBefore(now, cs.eff))
  {
    if Stored(sc, cs.st, j) {
      var x := sc.bucket(cs.st.n[j].hashField);
      SweptArc(start, width, sc.nbBk, x);
      UsedIsSize(cs.st.b[x].idx);
      ExpiryLaw(now, cs.eff, cs.ts[j]);
    }
    hide Swept, InArc, UsedCount, Occupied, Wrap, ExpireBefore;
  }

  /** A purge of what counts as expired is a sweep in plain terms. */
  lemma SweepLaw(sc: Scheme, max: nat, cs: Cache, start: nat, width: nat, skip: nat, now: nat, evicted: nat, cs': Cache)
    requires PoolOk(sc, max, cs) && 0 < sc.nbBk
    requires var gone := Expired(sc, cs, Crowded(cs.st, Swept(Wrap(start, sc.nbBk), width, sc.nbBk), skip), ExpireBefore(now, cs.eff));
             Purged(sc, cs, gone, cs') && evicted == |gone|
    ensures SweptExactly(sc, cs, start, width, skip, cs.eff, now, evicted, cs')
  {
    var gone := Expired(sc, cs, Crowded(cs.st, Swept(Wrap(start, sc.nbBk), width, sc.nbBk), skip), ExpireBefore(now, cs.eff));
    PurgedCount(sc, cs, gone, cs');
    forall j: nat
      ensures j in gone <==> Overdue(sc, cs, start, width, skip, cs.eff, now, j)
    {
      OverdueIsExpired(sc, max, cs, start, width, skip, now, j);
    }
    hide Expired, Crowded, Swept, Wrap, ExpireBefore, Overdue, Live, SlotPurged;
  }

  lemma SweptNothing(st: Store, start: nat, nb: nat, skip: nat)
    ensures Swept(start, 0, nb) == {} && Crowded(st, Swept(start, 0, nb), skip) == {}
  {
  }

  lemma NoElems()
    ensures Elems([]) == {}
  {
  }

  /** One more bucket of the filter pass. */
  lemma FilterStep(st: Store, start: nat, i: nat, nb: nat, skip: nat, work: seq<nat>, x: nat)
    requires start < nb && i < nb && x == Pos(start, i, nb) && nb == |st.b|
    requires Elems(work) == Crowded(st, Swept(start, i, nb), skip) && |work| == |Elems(work)|
    ensures x < nb && NextBk(x, nb) == Pos(start, i + 1, nb) && NextBk(x, nb) < nb
    ensures UsedCount(st.b[x].idx) <= skip ==> Crowded(st, Swept(start, i + 1, nb), skip) == Elems(work)
    ensures UsedCount(st.b[x].idx) > skip ==>
              && Crowded(st, Swept(start, i + 1, nb), skip) == Elems(work + [x])
              && |Elems(work + [x])| == |work| + 1
  {
    PosInRange(start, i, nb);
    PosFresh(start, i, nb);
    ElemsSnoc(work, x);
    assert x !in Elems(work);
  }

  /** The width of a sweep is capped at one lap. */
  function Width(bucketCount: nat, nb: nat): nat {
    if bucketCount > nb then nb else bucketCount
  }

  /** The counters that a filtered sweep over count buckets moves. */
  ghost predicate StepCounters(s: Stats, s': Stats, count: nat, evicted: nat) {
    && s' == s.(maintChecks := s.maintChecks + count, maintSkipped := s'.maintSkipped, maintEvictions := s.maintEvictions + evicted)
    && s.maintSkipped <= s'.maintSkipped <= s.maintSkipped + count
  }

  /** The counters after a call of a step function. */
  function Called(s: Stats): Stats {
    s.(maintStepCalls := s.maintStepCalls + 1, maintCalls := s.maintCalls + 1)
  }

  /** A filtered sweep evicts the expired entries of the swept buckets that held more than skip entries when it began. */
  ghost predicate StepSwept(sc: Scheme, cs: Cache, start: nat, bucketCount: nat, now: nat, skip: nat, evicted: nat, cs': Cache) {
    var gone := Expired(sc, cs, Crowded(cs.st, Swept(start, Width(bucketCount, sc.nbBk), sc.nbBk), skip), ExpireBefore(now, cs.eff));
    Purged(sc, cs, gone, cs') && evicted == |gone|
  }

  /** The counters before a purge play no part in it. */
  lemma PurgedBase(sc: Scheme, cs: Cache, cs1: Cache, xs: set<nat>, before: nat, cs': Cache)
    requires cs1 == cs.(stats := cs1.stats)
    ensures Expired(sc, cs1, xs, before) == Expired(sc, cs, xs, before)
    ensures Purged(sc, cs1, Expired(sc, cs, xs, before), cs') ==> Purged(sc, cs, Expired(sc, cs, xs, before), cs')
  {
  }

  lemma StepBase(sc: Scheme, cs: Cache, cs1: Cache, start: nat, count: nat, now: nat, skip: nat, evicted: nat, cs': Cache)
    requires cs1 == cs.(stats := cs1.stats) && StepSwept(sc, cs1, start, count, now, skip, evicted, cs')
    ensures StepSwept(sc, cs, start, count, now, skip, evicted, cs')
  {
    hide Purged, Expired, Crowded, Swept;
    PurgedBase(sc, cs, cs1, Crowded(cs.st, Swept(start, Width(count, sc.nbBk), sc.nbBk), skip), ExpireBefore(now, cs.eff), cs');
  }

  lemma WrapSmall(x: nat, nb: nat)
    requires x < nb
    ensures Wrap(x, nb) == x
  {
  }

  /** 64-bit subtraction of counters and clocks, which may wrap around. */
  function Sub64(a: nat, b: nat): (r: nat)
    ensures b <= a <= b + U64_MAX ==> r == a - b
    ensures a < b <= a + U64_MAX ==> r == a + U64_MAX + 1 - b
  {
    (a - b) % (U64_MAX + 1)
  }

  /** 32-bit multiplication. */
  function Mul32(a: nat, b: nat): (r: nat)
    ensures a * b < 0x1_0000_0000 ==> r == a * b
    ensures r < 0x1_0000_0000
  {
    a * b % 0x1_0000_0000
  }

  /** How many times over the time or the fill trigger has been reached; 0 means not yet. */
  function StepScale(cfg: Config, elapsed: nat, added: nat): nat {
    var timeScale := if cfg.maintInterval != 0 then elapsed / cfg.maintInterval % 0x1_0000_0000 else 1;
    var entryScale := if cfg.maintFillThreshold != 0 then added / cfg.maintFillThreshold % 0x1_0000_0000 else 0;
    if timeScale > entryScale then timeScale else entryScale
  }

  /** Time or new entries have reached m times what makes a step due; without an interval time alone is always enough for one. */
  ghost predicate Reaches(cfg: Config, elapsed: nat, added: nat, m: nat) {
    || m == 0 || (cfg.maintInterval == 0 && m == 1)
    || (cfg.maintInterval != 0 && m * cfg.maintInterval <= elapsed)
    || (cfg.maintFillThreshold != 0 && m * cfg.maintFillThreshold <= added)
  }

  /** m is the largest such number. */
  ghost predicate Largest(cfg: Config, elapsed: nat, added: nat, m: nat) {
    Reaches(cfg, elapsed, added, m) && !Reaches(cfg, elapsed, added, m + 1)
  }

  /** q is how often d fits into x. */
  lemma Quotient(x: nat, d: nat, q: nat)
    requires 0 < d
    ensures q * d <= x < (q + 1) * d <==> x / d == q
    ensures q * d <= x <==> q <= x / d
  {
    var p := x / d;
    assert x == p * d + x % d;
    Within(p, q, d);
    Within(q, p, d);
    Within(p, q + 1, d);
    Within(q + 1, p, d);
    assert (p + 1) * d == p * d + d;
  }

  /** There is exactly one such number: the larger one of the two quotients. */
  lemma LargestIs(cfg: Config, elapsed: nat, added: nat, m: nat)
    ensures var time := if cfg.maintInterval != 0 then elapsed / cfg.maintInterval else 1;
            var fill := if cfg.maintFillThreshold != 0 then added / cfg.maintFillThreshold else 0;
            Largest(cfg, elapsed, added, m) <==> m == if time > fill then time else fill
  {
    if cfg.maintInterval != 0 {
      Quotient(elapsed, cfg.maintInterval, m);
      Quotient(elapsed, cfg.maintInterval, m + 1);
    }
    if cfg.maintFillThreshold != 0 {
      Quotient(added, cfg.maintFillThreshold, m);
      Quotient(added, cfg.maintFillThreshold, m + 1);
    }
  }

  /** The scale is that number exactly as long as it fits into 32 bits. */
  lemma ScaleExact(cfg: Config, elapsed: nat, added: nat, m: nat)
    requires Largest(cfg, elapsed, added, m)
    ensures StepScale(cfg, elapsed, added) == m <==> m < 0x1_0000_0000
  {
    LargestIs(cfg, elapsed, added, m);
    hide Largest;
  }

  /** A step is due when neither trigger is short of its threshold. */
  lemma NothingDue(cfg: Config, elapsed: nat, added: nat, m: nat)
    requires Largest(cfg, elapsed, added, m)
    ensures m == 0 <==>
              cfg.maintInterval != 0 && elapsed < cfg.maintInterval && (cfg.maintFillThreshold == 0 || added < cfg.maintFillThreshold)
  {
    if m > 0 && cfg.maintInterval != 0 {
      Within(0, m, cfg.maintInterval);
    }
    if m > 0 && cfg.maintFillThreshold != 0 {
      Within(0, m, cfg.maintFillThreshold);
    }
  }

  /** A step that is long overdue can look as if it were not due, because the quotient is cut to 32 bits. */
  lemma DueButSkipped(cfg: Config)
    requires cfg.maintInterval == 1 && cfg.maintFillThreshold == 0
    ensures Largest(cfg, 0x1_0000_0000, 0, 0x1_0000_0000) && StepScale(cfg, 0x1_0000_0000, 0) == 0
  {
  }

  /**
   * What a throttled step does, without wrap-around: idle, one lap; otherwise nothing when nothing is due, else a
   * sweep as many times the base width as the triggers have been reached, one lap at most.
   */
  ghost predicate Throttled(sc: Scheme, cfg: Config, cs: Cache, cursor: nat, last: nat, added: nat, now: nat, idle: bool,
                            evicted: nat, cs': Cache, cursor': nat, last': nat)
    requires 0 < sc.nbBk
  {
    var elapsed: nat := if last <= now then now - last else if last <= now + 0x1_0000_0000_0000_0000 then now + 0x1_0000_0000_0000_0000 - last else 0;
    && (idle ==> SweptExactly(sc, cs, cursor, sc.nbBk, 0, cs'.eff, now, evicted, cs') && cursor' == cursor % sc.nbBk && last' == now)
    && forall m: nat :: !idle && Largest(cfg, elapsed, added, m) && m < 0x1_0000_0000 && cfg.maintBaseBk * m < 0x1_0000_0000 ==>
         if m == 0 then
           evicted == 0 && cursor' == cursor && last' == last && cs' == cs.(stats := cs'.stats)
         else
           var width := if cfg.maintBaseBk * m < sc.nbBk then cfg.maintBaseBk * m else sc.nbBk;
           && SweptExactly(sc, cs, cursor, width, cfg.pressure, cs'.eff, now, evicted, cs')
           && cursor' == (cursor + width) % sc.nbBk && last' == now
  }

  /** The sweep of a step, in plain terms. */
  lemma StepLaw(sc: Scheme, max: nat, cs: Cache, start: nat, count: nat, now: nat, skip: nat, evicted: nat, cs': Cache)
    requires PoolOk(sc, max, cs) && 0 < sc.nbBk && StepSwept(sc, cs, Wrap(start, sc.nbBk), count, now, skip, evicted, cs')
    ensures var width := if count < sc.nbBk then count else sc.nbBk;
            && SweptExactly(sc, cs, start, width, skip, cs.eff, now, evicted, cs') && width == Width(count, sc.nbBk)
            && Pos(Wrap(start, sc.nbBk), width, sc.nbBk) == (start + width) % sc.nbBk
  {
    SweepLaw(sc, max, cs, start, Width(count, sc.nbBk), skip, now, evicted, cs');
    PosMod(start, Width(count, sc.nbBk), sc.nbBk);
    hide SweptExactly, Wrap, Pos;
  }

  lemma LapMod(start: nat, nb: nat)
    requires 0 < nb
    ensures (start + nb) % nb == start % nb
  {
    DivUnique(start + nb, nb, start / nb + 1, start % nb);
  }

  /** From what the code computes to the plain terms. */
  lemma ThrottledBy(sc: Scheme, cfg: Config, cs: Cache, cursor: nat, last: Tsc, added: nat, now: Tsc, idle: bool,
                    evicted: nat, cs': Cache, cursor': nat, last': nat)
    requires PoolOk(sc, cfg.maxEntries, cs) && 0 < sc.nbBk
    requires var scale := StepScale(cfg, Sub64(now, last), added);
             var sweep := if idle then sc.nbBk else Mul32(cfg.maintBaseBk, scale);
             if !idle && scale == 0 then
               evicted == 0 && cursor' == cursor && last' == last && cs' == cs.(stats := cs'.stats)
             else
               && StepSwept(sc, cs.(eff := cs'.eff), Wrap(cursor, sc.nbBk), sweep, now, if idle then 0 else cfg.pressure, evicted, cs')
               && cursor' == Pos(Wrap(cursor, sc.nbBk), Width(sweep, sc.nbBk), sc.nbBk) && last' == now
    ensures Throttled(sc, cfg, cs, cursor, last, added, now, idle, evicted, cs', cursor', last')
  {
    var c1 := cs.(eff := cs'.eff);
    var scale := StepScale(cfg, Sub64(now, last), added);
    EffAside(sc, cfg.maxEntries, cs, c1);
    AsideApart(sc, cs, c1);
    hide StepSwept, SweptExactly, Wrap, Pos, PoolOk, Width, Throttled, StepScale;
    if idle {
      StepLaw(sc, cfg.maxEntries, c1, cursor, sc.nbBk, now, 0, evicted, cs');
      LapMod(cursor, sc.nbBk);
      ThrottledIdle(sc, cfg, cs, cursor, last, added, now, evicted, cs', cursor', last');
    } else {
      if scale != 0 {
        StepLaw(sc, cfg.maxEntries, c1, cursor, Mul32(cfg.maintBaseBk, scale), now, cfg.pressure, evicted, cs');
      }
      ThrottledBusy(sc, cfg, cs, cursor, last, added, now, scale, evicted, cs', cursor', last');
    }
  }

  lemma ThrottledIdle(sc: Scheme, cfg: Config, cs: Cache, cursor: nat, last: Tsc, added: nat, now: Tsc,
                      evicted: nat, cs': Cache, cursor': nat, last': nat)
    requires 0 < sc.nbBk && SweptExactly(sc, cs, cursor, sc.nbBk, 0, cs'.eff, now, evicted, cs')
    requires cursor' == cursor % sc.nbBk && last' == now
    ensures Throttled(sc, cfg, cs, cursor, last, added, now, true, evicted, cs', cursor', last')
  {
    hide SweptExactly, Largest;
  }

  lemma ThrottledBusy(sc: Scheme, cfg: Config, cs: Cache, cursor: nat, last: Tsc, added: nat, now: Tsc, scale: nat,
                      evicted: nat, cs': Cache, cursor': nat, last': nat)
    requires 0 < sc.nbBk && scale == StepScale(cfg, Sub64(now, last), added)
    requires var sweep := Mul32(cfg.maintBaseBk, scale);
             var width := if sweep < sc.nbBk then sweep else sc.nbBk;
             if scale == 0 then
               evicted == 0 && cursor' == cursor && last' == last && cs' == cs.(stats := cs'.stats)
             else
               SweptExactly(sc, cs, cursor, width, cfg.pressure, cs'.eff, now, evicted, cs') && cursor' == (cursor + width) % sc.nbBk && last' == now
    ensures Throttled(sc, cfg, cs, cursor, last, added, now, false, evicted, cs', cursor', last')
  {
    hide SweptExactly, Largest, StepScale, Mul32, Sub64;
    var elapsed := Sub64(now, last);
    forall m: nat | Largest(cfg, elapsed, added, m) && m < 0x1_0000_0000
      ensures m == scale
    {
      ScaleExact(cfg, elapsed, added, m);
    }
  }

  /** Counters and the timeout in the state play no part in what a sweep must do. */
  lemma AsideApart(sc: Scheme, cs: Cache, c1: Cache)
    requires c1 == cs.(eff := c1.eff, stats := c1.stats)
    ensures forall start: nat, width: nat, skip: nat, eff: nat, now: nat, evicted: nat, cs': Cache ::
              SweptExactly(sc, c1, start, width, skip, eff, now, evicted, cs') ==> SweptExactly(sc, cs, start, width, skip, eff, now, evicted, cs')
  {
    forall start: nat, width: nat, skip: nat, eff: nat, now: nat, evicted: nat, cs': Cache |
      SweptExactly(sc, c1, start, width, skip, eff, now, evicted, cs')
      ensures SweptExactly(sc, cs, start, width, skip, eff, now, evicted, cs')
    {
      assert forall j: nat :: Overdue(sc, c1, start, width, skip, eff, now, j) <==> Overdue(sc, cs, start, width, skip, eff, now, j);
    }
  }

  lemma EffAside(sc: Scheme, max: nat, c1: Cache, c2: Cache)
    requires c2 == c1.(eff := c2.eff) && PoolOk(sc, max, c1)
    ensures PoolOk(sc, max, c2)
  {
    forall i | 1 <= i <= max
      ensures Placed(sc, c2, i)
    {
      assert Placed(sc, c1, i);
    }
  }

  /** Every bucket is zeroed, no entry has a timestamp, and the free list holds as many distinct entries as the pool. */
  ghost predicate Flushed(sc: Scheme, max: nat, cs: Cache, cs': Cache) {
    && |cs'.st.b| == |cs.st.b| && (forall x :: 0 <= x < |cs'.st.b| ==> cs'.st.b[x] == EMPTY_BUCKET)
    && cs'.st.n == cs.st.n && |cs'.ts| == |cs.ts| && (forall i :: 0 <= i < |cs'.ts| ==> cs'.ts[i] == 0)
    && FreeListOk(cs'.free, max) && |cs'.free| == max
    && cs'.eff == cs.eff && cs'.removed == cs.removed + |Live(sc, cs.st)| && cs'.stats == cs.stats
  }

  /** Explicit deletion of entry e; a free entry is left alone. */
  ghost predicate Deleted(sc: Scheme, cs: Cache, e: nat, did: bool, cs': Cache) {
    && (did <==> Stored(sc, cs.st, e))
    && (did ==> Purged(sc, cs, {e}, cs'.(removed := cs.removed)) && cs'.free == [e] + cs.free && cs'.removed == cs.removed + 1 && cs'.stats == cs.stats)
    && (!did ==> cs' == cs)
  }

  lemma DeleteOne(sc: Scheme, cs: Cache, e: nat, cs': Cache, max: nat)
    requires PoolOk(sc, max, cs) && Counted(sc, cs) && Removed(sc, cs.st, e, cs'.st) && Inv(sc, cs'.st)
    requires Stored(sc, cs.st, e) && SlotCleared(sc, cs.st, e, cs'.st)
    requires cs'.ts == cs.ts[e := 0] && cs'.free == [e] + cs.free && cs'.eff == cs.eff && cs'.stats == cs.stats
    requires cs'.removed == cs.removed + 1
    ensures PoolOk(sc, max, cs') && Counted(sc, cs') && Deleted(sc, cs, e, true, cs')
  {
    hide PoolOk, Purged, Inv, Placed;
    var c1 := cs'.(removed := cs.removed);
    EvictOne(sc, cs, e, c1, max);
    PurgedCount(sc, cs, {e}, c1);
    RemovedAside(sc, max, c1, cs');
  }

  lemma RemovedAside(sc: Scheme, max: nat, c1: Cache, c2: Cache)
    requires c2 == c1.(removed := c2.removed) && PoolOk(sc, max, c1)
    ensures PoolOk(sc, max, c2)
  {
    forall i | 1 <= i <= max
      ensures Placed(sc, c2, i)
    {
      assert Placed(sc, c1, i);
    }
  }

  /** The cells up to n that carry a timestamp, in order. */
  ghost predicate Walked(ts: seq<nat>, n: nat, visited: seq<nat>) {
    && n < |ts| && Ascending(visited)
    && (forall k :: 0 <= k < |visited| ==> 1 <= visited[k] <= n && ts[visited[k]] != 0)
    && (forall j :: 1 <= j <= n && ts[j] != 0 ==> j in visited)
  }

  lemma WalkedNext(ts: seq<nat>, i: nat, visited: seq<nat>)
    requires Walked(ts, i, visited) && i + 1 < |ts|
    ensures ts[i + 1] == 0 ==> Walked(ts, i + 1, visited)
    ensures ts[i + 1] != 0 ==> Walked(ts, i + 1, visited + [i + 1])
  {
    if ts[i + 1] != 0 {
      var v := visited + [i + 1];
      forall j | 1 <= j <= i + 1 && ts[j] != 0
        ensures j in v
      {
        if j <= i {
          assert j in visited;
        } else {
          assert v[|visited|] == j;
        }
      }
    }
  }

  lemma PoolSizes(sc: Scheme, max: nat, cs: Cache)
    requires PoolOk(sc, max, cs)
    ensures |cs.ts| == |cs.st.n| == max + 1
  {
  }

  /** A walk over the timestamps is a walk over the stored entries. */
  lemma WalkedStored(sc: Scheme, max: nat, cs: Cache, n: nat, visited: seq<nat>)
    requires PoolOk(sc, max, cs) && Walked(cs.ts, n, visited)
    ensures forall k :: 0 <= k < |visited| ==> Stored(sc, cs.st, visited[k])
    ensures n == max ==> forall j: nat :: Stored(sc, cs.st, j) ==> j in visited
  {
    forall k | 0 <= k < |visited|
      ensures Stored(sc, cs.st, visited[k])
    {
      assert Placed(sc, cs, visited[k]);
    }
    forall j: nat | n == max && Stored(sc, cs.st, j)
      ensures j in visited
    {
      assert Placed(sc, cs, j);
    }
  }
}
