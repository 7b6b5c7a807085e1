/** Whole runs of the flow cache: what survives, what is counted, and what a series of sweeps visits. */
module FlowRuns {
  import opened HashScheme
  import opened SlotStore
  import opened FlowState
  import opened FlowTimeout
  import opened FlowSteps
  import opened FlowBatches

  /** The steps that operations on the cache are made of. */
  datatype Event =
    | Find(k: Key, now: nat, r: nat)
    | Add(k: Key, now: nat, r: nat)
    | FindAdd(scan: Store, k: Key, now: nat, c: Course)
    | Credit(n: nat, hits: nat)
    | Sweep(xs: set<nat>, now: nat)
    | Idle
    | Delete(e: nat, did: bool)
    | Flush

  /** How an event takes the cache from one state to the next. Inserting events need a time other than 0. */
  ghost predicate Happens(sc: Scheme, cfg: Config, ev: Event, cs: Cache, cs': Cache)
    requires ConfigOk(cfg)
  {
    match ev
    case Find(k, now, r) => FindStep(sc, cs, k, now, r, cs')
    case Add(k, now, r) => 0 < now && AddStep(sc, cs, k, now, r, cs')
    case FindAdd(scan, k, now, c) => 0 < now && FindAddStep(sc, cfg, scan, cs, k, now, c, cs')
    case Credit(n, hits) => hits <= n && cs' == cs.(stats := Credited(cs.stats, n, hits))
    case Sweep(xs, now) => Aged(sc, cfg, cs, xs, now, cs')
    case Idle => cs' == cs.(stats := cs.stats.(maintStepCalls := cs.stats.maintStepCalls + 1))
    case Delete(e, did) => Deleted(sc, cs, e, did, cs')
    case Flush => Flushed(sc, cfg.maxEntries, cs, cs')
  }

  /** A sweep over the buckets xs under the timeout for the fill level at its beginning. */
  ghost predicate Aged(sc: Scheme, cfg: Config, cs: Cache, xs: set<nat>, now: nat, cs': Cache)
    requires ConfigOk(cfg)
  {
    var c1 := cs.(eff := EffTimeout(cfg, |Live(sc, cs.st)|));
    var gone := Expired(sc, c1, xs, ExpireBefore(now, c1.eff));
    && Purged(sc, c1, gone, cs')
    && cs'.stats == cs.stats.(maintCalls := cs'.stats.maintCalls, maintStepCalls := cs'.stats.maintStepCalls,
                              maintChecks := cs'.stats.maintChecks, maintSkipped := cs'.stats.maintSkipped,
                              maintEvictions := cs.stats.maintEvictions + |gone|)
  }

  /** A run: a valid cache and one event after the other. */
  ghost predicate Run(sc: Scheme, cfg: Config, states: seq<Cache>, events: seq<Event>)
    requires ConfigOk(cfg)
  {
    && |states| == |events| + 1 && CacheInv(sc, cfg.maxEntries, states[0])
    && forall i :: 0 <= i < |events| ==> Happens(sc, cfg, events[i], states[i], states[i + 1])
  }

  // ------------------------------------------------------------ every event keeps the cache valid

  lemma AddPool(sc: Scheme, max: nat, cs: Cache, k: Key, now: nat, r: nat, cs': Cache)
    requires PoolOk(sc, max, cs) && 0 < now && AddStep(sc, cs, k, now, r, cs')
    ensures PoolOk(sc, max, cs')
  {
    if cs.free == [] {
      Unstamped(sc, max, cs, cs.st, cs');
    } else {
      FreeCell(sc, max, cs);
      if !Absent(sc, cs.st, k) {
        Stamped(sc, max, cs, cs'.st, r, now, cs');
      } else if r == NIL {
        Unstamped(sc, max, cs, cs'.st, cs');
      } else {
        EnteredPool(sc, max, cs, k, now, cs');
      }
    }
  }

  lemma EnteredPool(sc: Scheme, max: nat, cs: Cache, k: Key, now: nat, cs': Cache)
    requires PoolOk(sc, max, cs) && 0 < now && Entered(sc, cs, k, now, cs')
    ensures PoolOk(sc, max, cs')
  {
    FreeCell(sc, max, cs);
    forall i | 1 <= i <= max
      ensures Placed(sc, cs', i)
    {
      assert Placed(sc, cs, i);
      assert i in cs.free <==> i == cs.free[0] || i in cs.free[1..];
    }
  }

  lemma FindAddKeepsCache(sc: Scheme, cfg: Config, scan: Store, cs: Cache, k: Key, now: nat, c: Course, cs': Cache)
    requires ConfigOk(cfg) && CacheInv(sc, cfg.maxEntries, cs) && 0 < now
    requires FindAddStep(sc, cfg, scan, cs, k, now, c, cs')
    ensures CacheInv(sc, cfg.maxEntries, cs') && PoolOk(sc, cfg.maxEntries, c.mid)
  {
    hide ReliefStep, AddStep, PoolOk, Inv, Seen;
    if c.kind == Hit {
      TouchKeeps(sc, cfg.maxEntries, cs, c.r, now, cs');
    } else {
      ReliefPool(sc, cfg, scan, cs, k, now, c.victim, c.mid);
      ReliefCounted(sc, cfg, scan, cs, k, now, c.victim, c.mid);
      AddPool(sc, cfg.maxEntries, c.mid, k, now, c.r, cs');
      AddCounted(sc, cfg.maxEntries, c.mid, k, now, c.r, cs');
    }
  }

  lemma TouchKeeps(sc: Scheme, max: nat, cs: Cache, r: nat, now: nat, cs': Cache)
    requires CacheInv(sc, max, cs) && Stored(sc, cs.st, r) && r < |cs.ts| && 0 < now && cs' == cs.(ts := cs.ts[r := now])
    ensures CacheInv(sc, max, cs')
  {
    Stamped(sc, max, cs, cs.st, r, now, cs');
  }

  lemma SweepKeeps(sc: Scheme, cfg: Config, cs: Cache, xs: set<nat>, now: nat, cs': Cache)
    requires ConfigOk(cfg) && CacheInv(sc, cfg.maxEntries, cs) && Aged(sc, cfg, cs, xs, now, cs')
    ensures CacheInv(sc, cfg.maxEntries, cs')
  {
    hide Inv, Purged, Expired, EffTimeout, Live;
    var c1 := cs.(eff := EffTimeout(cfg, |Live(sc, cs.st)|));
    var gone := Expired(sc, c1, xs, ExpireBefore(now, c1.eff));
    Unstamped(sc, cfg.maxEntries, cs, cs.st, c1);
    PurgedPool(sc, cfg.maxEntries, c1, gone, cs');
    PurgedCount(sc, c1, gone, cs');
    PurgedRest(sc, c1, gone, cs');
  }

  lemma PurgedRest(sc: Scheme, cs: Cache, gone: set<nat>, cs': Cache)
    requires Purged(sc, cs, gone, cs')
    ensures cs'.removed == cs.removed
  {
  }

  lemma DeleteKeeps(sc: Scheme, max: nat, cs: Cache, e: nat, did: bool, cs': Cache)
    requires CacheInv(sc, max, cs) && Deleted(sc, cs, e, did, cs')
    ensures CacheInv(sc, max, cs')
  {
    hide Inv, Purged, PoolOk, Live;
    if did {
      var c1 := cs'.(removed := cs.removed);
      PurgedPool(sc, max, cs, {e}, c1);
      PurgedCount(sc, cs, {e}, c1);
      RemovedAside(sc, max, c1, cs');
    }
  }

  lemma FlushKeeps(sc: Scheme, max: nat, cs: Cache, cs': Cache)
    requires CacheInv(sc, max, cs) && Flushed(sc, max, cs, cs')
    ensures CacheInv(sc, max, cs')
  {
    EmptyInv(sc, cs'.st);
    AllListed(max, cs'.free);
    forall i | 1 <= i <= max
      ensures Placed(sc, cs', i)
    {
      assert i in cs'.free;
    }
    assert Live(sc, cs'.st) == {};
  }

  /** A list of max distinct numbers between 1 and max has them all. */
  lemma AllListed(max: nat, free: seq<nat>)
    requires FreeListOk(free, max) && |free| == max
    ensures forall i: nat :: 1 <= i <= max ==> i in free
  {
    RangeSize(max);
    DistinctSize(free);
    forall i: nat | i in Elems(free)
      ensures i in Range(max)
    {
    }
    SubsetFull(Elems(free), Range(max));
    forall i: nat | 1 <= i <= max
      ensures i in free
    {
      assert i in Elems(free);
    }
  }

  lemma SubsetFull(a: set<nat>, b: set<nat>)
    requires a <= b && |a| == |b|
    ensures a == b
  {
    assert b == a + (b - a);
    assert |b - a| == |b| - |a|;
  }

  lemma EventKeeps(sc: Scheme, cfg: Config, ev: Event, cs: Cache, cs': Cache)
    requires ConfigOk(cfg) && CacheInv(sc, cfg.maxEntries, cs) && Happens(sc, cfg, ev, cs, cs')
    ensures CacheInv(sc, cfg.maxEntries, cs')
  {
    hide Inv, PoolOk, AddStep, FindAddStep, Aged, Deleted, Flushed, Absent, Stored, Live;
    var max := cfg.maxEntries;
    match ev
    case Find(k, now, r) =>
      if cs' != cs {
        TouchKeeps(sc, max, cs, r, now, cs');
      }
    case Add(k, now, r) =>
      AddPool(sc, max, cs, k, now, r, cs');
      AddCounted(sc, max, cs, k, now, r, cs');
    case FindAdd(scan, k, now, c) => FindAddKeepsCache(sc, cfg, scan, cs, k, now, c, cs');
    case Sweep(xs, now) => SweepKeeps(sc, cfg, cs, xs, now, cs');
    case Delete(e, did) => DeleteKeeps(sc, max, cs, e, did, cs');
    case Flush => FlushKeeps(sc, max, cs, cs');
    case _ => StatsAside(sc, max, cs, {}, cs, cs');
  }

  /**
   * After any run every pool index is in exactly one place, in the table with a timestamp or once on the
   * free list without one, and the counters balance.
   */
  lemma {:induction false} RunKeeps(sc: Scheme, cfg: Config, states: seq<Cache>, events: seq<Event>, n: nat)
    requires ConfigOk(cfg) && Run(sc, cfg, states, events) && n <= |events|
    ensures CacheInv(sc, cfg.maxEntries, states[n])
  {
    hide Happens, CacheInv, Inv;
    if n > 0 {
      RunKeeps(sc, cfg, states, events, n - 1);
      EventKeeps(sc, cfg, events[n - 1], states[n - 1], states[n]);
    }
  }

  // ------------------------------------------------------------ every call is a run

  /** A valid cache, in particular one fresh from init, is a run of no events. */
  lemma StartIsRun(sc: Scheme, cfg: Config, cs: Cache)
    requires ConfigOk(cfg) && CacheInv(sc, cfg.maxEntries, cs)
    ensures Run(sc, cfg, [cs], [])
  {
    hide CacheInv;
  }

  lemma OneIsRun(sc: Scheme, cfg: Config, cs: Cache, ev: Event, cs': Cache)
    requires ConfigOk(cfg) && CacheInv(sc, cfg.maxEntries, cs) && Happens(sc, cfg, ev, cs, cs')
    ensures Run(sc, cfg, [cs, cs'], [ev])
  {
    hide CacheInv, Happens;
  }

  /** A run that begins where another one ended continues it. */
  lemma RunJoin(sc: Scheme, cfg: Config, s1: seq<Cache>, e1: seq<Event>, s2: seq<Cache>, e2: seq<Event>)
    requires ConfigOk(cfg) && Run(sc, cfg, s1, e1) && Run(sc, cfg, s2, e2) && s1[|e1|] == s2[0]
    ensures Run(sc, cfg, s1 + s2[1..], e1 + e2)
  {
    hide CacheInv, Happens;
    var ss, ee := s1 + s2[1..], e1 + e2;
    forall i | 0 <= i < |ee|
      ensures Happens(sc, cfg, ee[i], ss[i], ss[i + 1])
    {
      if i < |e1| {
        assert Happens(sc, cfg, e1[i], s1[i], s1[i + 1]);
      } else {
        assert Happens(sc, cfg, e2[i - |e1|], s2[i - |e1|], s2[i - |e1| + 1]);
      }
    }
  }

  /** The counters that a lookup batch adds at its end are one more event. */
  lemma CreditIsRun(sc: Scheme, cfg: Config, states: seq<Cache>, events: seq<Event>, n: nat, hits: nat, cs': Cache)
    requires ConfigOk(cfg) && Run(sc, cfg, states, events) && hits <= n
    requires cs' == states[|events|].(stats := Credited(states[|events|].stats, n, hits))
    ensures Run(sc, cfg, states + [cs'], events + [Credit(n, hits)])
  {
    hide CacheInv;
    RunKeeps(sc, cfg, states, events, |events|);
    var last := states[|events|];
    assert Happens(sc, cfg, Credit(n, hits), last, cs');
    OneIsRun(sc, cfg, last, Credit(n, hits), cs');
    hide Happens;
    RunJoin(sc, cfg, states, events, [last, cs'], [Credit(n, hits)]);
    assert [last, cs'][1..] == [cs'];
  }

  /** A lookup batch. */
  lemma FindIsRun(sc: Scheme, cfg: Config, states: seq<Cache>, keys: seq<Key>, now: nat, rs: seq<nat>) returns (events: seq<Event>)
    requires ConfigOk(cfg) && FindChain(sc, states, keys, now, rs) && CacheInv(sc, cfg.maxEntries, states[0])
    ensures Run(sc, cfg, states, events) && |events| == |rs|
    ensures forall q :: 0 <= q < |rs| ==> events[q] == Find(keys[q], now, rs[q])
  {
    hide CacheInv, FindStep;
    events := seq(|rs|, q requires 0 <= q < |rs| => Find(keys[q], now, rs[q]));
  }

  /** An add batch. */
  lemma AddIsRun(sc: Scheme, cfg: Config, states: seq<Cache>, keys: seq<Key>, now: nat, rs: seq<nat>) returns (events: seq<Event>)
    requires ConfigOk(cfg) && AddChain(sc, cfg.maxEntries, states, keys, now, rs) && 0 < now
    ensures Run(sc, cfg, states, events) && |events| == |rs|
    ensures forall q :: 0 <= q < |rs| ==> events[q] == Add(keys[q], now, rs[q])
  {
    hide CacheInv, AddStep;
    events := seq(|rs|, q requires 0 <= q < |rs| => Add(keys[q], now, rs[q]));
  }

  /** A deletion batch; a key that was not stored deletes nothing. */
  lemma DelIsRun(sc: Scheme, cfg: Config, states: seq<Cache>, keys: seq<Key>, rs: seq<nat>) returns (events: seq<Event>)
    requires ConfigOk(cfg) && DelChain(sc, states, keys, rs) && CacheInv(sc, cfg.maxEntries, states[0])
    ensures Run(sc, cfg, states, events) && |events| == |rs|
    ensures forall q :: 0 <= q < |rs| ==> events[q] == Delete(rs[q], rs[q] != NIL)
  {
    hide CacheInv, Absent;
    events := seq(|rs|, q requires 0 <= q < |rs| => Delete(rs[q], rs[q] != NIL));
    forall q | 0 <= q < |rs|
      ensures Happens(sc, cfg, events[q], states[q], states[q + 1])
    {
      assert DelStep(sc, states[q], keys[q], rs[q], states[q + 1]);
    }
  }

  /** A deletion batch by index. */
  lemma DelIdxIsRun(sc: Scheme, cfg: Config, states: seq<Cache>, idxs: seq<nat>) returns (events: seq<Event>)
    requires ConfigOk(cfg) && DelIdxChain(sc, states, idxs, |idxs|) && CacheInv(sc, cfg.maxEntries, states[0])
    ensures Run(sc, cfg, states, events) && |events| == |idxs|
    ensures forall q :: 0 <= q < |idxs| ==> events[q] == Delete(idxs[q], Stored(sc, states[q].st, idxs[q]))
  {
    hide CacheInv, Deleted, Stored;
    events := seq(|idxs|, q requires 0 <= q < |idxs| => Delete(idxs[q], Stored(sc, states[q].st, idxs[q])));
  }

  /** A find-or-add batch is a stretch of a run, whichever states its scans were made in. */
  lemma BatchIsRun(sc: Scheme, cfg: Config, mode: Mode, states: seq<Cache>, keys: seq<Key>, now: nat, cs: seq<Course>)
    returns (events: seq<Event>)
    requires ConfigOk(cfg) && FindAddChain(sc, cfg, mode, states, keys, now, cs) && 0 < now
    ensures Run(sc, cfg, states, events) && |events| == |cs|
    ensures forall q :: 0 <= q < |cs| ==> events[q] == FindAdd(states[ScanAt(mode, q)].st, keys[q], now, cs[q])
  {
    hide CacheInv, FindAddStep, PoolOk;
    events := seq(|cs|, q requires 0 <= q < |cs| => FindAdd(states[ScanAt(mode, q)].st, keys[q], now, cs[q]));
  }

  /** Maintenance of a range is a sweep of that range. */
  lemma MaintainIsSweep(sc: Scheme, cfg: Config, cs: Cache, start: nat, count: nat, now: nat, evicted: nat, cs': Cache)
    requires ConfigOk(cfg)
    requires var c1 := cs.(eff := EffTimeout(cfg, |Live(sc, cs.st)|));
             var gone := Expired(sc, c1, Swept(start, count, sc.nbBk), ExpireBefore(now, c1.eff));
             Purged(sc, c1, gone, cs') && evicted == |gone|
    requires cs'.stats == cs.stats.(maintCalls := cs.stats.maintCalls + 1, maintChecks := cs.stats.maintChecks + count,
                                    maintEvictions := cs.stats.maintEvictions + evicted)
    ensures Happens(sc, cfg, Sweep(Swept(start, count, sc.nbBk), now), cs, cs')
  {
    hide Expired, Swept, EffTimeout, Live, Purged;
  }

  /** A cursor-driven sweep is a sweep of the buckets that it found crowded. */
  lemma StepIsSweep(sc: Scheme, cfg: Config, cs: Cache, eff: nat, start: nat, count: nat, now: nat, skip: nat, evicted: nat, cs': Cache)
    requires ConfigOk(cfg) && eff == EffTimeout(cfg, |Live(sc, cs.st)|)
    requires StepSwept(sc, cs.(eff := eff), start, count, now, skip, evicted, cs')
    requires StepCounters(Called(cs.stats), cs'.stats, Width(count, sc.nbBk), evicted)
    ensures Happens(sc, cfg, Sweep(Crowded(cs.st, Swept(start, Width(count, sc.nbBk), sc.nbBk), skip), now), cs, cs')
  {
    hide Expired, Crowded, Swept, EffTimeout, Live, Purged;
  }

  // ------------------------------------------------------------ freshness

  /** The event neither deletes entry e nor, if it evicts by age, finds it older than an eighth of the timeout. */
  ghost predicate Spares(cfg: Config, ev: Event, cs: Cache, e: nat) {
    match ev
    case FindAdd(_, _, now, _) => e < |cs.ts| && now <= cs.ts[e] + cfg.timeoutMin
    case Sweep(_, now) => e < |cs.ts| && now <= cs.ts[e] + cfg.timeoutMin
    case Delete(x, _) => x != e
    case Flush => false
    case _ => true
  }

  lemma YoungEnough(cfg: Config, live: nat, now: nat, ts: nat)
    requires ConfigOk(cfg) && 0 < cfg.timeout && 0 < cfg.totalSlots && now <= ts + cfg.timeoutMin
    ensures now <= ts + EffTimeout(cfg, live)
  {
    EffTimeoutRange(cfg, live);
  }

  lemma FindAddSpares(sc: Scheme, cfg: Config, scan: Store, cs: Cache, k: Key, now: nat, c: Course, cs': Cache, e: nat, ke: Key)
    requires ConfigOk(cfg) && 0 < cfg.timeout && 0 < cfg.totalSlots
    requires PoolOk(sc, cfg.maxEntries, cs) && PoolOk(sc, cfg.maxEntries, c.mid)
    requires FindAddStep(sc, cfg, scan, cs, k, now, c, cs')
    requires Holds(sc, cs.st, e, ke) && e < |cs.ts| && now <= cs.ts[e] + cfg.timeoutMin
    ensures Holds(sc, cs'.st, e, ke)
  {
    YoungEnough(cfg, |Live(sc, cs.st)|, now, cs.ts[e]);
    hide AddStep, StaleFind, PoolOk, EffTimeout;
    if c.kind != Hit {
      if c.victim != NoVictim {
        ReliefKeeps(sc, cfg, scan, cs, k, now, c.victim, c.mid, e, ke);
      }
      hide ReliefStep;
      AddKeeps(sc, cfg.maxEntries, c.mid, k, now, c.r, cs', e, ke);
    }
  }

  lemma SparedStep(sc: Scheme, cfg: Config, ev: Event, cs: Cache, cs': Cache, e: nat, k: Key)
    requires ConfigOk(cfg) && 0 < cfg.timeout && 0 < cfg.totalSlots && CacheInv(sc, cfg.maxEntries, cs)
    requires Happens(sc, cfg, ev, cs, cs') && Holds(sc, cs.st, e, k) && Spares(cfg, ev, cs, e)
    ensures Holds(sc, cs'.st, e, k)
  {
    CachePool(sc, cfg.maxEntries, cs);
    hide CacheInv, PoolOk, FindAddStep, AddStep, Inv;
    match ev
    case Add(ka, now, r) => AddKeeps(sc, cfg.maxEntries, cs, ka, now, r, cs', e, k);
    case FindAdd(scan, ka, now, c) =>
      FindAddKeepsCache(sc, cfg, scan, cs, ka, now, c, cs');
      FindAddSpares(sc, cfg, scan, cs, ka, now, c, cs', e, k);
    case Sweep(xs, now) => YoungEnough(cfg, |Live(sc, cs.st)|, now, cs.ts[e]);
    case _ =>
  }

  /**
   * An entry that is no older than max(1, timeout / 8) whenever relief or maintenance run stays under its
   * key for the whole run, whatever else happens, unless it is deleted or the cache is flushed.
   */
  lemma {:induction false} YoungStays(sc: Scheme, cfg: Config, states: seq<Cache>, events: seq<Event>, e: nat, k: Key, p: nat, q: nat)
    requires ConfigOk(cfg) && 0 < cfg.timeout && 0 < cfg.totalSlots && Run(sc, cfg, states, events)
    requires p <= q <= |events| && Holds(sc, states[p].st, e, k)
    requires forall i :: p <= i < q ==> Spares(cfg, events[i], states[i], e)
    ensures Holds(sc, states[q].st, e, k)
    decreases q - p
  {
    hide Happens, CacheInv, Spares, Holds, Inv;
    if p < q {
      RunKeeps(sc, cfg, states, events, p);
      SparedStep(sc, cfg, events[p], states[p], states[p + 1], e, k);
      YoungStays(sc, cfg, states, events, e, k, p + 1, q);
    }
  }

  // ------------------------------------------------------------ accounting

  ghost function Deletions(events: seq<Event>): nat {
    if events == [] then 0
    else Deletions(events[..|events| - 1]) + if events[|events| - 1].Delete? && events[|events| - 1].did then 1 else 0
  }

  /** Without a flush, the entries that left other than by eviction are the deleted ones. */
  lemma {:induction false} RemovedByDelete(sc: Scheme, cfg: Config, states: seq<Cache>, events: seq<Event>, n: nat)
    requires ConfigOk(cfg) && Run(sc, cfg, states, events) && n <= |events| && Flush !in events
    ensures states[n].removed == states[0].removed + Deletions(events[..n])
  {
    hide Happens, CacheInv, Inv;
    if n > 0 {
      RemovedByDelete(sc, cfg, states, events, n - 1);
      assert events[..n][..n - 1] == events[..n - 1] && events[n - 1] in events;
      RemovedOne(sc, cfg, events[n - 1], states[n - 1], states[n]);
    }
  }

  lemma RemovedOne(sc: Scheme, cfg: Config, ev: Event, cs: Cache, cs': Cache)
    requires ConfigOk(cfg) && Happens(sc, cfg, ev, cs, cs') && ev != Flush
    ensures cs'.removed == cs.removed + if ev.Delete? && ev.did then 1 else 0
  {
    hide PoolOk, StaleFind, NoneExpired, Oldest, Blocked, Absent, EffTimeout;
  }

  /** The books of a run since init without a flush: every entry ever filled in is live, evicted or deleted. */
  lemma RunBooks(sc: Scheme, cfg: Config, states: seq<Cache>, events: seq<Event>, n: nat)
    requires ConfigOk(cfg) && Run(sc, cfg, states, events) && n <= |events| && Flush !in events && states[0].removed == 0
    ensures var s := states[n].stats;
            && |Live(sc, states[n].st)| == s.fills - s.reliefEvictions - s.maintEvictions - Deletions(events[..n])
            && s.lookups == s.hits + s.misses
            && |states[n].free| + |Live(sc, states[n].st)| == cfg.maxEntries
  {
    RemovedByDelete(sc, cfg, states, events, n);
    RunKeeps(sc, cfg, states, events, n);
    PoolPartition(sc, cfg.maxEntries, states[n]);
  }

  // ------------------------------------------------------------ sweeps

  /** Exactly the entries whose last access was at most eff ago are left, untouched, and the number of evictions is the drop in their number. */
  ghost predicate ExpiryExact(sc: Scheme, cs: Cache, now: nat, eff: nat, evicted: nat, cs': Cache) {
    && (forall j: nat :: Stored(sc, cs'.st, j) <==> Stored(sc, cs.st, j) && j < |cs.ts| && now <= cs.ts[j] + eff)
    && (forall j: nat :: Stored(sc, cs'.st, j) ==>
          j < |cs.st.n| == |cs'.st.n| && cs'.st.n[j] == cs.st.n[j] && j < |cs.ts| == |cs'.ts| && cs'.ts[j] == cs.ts[j])
    && evicted == |Live(sc, cs.st)| - |Live(sc, cs'.st)|
  }

  /** Maintenance of at least a whole lap is exact. */
  lemma FullMaintainExact(sc: Scheme, max: nat, cs: Cache, start: nat, count: nat, now: nat, evicted: nat, cs': Cache)
    requires PoolOk(sc, max, cs) && start < sc.nbBk <= count
    requires Purged(sc, cs, Expired(sc, cs, Swept(start, count, sc.nbBk), ExpireBefore(now, cs.eff)), cs')
    requires evicted == |Expired(sc, cs, Swept(start, count, sc.nbBk), ExpireBefore(now, cs.eff))|
    ensures ExpiryExact(sc, cs, now, cs.eff, evicted, cs')
  {
    PoolSizes(sc, max, cs);
    hide PoolOk, Inv, SlotPurged, Live;
    var xs, before := Swept(start, count, sc.nbBk), ExpireBefore(now, cs.eff);
    SweptAll(start, count, sc.nbBk);
    ExpiredEverywhere(sc, max, cs, xs, before, cs');
    PurgedCount(sc, cs, Expired(sc, cs, xs, before), cs');
    hide Swept, Expired, ExpireBefore;
    forall j: nat | Stored(sc, cs.st, j)
      ensures before <= cs.ts[j] <==> now <= cs.ts[j] + cs.eff
    {
      ExpiryLaw(now, cs.eff, cs.ts[j]);
    }
  }

  /** A filtered sweep over all buckets with threshold 0, which is what an idle step does, is exact. */
  lemma FullSweepExact(sc: Scheme, max: nat, cs: Cache, start: nat, now: nat, evicted: nat, cs': Cache)
    requires PoolOk(sc, max, cs) && start < sc.nbBk && StepSwept(sc, cs, start, sc.nbBk, now, 0, evicted, cs')
    ensures ExpiryExact(sc, cs, now, cs.eff, evicted, cs')
  {
    CrowdedZero(sc, max, cs, Swept(start, sc.nbBk, sc.nbBk), ExpireBefore(now, cs.eff));
    FullMaintainExact(sc, max, cs, start, sc.nbBk, now, evicted, cs');
  }

  /** The sum of the widths of a series of sweeps. */
  ghost function Total(widths: seq<nat>): nat {
    if widths == [] then 0 else Total(widths[..|widths| - 1]) + widths[|widths| - 1]
  }

  /** Where a series of sweeps from start ends when each one begins where the last one stopped. */
  ghost function SeriesEnd(start: nat, widths: seq<nat>, nb: nat): nat {
    if widths == [] then start else Pos(SeriesEnd(start, widths[..|widths| - 1], nb), widths[|widths| - 1], nb)
  }

  /** All buckets that such a series visits. */
  ghost function Visited(start: nat, widths: seq<nat>, nb: nat): set<nat> {
    if widths == [] then {}
    else
      var before := widths[..|widths| - 1];
      Visited(start, before, nb) + Swept(SeriesEnd(start, before, nb), widths[|widths| - 1], nb)
  }

  lemma {:induction false} VisitedIsOneSweep(start: nat, widths: seq<nat>, nb: nat)
    ensures SeriesEnd(start, widths, nb) == Pos(start, Total(widths), nb)
    ensures Visited(start, widths, nb) == Swept(start, Total(widths), nb)
  {
    if widths != [] {
      var before, w := widths[..|widths| - 1], widths[|widths| - 1];
      VisitedIsOneSweep(start, before, nb);
      SweptJoin(start, Total(before), w, nb);
    }
  }

  /** Consecutive sweeps whose widths add up to a lap or more miss no bucket. */
  lemma LapVisitsAll(start: nat, widths: seq<nat>, nb: nat)
    requires start < nb <= Total(widths)
    ensures forall x: nat :: x < nb ==> x in Visited(start, widths, nb)
  {
    VisitedIsOneSweep(start, widths, nb);
    SweptAll(start, Total(widths), nb);
  }
}
