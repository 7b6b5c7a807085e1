/** The batch operations of the flow cache: pipelines whose stages run a fixed distance ahead of each other. */
module FlowBulkModel {
  import opened HashScheme
  import opened SlotStore
  import opened Bits16
  import opened SlotTableModel
  import opened FlowState
  import opened FlowTimeout
  import opened FlowSteps
  import opened FlowBatches
  import opened FlowCacheModel
  import opened FlowKeyModel

  // ------------------------------------------------------------ stages

  /** The first m contexts belong to the first m keys. */
  ghost predicate Hashed(t: SlotTable, ctx: seq<FindCtx>, keys: seq<Key>, m: nat) {
    |ctx| == |keys| && m <= |keys| && forall q :: 0 <= q < m ==> t.CtxFor(ctx[q], keys[q])
  }

  /** The hit masks of the first m contexts cover the table as it is now. */
  ghost predicate Covered(t: SlotTable, ctx: seq<FindCtx>, st: Store, m: nat) {
    m <= |ctx| && forall q :: 0 <= q < m ==> t.Covers(ctx[q], st)
  }

  /** The masks of the first m contexts describe the table at the scan point of their keys. */
  ghost predicate Scanned(t: SlotTable, p: Pace, ctx: seq<FindCtx>, states: seq<Cache>, m: nat) {
    m <= |ctx| && forall q :: 0 <= q < m ==> ScannedAt(t, ctx[q], states, ScanPoint(p, q))
  }

  ghost predicate ScannedAt(t: SlotTable, ctx: FindCtx, states: seq<Cache>, p: nat) {
    p < |states| && t.HitMask(ctx, states[p].st) && t.EmptyMask(states[p].st, ctx.bk0, ctx.empties0)
  }

  /** The number of keys in the block that starts at base. */
  function BlockSize(p: Pace, base: nat, n: nat): (m: nat)
    requires base < n
    ensures m <= p.step && base + m <= n
  {
    if base + p.step <= n then p.step else n - base
  }

  /** Stage 1: hashes the block of keys at i. */
  method StageHash(fc: FlowCache, p: Pace, keys: seq<Key>, ctx: array<FindCtx>, i: nat)
    requires fc.Valid() && ctx.Length == |keys| && Hashed(fc.ht, ctx[..], keys, Done(i, 0, |keys|))
    modifies ctx
    ensures Hashed(fc.ht, ctx[..], keys, Done(i + p.step, 0, |keys|))
    ensures forall q :: 0 <= q < Done(i, 0, |keys|) ==> ctx[q] == old(ctx[q])
  {
    hide Rate.Ahead, Rate.OnBeat, FlowCache.Base, Counted, SlotTable.CtxFor;
    if i < |keys| {
      var n := BlockSize(p, i, |keys|);
      for j := 0 to n
        invariant Hashed(fc.ht, ctx[..], keys, i + j)
        invariant forall q :: 0 <= q < i ==> ctx[q] == old(ctx[q])
      {
        var c := HashKey(fc, keys[i + j]);
        ctx[i + j] := c;
      }
    }
  }

  method HashKey(fc: FlowCache, key: Key) returns (c: FindCtx)
    requires fc.Valid()
    ensures fc.ht.CtxFor(c, key)
  {
    c := fc.ht.HashKey(key);
  }

  /** Stage 2: scans the first bucket of the block of keys that is one look-ahead behind i. */
  method StageScan(fc: FlowCache, p: Pace, keys: seq<Key>, ctx: array<FindCtx>, i: nat)
    requires fc.Valid() && p.OnBeat(i)
    requires ctx.Length == |keys| && Hashed(fc.ht, ctx[..], keys, Done(i + p.step, 0, |keys|))
    requires Covered(fc.ht, ctx[..], fc.ht.St(), Done(i, p.Ahead(), |keys|))
    modifies ctx
    ensures Hashed(fc.ht, ctx[..], keys, Done(i + p.step, 0, |keys|))
    ensures Covered(fc.ht, ctx[..], fc.ht.St(), Done(i + p.step, p.Ahead(), |keys|))
  {
    hide Rate.Ahead, Rate.OnBeat, FlowCache.Base, Counted, SlotTable.CtxFor, SlotTable.Covers;
    Beat(p, i);
    if i >= p.Ahead() && i - p.Ahead() < |keys| {
      var base := i - p.Ahead();
      var n := BlockSize(p, base, |keys|);
      for j := 0 to n
        invariant Hashed(fc.ht, ctx[..], keys, Done(i + p.step, 0, |keys|))
        invariant Covered(fc.ht, ctx[..], fc.ht.St(), base + j)
      {
        var c := ScanOne(fc, ctx[base + j], keys[base + j]);
        ctx[base + j] := c;
      }
    }
  }

  method ScanOne(fc: FlowCache, ctx: FindCtx, ghost key: Key) returns (c: FindCtx)
    requires fc.Valid() && fc.ht.CtxFor(ctx, key)
    ensures fc.ht.CtxFor(c, key) && fc.ht.Covers(c, fc.ht.St())
  {
    c := fc.ht.ScanBk(ctx);
  }

  // ------------------------------------------------------------ find_bulk

  /** Last stage of a lookup. */
  method FindOne(fc: FlowCache, ctx: FindCtx, now: nat) returns (r: nat)
    requires fc.Valid() && fc.ht.CtxFor(ctx, ctx.key) && fc.ht.Covers(ctx, fc.ht.St())
    modifies fc.lastTs
    ensures fc.Valid() && fc.ht.St() == old(fc.ht.St())
    ensures FindStep(fc.sc, old(fc.Snap()), ctx.key, now, r, fc.Snap())
  {
    ghost var cs := fc.Snap();
    PoolInv(fc.sc, fc.cfg.maxEntries, cs);
    r := fc.ht.CmpKey(ctx);
    hide PoolOk, Inv, Counted, FlowCache.Base;
    if r != NIL {
      if now != 0 {
        Touch(fc, r, now);
      }
    } else {
      fc.ht.MissCovered(ctx, cs.st);
    }
  }

  /** Last stage: compares the block of keys that is three look-aheads behind i. */
  method StageFind(fc: FlowCache, p: Pace, keys: seq<Key>, ctx: array<FindCtx>, i: nat, now: nat, results: array<nat>,
                   ghost states0: seq<Cache>)
    returns (hits: nat, ghost states: seq<Cache>)
    requires fc.Valid() && p.OnBeat(i) && NoAlias(fc, results, |keys|)
    requires ctx.Length == |keys| && Hashed(fc.ht, ctx[..], keys, Done(i + p.step, 0, |keys|))
    requires Covered(fc.ht, ctx[..], fc.ht.St(), Done(i + p.step, p.Ahead(), |keys|))
    requires FindChain(fc.sc, states0, keys, now, results[..Done(i, 3 * p.Ahead(), |keys|)])
    requires |states0| == Done(i, 3 * p.Ahead(), |keys|) + 1 && fc.Snap() == states0[|states0| - 1]
    modifies fc.lastTs, results
    ensures fc.Valid() && fc.ht.St() == old(fc.ht.St()) && fc.stats == old(fc.stats)
    ensures FindChain(fc.sc, states, keys, now, results[..Done(i + p.step, 3 * p.Ahead(), |keys|)])
    ensures |states| == Done(i + p.step, 3 * p.Ahead(), |keys|) + 1 && fc.Snap() == states[|states| - 1] && states[0] == states0[0]
    ensures Found(results[..Done(i + p.step, 3 * p.Ahead(), |keys|)]) == Found(old(results[..Done(i, 3 * p.Ahead(), |keys|)])) + hits
    ensures forall j :: |keys| <= j < results.Length ==> results[j] == old(results[j])
  {
    hide Rate.Ahead, Rate.OnBeat, FlowCache.Base, Counted, SlotTable.CtxFor, SlotTable.Covers, FindStep, Found, FindChain;
    hits, states := 0, states0;
    Beat(p, i);
    if i >= 3 * p.Ahead() && i - 3 * p.Ahead() < |keys| {
      var base := i - 3 * p.Ahead();
      var n := BlockSize(p, base, |keys|);
      for j := 0 to n
        invariant fc.Valid() && fc.ht.St() == old(fc.ht.St())
        invariant |states| == base + j + 1 && fc.Snap() == states[base + j] && states[0] == states0[0]
        invariant FindChain(fc.sc, states, keys, now, results[..base + j])
        invariant Found(results[..base + j]) == Found(old(results[..base])) + hits
        invariant forall k :: |keys| <= k < results.Length ==> results[k] == old(results[k])
      {
        ghost var rs := results[..base + j];
        CtxKey(fc.ht, ctx[base + j], keys[base + j]);
        var r := FindOne(fc, ctx[base + j], now);
        results[base + j] := r;
        FindChainSnoc(fc.sc, states, keys, now, rs, r, fc.Snap());
        states := states + [fc.Snap()];
        if r != NIL {
          hits := hits + 1;
        }
        assert results[..base + j + 1] == rs + [r];
        FoundSnoc(rs, r);
      }
    }
  }

  lemma CtxKey(t: SlotTable, ctx: FindCtx, key: Key)
    requires t.CtxFor(ctx, key)
    ensures ctx.key == key && t.CtxFor(ctx, ctx.key)
  {
  }

  /** The caller's result buffer is long enough and not part of the cache. */
  ghost predicate NoAlias(fc: FlowCache, results: array<nat>, n: nat) {
    n <= results.Length && results != fc.lastTs && results != fc.next
  }

  method Credit(fc: FlowCache, n: nat, hits: nat)
    requires fc.Valid() && hits <= n
    modifies fc`stats
    ensures fc.Valid() && fc.Snap() == old(fc.Snap()).(stats := Credited(old(fc.stats), n, hits))
    ensures fc.stats.lookups == old(fc.stats).lookups + n
    ensures fc.stats.hits == old(fc.stats).hits + hits && fc.stats.misses == old(fc.stats).misses + (n - hits)
  {
    hide PoolOk, Inv;
    ghost var cs := fc.Snap();
    fc.stats := fc.stats.(lookups := fc.stats.lookups + n, hits := fc.stats.hits + hits, misses := fc.stats.misses + (n - hits));
    StatsAside(fc.sc, fc.cfg.maxEntries, cs, {}, cs, fc.Snap());
  }

  lemma ValidPool(fc: FlowCache)
    requires fc.Valid()
    ensures CacheInv(fc.sc, fc.cfg.maxEntries, fc.Snap()) && PoolOk(fc.sc, fc.cfg.maxEntries, fc.Snap())
    ensures KeysUnique(fc.sc, fc.Snap().st) && ConfigOk(fc.cfg)
  {
  }

  lemma NothingYet(t: SlotTable, ctx: seq<FindCtx>, keys: seq<Key>, st: Store)
    requires |ctx| == |keys|
    ensures Hashed(t, ctx, keys, 0) && Covered(t, ctx, st, 0)
  {
  }

  lemma FindNothing(sc: Scheme, cs: Cache, keys: seq<Key>, now: nat, rs: seq<nat>)
    requires rs == []
    ensures FindChain(sc, [cs], keys, now, rs) && Found(rs) == 0
  {
  }

  lemma CoveredSame(t: SlotTable, ctx: seq<FindCtx>, ctx': seq<FindCtx>, st: Store, m: nat)
    requires Covered(t, ctx, st, m) && |ctx'| == |ctx| && forall q :: 0 <= q < m ==> ctx'[q] == ctx[q]
    ensures Covered(t, ctx', st, m)
  {
  }

  /** Room for one context per key; the first stage fills it in. */
  method NewContexts(keys: seq<Key>) returns (ctx: array<FindCtx>)
    ensures fresh(ctx) && ctx.Length == |keys|
  {
    if |keys| == 0 {
      ctx := new FindCtx[0];
    } else {
      var blank := FindCtx(Hash(0, 0), 0, 0, keys[0], 0, NO_HITS, NO_HITS, NO_HITS, NO_HITS);
      ctx := new FindCtx[|keys|](_ => blank);
    }
  }

  /**
   * Looks up a batch of keys. Hashing runs three look-aheads before the comparison and scanning two;
   * the answers are those of one lookup after the other.
   */
  method FindBulk(fc: FlowCache, p: Pace, keys: seq<Key>, now: Tsc, results: array<nat>) returns (ghost states: seq<Cache>)
    requires fc.Valid() && NoAlias(fc, results, |keys|)
    modifies fc`stats, fc.lastTs, results
    ensures fc.Valid()
    ensures |states| == |keys| + 1 && states[0] == old(fc.Snap())
    ensures FindChain(fc.sc, states, keys, now, results[..|keys|])
    ensures fc.Snap() == states[|keys|].(stats := Credited(old(fc.stats), |keys|, Found(results[..|keys|])))
    ensures var hits := |Answering(results[..|keys|])|;
            && fc.stats.lookups == old(fc.stats).lookups + |keys|
            && fc.stats.hits == old(fc.stats).hits + hits && fc.stats.misses == old(fc.stats).misses + (|keys| - hits)
    ensures forall q :: 0 <= q < |keys| ==> Answers(fc.sc, old(fc.ht.St()), keys[q], results[q])
    ensures fc.ht.St() == old(fc.ht.St()) && Refreshed(old(fc.lastTs[..]), results[..|keys|], now, fc.lastTs[..])
    ensures forall j :: |keys| <= j < results.Length ==> results[j] == old(results[j])
  {
    hide Rate.Ahead, Rate.OnBeat, FlowCache.Base, Counted, FindChain, Hashed, Covered, Found, Answers, Refreshed, Credited, PoolOk;
    ghost var cs := fc.Snap();
    ValidPool(fc);
    var ctx := NewContexts(keys);
    var hitCount: nat := 0;
    states := [cs];
    NothingYet(fc.ht, ctx[..], keys, cs.st);
    FindNothing(fc.sc, cs, keys, now, results[..0]);
    var i: nat := 0;
    BeatStart(p);
    while i < |keys| + 3 * p.Ahead()
      invariant p.OnBeat(i) && fc.Valid() && fc.ht.St() == cs.st && fc.stats == cs.stats
      invariant Hashed(fc.ht, ctx[..], keys, Done(i, 0, |keys|))
      invariant Covered(fc.ht, ctx[..], cs.st, Done(i, p.Ahead(), |keys|))
      invariant |states| == Done(i, 3 * p.Ahead(), |keys|) + 1 && states[0] == cs && fc.Snap() == states[|states| - 1]
      invariant FindChain(fc.sc, states, keys, now, results[..Done(i, 3 * p.Ahead(), |keys|)])
      invariant Found(results[..Done(i, 3 * p.Ahead(), |keys|)]) == hitCount
      invariant forall j :: |keys| <= j < results.Length ==> results[j] == old(results[j])
      decreases |keys| + 3 * p.Ahead() - i
    {
      Beat(p, i);
      ghost var ctx0 := ctx[..];
      StageHash(fc, p, keys, ctx, i);
      CoveredSame(fc.ht, ctx0, ctx[..], cs.st, Done(i, p.Ahead(), |keys|));
      StageScan(fc, p, keys, ctx, i);
      var hits;
      hits, states := StageFind(fc, p, keys, ctx, i, now, results, states);
      hitCount := hitCount + hits;
      i := i + p.step;
    }
    ghost var rs := results[..|keys|];
    assert rs[..|keys|] == rs;
    FindChainClosed(fc.sc, fc.cfg.maxEntries, states, keys, now, rs, |keys|);
    FoundIsSize(rs);
    Credit(fc, |keys|, hitCount);
  }

  // ------------------------------------------------------------ del_bulk

  /** Deletions leave the hit masks covering. */
  lemma CoversAfter(t: SlotTable, ctx: seq<FindCtx>, m: nat, cs: Cache, e: nat, cs': Cache)
    requires Covered(t, ctx, cs.st, m) && Deleted(t.sc, cs, e, true, cs')
    ensures Covered(t, ctx, cs'.st, m)
  {
    forall q | 0 <= q < m
      ensures t.Covers(ctx[q], cs'.st)
    {
      forall s | 0 <= s < SLOTS
        ensures t.CoversSlot(ctx[q], cs'.st, s)
      {
        assert t.CoversSlot(ctx[q], cs.st, s);
        assert SlotPurged(cs.st, {e}, cs'.st, ctx[q].bk0, s);
      }
    }
  }

  /** Last stage of a deletion. */
  method DelOne(fc: FlowCache, ctx: FindCtx, ghost all: seq<FindCtx>, ghost m: nat) returns (ghost r: nat)
    requires fc.Valid() && fc.ht.CtxFor(ctx, ctx.key) && fc.ht.Covers(ctx, fc.ht.St()) && Covered(fc.ht, all, fc.ht.St(), m)
    modifies fc`freeHead, fc`free, fc`removed, fc.ht`nb, fc.ht.buckets, fc.lastTs, fc.next
    ensures fc.Valid() && fc.stats == old(fc.stats) && Covered(fc.ht, all, fc.ht.St(), m)
    ensures DelStep(fc.sc, old(fc.Snap()), ctx.key, r, fc.Snap())
  {
    ghost var cs := fc.Snap();
    PoolInv(fc.sc, fc.cfg.maxEntries, cs);
    var entry := fc.ht.CmpKey(ctx);
    r := entry;
    hide PoolOk, Inv, Counted, FlowCache.Base, Covered, Deleted;
    if entry != NIL {
      EntryInPool(fc.sc, fc.cfg.maxEntries, cs, entry);
      var did := fc.Delete(entry);
      WasStored(fc.sc, cs, entry, did, fc.Snap());
      CoversAfter(fc.ht, all, m, cs, entry, fc.Snap());
    } else {
      fc.ht.MissCovered(ctx, cs.st);
    }
  }

  lemma EntryInPool(sc: Scheme, max: nat, cs: Cache, e: nat)
    requires PoolOk(sc, max, cs) && Stored(sc, cs.st, e)
    ensures 0 < e <= max
  {
  }

  lemma WasStored(sc: Scheme, cs: Cache, e: nat, did: bool, cs': Cache)
    requires Deleted(sc, cs, e, did, cs') && Stored(sc, cs.st, e)
    ensures did
  {
  }

  method StageDel(fc: FlowCache, p: Pace, keys: seq<Key>, ctx: array<FindCtx>, i: nat, ghost states0: seq<Cache>, ghost rs0: seq<nat>)
    returns (ghost states: seq<Cache>, ghost rs: seq<nat>)
    requires fc.Valid() && p.OnBeat(i)
    requires ctx.Length == |keys| && Hashed(fc.ht, ctx[..], keys, Done(i + p.step, 0, |keys|))
    requires Covered(fc.ht, ctx[..], fc.ht.St(), Done(i + p.step, p.Ahead(), |keys|))
    requires DelChain(fc.sc, states0, keys, rs0)
    requires |rs0| == Done(i, 3 * p.Ahead(), |keys|) && |states0| == |rs0| + 1 && fc.Snap() == states0[|rs0|]
    modifies fc`freeHead, fc`free, fc`removed, fc.ht`nb, fc.ht.buckets, fc.lastTs, fc.next
    ensures fc.Valid() && fc.stats == old(fc.stats)
    ensures Covered(fc.ht, ctx[..], fc.ht.St(), Done(i + p.step, p.Ahead(), |keys|))
    ensures DelChain(fc.sc, states, keys, rs) && states[0] == states0[0]
    ensures |rs| == Done(i + p.step, 3 * p.Ahead(), |keys|) && |states| == |rs| + 1 && fc.Snap() == states[|rs|]
  {
    hide Rate.Ahead, Rate.OnBeat, FlowCache.Base, Counted, SlotTable.CtxFor, SlotTable.Covers, DelStep, DelChain;
    states, rs := states0, rs0;
    Beat(p, i);
    if i >= 3 * p.Ahead() && i - 3 * p.Ahead() < |keys| {
      var base := i - 3 * p.Ahead();
      var n := BlockSize(p, base, |keys|);
      ghost var m := Done(i + p.step, p.Ahead(), |keys|);
      for j := 0 to n
        invariant fc.Valid() && fc.stats == old(fc.stats)
        invariant Covered(fc.ht, ctx[..], fc.ht.St(), m)
        invariant |rs| == base + j && |states| == |rs| + 1 && fc.Snap() == states[|rs|] && states[0] == states0[0]
        invariant DelChain(fc.sc, states, keys, rs)
      {
        CtxKey(fc.ht, ctx[base + j], keys[base + j]);
        ghost var r := DelOne(fc, ctx[base + j], ctx[..], m);
        DelChainSnoc(fc.sc, states, keys, rs, r, fc.Snap());
        states, rs := states + [fc.Snap()], rs + [r];
      }
    }
  }

  /**
   * Deletes a batch of keys. A key may be scanned before an equal key is deleted; the comparison
   * re-reads the slots, so the run is one deletion after the other and drops exactly the listed keys.
   */
  method DelBulk(fc: FlowCache, p: Pace, keys: seq<Key>) returns (ghost states: seq<Cache>, ghost rs: seq<nat>)
    requires fc.Valid()
    modifies fc`freeHead, fc`free, fc`removed, fc.ht`nb, fc.ht.buckets, fc.lastTs, fc.next
    ensures fc.Valid()
    ensures DelChain(fc.sc, states, keys, rs) && |rs| == |keys| && states[0] == old(fc.Snap()) && fc.Snap() == states[|keys|]
    ensures Dropped(fc.sc, old(fc.Snap()), keys, Found(rs), fc.Snap())
  {
    hide Rate.Ahead, Rate.OnBeat, FlowCache.Base, Counted, DelChain, Hashed, Covered, Found, Dropped, PoolOk, KeysUnique;
    ghost var cs := fc.Snap();
    ValidPool(fc);
    var ctx := NewContexts(keys);
    states, rs := [cs], [];
    NothingYet(fc.ht, ctx[..], keys, cs.st);
    DelNothing(fc.sc, cs, keys);
    var i: nat := 0;
    BeatStart(p);
    while i < |keys| + 3 * p.Ahead()
      invariant p.OnBeat(i) && fc.Valid()
      invariant Hashed(fc.ht, ctx[..], keys, Done(i, 0, |keys|))
      invariant Covered(fc.ht, ctx[..], fc.ht.St(), Done(i, p.Ahead(), |keys|))
      invariant |rs| == Done(i, 3 * p.Ahead(), |keys|) && |states| == |rs| + 1 && states[0] == cs && fc.Snap() == states[|rs|]
      invariant DelChain(fc.sc, states, keys, rs)
      decreases |keys| + 3 * p.Ahead() - i
    {
      Beat(p, i);
      ghost var ctx0 := ctx[..];
      StageHash(fc, p, keys, ctx, i);
      CoveredSame(fc.ht, ctx0, ctx[..], fc.ht.St(), Done(i, p.Ahead(), |keys|));
      StageScan(fc, p, keys, ctx, i);
      states, rs := StageDel(fc, p, keys, ctx, i, states, rs);
      i := i + p.step;
    }
    assert rs[..|keys|] == rs && keys[..|keys|] == keys;
    DelChainClosed(fc.sc, states, keys, rs, |keys|);
  }

  lemma DelNothing(sc: Scheme, cs: Cache, keys: seq<Key>)
    ensures DelChain(sc, [cs], keys, [])
  {
  }

  // ------------------------------------------------------------ del_idx_bulk

  /** Deletes a batch of pool indices; 0, indices past the pool and free entries are skipped. */
  method DelIdxBulk(fc: FlowCache, p: Pace, idxs: seq<nat>) returns (ghost states: seq<Cache>)
    requires fc.Valid()
    modifies fc`freeHead, fc`free, fc`removed, fc.ht`nb, fc.ht.buckets, fc.lastTs, fc.next
    ensures fc.Valid()
    ensures DelIdxChain(fc.sc, states, idxs, |idxs|) && states[0] == old(fc.Snap()) && fc.Snap() == states[|idxs|]
    ensures forall j: nat :: Stored(fc.sc, fc.ht.St(), j) <==> Stored(fc.sc, old(fc.ht.St()), j) && j !in idxs
    ensures fc.ht.node[..] == old(fc.ht.node[..]) && fc.stats == old(fc.stats) && fc.eff == old(fc.eff)
  {
    hide Rate.Ahead, Rate.OnBeat, FlowCache.Base, Counted, DelIdxChain, Stored, Deleted;
    states := [fc.Snap()];
    DelIdxNothing(fc.sc, fc.Snap(), idxs);
    var i: nat := 0;
    BeatStart(p);
    while i < |idxs| + p.Ahead()
      invariant p.OnBeat(i) && fc.Valid()
      invariant |states| == Done(i, p.Ahead(), |idxs|) + 1 && states[0] == old(fc.Snap()) && fc.Snap() == states[|states| - 1]
      invariant DelIdxChain(fc.sc, states, idxs, Done(i, p.Ahead(), |idxs|))
      decreases |idxs| + p.Ahead() - i
    {
      Beat(p, i);
      if i >= p.Ahead() && i - p.Ahead() < |idxs| {
        var base := i - p.Ahead();
        var n := BlockSize(p, base, |idxs|);
        for j := 0 to n
          invariant fc.Valid()
          invariant |states| == base + j + 1 && states[0] == old(fc.Snap()) && fc.Snap() == states[base + j]
          invariant DelIdxChain(fc.sc, states, idxs, base + j)
        {
          DelIdxOne(fc, idxs[base + j]);
          DelIdxSnoc(fc.sc, states, idxs, base + j, fc.Snap());
          states := states + [fc.Snap()];
        }
      }
      i := i + p.step;
    }
    assert idxs[..|idxs|] == idxs;
    DelIdxClosed(fc.sc, states, idxs, |idxs|, |idxs|);
  }

  method DelIdxOne(fc: FlowCache, e: nat)
    requires fc.Valid()
    modifies fc`freeHead, fc`free, fc`removed, fc.ht`nb, fc.ht.buckets, fc.lastTs, fc.next
    ensures fc.Valid() && Deleted(fc.sc, old(fc.Snap()), e, Stored(fc.sc, old(fc.ht.St()), e), fc.Snap())
  {
    ValidPool(fc);
    ghost var cs := fc.Snap();
    StampedStored(fc.sc, fc.cfg.maxEntries, cs, e);
    hide PoolOk, Counted;
    if e == 0 || e > fc.cfg.maxEntries {
      return;
    }
    if fc.lastTs[e] == 0 {
      return;
    }
    var did := fc.Delete(e);
  }

  lemma StampedStored(sc: Scheme, max: nat, cs: Cache, e: nat)
    requires PoolOk(sc, max, cs)
    ensures Stored(sc, cs.st, e) <==> 0 < e <= max && e < |cs.ts| && cs.ts[e] != 0
  {
    if 0 < e <= max {
      assert Placed(sc, cs, e);
    }
  }

  lemma DelIdxNothing(sc: Scheme, cs: Cache, idxs: seq<nat>)
    ensures DelIdxChain(sc, [cs], idxs, 0)
  {
  }

  // ------------------------------------------------------------ add_bulk

  /** Stage 2 of an add batch: allocates and inserts the block of keys that is one look-ahead behind i. */
  method StageAdd(fc: FlowCache, p: Pace, keys: seq<Key>, hashes: array<Hash>, i: nat, now: nat, results: array<nat>,
                  ghost states0: seq<Cache>)
    returns (ghost states: seq<Cache>)
    requires fc.Valid() && p.OnBeat(i) && 0 < now && NoAlias(fc, results, |keys|)
    requires HashesOf(fc.sc, hashes[..], keys, Done(i + p.step, 0, |keys|))
    requires AddChain(fc.sc, fc.cfg.maxEntries, states0, keys, now, results[..Done(i, p.Ahead(), |keys|)])
    requires |states0| == Done(i, p.Ahead(), |keys|) + 1 && fc.Snap() == states0[|states0| - 1]
    modifies fc`freeHead, fc`free, fc`stats, fc.ht`nb, fc.ht.buckets, fc.ht.node, fc.lastTs, fc.next, results
    ensures fc.Valid()
    ensures AddChain(fc.sc, fc.cfg.maxEntries, states, keys, now, results[..Done(i + p.step, p.Ahead(), |keys|)])
    ensures |states| == Done(i + p.step, p.Ahead(), |keys|) + 1 && fc.Snap() == states[|states| - 1] && states[0] == states0[0]
    ensures forall j :: |keys| <= j < results.Length ==> results[j] == old(results[j])
  {
    hide Rate.Ahead, Rate.OnBeat, FlowCache.Base, Counted, AddStep, AddChain, CacheInv;
    states := states0;
    Beat(p, i);
    if i >= p.Ahead() && i - p.Ahead() < |keys| {
      var base := i - p.Ahead();
      var n := BlockSize(p, base, |keys|);
      for j := 0 to n
        invariant fc.Valid()
        invariant |states| == base + j + 1 && fc.Snap() == states[base + j] && states[0] == states0[0]
        invariant AddChain(fc.sc, fc.cfg.maxEntries, states, keys, now, results[..base + j])
        invariant forall k :: |keys| <= k < results.Length ==> results[k] == old(results[k])
      {
        ghost var rs := results[..base + j];
        var r := AddMissing(fc, keys[base + j], hashes[base + j], now);
        results[base + j] := r;
        ValidPool(fc);
        AddChainSnoc(fc.sc, fc.cfg.maxEntries, states, keys, now, rs, r, fc.Snap());
        states := states + [fc.Snap()];
        assert results[..base + j + 1] == rs + [r];
      }
    }
  }

  /** Stage 1 of an add batch. */
  method StageHashOnly(sc: Scheme, p: Pace, keys: seq<Key>, hashes: array<Hash>, i: nat)
    requires hashes.Length == |keys| && HashesOf(sc, hashes[..], keys, Done(i, 0, |keys|))
    modifies hashes
    ensures HashesOf(sc, hashes[..], keys, Done(i + p.step, 0, |keys|))
  {
    if i < |keys| {
      var n := BlockSize(p, i, |keys|);
      for j := 0 to n
        invariant HashesOf(sc, hashes[..], keys, i + j)
      {
        hashes[i + j] := sc.hash(keys[i + j]);
      }
    }
  }

  ghost predicate HashesOf(sc: Scheme, hashes: seq<Hash>, keys: seq<Key>, m: nat) {
    |hashes| == |keys| && m <= |keys| && forall q :: 0 <= q < m ==> hashes[q] == sc.hash(keys[q])
  }

  /** Adds a batch of keys without looking them up first. */
  method AddBulk(fc: FlowCache, p: Pace, keys: seq<Key>, now: Tsc, results: array<nat>) returns (ghost states: seq<Cache>)
    requires fc.Valid() && 0 < now && NoAlias(fc, results, |keys|)
    modifies fc`freeHead, fc`free, fc`stats, fc.ht`nb, fc.ht.buckets, fc.ht.node, fc.lastTs, fc.next, results
    ensures fc.Valid()
    ensures AddChain(fc.sc, fc.cfg.maxEntries, states, keys, now, results[..|keys|])
    ensures |states| == |keys| + 1 && states[0] == old(fc.Snap()) && fc.Snap() == states[|keys|]
    ensures Answered(fc.sc, fc.Snap(), keys, now, results[..|keys|])
    ensures fc.stats.fillFull == old(fc.stats).fillFull + (|keys| - |Answering(results[..|keys|])|)
    ensures forall j :: |keys| <= j < results.Length ==> results[j] == old(results[j])
  {
    hide Rate.Ahead, Rate.OnBeat, FlowCache.Base, Counted, AddChain, Answered, Found, CacheInv, PoolOk, KeysUnique;
    ValidPool(fc);
    ghost var max := fc.cfg.maxEntries;
    var hashes := new Hash[|keys|];
    states := [fc.Snap()];
    AddNothing(fc.sc, max, fc.Snap(), keys, now, results[..0]);
    var i: nat := 0;
    BeatStart(p);
    while i < |keys| + p.Ahead()
      invariant p.OnBeat(i) && fc.Valid()
      invariant HashesOf(fc.sc, hashes[..], keys, Done(i, 0, |keys|))
      invariant |states| == Done(i, p.Ahead(), |keys|) + 1 && states[0] == old(fc.Snap()) && fc.Snap() == states[|states| - 1]
      invariant AddChain(fc.sc, max, states, keys, now, results[..Done(i, p.Ahead(), |keys|)])
      invariant forall j :: |keys| <= j < results.Length ==> results[j] == old(results[j])
      decreases |keys| + p.Ahead() - i
    {
      Beat(p, i);
      StageHashOnly(fc.sc, p, keys, hashes, i);
      states := StageAdd(fc, p, keys, hashes, i, now, results, states);
      i := i + p.step;
    }
    ghost var rs := results[..|keys|];
    assert rs[..|keys|] == rs;
    AddLength(fc.sc, max, states, keys, now, rs);
    AddChainAnswered(fc.sc, max, states, keys, now, rs, |keys|);
    FoundIsSize(results[..|keys|]);
  }

  lemma AddNothing(sc: Scheme, max: nat, cs: Cache, keys: seq<Key>, now: nat, rs: seq<nat>)
    requires CacheInv(sc, max, cs) && rs == []
    ensures AddChain(sc, max, [cs], keys, now, rs)
  {
  }

  lemma AddLength(sc: Scheme, max: nat, states: seq<Cache>, keys: seq<Key>, now: nat, rs: seq<nat>)
    requires AddChain(sc, max, states, keys, now, rs)
    ensures |states| == |rs| + 1
  {
  }

  // ------------------------------------------------------------ findadd_bulk

  /** Stage 2 with free slots: scans the block one look-ahead behind i; this is the scan point of its keys. */
  method StageScanEmpties(fc: FlowCache, p: Pace, keys: seq<Key>, ctx: array<FindCtx>, i: nat, ghost states: seq<Cache>)
    requires fc.Valid() && p.OnBeat(i)
    requires ctx.Length == |keys| && Hashed(fc.ht, ctx[..], keys, Done(i + p.step, 0, |keys|))
    requires Scanned(fc.ht, p, ctx[..], states, Done(i, p.Ahead(), |keys|))
    requires |states| == Done(i, 3 * p.Ahead(), |keys|) + 1 && fc.Snap() == states[|states| - 1]
    modifies ctx
    ensures Hashed(fc.ht, ctx[..], keys, Done(i + p.step, 0, |keys|))
    ensures Scanned(fc.ht, p, ctx[..], states, Done(i + p.step, p.Ahead(), |keys|))
  {
    hide Rate.Ahead, Rate.OnBeat, FlowCache.Base, Counted, SlotTable.CtxFor, ScannedAt, ScanPoint;
    Beat(p, i);
    if i >= p.Ahead() && i - p.Ahead() < |keys| {
      var base := i - p.Ahead();
      var n := BlockSize(p, base, |keys|);
      for j := 0 to n
        invariant Hashed(fc.ht, ctx[..], keys, Done(i + p.step, 0, |keys|))
        invariant Scanned(fc.ht, p, ctx[..], states, base + j)
      {
        BlockScanPoint(p, i, j, |keys|);
        ScanKey(fc, p, keys, ctx, base + j, states, Done(i + p.step, 0, |keys|));
      }
    }
  }

  /** All keys of a block have the same scan point: the number of keys compared so far. */
  lemma BlockScanPoint(p: Pace, i: nat, j: nat, n: nat)
    requires p.OnBeat(i) && p.Ahead() <= i && j < p.step && i - p.Ahead() + j < n
    ensures ScanPoint(p, i - p.Ahead() + j) == Done(i, 3 * p.Ahead(), n)
  {
    var base := i - p.Ahead();
    Beat(p, i);
    var q := base / p.step;
    assert base == q * p.step;
    DivUnique(base + j, p.step, q, j);
  }

  /** Scans for one key. */
  method ScanKey(fc: FlowCache, p: Pace, keys: seq<Key>, ctx: array<FindCtx>, q: nat, ghost states: seq<Cache>, ghost m: nat)
    requires fc.Valid() && q < m <= |keys| && ctx.Length == |keys| && Hashed(fc.ht, ctx[..], keys, m)
    requires Scanned(fc.ht, p, ctx[..], states, q)
    requires |states| > 0 && ScanPoint(p, q) == |states| - 1 && fc.Snap() == states[|states| - 1]
    modifies ctx
    ensures Hashed(fc.ht, ctx[..], keys, m) && Scanned(fc.ht, p, ctx[..], states, q + 1)
  {
    hide Rate.Ahead, Rate.OnBeat, FlowCache.Base, Counted, SlotTable.CtxFor, SlotTable.HitMask, SlotTable.EmptyMask, ScanPoint;
    var c := ScanOneEmpties(fc, ctx[q], keys[q]);
    ctx[q] := c;
  }

  method ScanOneEmpties(fc: FlowCache, ctx: FindCtx, ghost key: Key) returns (c: FindCtx)
    requires fc.Valid() && fc.ht.CtxFor(ctx, key)
    ensures fc.ht.CtxFor(c, key) && fc.ht.HitMask(c, fc.ht.St()) && fc.ht.EmptyMask(fc.ht.St(), c.bk0, c.empties0)
  {
    c := fc.ht.ScanBkEmpties(ctx);
  }

  lemma ScannedSame(t: SlotTable, p: Pace, ctx: seq<FindCtx>, ctx': seq<FindCtx>, states: seq<Cache>, more: seq<Cache>, m: nat)
    requires Scanned(t, p, ctx, states, m) && |ctx'| == |ctx| && forall q :: 0 <= q < m ==> ctx'[q] == ctx[q]
    ensures Scanned(t, p, ctx', states + more, m)
  {
    forall q | 0 <= q < m
      ensures ScannedAt(t, ctx'[q], states + more, ScanPoint(p, q))
    {
      assert ScannedAt(t, ctx[q], states, ScanPoint(p, q));
    }
  }

  /** Last stage: find-or-add for the block of keys that is three look-aheads behind i. */
  method StageFindAdd(fc: FlowCache, p: Pace, keys: seq<Key>, ctx: array<FindCtx>, i: nat, now: Tsc, results: array<nat>,
                      ghost states0: seq<Cache>, ghost cs0: seq<Course>)
    returns (hits: nat, misses: nat, ghost states: seq<Cache>, ghost cs: seq<Course>)
    requires fc.Valid() && p.OnBeat(i) && 0 < now && NoAlias(fc, results, |keys|)
    requires ctx.Length == |keys| && Hashed(fc.ht, ctx[..], keys, Done(i + p.step, 0, |keys|))
    requires Scanned(fc.ht, p, ctx[..], states0, Done(i + p.step, p.Ahead(), |keys|))
    requires FindAddChain(fc.sc, fc.cfg, Piped(p), states0, keys, now, cs0)
    requires |cs0| == Done(i, 3 * p.Ahead(), |keys|) && |states0| == |cs0| + 1 && fc.Snap() == states0[|cs0|]
    requires results[..|cs0|] == Results(cs0)
    modifies fc`freeHead, fc`free, fc`stats, fc`eff, fc.ht`nb, fc.ht.buckets, fc.ht.node, fc.lastTs, fc.next, results
    ensures fc.Valid()
    ensures Scanned(fc.ht, p, ctx[..], states, Done(i + p.step, p.Ahead(), |keys|))
    ensures FindAddChain(fc.sc, fc.cfg, Piped(p), states, keys, now, cs) && states[0] == states0[0]
    ensures |cs| == Done(i + p.step, 3 * p.Ahead(), |keys|) && |states| == |cs| + 1 && fc.Snap() == states[|cs|]
    ensures results[..|cs|] == Results(cs)
    ensures Ended(cs, Hit) == Ended(cs0, Hit) + hits && hits + misses == |cs| - |cs0|
    ensures forall j :: |keys| <= j < results.Length ==> results[j] == old(results[j])
  {
    hide Rate.Ahead, Rate.OnBeat, FlowCache.Base, Counted, SlotTable.CtxFor, ScannedAt, FindAddStep, FindAddChain, CacheInv, PoolOk, Ended;
    ValidPool(fc);
    hits, misses, states, cs := 0, 0, states0, cs0;
    Beat(p, i);
    if i >= 3 * p.Ahead() && i - 3 * p.Ahead() < |keys| {
      var base := i - 3 * p.Ahead();
      var n := BlockSize(p, base, |keys|);
      ghost var m := Done(i + p.step, p.Ahead(), |keys|);
      for j := 0 to n
        invariant fc.Valid()
        invariant Scanned(fc.ht, p, ctx[..], states, m)
        invariant |cs| == base + j && |states| == |cs| + 1 && fc.Snap() == states[|cs|] && states[0] == states0[0]
        invariant FindAddChain(fc.sc, fc.cfg, Piped(p), states, keys, now, cs)
        invariant results[..|cs|] == Results(cs)
        invariant Ended(cs, Hit) == Ended(cs0, Hit) + hits && hits + misses == j
        invariant forall k :: |keys| <= k < results.Length ==> results[k] == old(results[k])
      {
        var hit;
        hit, states, cs := FindAddKey(fc, p, keys, ctx, base + j, now, results, states, cs, m);
        if hit {
          hits := hits + 1;
        } else {
          misses := misses + 1;
        }
      }
    }
  }

  /** One key of the last stage. */
  method FindAddKey(fc: FlowCache, p: Pace, keys: seq<Key>, ctx: array<FindCtx>, q: nat, now: Tsc, results: array<nat>,
                    ghost states0: seq<Cache>, ghost cs0: seq<Course>, ghost m: nat)
    returns (hit: bool, ghost states: seq<Cache>, ghost cs: seq<Course>)
    requires fc.Valid() && 0 < now && NoAlias(fc, results, |keys|) && q < m <= |keys|
    requires Hashed(fc.ht, ctx[..], keys, m) && ctx.Length == |keys| && Scanned(fc.ht, p, ctx[..], states0, m)
    requires FindAddChain(fc.sc, fc.cfg, Piped(p), states0, keys, now, cs0)
    requires |cs0| == q && |states0| == q + 1 && fc.Snap() == states0[q] && results[..q] == Results(cs0)
    modifies fc`freeHead, fc`free, fc`stats, fc`eff, fc.ht`nb, fc.ht.buckets, fc.ht.node, fc.lastTs, fc.next, results
    ensures fc.Valid() && Scanned(fc.ht, p, ctx[..], states, m)
    ensures FindAddChain(fc.sc, fc.cfg, Piped(p), states, keys, now, cs) && states[0] == states0[0]
    ensures |cs| == q + 1 && |states| == q + 2 && fc.Snap() == states[q + 1] && results[..q + 1] == Results(cs)
    ensures Ended(cs, Hit) == Ended(cs0, Hit) + if hit then 1 else 0
    ensures forall j :: |keys| <= j < results.Length ==> results[j] == old(results[j])
  {
    hide Rate.Ahead, Rate.OnBeat, FlowCache.Base, Counted, SlotTable.CtxFor, ScannedAt, FindAddStep, FindAddChain, CacheInv, PoolOk, Ended;
    CtxKey(fc.ht, ctx[q], keys[q]);
    var r;
    ghost var c;
    r, hit, c := FindAddScanned(fc, ctx[q], now, states0, ScanPoint(p, q));
    results[q] := r;
    ValidPool(fc);
    FindAddSnoc(fc.sc, fc.cfg, Piped(p), states0, keys, now, cs0, c, fc.Snap());
    EndedSnoc(cs0, c, Hit);
    ScannedSame(fc.ht, p, ctx[..], ctx[..], states0, [fc.Snap()], m);
    states, cs := states0 + [fc.Snap()], cs0 + [c];
    assert results[..q + 1] == results[..q] + [r];
    assert Results(cs) == Results(cs0) + [r];
  }

  method FindAddScanned(fc: FlowCache, ctx: FindCtx, now: Tsc, ghost states: seq<Cache>, ghost p: nat)
    returns (r: nat, hit: bool, ghost c: Course)
    requires fc.Valid() && 0 < now && fc.ht.CtxFor(ctx, ctx.key) && ScannedAt(fc.ht, ctx, states, p)
    modifies fc`freeHead, fc`free, fc`stats, fc`eff, fc.ht`nb, fc.ht.buckets, fc.ht.node, fc.lastTs, fc.next
    ensures fc.Valid() && PoolOk(fc.sc, fc.cfg.maxEntries, c.mid)
    ensures c.r == r && (hit <==> c.kind == Hit)
    ensures p < |states| && FindAddStep(fc.sc, fc.cfg, states[p].st, old(fc.Snap()), ctx.key, now, c, fc.Snap())
  {
    hide FindAddStep, PoolOk;
    r, hit, c := FindAddOne(fc, ctx, now, states[p].st);
  }

  /**
   * Finds or adds a batch of keys. A key is scanned while up to two look-aheads of earlier keys are
   * still to be inserted, relocated or evicted, yet at the end every result other than 0 is the live,
   * freshly stamped entry of its key, and every 0 is counted in fillFull.
   */
  method FindAddBulk(fc: FlowCache, p: Pace, keys: seq<Key>, now: Tsc, results: array<nat>)
    returns (ghost states: seq<Cache>, ghost cs: seq<Course>)
    requires fc.Valid() && 0 < now && NoAlias(fc, results, |keys|)
    modifies fc`freeHead, fc`free, fc`stats, fc`eff, fc.ht`nb, fc.ht.buckets, fc.ht.node, fc.lastTs, fc.next, results
    ensures fc.Valid()
    ensures FindAddChain(fc.sc, fc.cfg, Piped(p), states, keys, now, cs) && |cs| == |keys| && states[0] == old(fc.Snap())
    ensures results[..|keys|] == Results(cs) && Ended(cs, Hit) <= |keys|
    ensures fc.Snap() == states[|keys|].(stats := Credited(states[|keys|].stats, |keys|, Ended(cs, Hit)))
    ensures Answered(fc.sc, fc.Snap(), keys, now, results[..|keys|])
    ensures fc.stats.fillFull == old(fc.stats).fillFull + (|keys| - |Answering(results[..|keys|])|)
    ensures var hits := |Ending(cs, Hit)|;
            && fc.stats.lookups == old(fc.stats).lookups + |keys|
            && fc.stats.hits == old(fc.stats).hits + hits && fc.stats.misses == old(fc.stats).misses + (|keys| - hits)
    ensures forall j :: |keys| <= j < results.Length ==> results[j] == old(results[j])
  {
    hide FlowCache.Base, Counted, FindAddChain, Answered, Found, CacheInv, PoolOk, KeysUnique, Ended, Ending, Answering, Results;
    ValidPool(fc);
    var hitCount;
    hitCount, states, cs := FindAddStages(fc, p, keys, now, results);
    BatchDone(fc.sc, fc.cfg, p, states, keys, now, cs);
    Credit(fc, |keys|, hitCount);
    AnsweredAside(fc.sc, states[|keys|], keys, now, results[..|keys|], fc.Snap());
  }

  lemma FindAddNothing(t: SlotTable, p: Pace, ctx: seq<FindCtx>, sc: Scheme, cfg: Config, cs: Cache, keys: seq<Key>, now: nat, rs: seq<nat>)
    requires ConfigOk(cfg) && CacheInv(sc, cfg.maxEntries, cs) && rs == [] && |ctx| == |keys|
    ensures FindAddChain(sc, cfg, Piped(p), [cs], keys, now, []) && rs == Results([]) && Ended([], Hit) == 0
    ensures Hashed(t, ctx, keys, 0) && Scanned(t, p, ctx, [cs], 0)
  {
  }

  /** All stages of the pipeline, without the lookup counters. */
  method FindAddStages(fc: FlowCache, p: Pace, keys: seq<Key>, now: Tsc, results: array<nat>)
    returns (hitCount: nat, ghost states: seq<Cache>, ghost cs: seq<Course>)
    requires fc.Valid() && 0 < now && NoAlias(fc, results, |keys|)
    modifies fc`freeHead, fc`free, fc`stats, fc`eff, fc.ht`nb, fc.ht.buckets, fc.ht.node, fc.lastTs, fc.next, results
    ensures fc.Valid()
    ensures FindAddChain(fc.sc, fc.cfg, Piped(p), states, keys, now, cs) && |cs| == |keys| && states[0] == old(fc.Snap())
    ensures |states| == |keys| + 1 && fc.Snap() == states[|keys|]
    ensures results[..|keys|] == Results(cs) && Ended(cs, Hit) == hitCount <= |keys|
    ensures forall j :: |keys| <= j < results.Length ==> results[j] == old(results[j])
  {
    hide Rate.Ahead, Rate.OnBeat, FlowCache.Base, Counted, FindAddChain, Found, CacheInv, PoolOk, KeysUnique, Hashed, Scanned, Ended, Results;
    ValidPool(fc);
    var ctx := NewContexts(keys);
    var missCount: nat := 0;
    hitCount := 0;
    states, cs := [fc.Snap()], [];
    FindAddNothing(fc.ht, p, ctx[..], fc.sc, fc.cfg, fc.Snap(), keys, now, results[..0]);
    var i: nat := 0;
    BeatStart(p);
    while i < |keys| + 3 * p.Ahead()
      invariant p.OnBeat(i) && fc.Valid()
      invariant Hashed(fc.ht, ctx[..], keys, Done(i, 0, |keys|))
      invariant Scanned(fc.ht, p, ctx[..], states, Done(i, p.Ahead(), |keys|))
      invariant |cs| == Done(i, 3 * p.Ahead(), |keys|) && |states| == |cs| + 1 && states[0] == old(fc.Snap()) && fc.Snap() == states[|cs|]
      invariant FindAddChain(fc.sc, fc.cfg, Piped(p), states, keys, now, cs) && results[..|cs|] == Results(cs)
      invariant Ended(cs, Hit) == hitCount && hitCount + missCount == |cs|
      invariant forall j :: |keys| <= j < results.Length ==> results[j] == old(results[j])
      decreases |keys| + 3 * p.Ahead() - i
    {
      Beat(p, i);
      ghost var ctx0 := ctx[..];
      StageHash(fc, p, keys, ctx, i);
      ScannedSame(fc.ht, p, ctx0, ctx[..], states, [], Done(i, p.Ahead(), |keys|));
      assert states + [] == states;
      StageScanEmpties(fc, p, keys, ctx, i, states);
      var hits, misses;
      hits, misses, states, cs := StageFindAdd(fc, p, keys, ctx, i, now, results, states, cs);
      hitCount, missCount := hitCount + hits, missCount + misses;
      i := i + p.step;
    }
  }

  lemma BatchDone(sc: Scheme, cfg: Config, p: Pace, states: seq<Cache>, keys: seq<Key>, now: nat, cs: seq<Course>)
    requires ConfigOk(cfg) && FindAddChain(sc, cfg, Piped(p), states, keys, now, cs) && |cs| == |keys|
    ensures |states| == |keys| + 1 && Answered(sc, states[|keys|], keys, now, Results(cs))
    ensures Ended(cs, Hit) == |Ending(cs, Hit)|
    ensures var s, s' := states[0].stats, states[|keys|].stats;
            && s'.fillFull == s.fillFull + (|keys| - |Answering(Results(cs))|)
            && s'.lookups == s.lookups && s'.hits == s.hits && s'.misses == s.misses
  {
    hide FindAddStep, CacheInv, PoolOk, Answered, Found, Ended, Ending, Answering;
    var n := |keys|;
    EndedIsSize(cs, Hit);
    FoundIsSize(Results(cs));
    assert cs[..n] == cs && Results(cs)[..n] == Results(cs);
    FindAddAnswered(sc, cfg, Piped(p), states, keys, now, cs, n);
    FindAddBooks(sc, cfg, Piped(p), states, keys, now, cs, n);
  }

  lemma AnsweredAside(sc: Scheme, cs: Cache, keys: seq<Key>, now: nat, rs: seq<nat>, cs': Cache)
    requires Answered(sc, cs, keys, now, rs) && cs' == cs.(stats := cs'.stats)
    ensures Answered(sc, cs', keys, now, rs)
  {
    assert forall q :: 0 <= q < |rs| && rs[q] != NIL ==> Fresh(sc, cs, rs[q], keys[q], now);
  }
}
