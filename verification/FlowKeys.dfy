/** The flow cache operations on one key. */
module FlowKeyModel {
  import opened HashScheme
  import opened SlotStore
  import opened SlotKick
  import opened Bits16
  import opened SlotTableModel
  import opened FlowState
  import opened FlowTimeout
  import opened FlowSteps
  import opened FlowCacheModel

  // ------------------------------------------------------------ one key

  lemma CellsOk(sc: Scheme, max: nat, cs: Cache)
    requires PoolOk(sc, max, cs)
    ensures |cs.ts| == |cs.st.n| == max + 1 && FreeListOk(cs.free, max) && forall k :: 0 <= k < |cs.free| ==> 0 < cs.free[k] <= max
  {
  }

  /** Takes the head of the free list, or NIL. */
  method AllocEntry(fc: FlowCache) returns (e: nat)
    requires fc.Linked()
    modifies fc`freeHead, fc`free
    ensures fc.Linked()
    ensures if old(fc.free) == [] then e == NIL && fc.free == [] else e == old(fc.free)[0] && fc.free == old(fc.free)[1..]
  {
    e := fc.freeHead;
    if e != NIL {
      ghost var tail := fc.free[1..];
      assert forall k :: 0 <= k < |tail| ==> tail[k] == fc.free[k + 1] && ListAfter(tail, k) == ListAfter(fc.free, k + 1);
      fc.freeHead := fc.next[e];
      fc.free := tail;
    }
  }

  /** Writes key and timestamp into a cell that has just been taken off the free list. */
  method WriteEntry(fc: FlowCache, e: nat, k: Key, now: nat, ghost cs: Cache)
    requires fc.ht.sc == fc.sc && fc.ht.Valid() && fc.ht.St() == cs.st && fc.lastTs[..] == cs.ts
    requires PoolOk(fc.sc, fc.cfg.maxEntries, cs) && cs.free != [] && e == cs.free[0]
    modifies fc.ht.node, fc.lastTs
    ensures e < |cs.st.n| && fc.ht.Valid() && fc.ht.St() == Keyed(cs.st, e, k) && fc.lastTs[..] == cs.ts[e := now]
    ensures !Stored(fc.sc, fc.ht.St(), e)
  {
    FreeCell(fc.sc, fc.cfg.maxEntries, cs);
    KeyedInv(fc.sc, fc.cfg.maxEntries, cs, k);
    hide Inv, PoolOk, Stored, Live;
    fc.ht.node[e] := fc.ht.node[e].(key := k);
    fc.lastTs[e] := now;
    LiveSame(fc.sc, cs.st, fc.ht.St());
  }

  /** The end of an add: keeps the entry that went in, or frees it and refreshes a duplicate. */
  method SettleEntry(fc: FlowCache, ghost cs: Cache, k: Key, e: nat, ret: nat, now: nat) returns (r: nat)
    requires fc.ht.sc == fc.sc && fc.ht.Valid() && fc.lastTs != fc.next && fc.lastTs.Length == fc.next.Length
    requires fc.cfg.nbBk == fc.sc.nbBk && ConfigOk(fc.cfg) && fc.Linked()
    requires PoolOk(fc.sc, fc.cfg.maxEntries, cs) && Counted(fc.sc, cs) && 0 < now
    requires cs.free != [] && e == cs.free[0] && e < |cs.st.n| && e < |cs.ts|
    requires Inserted(fc.sc, Keyed(cs.st, e, k), e, ret, fc.ht.St()) && Kick(ret, fc.ht.St()) == InsertOf(fc.sc, Keyed(cs.st, e, k), e)
    requires fc.lastTs[..] == cs.ts[e := now] && fc.free == cs.free[1..] && fc.stats == cs.stats
    requires fc.eff == cs.eff && fc.removed == cs.removed
    modifies fc`freeHead, fc`free, fc`stats, fc.lastTs, fc.next
    ensures fc.Valid() && AddStep(fc.sc, cs, k, now, r, fc.Snap())
  {
    hide Inv, PoolOk, Inserted, AddStep, Counted, Live, FreeListOk, InsertOf, Keyed;
    ghost var max := fc.cfg.maxEntries;
    FreeCell(fc.sc, max, cs);
    if ret == NIL {
      fc.stats := fc.stats.(fills := fc.stats.fills + 1);
      AddEntered(fc.sc, max, cs, k, now, fc.Snap());
      r := e;
    } else {
      fc.FreeEntry(e);
      assert cs.ts[e := now][e := 0] == cs.ts;
      if ret != e {
        InsertedIn(fc.sc, max, cs, e, k, ret, fc.ht.St());
        fc.lastTs[ret] := now;
        AddDuplicate(fc.sc, max, cs, k, now, ret, fc.Snap());
        r := ret;
      } else {
        fc.stats := fc.stats.(fillFull := fc.stats.fillFull + 1);
        AddRefused(fc.sc, max, cs, k, now, fc.Snap());
        r := NIL;
      }
    }
    AddCounted(fc.sc, max, cs, k, now, r, fc.Snap());
  }

  lemma InsertedIn(sc: Scheme, max: nat, cs: Cache, e: nat, k: Key, r: nat, st': Store)
    requires PoolOk(sc, max, cs) && e < |cs.st.n| && Inserted(sc, Keyed(cs.st, e, k), e, r, st') && r != NIL && r != e
    ensures r < |cs.ts|
  {
  }

  /** An add without a free cell. */
  method CountFull(fc: FlowCache, k: Key, ghost now: nat)
    requires fc.Valid() && fc.free == []
    modifies fc`stats
    ensures fc.Valid() && AddStep(fc.sc, old(fc.Snap()), k, now, NIL, fc.Snap())
  {
    hide Inv, PoolOk, AddStep, Counted;
    ghost var cs, max := fc.Snap(), fc.cfg.maxEntries;
    fc.stats := fc.stats.(fillFull := fc.stats.fillFull + 1);
    AddNothingFree(fc.sc, max, cs, k, now, fc.Snap());
    AddCounted(fc.sc, max, cs, k, now, NIL, fc.Snap());
  }

  /** Allocates an entry for k and inserts it with an already computed hash. */
  method AddMissing(fc: FlowCache, k: Key, h: Hash, now: nat) returns (r: nat)
    requires fc.Valid() && 0 < now && h == fc.sc.hash(k)
    modifies fc`freeHead, fc`free, fc`stats, fc.ht`nb, fc.ht.buckets, fc.ht.node, fc.lastTs, fc.next
    ensures fc.Valid() && AddStep(fc.sc, old(fc.Snap()), k, now, r, fc.Snap())
  {
    hide Inv, PoolOk, Inserted, AddStep, Counted, FreeListOk, Live, InsertOf;
    ghost var cs, max := fc.Snap(), fc.cfg.maxEntries;
    CellsOk(fc.sc, max, cs);
    if fc.freeHead == NIL {
      CountFull(fc, k, now);
      return NIL;
    }
    var e := AllocEntry(fc);
    FreeCell(fc.sc, max, cs);
    WriteEntry(fc, e, k, now, cs);
    var ret := fc.ht.InsertHashed(e, h);
    r := SettleEntry(fc, cs, k, e, ret, now);
  }

  /** Tries one candidate bucket for a victim; c1 is the state up to counters. */
  method ReclaimFor(fc: FlowCache, bk: nat, before: Tsc, ghost c1: Cache) returns (did: bool, ghost slot: nat)
    requires fc.Base() && bk < fc.sc.nbBk && fc.Snap() == c1.(stats := fc.stats)
    modifies fc`freeHead, fc`free, fc.ht`nb, fc.ht.buckets, fc.lastTs, fc.next
    ensures fc.Base() && fc.stats == old(fc.stats)
    ensures did ==> Evicted(fc.sc, c1, bk, slot, before, fc.Snap())
    ensures !did ==> fc.Snap() == old(fc.Snap()) && NoneExpired(c1, bk, before)
  {
    hide PoolOk, Inv, Purged, Oldest, ExpiredAt;
    ghost var cs := fc.Snap();
    did, slot := fc.ReclaimBucket(bk, before);
    EvictedBase(fc.sc, c1, cs, bk, slot, before, fc.Snap(), fc.Snap());
  }

  /** The victims of a relief when the first bucket is short of room. */
  method RelieveTight(fc: FlowCache, ctx: FindCtx, now: Tsc, pe: nat, ghost cs: Cache) returns (ghost v: Victim)
    requires fc.Base() && fc.ht.CtxFor(ctx, ctx.key) && fc.ht.EmptyMask(fc.ht.St(), ctx.bk1, ctx.empties1)
    requires fc.Snap() == cs.(stats := fc.stats)
    modifies fc`freeHead, fc`free, fc`stats, fc`eff, fc.ht`nb, fc.ht.buckets, fc.lastTs, fc.next
    ensures fc.Base()
    ensures fc.stats == old(fc.stats).(reliefChecks := old(fc.stats).reliefChecks + (if v.FromFirst? then 0 else 1),
                                       reliefEvictions := old(fc.stats).reliefEvictions + (if v.NoVictim? then 0 else 1),
                                       reliefBk0 := old(fc.stats).reliefBk0 + (if v.FromFirst? then 1 else 0),
                                       reliefBk1 := old(fc.stats).reliefBk1 + (if v.FromSecond? then 1 else 0))
    ensures fc.eff == EffTimeout(fc.cfg, old(fc.ht.nb))
    ensures var c1, before := cs.(eff := fc.eff), ExpireBefore(now, fc.eff);
            && (!v.FromFirst? ==> NoneExpired(c1, ctx.bk0, before))
            && match v
               case NoVictim => fc.Snap() == c1.(stats := fc.stats) && (Gaps(cs.st, ctx.bk1) <= pe ==> NoneExpired(c1, ctx.bk1, before))
               case FromFirst(s) => Evicted(fc.sc, c1, ctx.bk0, s, before, fc.Snap())
               case FromSecond(s) => Gaps(cs.st, ctx.bk1) <= pe && Evicted(fc.sc, c1, ctx.bk1, s, before, fc.Snap())
  {
    hide PoolOk, Inv, Purged, Oldest, NoneExpired, Evicted, EffTimeout, FlowCache.Linked, Live;
    v := NoVictim;
    fc.Retime();
    ghost var c1 := cs.(eff := fc.eff);
    var before := ExpireBefore(now, fc.eff);
    var did;
    ghost var slot;
    BothBuckets(fc.sc, ctx.key);
    did, slot := ReclaimFor(fc, ctx.bk0, before, c1);
    ghost var c2 := fc.Snap();
    if did {
      fc.Tally(fc.stats.(reliefEvictions := fc.stats.reliefEvictions + 1, reliefBk0 := fc.stats.reliefBk0 + 1));
      EvictedBase(fc.sc, c1, c1, ctx.bk0, slot, before, c2, fc.Snap());
      v := FromFirst(slot);
    } else {
      fc.Tally(fc.stats.(reliefChecks := fc.stats.reliefChecks + 1));
      UsedByMask(cs.st.b[ctx.bk1].idx, ctx.empties1);
      if Count(ctx.empties1) <= pe && ctx.bk1 != ctx.bk0 {
        did, slot := ReclaimFor(fc, ctx.bk1, before, c1);
        c2 := fc.Snap();
        if did {
          fc.Tally(fc.stats.(reliefEvictions := fc.stats.reliefEvictions + 1, reliefBk1 := fc.stats.reliefBk1 + 1));
          EvictedBase(fc.sc, c1, c1, ctx.bk1, slot, before, c2, fc.Snap());
          v := FromSecond(slot);
        }
      }
    }
  }

  lemma BothBuckets(sc: Scheme, k: Key)
    requires sc.Lawful()
    ensures sc.B0(k) != sc.B1(k) && sc.B0(k) < sc.nbBk && sc.B1(k) < sc.nbBk
  {
    assert sc.KeyLaws(k);
  }

  /** Makes room for the key of a context that missed, if its buckets are short of it. */
  method Relieve(fc: FlowCache, ctx: FindCtx, now: Tsc, ghost scan: Store) returns (ghost v: Victim)
    requires fc.Valid() && fc.ht.CtxFor(ctx, ctx.key)
    requires fc.ht.EmptyMask(scan, ctx.bk0, ctx.empties0) && fc.ht.EmptyMask(fc.ht.St(), ctx.bk1, ctx.empties1)
    modifies fc`freeHead, fc`free, fc`stats, fc`eff, fc.ht`nb, fc.ht.buckets, fc.lastTs, fc.next
    ensures fc.Valid() && ReliefStep(fc.sc, fc.cfg, scan, old(fc.Snap()), ctx.key, now, v, fc.Snap())
  {
    hide PoolOk, Inv, Counted, FlowCache.Linked, EffTimeout, NoneExpired, Evicted, Live;
    ghost var cs := fc.Snap();
    v := NoVictim;
    if fc.cfg.totalSlots != 0 {
      var pe := ReliefEmptySlots(fc.cfg, fc.ht.nb);
      fc.Tally(fc.stats.(reliefCalls := fc.stats.reliefCalls + 1, reliefChecks := fc.stats.reliefChecks + 1));
      UsedByMask(scan.b[ctx.bk0].idx, ctx.empties0);
      if Count(ctx.empties0) <= pe {
        v := RelieveTight(fc, ctx, now, pe, cs);
      }
    }
    ReliefCounted(fc.sc, fc.cfg, scan, cs, ctx.key, now, v, fc.Snap());
  }

  /** Stamps a stored entry. */
  method Touch(fc: FlowCache, e: nat, now: nat)
    requires fc.Valid() && Stored(fc.sc, fc.ht.St(), e) && 0 < now
    modifies fc.lastTs
    ensures e < |old(fc.Snap()).ts| && fc.Valid() && fc.Snap() == old(fc.Snap()).(ts := old(fc.Snap()).ts[e := now])
  {
    hide Inv, PoolOk, Counted;
    ghost var cs := fc.Snap();
    CellsOk(fc.sc, fc.cfg.maxEntries, cs);
    PoolInv(fc.sc, fc.cfg.maxEntries, cs);
    fc.lastTs[e] := now;
    Stamped(fc.sc, fc.cfg.maxEntries, cs, cs.st, e, now, fc.Snap());
    CountedAside(fc.sc, cs, fc.Snap());
  }

  lemma PoolInv(sc: Scheme, max: nat, cs: Cache)
    requires PoolOk(sc, max, cs)
    ensures Inv(sc, cs.st)
  {
  }

  lemma CountedAside(sc: Scheme, cs: Cache, cs': Cache)
    requires Counted(sc, cs) && cs'.st == cs.st && cs'.stats == cs.stats && cs'.removed == cs.removed
    ensures Counted(sc, cs')
  {
  }

  /** What the last stage looks at, in terms of the state that was scanned. */
  lemma SightedSeen(t: SlotTable, ctx: FindCtx, scan: Store, st: Store)
    requires t.CtxFor(ctx, ctx.key) && t.HitMask(ctx, scan) && Inv(t.sc, st)
    ensures forall i: nat :: Stored(t.sc, st, i) ==> (t.Sighted(ctx, st, i) <==> Seen(t.sc, scan, st, ctx.key, i))
  {
  }

  lemma StaleFindBy(t: SlotTable, ctx: FindCtx, scan: Store, cs: Cache, r: nat)
    requires t.CtxFor(ctx, ctx.key) && t.HitMask(ctx, scan) && Inv(t.sc, cs.st)
    requires r != NIL ==> Stored(t.sc, cs.st, r) && cs.st.n[r].key == ctx.key && t.Sighted(ctx, cs.st, r)
    requires r == NIL ==> t.Missed(ctx, cs.st)
    ensures StaleFind(t.sc, scan, cs, ctx.key, r)
  {
    SightedSeen(t, ctx, scan, cs.st);
  }

  /** The last stage of find-or-add for one key whose first bucket was scanned in state scan. */
  method FindAddOne(fc: FlowCache, ctx: FindCtx, now: Tsc, ghost scan: Store) returns (r: nat, hit: bool, ghost c: Course)
    requires fc.Valid() && 0 < now && fc.ht.CtxFor(ctx, ctx.key)
    requires fc.ht.HitMask(ctx, scan) && fc.ht.EmptyMask(scan, ctx.bk0, ctx.empties0)
    modifies fc`freeHead, fc`free, fc`stats, fc`eff, fc.ht`nb, fc.ht.buckets, fc.ht.node, fc.lastTs, fc.next
    ensures fc.Valid() && PoolOk(fc.sc, fc.cfg.maxEntries, c.mid)
    ensures c.r == r && (hit <==> c.kind == Hit)
    ensures FindAddStep(fc.sc, fc.cfg, scan, old(fc.Snap()), ctx.key, now, c, fc.Snap())
  {
    hide PoolOk, Inv, Counted, FlowCache.Linked, StaleFind, ReliefStep, AddStep, SlotTable.CtxFor, SlotTable.HitMask, SlotTable.EmptyMask;
    hide SlotTable.Sighted, SlotTable.Missed, Absent;
    ghost var cs := fc.Snap();
    var ctx';
    PoolInv(fc.sc, fc.cfg.maxEntries, cs);
    r, ctx' := fc.ht.CmpKeyEmpties(ctx);
    StaleFindBy(fc.ht, ctx, scan, cs, r);
    if r != NIL {
      Touch(fc, r, now);
      return r, true, Course(Hit, NoVictim, cs, r);
    }
    CtxKept(fc.ht, ctx, ctx', scan);
    ghost var v := Relieve(fc, ctx', now, scan);
    ghost var mid := fc.Snap();
    r := AddMissing(fc, ctx'.key, ctx'.hash, now);
    hit, c := false, Course(if r == NIL then Zero else if Absent(fc.sc, mid.st, ctx.key) then Fill else Late, v, mid, r);
  }

  lemma CtxKept(t: SlotTable, ctx: FindCtx, ctx': FindCtx, scan: Store)
    requires t.CtxFor(ctx, ctx.key) && t.EmptyMask(scan, ctx.bk0, ctx.empties0)
    requires ctx' == ctx.(hits1 := ctx'.hits1, empties1 := ctx'.empties1)
    ensures t.CtxFor(ctx', ctx'.key) && t.EmptyMask(scan, ctx'.bk0, ctx'.empties0) && ctx'.hash == t.sc.hash(ctx'.key)
  {
  }
}
