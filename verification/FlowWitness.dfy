/** A batch on which the pipeline and one key at a time give different answers, from init on. */
module FlowWitnessModel {
  import opened HashScheme
  import opened SlotStore
  import opened FlowState
  import opened FlowTimeout
  import opened FlowSteps
  import opened FlowBatches
  import opened FlowCacheModel
  import opened FlowKeyModel
  import opened FlowBulkModel

  lemma OneFree(free: seq<nat>)
    requires FreeListOk(free, 1) && |free| == 1
    ensures free == [1]
  {
  }

  /** An empty cache with a pool of one entry. */
  method TinyCache(sc: Scheme, settings: Settings, k: Key) returns (fc: FlowCache)
    requires sc.Lawful()
    ensures fresh(fc) && fresh(fc.ht) && fresh(fc.ht.buckets) && fresh(fc.ht.node) && fresh(fc.lastTs) && fresh(fc.next)
    ensures fc.Valid() && fc.sc == sc && fc.Snap().free == [1] && forall j: nat :: !Stored(sc, fc.Snap().st, j)
  {
    var buckets := new Bucket[sc.nbBk](_ => EMPTY_BUCKET);
    var node := new Node[2](_ => Node(k, 0, 0));
    var lastTs := new nat[2];
    var next := new nat[2];
    fc := new FlowCache(sc, settings, buckets, node, lastTs, next);
    OneFree(fc.free);
  }

  /** The key twice in one batch. */
  method PairBatched(sc: Scheme, settings: Settings, k: Key, now: Tsc) returns (results: seq<nat>)
    requires sc.Lawful() && 0 < now
    ensures results == [1, 0]
  {
    var fc := TinyCache(sc, settings, k);
    ValidPool(fc);
    var buffer := new nat[2];
    ghost var states, cs;
    states, cs := FindAddBulk(fc, DEFAULT_PACE, [k, k], now, buffer);
    assert ScanPoint(DEFAULT_PACE, 1) == 0;
    PairInOneBatch(sc, fc.cfg, DEFAULT_PACE, k, now, states, cs);
    results := buffer[..2];
  }

  /** The first batch of one enters the key. */
  lemma FirstSingle(sc: Scheme, cfg: Config, k: Key, now: nat, states: seq<Cache>, cs: seq<Course>, end: Cache)
    requires ConfigOk(cfg) && |cs| == 1 && FindAddChain(sc, cfg, Piped(DEFAULT_PACE), states, [k], now, cs)
    requires states[0].free == [1] && forall j: nat :: !Stored(sc, states[0].st, j)
    requires end == states[1].(stats := end.stats)
    ensures Results(cs) == [1] && Holds(sc, end.st, 1, k) && forall j: nat :: Stored(sc, end.st, j) <==> j == 1
  {
    hide CacheInv, PoolOk, FindAddStep, Stored;
    ChainStep(sc, cfg, Piped(DEFAULT_PACE), states, [k], now, cs, 0);
    assert ScanPoint(DEFAULT_PACE, 0) == 0;
    FirstIntoEmpty(sc, cfg, states[0].st, states[0], k, now, cs[0], states[1]);
  }

  /** The second one finds it. */
  lemma SecondSingle(sc: Scheme, cfg: Config, k: Key, now: nat, states: seq<Cache>, cs: seq<Course>)
    requires ConfigOk(cfg) && |cs| == 1 && FindAddChain(sc, cfg, Piped(DEFAULT_PACE), states, [k], now, cs)
    requires Holds(sc, states[0].st, 1, k) && forall j: nat :: Stored(sc, states[0].st, j) <==> j == 1
    ensures Results(cs) == [1]
  {
    hide CacheInv, PoolOk, FindAddStep, Stored;
    ChainStep(sc, cfg, Piped(DEFAULT_PACE), states, [k], now, cs, 0);
    assert ScanPoint(DEFAULT_PACE, 0) == 0;
    SecondFresh(sc, cfg, states[0], k, now, cs[0], states[1]);
  }

  /** The key in two batches of one. */
  method PairSingly(sc: Scheme, settings: Settings, k: Key, now: Tsc) returns (results: seq<nat>)
    requires sc.Lawful() && 0 < now
    ensures results == [1, 1]
  {
    hide FlowCache.Base, Counted, FindAddChain, Results, Stored, Holds, Answered, Found, Ended;
    var fc := TinyCache(sc, settings, k);
    ValidPool(fc);
    var first, second := new nat[1], new nat[1];
    ghost var states, cs;
    states, cs := FindAddBulk(fc, DEFAULT_PACE, [k], now, first);
    FirstSingle(sc, fc.cfg, k, now, states, cs, fc.Snap());
    states, cs := FindAddBulk(fc, DEFAULT_PACE, [k], now, second);
    SecondSingle(sc, fc.cfg, k, now, states, cs);
    results := first[..1] + second[..1];
  }

  /** Same keys, same order, same clock, same empty cache: the batch loses the second answer. */
  method BatchIsNoFold(sc: Scheme, settings: Settings, k: Key, now: Tsc) returns (batched: seq<nat>, singly: seq<nat>)
    requires sc.Lawful() && 0 < now
    ensures batched == [1, 0] && singly == [1, 1]
  {
    batched := PairBatched(sc, settings, k, now);
    singly := PairSingly(sc, settings, k, now);
  }
}
