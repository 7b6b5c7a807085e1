/** Whole batches: chains of single-key steps and what they add up to. */
module FlowBatches {
  import opened HashScheme
  import opened SlotStore
  import opened FlowState
  import opened FlowTimeout
  import opened FlowSteps

  /** A compile-time setting: keys per pipeline block, and how many blocks a stage runs ahead of the next one. */
  datatype Rate = Rate(step: nat, blocks: nat) {
    /** How many keys a stage runs ahead of the next one. */
    function Ahead(): nat {
      step * blocks
    }

    /** i is the first key of a block. */
    predicate OnBeat(i: nat)
      requires 0 < step
    {
      i % step == 0
    }
  }

  type Pace = p: Rate | 0 < p.step witness Rate(1, 0)

  const DEFAULT_PACE: Pace := Rate(8, 4)

  lemma BeatStart(p: Pace)
    ensures p.OnBeat(0)
  {
  }

  /** A block never straddles the point at which a stage starts. */
  lemma Beat(p: Pace, i: nat)
    requires p.OnBeat(i)
    ensures p.OnBeat(i + p.step)
    ensures i < p.Ahead() ==> i + p.step <= p.Ahead()
    ensures i < 3 * p.Ahead() ==> i + p.step <= 3 * p.Ahead()
    ensures i >= p.Ahead() ==> p.OnBeat(i - p.Ahead())
  {
    var q := i / p.step;
    assert i == q * p.step;
    Multiple(q + 1, p.step);
    assert (q + 1) * p.step == i + p.step;
    Within(q, p.blocks, p.step);
    Within(q, 3 * p.blocks, p.step);
    assert 3 * p.blocks * p.step == 3 * p.Ahead();
    if i >= p.Ahead() {
      Within(p.blocks - 1, q, p.step);
      assert (q - p.blocks) * p.step == i - p.Ahead();
      if q >= p.blocks {
        Multiple(q - p.blocks, p.step);
      }
    }
  }

  /** How many of n keys have passed the stage with the given offset when the loop counter is i. */
  function Done(i: nat, off: nat, n: nat): (r: nat)
    ensures r <= n
  {
    if i <= off then 0 else if i - off <= n then i - off else n
  }

  // ------------------------------------------------------------ counting

  /** How many results are not 0. */
  ghost function Found(rs: seq<nat>): (r: nat)
    ensures r <= |rs|
  {
    if rs == [] then 0 else Found(rs[..|rs| - 1]) + if rs[|rs| - 1] != NIL then 1 else 0
  }

  /** Which results are not 0. */
  ghost function Answering(rs: seq<nat>): set<nat> {
    set q | 0 <= q < |rs| && rs[q] != NIL
  }

  lemma {:induction false} FoundIsSize(rs: seq<nat>)
    ensures Found(rs) == |Answering(rs)|
  {
    if rs != [] {
      var n := |rs| - 1;
      FoundIsSize(rs[..n]);
      var rest := Answering(rs[..n]);
      if rs[n] != NIL {
        assert Answering(rs) == rest + {n} && n !in rest;
      } else {
        assert Answering(rs) == rest;
      }
    }
  }

  lemma {:induction false} FoundSnoc(rs: seq<nat>, r: nat)
    ensures Found(rs + [r]) == Found(rs) + if r != NIL then 1 else 0
  {
    assert (rs + [r])[..|rs|] == rs;
  }

  /** The lookup counters after a batch of n keys with the given number of hits. */
  function Credited(s: Stats, n: nat, hits: nat): Stats
    requires hits <= n
  {
    s.(lookups := s.lookups + n, hits := s.hits + hits, misses := s.misses + (n - hits))
  }

  // ------------------------------------------------------------ find

  /** One lookup after the other. */
  ghost predicate FindChain(sc: Scheme, states: seq<Cache>, keys: seq<Key>, now: nat, rs: seq<nat>) {
    && |states| == |rs| + 1 && |rs| <= |keys|
    && forall q :: 0 <= q < |rs| ==> FindStep(sc, states[q], keys[q], now, rs[q], states[q + 1])
  }

  lemma FindChainSnoc(sc: Scheme, states: seq<Cache>, keys: seq<Key>, now: nat, rs: seq<nat>, r: nat, cs': Cache)
    requires FindChain(sc, states, keys, now, rs) && |rs| < |keys|
    requires FindStep(sc, states[|rs|], keys[|rs|], now, r, cs')
    ensures FindChain(sc, states + [cs'], keys, now, rs + [r])
  {
    hide FindStep;
  }

  /** The answer to a lookup of k. */
  ghost predicate Answers(sc: Scheme, st: Store, k: Key, r: nat) {
    if r == NIL then Absent(sc, st, k) else Holds(sc, st, r, k)
  }

  /** Exactly the entries that were found carry the new time; now == 0 stamps nothing. */
  ghost predicate Refreshed(ts: seq<nat>, rs: seq<nat>, now: nat, ts': seq<nat>) {
    && |ts'| == |ts|
    && forall j: nat :: j < |ts| ==> ts'[j] == if j != NIL && j in rs && now != 0 then now else ts[j]
  }

  /** The first n lookups of a batch are answered from the table as it was at the start. */
  lemma {:induction false} FindChainClosed(sc: Scheme, max: nat, states: seq<Cache>, keys: seq<Key>, now: nat, rs: seq<nat>, n: nat)
    requires FindChain(sc, states, keys, now, rs) && PoolOk(sc, max, states[0]) && n <= |rs|
    ensures forall q :: 0 <= q < n ==> Answers(sc, states[0].st, keys[q], rs[q])
    ensures states[n] == states[0].(ts := states[n].ts) && Refreshed(states[0].ts, rs[..n], now, states[n].ts)
  {
    if n > 0 {
      FindChainClosed(sc, max, states, keys, now, rs, n - 1);
      assert FindStep(sc, states[n - 1], keys[n - 1], now, rs[n - 1], states[n]);
      assert rs[..n] == rs[..n - 1] + [rs[n - 1]];
    }
  }

  /** Answers are unique, so a batch and one key at a time agree on every result and timestamp. */
  lemma FindChainUnique(sc: Scheme, max: nat, s1: seq<Cache>, s2: seq<Cache>, keys: seq<Key>, now: nat, r1: seq<nat>, r2: seq<nat>)
    requires FindChain(sc, s1, keys, now, r1) && FindChain(sc, s2, keys, now, r2)
    requires |r1| == |r2| && s1[0] == s2[0] && PoolOk(sc, max, s1[0])
    ensures r1 == r2 && s1[|r1|] == s2[|r2|]
  {
    FindChainClosed(sc, max, s1, keys, now, r1, |r1|);
    FindChainClosed(sc, max, s2, keys, now, r2, |r1|);
    forall q | 0 <= q < |r1|
      ensures r1[q] == r2[q]
    {
      assert Answers(sc, s1[0].st, keys[q], r1[q]) && Answers(sc, s1[0].st, keys[q], r2[q]);
    }
    assert r1[..|r1|] == r1 && r2[..|r1|] == r2;
    assert s1[|r1|].ts == s2[|r2|].ts;
  }

  // ------------------------------------------------------------ delete

  /** One deletion after the other; rs are the deleted entries, 0 for a key that was not stored. */
  ghost predicate DelChain(sc: Scheme, states: seq<Cache>, keys: seq<Key>, rs: seq<nat>) {
    && |states| == |rs| + 1 && |rs| <= |keys|
    && forall q :: 0 <= q < |rs| ==> DelStep(sc, states[q], keys[q], rs[q], states[q + 1])
  }

  lemma DelChainSnoc(sc: Scheme, states: seq<Cache>, keys: seq<Key>, rs: seq<nat>, r: nat, cs': Cache)
    requires DelChain(sc, states, keys, rs) && |rs| < |keys| && DelStep(sc, states[|rs|], keys[|rs|], r, cs')
    ensures DelChain(sc, states + [cs'], keys, rs + [r])
  {
    hide DelStep;
  }

  /** From c0 to cs exactly the entries whose keys are listed have left, count of them. */
  ghost predicate Dropped(sc: Scheme, c0: Cache, ks: seq<Key>, count: nat, cs: Cache) {
    && cs.st.n == c0.st.n && |cs.ts| == |c0.ts| && cs.stats == c0.stats && cs.eff == c0.eff
    && (forall j: nat :: Stored(sc, cs.st, j) <==> Stored(sc, c0.st, j) && c0.st.n[j].key !in ks)
    && (forall j: nat :: j < |cs.ts| && Stored(sc, cs.st, j) ==> cs.ts[j] == c0.ts[j])
    && cs.removed == c0.removed + count && |cs.free| == |c0.free| + count
  }

  /** A batch of deletions removes exactly the entries of the listed keys; repeated keys change nothing. */
  lemma {:induction false} DelChainClosed(sc: Scheme, states: seq<Cache>, keys: seq<Key>, rs: seq<nat>, n: nat)
    requires DelChain(sc, states, keys, rs) && KeysUnique(sc, states[0].st) && n <= |rs|
    ensures Dropped(sc, states[0], keys[..n], Found(rs[..n]), states[n])
  {
    hide DelStep, KeysUnique, Dropped, Found;
    if n == 0 {
      DroppedNone(sc, states[0], keys[..0], Found(rs[..0]));
    } else {
      DelChainClosed(sc, states, keys, rs, n - 1);
      assert rs[..n] == rs[..n - 1] + [rs[n - 1]] && keys[..n] == keys[..n - 1] + [keys[n - 1]];
      FoundSnoc(rs[..n - 1], rs[n - 1]);
      DelOne(sc, states[0], states[n - 1], keys[..n - 1], Found(rs[..n - 1]), keys[n - 1], rs[n - 1], states[n]);
    }
  }

  lemma DroppedNone(sc: Scheme, cs: Cache, ks: seq<Key>, count: nat)
    requires ks == [] && count == Found([])
    ensures Dropped(sc, cs, ks, count, cs)
  {
  }

  lemma DelOne(sc: Scheme, c0: Cache, cs: Cache, ks: seq<Key>, count: nat, k: Key, r: nat, cs': Cache)
    requires KeysUnique(sc, c0.st) && Dropped(sc, c0, ks, count, cs) && DelStep(sc, cs, k, r, cs')
    ensures Dropped(sc, c0, ks + [k], count + (if r != NIL then 1 else 0), cs')
  {
    if r != NIL {
      assert Stored(sc, c0.st, r);
    }
    forall j: nat
      ensures Stored(sc, cs'.st, j) <==> Stored(sc, c0.st, j) && c0.st.n[j].key !in ks + [k]
    {
      if Stored(sc, c0.st, j) {
        assert c0.st.n[j].key in ks + [k] <==> c0.st.n[j].key in ks || c0.st.n[j].key == k;
      }
    }
  }

  /** One deletion by pool index after the other; a free or unknown index changes nothing. */
  ghost predicate DelIdxChain(sc: Scheme, states: seq<Cache>, idxs: seq<nat>, n: nat) {
    && |states| == n + 1 && n <= |idxs|
    && forall q :: 0 <= q < n ==> Deleted(sc, states[q], idxs[q], Stored(sc, states[q].st, idxs[q]), states[q + 1])
  }

  lemma DelIdxSnoc(sc: Scheme, states: seq<Cache>, idxs: seq<nat>, n: nat, cs': Cache)
    requires DelIdxChain(sc, states, idxs, n) && n < |idxs|
    requires Deleted(sc, states[n], idxs[n], Stored(sc, states[n].st, idxs[n]), cs')
    ensures DelIdxChain(sc, states + [cs'], idxs, n + 1)
  {
    hide Deleted, Stored;
  }

  /** A batch of deletions by index removes exactly the listed entries. */
  lemma {:induction false} DelIdxClosed(sc: Scheme, states: seq<Cache>, idxs: seq<nat>, m: nat, n: nat)
    requires DelIdxChain(sc, states, idxs, m) && n <= m
    ensures var cs, cs' := states[0], states[n];
            && cs'.st.n == cs.st.n && |cs'.ts| == |cs.ts| && cs'.stats == cs.stats && cs'.eff == cs.eff
            && (forall j: nat :: Stored(sc, cs'.st, j) <==> Stored(sc, cs.st, j) && j !in idxs[..n])
            && (forall j: nat :: j < |cs.ts| && Stored(sc, cs'.st, j) ==> cs'.ts[j] == cs.ts[j])
            && cs'.removed - cs.removed == |cs'.free| - |cs.free|
  {
    if n > 0 {
      hide Stored;
      DelIdxClosed(sc, states, idxs, m, n - 1);
      assert Deleted(sc, states[n - 1], idxs[n - 1], Stored(sc, states[n - 1].st, idxs[n - 1]), states[n]);
      assert forall j: nat :: j in idxs[..n] <==> j in idxs[..n - 1] || j == idxs[n - 1];
    }
  }

  // ------------------------------------------------------------ add

  /** One add after the other. */
  ghost predicate AddChain(sc: Scheme, max: nat, states: seq<Cache>, keys: seq<Key>, now: nat, rs: seq<nat>) {
    && |states| == |rs| + 1 && |rs| <= |keys|
    && (forall q :: 0 <= q < |states| ==> CacheInv(sc, max, states[q]))
    && forall q :: 0 <= q < |rs| ==> AddStep(sc, states[q], keys[q], now, rs[q], states[q + 1])
  }

  lemma AddChainSnoc(sc: Scheme, max: nat, states: seq<Cache>, keys: seq<Key>, now: nat, rs: seq<nat>, r: nat, cs': Cache)
    requires AddChain(sc, max, states, keys, now, rs) && |rs| < |keys| && CacheInv(sc, max, cs')
    requires AddStep(sc, states[|rs|], keys[|rs|], now, r, cs')
    ensures AddChain(sc, max, states + [cs'], keys, now, rs + [r])
  {
    hide AddStep, CacheInv;
  }

  /** Entry j is stored under key k and was last used at time now. */
  ghost predicate Fresh(sc: Scheme, cs: Cache, j: nat, k: Key, now: nat) {
    Holds(sc, cs.st, j, k) && j < |cs.ts| && cs.ts[j] == now
  }

  /** A successful add leaves the entry of its key behind, freshly stamped. */
  lemma AddGives(sc: Scheme, max: nat, cs: Cache, k: Key, now: nat, r: nat, cs': Cache)
    requires PoolOk(sc, max, cs) && AddStep(sc, cs, k, now, r, cs') && r != NIL
    ensures Fresh(sc, cs', r, k, now)
  {
    FreeCell(sc, max, cs);
  }

  /** An add keeps every stored entry and its key. */
  lemma AddKeeps(sc: Scheme, max: nat, cs: Cache, k: Key, now: nat, r: nat, cs': Cache, j: nat, kj: Key)
    requires PoolOk(sc, max, cs) && AddStep(sc, cs, k, now, r, cs') && Holds(sc, cs.st, j, kj)
    ensures Holds(sc, cs'.st, j, kj) && j < |cs.ts| == |cs'.ts| && (cs'.ts[j] == cs.ts[j] || cs'.ts[j] == now)
  {
    if cs.free != [] {
      FreeCell(sc, max, cs);
    }
  }

  /** Every result other than 0 names the one live entry of its key, freshly stamped. */
  ghost predicate Answered(sc: Scheme, cs: Cache, keys: seq<Key>, now: nat, rs: seq<nat>) {
    && |rs| <= |keys|
    && (forall q :: 0 <= q < |rs| && rs[q] != NIL ==> Fresh(sc, cs, rs[q], keys[q], now))
    && forall p, q :: 0 <= p < |rs| && 0 <= q < |rs| && rs[p] != NIL && rs[q] != NIL && keys[p] == keys[q] ==> rs[p] == rs[q]
  }

  lemma AnsweredByFresh(sc: Scheme, cs: Cache, keys: seq<Key>, now: nat, rs: seq<nat>)
    requires KeysUnique(sc, cs.st) && |rs| <= |keys|
    requires forall q :: 0 <= q < |rs| && rs[q] != NIL ==> Fresh(sc, cs, rs[q], keys[q], now)
    ensures Answered(sc, cs, keys, now, rs)
  {
  }

  lemma AnsweredNone(sc: Scheme, cs: Cache, keys: seq<Key>, now: nat, rs: seq<nat>)
    requires rs == []
    ensures Answered(sc, cs, keys, now, rs) && Found(rs) == 0
  {
  }

  lemma AnsweredSnoc(sc: Scheme, cs: Cache, keys: seq<Key>, now: nat, rr: seq<nat>, r: nat)
    requires KeysUnique(sc, cs.st) && |rr| < |keys|
    requires forall q :: 0 <= q < |rr| && rr[q] != NIL ==> Fresh(sc, cs, rr[q], keys[q], now)
    requires r != NIL ==> Fresh(sc, cs, r, keys[|rr|], now)
    ensures Answered(sc, cs, keys, now, rr + [r])
  {
    hide Fresh, KeysUnique, Answered;
    var rs := rr + [r];
    assert forall q :: 0 <= q < |rr| ==> rs[q] == rr[q];
    AnsweredByFresh(sc, cs, keys, now, rs);
  }

  /** What a batch of adds achieves: all its results hold at its end, and every 0 is counted once. */
  lemma {:induction false} AddChainAnswered(sc: Scheme, max: nat, states: seq<Cache>, keys: seq<Key>, now: nat, rs: seq<nat>, n: nat)
    requires AddChain(sc, max, states, keys, now, rs) && n <= |rs|
    ensures Answered(sc, states[n], keys, now, rs[..n])
    ensures states[n].stats.fillFull == states[0].stats.fillFull + (n - Found(rs[..n]))
  {
    hide AddStep, CacheInv, Found, Answered;
    if n == 0 {
      AnsweredNone(sc, states[0], keys, now, rs[..0]);
    } else {
      AddChainAnswered(sc, max, states, keys, now, rs, n - 1);
      assert rs[..n] == rs[..n - 1] + [rs[n - 1]];
      FoundSnoc(rs[..n - 1], rs[n - 1]);
      AddFullOne(sc, states[n - 1], keys[n - 1], now, rs[n - 1], states[n]);
      AddAnsweredOne(sc, max, states[n - 1], keys, now, rs[..n - 1], rs[n - 1], states[n]);
    }
  }

  lemma AddFullOne(sc: Scheme, cs: Cache, k: Key, now: nat, r: nat, cs': Cache)
    requires AddStep(sc, cs, k, now, r, cs')
    ensures r == NIL ==> cs'.stats.fillFull == cs.stats.fillFull + 1
    ensures r != NIL ==> cs'.stats.fillFull == cs.stats.fillFull
  {
  }

  lemma CachePool(sc: Scheme, max: nat, cs: Cache)
    requires CacheInv(sc, max, cs)
    ensures PoolOk(sc, max, cs) && KeysUnique(sc, cs.st)
  {
  }

  lemma AddAnsweredOne(sc: Scheme, max: nat, cs: Cache, keys: seq<Key>, now: nat, rr: seq<nat>, r: nat, cs': Cache)
    requires CacheInv(sc, max, cs) && CacheInv(sc, max, cs') && |rr| < |keys|
    requires Answered(sc, cs, keys, now, rr) && AddStep(sc, cs, keys[|rr|], now, r, cs')
    ensures Answered(sc, cs', keys, now, rr + [r])
  {
    CachePool(sc, max, cs);
    CachePool(sc, max, cs');
    hide CacheInv, PoolOk, KeysUnique, AddStep, Holds;
    forall q | 0 <= q < |rr| && rr[q] != NIL
      ensures Fresh(sc, cs', rr[q], keys[q], now)
    {
      AddKeeps(sc, max, cs, keys[|rr|], now, r, cs', rr[q], keys[q]);
    }
    if r != NIL {
      AddGives(sc, max, cs, keys[|rr|], now, r, cs');
    }
    AnsweredSnoc(sc, cs', keys, now, rr, r);
  }

  /** Any two runs of the same adds agree on every result and on every state, jammed buckets or not. */
  lemma {:induction false} AddChainUnique(sc: Scheme, max: nat, s1: seq<Cache>, s2: seq<Cache>, keys: seq<Key>, now: nat,
                                          r1: seq<nat>, r2: seq<nat>, n: nat)
    requires AddChain(sc, max, s1, keys, now, r1) && AddChain(sc, max, s2, keys, now, r2)
    requires s1[0] == s2[0] && n <= |r1| && n <= |r2|
    ensures s1[n] == s2[n] && r1[..n] == r2[..n]
  {
    hide AddStep, CacheInv;
    if n > 0 {
      AddChainUnique(sc, max, s1, s2, keys, now, r1, r2, n - 1);
      AddStepUnique(sc, s1[n - 1], keys[n - 1], now, r1[n - 1], s1[n], r2[n - 1], s2[n]);
      assert r1[..n] == r1[..n - 1] + [r1[n - 1]] && r2[..n] == r2[..n - 1] + [r2[n - 1]];
    }
  }

  // ------------------------------------------------------------ find or add

  /** The first key of the block of key q. */
  function BlockStart(p: Pace, q: nat): (r: nat)
    ensures r <= q
  {
    q / p.step * p.step
  }

  /** How many keys have been compared when the block of key q is scanned: all up to two look-aheads behind the block. */
  function ScanPoint(p: Pace, q: nat): (r: nat)
    ensures r <= q
  {
    if BlockStart(p, q) < 2 * p.Ahead() then 0 else BlockStart(p, q) - 2 * p.Ahead()
  }

  /** In plain numbers, and for the default setting of eight keys a block and a look-ahead of thirty-two. */
  lemma ScanPointLaw(p: Pace, q: nat)
    ensures var block, lag := q - q % p.step, 2 * (p.step * p.blocks);
            ScanPoint(p, q) == if block < lag then 0 else block - lag
    ensures ScanPoint(DEFAULT_PACE, q) == if q < 64 then 0 else q - q % 8 - 64
  {
    assert q == q / p.step * p.step + q % p.step;
  }

  /** How the scans of a batch run ahead of its comparisons. */
  datatype Mode = OneByOne | Piped(pace: Pace)

  /** Where the scan for key q happened: in the pipeline earlier, one key at a time right before. */
  function ScanAt(mode: Mode, q: nat): (r: nat)
    ensures r <= q
  {
    match mode
    case OneByOne => q
    case Piped(p) => ScanPoint(p, q)
  }

  /** A run of find-or-add over the keys of a batch. */
  ghost predicate FindAddChain(sc: Scheme, cfg: Config, mode: Mode, states: seq<Cache>, keys: seq<Key>, now: nat, cs: seq<Course>)
    requires ConfigOk(cfg)
  {
    && |states| == |cs| + 1 && |cs| <= |keys|
    && (forall q :: 0 <= q < |states| ==> CacheInv(sc, cfg.maxEntries, states[q]))
    && (forall q :: 0 <= q < |cs| ==> PoolOk(sc, cfg.maxEntries, cs[q].mid))
    && forall q :: 0 <= q < |cs| ==>
         FindAddStep(sc, cfg, states[ScanAt(mode, q)].st, states[q], keys[q], now, cs[q], states[q + 1])
  }

  lemma FindAddSnoc(sc: Scheme, cfg: Config, mode: Mode, states: seq<Cache>, keys: seq<Key>, now: nat,
                    cs: seq<Course>, c: Course, cs': Cache)
    requires ConfigOk(cfg) && FindAddChain(sc, cfg, mode, states, keys, now, cs) && |cs| < |keys|
    requires CacheInv(sc, cfg.maxEntries, cs') && PoolOk(sc, cfg.maxEntries, c.mid)
    requires FindAddStep(sc, cfg, states[ScanAt(mode, |cs|)].st, states[|cs|], keys[|cs|], now, c, cs')
    ensures FindAddChain(sc, cfg, mode, states + [cs'], keys, now, cs + [c])
  {
    hide FindAddStep, CacheInv, PoolOk;
    var ss, cc := states + [cs'], cs + [c];
    forall q | 0 <= q < |cc|
      ensures FindAddStep(sc, cfg, ss[ScanAt(mode, q)].st, ss[q], keys[q], now, cc[q], ss[q + 1])
    {
      assert ss[ScanAt(mode, q)] == states[ScanAt(mode, q)];
    }
  }

  /** The results of the courses. */
  ghost function Results(cs: seq<Course>): (rs: seq<nat>)
    ensures |rs| == |cs| && forall q :: 0 <= q < |cs| ==> rs[q] == cs[q].r
  {
    seq(|cs|, q requires 0 <= q < |cs| => cs[q].r)
  }

  /** How many courses ended in the given way. */
  ghost function Ended(cs: seq<Course>, kind: Outcome): nat {
    if cs == [] then 0 else Ended(cs[..|cs| - 1], kind) + if cs[|cs| - 1].kind == kind then 1 else 0
  }

  /** Which courses did. */
  ghost function Ending(cs: seq<Course>, kind: Outcome): set<nat> {
    set q | 0 <= q < |cs| && cs[q].kind == kind
  }

  lemma {:induction false} EndedIsSize(cs: seq<Course>, kind: Outcome)
    ensures Ended(cs, kind) == |Ending(cs, kind)|
  {
    if cs != [] {
      var n := |cs| - 1;
      EndedIsSize(cs[..n], kind);
      var rest := Ending(cs[..n], kind);
      if cs[n].kind == kind {
        assert Ending(cs, kind) == rest + {n} && n !in rest;
      } else {
        assert Ending(cs, kind) == rest;
      }
    }
  }

  lemma {:induction false} EndedSnoc(cs: seq<Course>, c: Course, kind: Outcome)
    ensures Ended(cs + [c], kind) == Ended(cs, kind) + if c.kind == kind then 1 else 0
  {
    assert (cs + [c])[..|cs|] == cs;
  }

  lemma {:induction false} EndedAll(cs: seq<Course>)
    ensures Ended(cs, Hit) + Ended(cs, Fill) + Ended(cs, Late) + Ended(cs, Zero) == |cs|
  {
    if cs != [] {
      EndedAll(cs[..|cs| - 1]);
    }
  }

  /** Relief takes only entries that are older than the timeout in force; everything else stays as it is. */
  lemma ReliefKeeps(sc: Scheme, cfg: Config, scan: Store, cs: Cache, k: Key, now: nat, v: Victim, cs': Cache, j: nat, kj: Key)
    requires ConfigOk(cfg) && ReliefStep(sc, cfg, scan, cs, k, now, v, cs')
    requires Holds(sc, cs.st, j, kj) && j < |cs.ts| && now <= cs.ts[j] + cs'.eff
    ensures Holds(sc, cs'.st, j, kj) && |cs'.ts| == |cs.ts| && cs'.ts[j] == cs.ts[j]
  {
    hide StaleFind, UsedCount, Live;
  }

  /** One key through find-or-add keeps every entry stamped with the time of the batch. */
  lemma FindAddKeeps(sc: Scheme, cfg: Config, scan: Store, cs: Cache, k: Key, now: nat, c: Course, cs': Cache, j: nat, kj: Key)
    requires ConfigOk(cfg) && PoolOk(sc, cfg.maxEntries, cs) && PoolOk(sc, cfg.maxEntries, c.mid)
    requires FindAddStep(sc, cfg, scan, cs, k, now, c, cs') && Fresh(sc, cs, j, kj, now)
    ensures Fresh(sc, cs', j, kj, now)
  {
    hide ReliefStep, AddStep, StaleFind, PoolOk;
    if c.kind != Hit {
      ReliefKeeps(sc, cfg, scan, cs, k, now, c.victim, c.mid, j, kj);
      AddKeeps(sc, cfg.maxEntries, c.mid, k, now, c.r, cs', j, kj);
    }
  }

  lemma FindAddGives(sc: Scheme, cfg: Config, scan: Store, cs: Cache, k: Key, now: nat, c: Course, cs': Cache)
    requires ConfigOk(cfg) && PoolOk(sc, cfg.maxEntries, c.mid)
    requires FindAddStep(sc, cfg, scan, cs, k, now, c, cs') && c.r != NIL
    ensures Fresh(sc, cs', c.r, k, now)
  {
    hide ReliefStep, AddStep, PoolOk;
    if c.kind != Hit {
      AddGives(sc, cfg.maxEntries, c.mid, k, now, c.r, cs');
    }
  }

  /**
   * A find-or-add batch, for all its stale scans: at its end every result other than 0 is the live,
   * freshly stamped entry of its key, and equal keys with results share one entry.
   */
  lemma {:induction false} FindAddAnswered(sc: Scheme, cfg: Config, mode: Mode, states: seq<Cache>, keys: seq<Key>, now: nat,
                                           cs: seq<Course>, n: nat)
    requires ConfigOk(cfg) && FindAddChain(sc, cfg, mode, states, keys, now, cs) && n <= |cs|
    ensures Answered(sc, states[n], keys, now, Results(cs)[..n])
  {
    hide FindAddStep, CacheInv, PoolOk, Answered;
    if n == 0 {
      AnsweredNone(sc, states[0], keys, now, Results(cs)[..0]);
    } else {
      FindAddAnswered(sc, cfg, mode, states, keys, now, cs, n - 1);
      var rs := Results(cs);
      assert rs[..n] == rs[..n - 1] + [rs[n - 1]];
      FindAddAnsweredOne(sc, cfg, states[ScanAt(mode, n - 1)].st, states[n - 1], keys, now, rs[..n - 1], cs[n - 1], states[n]);
    }
  }

  lemma FindAddAnsweredOne(sc: Scheme, cfg: Config, scan: Store, cs: Cache, keys: seq<Key>, now: nat, rr: seq<nat>, c: Course, cs': Cache)
    requires ConfigOk(cfg) && CacheInv(sc, cfg.maxEntries, cs) && CacheInv(sc, cfg.maxEntries, cs') && PoolOk(sc, cfg.maxEntries, c.mid)
    requires |rr| < |keys| && Answered(sc, cs, keys, now, rr)
    requires FindAddStep(sc, cfg, scan, cs, keys[|rr|], now, c, cs')
    ensures Answered(sc, cs', keys, now, rr + [c.r])
  {
    CachePool(sc, cfg.maxEntries, cs);
    CachePool(sc, cfg.maxEntries, cs');
    hide CacheInv, PoolOk, KeysUnique, FindAddStep, Fresh;
    forall q | 0 <= q < |rr| && rr[q] != NIL
      ensures Fresh(sc, cs', rr[q], keys[q], now)
    {
      FindAddKeeps(sc, cfg, scan, cs, keys[|rr|], now, c, cs', rr[q], keys[q]);
    }
    if c.r != NIL {
      FindAddGives(sc, cfg, scan, cs, keys[|rr|], now, c, cs');
    }
    AnsweredSnoc(sc, cs', keys, now, rr, c.r);
  }

  /** Fills and refusals are counted one by one, and a result is 0 exactly when it was refused. */
  lemma {:induction false} FindAddTally(sc: Scheme, cfg: Config, mode: Mode, states: seq<Cache>, keys: seq<Key>, now: nat,
                                        cs: seq<Course>, n: nat)
    requires ConfigOk(cfg) && FindAddChain(sc, cfg, mode, states, keys, now, cs) && n <= |cs|
    ensures var s, s' := states[0].stats, states[n].stats;
            && s'.fills == s.fills + Ended(cs[..n], Fill) && s'.fillFull == s.fillFull + Ended(cs[..n], Zero)
            && n - Found(Results(cs)[..n]) == Ended(cs[..n], Zero)
            && s'.lookups == s.lookups && s'.hits == s.hits && s'.misses == s.misses
  {
    hide FindAddStep, CacheInv, PoolOk, Ended, Found;
    if n == 0 {
      BooksNone(cs[..0], Results(cs)[..0]);
    } else {
      FindAddTally(sc, cfg, mode, states, keys, now, cs, n - 1);
      var rs := Results(cs);
      assert cs[..n] == cs[..n - 1] + [cs[n - 1]] && rs[..n] == rs[..n - 1] + [rs[n - 1]];
      FoundSnoc(rs[..n - 1], rs[n - 1]);
      EndedSnoc(cs[..n - 1], cs[n - 1], Fill);
      EndedSnoc(cs[..n - 1], cs[n - 1], Zero);
      BooksOne(sc, cfg, states[ScanAt(mode, n - 1)].st, states[n - 1], keys[n - 1], now, cs[n - 1], states[n]);
    }
  }

  /** The books of a find-or-add batch: the misses are the fills, the refusals and the late duplicates. */
  lemma FindAddBooks(sc: Scheme, cfg: Config, mode: Mode, states: seq<Cache>, keys: seq<Key>, now: nat, cs: seq<Course>, n: nat)
    requires ConfigOk(cfg) && FindAddChain(sc, cfg, mode, states, keys, now, cs) && n <= |cs|
    ensures var s, s' := states[0].stats, states[n].stats;
            && n - Ended(cs[..n], Hit) == (s'.fills - s.fills) + (s'.fillFull - s.fillFull) + Ended(cs[..n], Late)
            && s'.fillFull - s.fillFull == n - Found(Results(cs)[..n]) == Ended(cs[..n], Zero)
            && s'.lookups == s.lookups && s'.hits == s.hits && s'.misses == s.misses
  {
    hide FindAddChain, Ended, Found;
    FindAddTally(sc, cfg, mode, states, keys, now, cs, n);
    EndedAll(cs[..n]);
  }

  lemma BooksNone(cs: seq<Course>, rs: seq<nat>)
    requires cs == [] && rs == []
    ensures forall kind :: Ended(cs, kind) == 0
    ensures Found(rs) == 0
  {
  }

  lemma BooksOne(sc: Scheme, cfg: Config, scan: Store, cs: Cache, k: Key, now: nat, c: Course, cs': Cache)
    requires ConfigOk(cfg) && FindAddStep(sc, cfg, scan, cs, k, now, c, cs')
    ensures c.r == NIL <==> c.kind == Zero
    ensures cs'.stats.fills == cs.stats.fills + if c.kind == Fill then 1 else 0
    ensures cs'.stats.fillFull == cs.stats.fillFull + if c.kind == Zero then 1 else 0
    ensures cs'.stats.lookups == cs.stats.lookups && cs'.stats.hits == cs.stats.hits && cs'.stats.misses == cs.stats.misses
  {
    hide StaleFind, Entered, Unentered, NoneExpired, Evicted, Blocked;
  }

  // ------------------------------------------------------------ stale scans

  /** A scan of the present state gives an exact answer. */
  lemma FreshScanExact(sc: Scheme, cs: Cache, k: Key, r: nat)
    requires sc.Lawful() && Inv(sc, cs.st) && StaleFind(sc, cs.st, cs, k, r)
    ensures Answers(sc, cs.st, k, r)
  {
    forall j: nat | Stored(sc, cs.st, j) && cs.st.n[j].key == k
      ensures Seen(sc, cs.st, cs.st, k, j)
    {
      StoredLaws(sc, cs.st, j);
    }
  }

  /** A stale scan overlooks a stored key only if its entry was not in its present slot when the scan was made. */
  lemma OverlookedMoved(sc: Scheme, scan: Store, cs: Cache, k: Key, j: nat)
    requires sc.Lawful() && Inv(sc, scan) && Inv(sc, cs.st) && StaleFind(sc, scan, cs, k, NIL) && Holds(sc, cs.st, j, k)
    ensures sc.bucket(cs.st.n[j].hashField) == sc.B0(k)
    ensures !(Holds(sc, scan, j, k) && sc.bucket(scan.n[j].hashField) == sc.bucket(cs.st.n[j].hashField)
              && scan.n[j].slotField == cs.st.n[j].slotField)
  {
    StoredLaws(sc, cs.st, j);
    if Holds(sc, scan, j, k) {
      StoredLaws(sc, scan, j);
    }
  }

  /**
   * A key that is stored when its turn comes gets 0 exactly when the stale scan overlooks it, no cell is
   * free and relief has nobody to evict. All three can be told before the call.
   */
  lemma StoredKeyGetsZero(sc: Scheme, cfg: Config, scan: Store, cs: Cache, k: Key, now: nat, c: Course, cs': Cache, j: nat)
    requires ConfigOk(cfg) && CacheInv(sc, cfg.maxEntries, cs) && FindAddStep(sc, cfg, scan, cs, k, now, c, cs')
    requires Holds(sc, cs.st, j, k)
    ensures c.r == NIL <==> !Seen(sc, scan, cs.st, k, j) && cs.free == [] && ReliefIdle(sc, cfg, scan, cs, k, now)
  {
    CachePool(sc, cfg.maxEntries, cs);
    if c.kind != Hit {
      ReliefPool(sc, cfg, scan, cs, k, now, c.victim, c.mid);
      ReliefEntry(sc, cfg, scan, cs, k, now, c.victim, c.mid, j);
      ReliefForeseen(sc, cfg, scan, cs, k, now, c.victim, c.mid);
    }
    hide ReliefStep, CacheInv, PoolOk, Full, Jammed, ReliefIdle;
  }

  /** After relief an entry of k is still there, or its going left a free cell and a free slot in a bucket of k. */
  lemma ReliefEntry(sc: Scheme, cfg: Config, scan: Store, cs: Cache, k: Key, now: nat, v: Victim, mid: Cache, j: nat)
    requires ConfigOk(cfg) && PoolOk(sc, cfg.maxEntries, cs) && ReliefStep(sc, cfg, scan, cs, k, now, v, mid) && Holds(sc, cs.st, j, k)
    ensures v == NoVictim ==> mid.free == cs.free && Holds(sc, mid.st, j, k)
    ensures v != NoVictim ==> mid.free != [] && (!Full(mid.st, sc.B0(k)) || !Full(mid.st, sc.B1(k)))
  {
    var c1 := cs.(eff := mid.eff);
    match v
    case NoVictim =>
    case FromFirst(s) => VictimLeavesRoom(sc, c1, sc.B0(k), s, mid);
    case FromSecond(s) => VictimLeavesRoom(sc, c1, sc.B1(k), s, mid);
  }

  lemma VictimLeavesRoom(sc: Scheme, cs: Cache, x: nat, s: nat, cs': Cache)
    requires Inv(sc, cs.st) && x < |cs.st.b| && s < SLOTS && Purged(sc, cs, {cs.st.b[x].idx[s]}, cs')
    ensures cs'.free != [] && !Full(cs'.st, x)
  {
    assert SlotPurged(cs.st, {cs.st.b[x].idx[s]}, cs'.st, x, s);
  }

  // ------------------------------------------------------------ when a stale scan is as good as a fresh one

  /** Relief looks for a victim: the first bucket of k, as state st shows it, is short of room. */
  ghost predicate Tight(sc: Scheme, cfg: Config, st: Store, k: Key, live: nat) {
    Gaps(st, sc.B0(k)) <= ReliefEmptySlots(cfg, live)
  }

  /** The older scan leads to the same step as a scan of the present table: it overlooks no entry of k, or k is new and both show the same pressure. */
  ghost predicate ScanAgrees(sc: Scheme, cfg: Config, scan: Store, cs: Cache, k: Key) {
    if Absent(sc, cs.st, k) then
      cfg.totalSlots == 0 || (Tight(sc, cfg, scan, k, |Live(sc, cs.st)|) <==> Tight(sc, cfg, cs.st, k, |Live(sc, cs.st)|))
    else
      forall j: nat :: Holds(sc, cs.st, j, k) ==> Seen(sc, scan, cs.st, k, j)
  }

  /** A step with a stale scan is a step with a fresh one exactly when the scan agrees. */
  lemma StaleIsFresh(sc: Scheme, cfg: Config, scan: Store, cs: Cache, k: Key, now: nat, c: Course, cs': Cache)
    requires ConfigOk(cfg) && CacheInv(sc, cfg.maxEntries, cs) && FindAddStep(sc, cfg, scan, cs, k, now, c, cs')
    ensures FindAddStep(sc, cfg, cs.st, cs, k, now, c, cs') <==> ScanAgrees(sc, cfg, scan, cs, k)
  {
    CachePool(sc, cfg.maxEntries, cs);
    SeenNow(sc, cs, k);
    if c.kind != Hit {
      ReliefAgrees(sc, cfg, scan, cs, k, now, c.victim, c.mid);
    }
    hide ReliefStep, AddStep, CacheInv, PoolOk, Seen, Tight, Stored;
    if !Absent(sc, cs.st, k) {
      var j: nat :| Stored(sc, cs.st, j) && cs.st.n[j].key == k;
      assert Holds(sc, cs.st, j, k);
      assert forall i: nat :: Holds(sc, cs.st, i, k) ==> i == j;
    }
  }

  lemma SeenNow(sc: Scheme, cs: Cache, k: Key)
    requires sc.Lawful() && Inv(sc, cs.st)
    ensures forall j: nat :: Holds(sc, cs.st, j, k) ==> Seen(sc, cs.st, cs.st, k, j)
  {
    forall j: nat | Holds(sc, cs.st, j, k)
      ensures Seen(sc, cs.st, cs.st, k, j)
    {
      StoredLaws(sc, cs.st, j);
    }
  }

  lemma ReliefAgrees(sc: Scheme, cfg: Config, scan: Store, cs: Cache, k: Key, now: nat, v: Victim, mid: Cache)
    requires ConfigOk(cfg) && ReliefStep(sc, cfg, scan, cs, k, now, v, mid)
    ensures ReliefStep(sc, cfg, cs.st, cs, k, now, v, mid) <==>
              cfg.totalSlots == 0 || (Tight(sc, cfg, scan, k, |Live(sc, cs.st)|) <==> Tight(sc, cfg, cs.st, k, |Live(sc, cs.st)|))
  {
    hide Evicted, NoneExpired, Gaps, ReliefEmptySlots, EffTimeout, Live;
  }

  /** All scans of a pipelined batch agree with the table at the turn of their keys. */
  ghost predicate AllAgree(sc: Scheme, cfg: Config, p: Pace, states: seq<Cache>, keys: seq<Key>, n: nat) {
    n <= |keys| && n <= |states| && forall q :: 0 <= q < n ==> ScanAgrees(sc, cfg, states[ScanPoint(p, q)].st, states[q], keys[q])
  }

  /** A pipelined batch is the same run as one key at a time exactly when the scan of every key agrees. */
  lemma BatchIsFold(sc: Scheme, cfg: Config, p: Pace, states: seq<Cache>, keys: seq<Key>, now: nat, cs: seq<Course>)
    requires ConfigOk(cfg) && FindAddChain(sc, cfg, Piped(p), states, keys, now, cs)
    ensures FindAddChain(sc, cfg, OneByOne, states, keys, now, cs) <==> AllAgree(sc, cfg, p, states, keys, |cs|)
  {
    hide FindAddStep, CacheInv, PoolOk, ScanAgrees, ScanPoint;
    forall q | 0 <= q < |cs|
      ensures FindAddStep(sc, cfg, states[q].st, states[q], keys[q], now, cs[q], states[q + 1])
         <==> ScanAgrees(sc, cfg, states[ScanPoint(p, q)].st, states[q], keys[q])
    {
      ChainStep(sc, cfg, Piped(p), states, keys, now, cs, q);
      StaleIsFresh(sc, cfg, states[ScanPoint(p, q)].st, states[q], keys[q], now, cs[q], states[q + 1]);
    }
    if FindAddChain(sc, cfg, OneByOne, states, keys, now, cs) {
      forall q | 0 <= q < |cs|
        ensures ScanAgrees(sc, cfg, states[ScanPoint(p, q)].st, states[q], keys[q])
      {
        ChainStep(sc, cfg, OneByOne, states, keys, now, cs, q);
      }
    }
  }

  /** Any two runs of the same find-or-adds with the same scans agree on every course and every state. */
  lemma {:induction false} FindAddUnique(sc: Scheme, cfg: Config, mode: Mode, s1: seq<Cache>, s2: seq<Cache>, keys: seq<Key>, now: nat,
                                         c1: seq<Course>, c2: seq<Course>, n: nat)
    requires ConfigOk(cfg) && FindAddChain(sc, cfg, mode, s1, keys, now, c1) && FindAddChain(sc, cfg, mode, s2, keys, now, c2)
    requires s1[0] == s2[0] && n <= |c1| && n <= |c2|
    ensures c1[..n] == c2[..n] && forall q :: 0 <= q <= n ==> s1[q] == s2[q]
  {
    hide FindAddStep, CacheInv, PoolOk, ScanPoint;
    if n > 0 {
      FindAddUnique(sc, cfg, mode, s1, s2, keys, now, c1, c2, n - 1);
      ChainStep(sc, cfg, mode, s1, keys, now, c1, n - 1);
      ChainStep(sc, cfg, mode, s2, keys, now, c2, n - 1);
      CachePool(sc, cfg.maxEntries, s1[n - 1]);
      FindAddStepUnique(sc, cfg, s1[ScanAt(mode, n - 1)].st, s1[n - 1], keys[n - 1], now,
                        c1[n - 1], s1[n], c2[n - 1], s2[n]);
      assert c1[..n] == c1[..n - 1] + [c1[n - 1]] && c2[..n] == c2[..n - 1] + [c2[n - 1]];
    }
  }

  /** When all scans agree, a pipelined batch has the results and the end state of one key at a time. */
  lemma AgreeingBatch(sc: Scheme, cfg: Config, p: Pace, s1: seq<Cache>, s2: seq<Cache>, keys: seq<Key>, now: nat, c1: seq<Course>, c2: seq<Course>)
    requires ConfigOk(cfg) && FindAddChain(sc, cfg, Piped(p), s1, keys, now, c1) && FindAddChain(sc, cfg, OneByOne, s2, keys, now, c2)
    requires s1[0] == s2[0] && |c1| == |c2| && AllAgree(sc, cfg, p, s1, keys, |c1|)
    ensures Results(c1) == Results(c2) && s1[|c1|] == s2[|c2|]
  {
    BatchIsFold(sc, cfg, p, s1, keys, now, c1);
    FindAddUnique(sc, cfg, OneByOne, s1, s2, keys, now, c1, c2, |c1|);
    assert c1[..|c1|] == c1 && c2[..|c1|] == c2;
    hide FindAddChain, AllAgree;
  }

  lemma ChainStep(sc: Scheme, cfg: Config, mode: Mode, states: seq<Cache>, keys: seq<Key>, now: nat, cs: seq<Course>, q: nat)
    requires ConfigOk(cfg) && FindAddChain(sc, cfg, mode, states, keys, now, cs) && q < |cs|
    ensures var scan := states[ScanAt(mode, q)].st;
            FindAddStep(sc, cfg, scan, states[q], keys[q], now, cs[q], states[q + 1])
  {
    hide FindAddStep, CacheInv, PoolOk;
  }

  /** A batch uses up at most one free cell per key. */
  lemma {:induction false} FreeShrinks(sc: Scheme, cfg: Config, mode: Mode, states: seq<Cache>, keys: seq<Key>, now: nat,
                                       cs: seq<Course>, n: nat)
    requires ConfigOk(cfg) && FindAddChain(sc, cfg, mode, states, keys, now, cs) && n <= |cs|
    ensures |states[0].free| <= |states[n].free| + n
  {
    hide FindAddStep, CacheInv, PoolOk;
    if n > 0 {
      FreeShrinks(sc, cfg, mode, states, keys, now, cs, n - 1);
      FreeAfter(sc, cfg, states[ScanAt(mode, n - 1)].st, states[n - 1], keys[n - 1], now, cs[n - 1], states[n]);
    }
  }

  lemma FreeAfter(sc: Scheme, cfg: Config, scan: Store, cs: Cache, k: Key, now: nat, c: Course, cs': Cache)
    requires ConfigOk(cfg) && FindAddStep(sc, cfg, scan, cs, k, now, c, cs')
    ensures |cs.free| <= |cs'.free| + 1 && (c.kind != Hit ==> |cs.free| <= |c.mid.free|)
  {
    hide StaleFind, NoneExpired, Oldest, Blocked, Absent;
  }

  /** With a free cell for every key of the batch, a result is 0 exactly for a new key with two blocked buckets. */
  lemma EnoughFree(sc: Scheme, cfg: Config, mode: Mode, states: seq<Cache>, keys: seq<Key>, now: nat, cs: seq<Course>, q: nat)
    requires ConfigOk(cfg) && FindAddChain(sc, cfg, mode, states, keys, now, cs)
    requires |cs| <= |states[0].free| && q < |cs|
    ensures cs[q].r == NIL <==>
              && cs[q].kind != Hit && Absent(sc, cs[q].mid.st, keys[q])
              && Blocked(sc, cs[q].mid.st, sc.B0(keys[q])) && Blocked(sc, cs[q].mid.st, sc.B1(keys[q]))
  {
    FreeShrinks(sc, cfg, mode, states, keys, now, cs, q);
    var scan := states[ScanAt(mode, q)].st;
    assert FindAddStep(sc, cfg, scan, states[q], keys[q], now, cs[q], states[q + 1]);
    FreeAfter(sc, cfg, scan, states[q], keys[q], now, cs[q], states[q + 1]);
    hide ReliefStep, StaleFind, CacheInv, PoolOk, Blocked;
  }

  // ------------------------------------------------------------ a batch is not one key at a time

  /** In an empty table nothing is found, nothing is evicted, and a free cell is entered in the first bucket. */
  lemma FirstIntoEmpty(sc: Scheme, cfg: Config, scan: Store, cs: Cache, k: Key, now: nat, c: Course, cs': Cache)
    requires ConfigOk(cfg) && CacheInv(sc, cfg.maxEntries, cs) && PoolOk(sc, cfg.maxEntries, c.mid)
    requires FindAddStep(sc, cfg, scan, cs, k, now, c, cs')
    requires (forall j: nat :: !Stored(sc, cs.st, j)) && cs.free == [1]
    ensures c.r == 1 && cs'.free == [] && Fresh(sc, cs', 1, k, now)
    ensures (forall j: nat :: Stored(sc, cs'.st, j) <==> j == 1) && sc.bucket(cs'.st.n[1].hashField) == sc.B0(k)
  {
    CachePool(sc, cfg.maxEntries, cs);
    NothingToEvict(sc, cfg, scan, cs, k, now, c.victim, c.mid);
    assert sc.B0(k) < sc.nbBk;
    EmptyBucket(sc, c.mid, cfg.maxEntries, sc.B0(k));
    assert c.kind != Hit && !Full(c.mid.st, sc.B0(k));
    assert Absent(sc, c.mid.st, k) && !Blocked(sc, c.mid.st, sc.B0(k));
    hide ReliefStep, CacheInv, PoolOk, StaleFind;
    assert Entered(sc, c.mid, k, now, cs');
    forall j: nat
      ensures Stored(sc, cs'.st, j) <==> j == 1
    {
      assert !Stored(sc, c.mid.st, j);
    }
  }

  lemma EmptyBucket(sc: Scheme, cs: Cache, max: nat, x: nat)
    requires PoolOk(sc, max, cs) && x < sc.nbBk && forall j: nat :: !Stored(sc, cs.st, j)
    ensures !Full(cs.st, x) && forall s :: 0 <= s < SLOTS ==> cs.st.b[x].idx[s] == NIL && cs.st.b[x].hash[s] == 0
  {
    forall s | 0 <= s < SLOTS
      ensures cs.st.b[x].idx[s] == NIL && cs.st.b[x].hash[s] == 0
    {
      assert SlotOk(sc, cs.st, x, s);
      if cs.st.b[x].idx[s] != NIL {
        SlotLaws(sc, cs.st, x, s);
      }
    }
    assert cs.st.b[x].idx[0] == NIL;
  }

  /** Without an entry that is older than now, relief finds no victim. */
  lemma NothingToEvict(sc: Scheme, cfg: Config, scan: Store, cs: Cache, k: Key, now: nat, v: Victim, cs': Cache)
    requires ConfigOk(cfg) && CacheInv(sc, cfg.maxEntries, cs) && ReliefStep(sc, cfg, scan, cs, k, now, v, cs')
    requires forall j: nat :: Stored(sc, cs.st, j) && j < |cs.ts| ==> now <= cs.ts[j]
    ensures v == NoVictim && cs'.st == cs.st && cs'.free == cs.free && cs'.ts == cs.ts
  {
    forall x: nat, s: nat, before: nat | before <= now && s < SLOTS && x < |cs.st.b| && ExpiredAt(cs, x, s, before)
      ensures false
    {
      SlotLaws(sc, cs.st, x, s);
    }
    var c1 := cs.(eff := cs'.eff);
    assert forall x: nat, s: nat, before: nat :: ExpiredAt(c1, x, s, before) <==> ExpiredAt(cs, x, s, before);
    hide UsedCount, Live, CacheInv;
  }

  /** The same key twice in one batch, one free cell, an empty table: the pipeline scanned for the second key before the first was entered. */
  lemma PairInOneBatch(sc: Scheme, cfg: Config, p: Pace, k: Key, now: nat, states: seq<Cache>, cs: seq<Course>)
    requires ConfigOk(cfg) && |cs| == 2 && FindAddChain(sc, cfg, Piped(p), states, [k, k], now, cs)
    requires states[0].free == [1] && ScanPoint(p, 1) == 0 && forall j: nat :: !Stored(sc, states[0].st, j)
    ensures Results(cs) == [1, 0]
  {
    hide CacheInv, PoolOk, FindAddStep;
    ChainStep(sc, cfg, Piped(p), states, [k, k], now, cs, 0);
    ChainStep(sc, cfg, Piped(p), states, [k, k], now, cs, 1);
    FirstIntoEmpty(sc, cfg, states[0].st, states[0], k, now, cs[0], states[1]);
    SecondStale(sc, cfg, states[0], states[1], k, now, cs[1], states[2]);
  }

  /** One key at a time the second lookup finds what the first one entered. */
  lemma PairOneAtATime(sc: Scheme, cfg: Config, k: Key, now: nat, states: seq<Cache>, cs: seq<Course>)
    requires ConfigOk(cfg) && |cs| == 2 && FindAddChain(sc, cfg, OneByOne, states, [k, k], now, cs)
    requires states[0].free == [1] && forall j: nat :: !Stored(sc, states[0].st, j)
    ensures Results(cs) == [1, 1]
  {
    hide CacheInv, PoolOk, FindAddStep;
    ChainStep(sc, cfg, OneByOne, states, [k, k], now, cs, 0);
    ChainStep(sc, cfg, OneByOne, states, [k, k], now, cs, 1);
    FirstIntoEmpty(sc, cfg, states[0].st, states[0], k, now, cs[0], states[1]);
    SecondFresh(sc, cfg, states[1], k, now, cs[1], states[2]);
  }

  lemma SecondStale(sc: Scheme, cfg: Config, empty: Cache, cs: Cache, k: Key, now: nat, c: Course, cs': Cache)
    requires ConfigOk(cfg) && CacheInv(sc, cfg.maxEntries, empty) && CacheInv(sc, cfg.maxEntries, cs)
    requires FindAddStep(sc, cfg, empty.st, cs, k, now, c, cs')
    requires (forall j: nat :: !Stored(sc, empty.st, j)) && cs.free == []
    requires Fresh(sc, cs, 1, k, now) && (forall j: nat :: Stored(sc, cs.st, j) <==> j == 1)
    requires sc.bucket(cs.st.n[1].hashField) == sc.B0(k)
    ensures c.r == NIL
  {
    CachePool(sc, cfg.maxEntries, empty);
    CachePool(sc, cfg.maxEntries, cs);
    EmptyBucket(sc, empty, cfg.maxEntries, sc.B0(k));
    assert sc.KeyLaws(k);
    assert !Seen(sc, empty.st, cs.st, k, 1);
    if c.kind != Hit {
      NothingToEvict(sc, cfg, empty.st, cs, k, now, c.victim, c.mid);
    }
    hide ReliefStep, CacheInv, PoolOk;
  }

  lemma SecondFresh(sc: Scheme, cfg: Config, cs: Cache, k: Key, now: nat, c: Course, cs': Cache)
    requires ConfigOk(cfg) && CacheInv(sc, cfg.maxEntries, cs)
    requires FindAddStep(sc, cfg, cs.st, cs, k, now, c, cs')
    requires Holds(sc, cs.st, 1, k) && forall j: nat :: Stored(sc, cs.st, j) <==> j == 1
    ensures c.r == 1
  {
    CachePool(sc, cfg.maxEntries, cs);
    FreshScanExact(sc, cs, k, if c.kind == Hit then c.r else NIL);
    hide ReliefStep, CacheInv, PoolOk;
  }
}
