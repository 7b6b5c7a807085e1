/** What the single-key operations do to the cache value. */
module FlowSteps {
  import opened HashScheme
  import opened SlotStore
  import opened SlotKick
  import opened FlowState
  import opened FlowTimeout

  ghost predicate Absent(sc: Scheme, st: Store, k: Key) {
    forall i: nat :: Stored(sc, st, i) ==> st.n[i].key != k
  }

  ghost predicate Holds(sc: Scheme, st: Store, i: nat, k: Key) {
    Stored(sc, st, i) && st.n[i].key == k
  }

  // ------------------------------------------------------------ add

  /** The free cell e with key k written into it. */
  ghost function Keyed(st: Store, e: nat, k: Key): Store
    requires e < |st.n|
  {
    st.(n := st.n[e := st.n[e].(key := k)])
  }

  /** The first free cell became the entry of key k; others may have been moved but not changed. */
  ghost predicate Entered(sc: Scheme, cs: Cache, k: Key, now: nat, cs': Cache) {
    && cs.free != [] && cs.free[0] < |cs.ts| && cs.free[0] < |cs.st.n| == |cs'.st.n| && |cs'.st.b| == |cs.st.b|
    && var e := cs.free[0];
    && cs'.st.n[e].key == k
    && (forall i :: 0 <= i < |cs.st.n| && i != e ==> cs'.st.n[i].key == cs.st.n[i].key)
    && (forall j: nat :: Stored(sc, cs'.st, j) <==> Stored(sc, cs.st, j) || j == e)
    && (!Full(cs.st, sc.B0(k)) ==> sc.bucket(cs'.st.n[e].hashField) == sc.B0(k))
    && cs'.ts == cs.ts[e := now] && cs'.free == cs.free[1..] && cs'.eff == cs.eff && cs'.removed == cs.removed
    && Inv(sc, cs'.st)
  }

  /** Only the scratch fields of the first free cell may differ. */
  ghost predicate Unentered(sc: Scheme, cs: Cache, cs': Cache) {
    && cs.free != [] && |cs'.st.n| == |cs.st.n| && cs'.st.b == cs.st.b
    && (forall i :: 0 <= i < |cs.st.n| && i != cs.free[0] ==> cs'.st.n[i] == cs.st.n[i])
    && (forall j: nat :: Stored(sc, cs'.st, j) <==> Stored(sc, cs.st, j))
    && cs'.free == cs.free && cs'.eff == cs.eff && cs'.removed == cs.removed && Inv(sc, cs'.st)
  }

  /** What the insert of the first free cell under key k returns and leaves behind; 0 stands for a refusal, the cell for success. */
  ghost predicate ByInsert(sc: Scheme, cs: Cache, k: Key, r: nat, st': Store) {
    && cs.free != [] && cs.free[0] < |cs.st.n|
    && var e := cs.free[0];
       var ins := InsertOf(sc, Keyed(cs.st, e, k), e);
       st' == ins.st && r == if ins.r == NIL then e else if ins.r == e then NIL else ins.r
  }

  /**
   * Allocating an entry for k and inserting it: nothing free means 0 even if k is stored; a stored k
   * is refreshed; otherwise the cell is entered, unless both candidate buckets are blocked: then 0 comes back.
   */
  ghost predicate AddStep(sc: Scheme, cs: Cache, k: Key, now: nat, r: nat, cs': Cache) {
    if cs.free == [] then
      r == NIL && cs' == cs.(stats := cs.stats.(fillFull := cs.stats.fillFull + 1))
    else if !Absent(sc, cs.st, k) then
      && Holds(sc, cs.st, r, k) && r < |cs.ts|
      && Unentered(sc, cs, cs') && cs'.ts == cs.ts[r := now] && cs'.stats == cs.stats && ByInsert(sc, cs, k, r, cs'.st)
    else if Blocked(sc, cs.st, sc.B0(k)) && Blocked(sc, cs.st, sc.B1(k)) then
      && r == NIL && Unentered(sc, cs, cs') && cs'.ts == cs.ts && cs'.stats == cs.stats.(fillFull := cs.stats.fillFull + 1)
      && ByInsert(sc, cs, k, r, cs'.st)
    else
      && r == cs.free[0] != NIL && ByInsert(sc, cs, k, r, cs'.st) && Entered(sc, cs, k, now, cs') && cs'.stats == cs.stats.(fills := cs.stats.fills + 1)
  }

  lemma FreeCell(sc: Scheme, max: nat, cs: Cache)
    requires PoolOk(sc, max, cs) && cs.free != []
    ensures 1 <= cs.free[0] <= max && !Stored(sc, cs.st, cs.free[0]) && cs.ts[cs.free[0]] == 0
    ensures cs.free[0] !in cs.free[1..] && FreeListOk(cs.free[1..], max)
    ensures [cs.free[0]] + cs.free[1..] == cs.free
  {
    assert cs.free[0] in cs.free;
    assert Placed(sc, cs, cs.free[0]);
  }

  /** Writing the key of a free cell does not touch the table. */
  lemma KeyedInv(sc: Scheme, max: nat, cs: Cache, k: Key)
    requires PoolOk(sc, max, cs) && cs.free != []
    ensures cs.free[0] < |cs.st.n| && Inv(sc, Keyed(cs.st, cs.free[0], k))
    ensures !Stored(sc, Keyed(cs.st, cs.free[0], k), cs.free[0])
    ensures forall j: nat :: Stored(sc, Keyed(cs.st, cs.free[0], k), j) <==> Stored(sc, cs.st, j)
  {
    FreeCell(sc, max, cs);
    OutsideInv(sc, cs.st, cs.free[0], cs.st.n[cs.free[0]].(key := k));
  }

  /** Writing a timestamp onto stored entries only keeps the pool in order. */
  lemma Stamped(sc: Scheme, max: nat, cs: Cache, st': Store, i: nat, now: nat, cs': Cache)
    requires PoolOk(sc, max, cs) && Inv(sc, st') && |st'.n| == |cs.st.n| && Stored(sc, cs.st, i) && i < |cs.ts| && 0 < now
    requires forall j: nat :: Stored(sc, st', j) <==> Stored(sc, cs.st, j)
    requires cs'.st == st' && cs'.ts == cs.ts[i := now] && cs'.free == cs.free
    ensures PoolOk(sc, max, cs')
  {
    forall j | 1 <= j <= max
      ensures Placed(sc, cs', j)
    {
      assert Placed(sc, cs, j);
    }
  }

  lemma Unstamped(sc: Scheme, max: nat, cs: Cache, st': Store, cs': Cache)
    requires PoolOk(sc, max, cs) && Inv(sc, st') && |st'.n| == |cs.st.n|
    requires forall j: nat :: Stored(sc, st', j) <==> Stored(sc, cs.st, j)
    requires cs'.st == st' && cs'.ts == cs.ts && cs'.free == cs.free
    ensures PoolOk(sc, max, cs')
  {
    forall j | 1 <= j <= max
      ensures Placed(sc, cs', j)
    {
      assert Placed(sc, cs, j);
    }
  }

  lemma AddEntered(sc: Scheme, max: nat, cs: Cache, k: Key, now: nat, cs': Cache)
    requires PoolOk(sc, max, cs) && cs.free != [] && 0 < now && Inv(sc, cs'.st) && cs.free[0] < |cs.st.n|
    requires Inserted(sc, Keyed(cs.st, cs.free[0], k), cs.free[0], NIL, cs'.st) && ByInsert(sc, cs, k, cs.free[0], cs'.st)
    requires cs'.ts == cs.ts[cs.free[0] := now] && cs'.free == cs.free[1..] && cs'.eff == cs.eff && cs'.removed == cs.removed
    requires cs'.stats == cs.stats.(fills := cs.stats.fills + 1)
    ensures PoolOk(sc, max, cs') && AddStep(sc, cs, k, now, cs.free[0], cs')
  {
    hide InsertOf;
    var e := cs.free[0];
    FreeCell(sc, max, cs);
    KeyedInv(sc, max, cs, k);
    KeyedFresh(sc, cs.st, e, k);
    KeyedBlocked(sc, max, cs, k, sc.B0(k));
    KeyedBlocked(sc, max, cs, k, sc.B1(k));
    hide Blocked;
    forall j | 1 <= j <= max
      ensures Placed(sc, cs', j)
    {
      assert Placed(sc, cs, j);
      assert j in cs.free <==> j == e || j in cs.free[1..];
    }
  }

  lemma KeyedFresh(sc: Scheme, st: Store, e: nat, k: Key)
    requires e < |st.n| && !Stored(sc, st, e)
    requires forall j: nat :: Stored(sc, Keyed(st, e, k), j) <==> Stored(sc, st, j)
    ensures (forall i: nat :: Stored(sc, Keyed(st, e, k), i) ==> Keyed(st, e, k).n[i].key != k) <==> Absent(sc, st, k)
  {
    var st1 := Keyed(st, e, k);
    forall i: nat | Stored(sc, st, i)
      ensures Stored(sc, st1, i) && st1.n[i].key == st.n[i].key
    {
    }
  }

  lemma AddRefused(sc: Scheme, max: nat, cs: Cache, k: Key, now: nat, cs': Cache)
    requires PoolOk(sc, max, cs) && cs.free != [] && 0 < now && Inv(sc, cs'.st) && cs.free[0] < |cs.st.n|
    requires Inserted(sc, Keyed(cs.st, cs.free[0], k), cs.free[0], cs.free[0], cs'.st) && ByInsert(sc, cs, k, NIL, cs'.st)
    requires cs'.ts == cs.ts && cs'.free == cs.free && cs'.eff == cs.eff && cs'.removed == cs.removed
    requires cs'.stats == cs.stats.(fillFull := cs.stats.fillFull + 1)
    ensures PoolOk(sc, max, cs') && AddStep(sc, cs, k, now, NIL, cs')
  {
    hide InsertOf;
    FreeCell(sc, max, cs);
    KeyedInv(sc, max, cs, k);
    KeyedFresh(sc, cs.st, cs.free[0], k);
    Unstamped(sc, max, cs, cs'.st, cs');
    KeyedBlocked(sc, max, cs, k, sc.B0(k));
    KeyedBlocked(sc, max, cs, k, sc.B1(k));
  }

  /** Writing a key into a free cell neither blocks a bucket nor frees one. */
  lemma KeyedBlocked(sc: Scheme, max: nat, cs: Cache, k: Key, x: nat)
    requires PoolOk(sc, max, cs) && cs.free != [] && cs.free[0] < |cs.st.n|
    ensures Blocked(sc, Keyed(cs.st, cs.free[0], k), x) <==> Blocked(sc, cs.st, x)
  {
    var st1 := Keyed(cs.st, cs.free[0], k);
    FreeCell(sc, max, cs);
    forall y, s | 0 <= y < |cs.st.b| && 0 <= s < |cs.st.b[y].idx| && NIL < cs.st.b[y].idx[s] < |cs.st.n|
      ensures st1.n[cs.st.b[y].idx[s]].key == cs.st.n[cs.st.b[y].idx[s]].key
    {
      SlotLaws(sc, cs.st, y, s);
    }
    RoomSame(sc, cs.st, st1, x, 4);
  }

  lemma AddDuplicate(sc: Scheme, max: nat, cs: Cache, k: Key, now: nat, r: nat, cs': Cache)
    requires PoolOk(sc, max, cs) && cs.free != [] && 0 < now && Inv(sc, cs'.st) && cs.free[0] < |cs.st.n|
    requires ByInsert(sc, cs, k, r, cs'.st)
    requires r != NIL && r != cs.free[0] && Inserted(sc, Keyed(cs.st, cs.free[0], k), cs.free[0], r, cs'.st)
    requires r < |cs.ts| && cs'.ts == cs.ts[r := now] && cs'.free == cs.free && cs'.eff == cs.eff && cs'.removed == cs.removed
    requires cs'.stats == cs.stats
    ensures PoolOk(sc, max, cs') && AddStep(sc, cs, k, now, r, cs')
  {
    hide InsertOf;
    FreeCell(sc, max, cs);
    KeyedInv(sc, max, cs, k);
    KeyedFresh(sc, cs.st, cs.free[0], k);
    assert Holds(sc, cs.st, r, k);
    Stamped(sc, max, cs, cs'.st, r, now, cs');
  }

  lemma AddNothingFree(sc: Scheme, max: nat, cs: Cache, k: Key, now: nat, cs': Cache)
    requires PoolOk(sc, max, cs) && cs.free == [] && cs' == cs.(stats := cs.stats.(fillFull := cs.stats.fillFull + 1))
    ensures PoolOk(sc, max, cs') && AddStep(sc, cs, k, now, NIL, cs')
  {
    Unstamped(sc, max, cs, cs.st, cs');
  }

  /** The result of an add and the state after it are determined by the state before. */
  lemma AddStepUnique(sc: Scheme, cs: Cache, k: Key, now: nat, r1: nat, c1: Cache, r2: nat, c2: Cache)
    requires AddStep(sc, cs, k, now, r1, c1) && AddStep(sc, cs, k, now, r2, c2)
    ensures r1 == r2 && c1 == c2
  {
    hide Blocked, Absent, Holds, InsertOf, Inv, Full, Stored;
  }

  lemma AddMoves(sc: Scheme, cs: Cache, k: Key, now: nat, r: nat, cs': Cache)
    requires AddStep(sc, cs, k, now, r, cs') && cs.free != []
    ensures cs'.removed == cs.removed
    ensures if !Absent(sc, cs.st, k) || r == NIL then forall j: nat :: Stored(sc, cs'.st, j) <==> Stored(sc, cs.st, j)
            else r == cs.free[0] && forall j: nat :: Stored(sc, cs'.st, j) <==> Stored(sc, cs.st, j) || j == r
  {
    hide Stored, Blocked, Absent, Holds;
  }

  /** The counters still balance after an add. */
  lemma AddCounted(sc: Scheme, max: nat, cs: Cache, k: Key, now: nat, r: nat, cs': Cache)
    requires PoolOk(sc, max, cs) && Counted(sc, cs) && AddStep(sc, cs, k, now, r, cs')
    ensures Counted(sc, cs')
  {
    hide Inv, PoolOk, Blocked, Stored, Live, Holds, Entered, Unentered;
    if cs.free != [] {
      FreeCell(sc, max, cs);
      AddMoves(sc, cs, k, now, r, cs');
      if !Absent(sc, cs.st, k) || r == NIL {
        LiveSame(sc, cs.st, cs'.st);
      } else {
        LiveAdd(sc, cs.st, cs'.st, r);
      }
    }
  }

  // ------------------------------------------------------------ find

  /** A lookup of k: an exact answer; a hit is stamped unless now is 0. */
  ghost predicate FindStep(sc: Scheme, cs: Cache, k: Key, now: nat, r: nat, cs': Cache) {
    && (if r == NIL then Absent(sc, cs.st, k) else Holds(sc, cs.st, r, k))
    && cs' == if r != NIL && now != 0 && r < |cs.ts| then cs.(ts := cs.ts[r := now]) else cs
  }

  /** The last stage of a lookup whose first bucket was scanned in the older state scan looks at entry j. */
  ghost predicate Seen(sc: Scheme, scan: Store, st: Store, k: Key, j: nat) {
    && j < |st.n|
    && (sc.bucket(st.n[j].hashField) == sc.B1(k)
        || (sc.B0(k) < |scan.b| && st.n[j].slotField < |scan.b[sc.B0(k)].hash|
            && scan.b[sc.B0(k)].hash[st.n[j].slotField] == sc.Fp(k)))
  }

  /** A lookup with a stale scan: it finds k exactly when the entry of k is among those it looks at. */
  ghost predicate StaleFind(sc: Scheme, scan: Store, cs: Cache, k: Key, r: nat) {
    if r == NIL then forall j: nat :: Holds(sc, cs.st, j, k) ==> !Seen(sc, scan, cs.st, k, j)
    else Holds(sc, cs.st, r, k) && Seen(sc, scan, cs.st, k, r)
  }

  // ------------------------------------------------------------ relief

  /** The number of free slots of bucket x. */
  ghost function Gaps(st: Store, x: nat): int {
    if x < |st.b| then |st.b[x].idx| - UsedCount(st.b[x].idx) else 0
  }

  ghost predicate NoneExpired(cs: Cache, x: nat, before: nat) {
    forall s :: 0 <= s < SLOTS ==> !ExpiredAt(cs, x, s, before)
  }

  /** Which candidate bucket lost its oldest expired entry to make room. */
  datatype Victim = NoVictim | FromFirst(slot: nat) | FromSecond(slot: nat)

  /**
   * Pressure relief before an insert of k. Whether the first bucket is short of room is read off the
   * older scan, the second bucket is counted afresh.
   */
  ghost predicate ReliefStep(sc: Scheme, cfg: Config, scan: Store, cs: Cache, k: Key, now: nat, v: Victim, cs': Cache)
    requires ConfigOk(cfg)
  {
    var live := |Live(sc, cs.st)|;
    var want := ReliefEmptySlots(cfg, live);
    var tight0, tight1 := Gaps(scan, sc.B0(k)) <= want, Gaps(cs.st, sc.B1(k)) <= want;
    if cfg.totalSlots == 0 then
      v == NoVictim && cs' == cs
    else
      var c1 := if tight0 then cs.(eff := EffTimeout(cfg, live)) else cs;
      var before := ExpireBefore(now, c1.eff);
      && cs'.stats == cs.stats.(reliefCalls := cs.stats.reliefCalls + 1,
                                reliefChecks := cs.stats.reliefChecks + (if tight0 && !v.FromFirst? then 2 else 1),
                                reliefEvictions := cs.stats.reliefEvictions + (if v.NoVictim? then 0 else 1),
                                reliefBk0 := cs.stats.reliefBk0 + (if v.FromFirst? then 1 else 0),
                                reliefBk1 := cs.stats.reliefBk1 + (if v.FromSecond? then 1 else 0))
      && (tight0 && !v.FromFirst? ==> NoneExpired(c1, sc.B0(k), before))
      && match v
         case NoVictim =>
           && cs' == c1.(stats := cs'.stats)
           && (tight0 && tight1 ==> NoneExpired(c1, sc.B1(k), before))
         case FromFirst(s) => tight0 && Evicted(sc, c1, sc.B0(k), s, before, cs')
         case FromSecond(s) => tight0 && tight1 && Evicted(sc, c1, sc.B1(k), s, before, cs')
  }

  /** The oldest expired entry of bucket x sat in slot s and is gone. */
  ghost predicate Evicted(sc: Scheme, cs: Cache, x: nat, s: nat, before: nat, cs': Cache) {
    Oldest(cs, x, s, before) && Purged(sc, cs, {cs.st.b[x].idx[s]}, cs')
  }

  lemma EvictedBase(sc: Scheme, cs: Cache, cs1: Cache, x: nat, s: nat, before: nat, cs': Cache, c2: Cache)
    requires cs1 == cs.(stats := cs1.stats) && c2 == cs'.(stats := c2.stats)
    ensures Evicted(sc, cs1, x, s, before, cs') ==> Evicted(sc, cs, x, s, before, c2)
    ensures NoneExpired(cs1, x, before) ==> NoneExpired(cs, x, before)
  {
    assert forall t: nat :: ExpiredAt(cs1, x, t, before) <==> ExpiredAt(cs, x, t, before);
  }

  lemma ReliefCounted(sc: Scheme, cfg: Config, scan: Store, cs: Cache, k: Key, now: nat, v: Victim, cs': Cache)
    requires ConfigOk(cfg) && Counted(sc, cs) && ReliefStep(sc, cfg, scan, cs, k, now, v, cs')
    ensures Counted(sc, cs') && cs'.removed == cs.removed
  {
    var c1 := cs.(eff := cs'.eff);
    match v
    case NoVictim =>
    case FromFirst(s) => PurgedOne(sc, cs, cs', sc.B0(k), s);
    case FromSecond(s) => PurgedOne(sc, cs, cs', sc.B1(k), s);
  }

  lemma PurgedOne(sc: Scheme, cs: Cache, cs': Cache, x: nat, s: nat)
    requires x < |cs.st.b| && s < |cs.st.b[x].idx|
    requires Purged(sc, cs.(eff := cs'.eff), {cs.st.b[x].idx[s]}, cs')
    ensures |Live(sc, cs'.st)| == |Live(sc, cs.st)| - 1
  {
    PurgedCount(sc, cs.(eff := cs'.eff), {cs.st.b[x].idx[s]}, cs');
  }

  /** Relief keeps every pool entry in exactly one place. */
  lemma ReliefPool(sc: Scheme, cfg: Config, scan: Store, cs: Cache, k: Key, now: nat, v: Victim, cs': Cache)
    requires ConfigOk(cfg) && PoolOk(sc, cfg.maxEntries, cs)
    requires ReliefStep(sc, cfg, scan, cs, k, now, v, cs')
    ensures PoolOk(sc, cfg.maxEntries, cs')
  {
    var c1 := cs.(eff := cs'.eff);
    Unstamped(sc, cfg.maxEntries, cs, cs.st, c1);
    match v
    case NoVictim => Unstamped(sc, cfg.maxEntries, cs, cs.st, cs');
    case FromFirst(s) => PurgedPool(sc, cfg.maxEntries, c1, {cs.st.b[sc.B0(k)].idx[s]}, cs');
    case FromSecond(s) => PurgedPool(sc, cfg.maxEntries, c1, {cs.st.b[sc.B1(k)].idx[s]}, cs');
  }

  // ------------------------------------------------------------ find, add on a miss

  datatype Outcome = Hit | Fill | Late | Zero

  /** The course of one key through find-or-add: the state between relief and insert, the victim and the result. */
  datatype Course = Course(kind: Outcome, victim: Victim, mid: Cache, r: nat)

  ghost predicate FindAddStep(sc: Scheme, cfg: Config, scan: Store, cs: Cache, k: Key, now: nat, c: Course, cs': Cache)
    requires ConfigOk(cfg)
  {
    if c.kind == Hit then
      && c.r != NIL && StaleFind(sc, scan, cs, k, c.r) && c.r < |cs.ts|
      && cs' == cs.(ts := cs.ts[c.r := now]) && c.mid == cs && c.victim == NoVictim
    else
      && StaleFind(sc, scan, cs, k, NIL)
      && ReliefStep(sc, cfg, scan, cs, k, now, c.victim, c.mid)
      && AddStep(sc, c.mid, k, now, c.r, cs')
      && c.kind == if c.r == NIL then Zero else if Absent(sc, c.mid.st, k) then Fill else Late
  }

  /** A purge of one entry has one outcome. */
  lemma PurgedUnique(sc: Scheme, max: nat, cs: Cache, e: nat, c1: Cache, c2: Cache)
    requires PoolOk(sc, max, cs) && Purged(sc, cs, {e}, c1) && Purged(sc, cs, {e}, c2) && c1.stats == c2.stats
    ensures c1 == c2
  {
    forall x | 0 <= x < |cs.st.b|
      ensures c1.st.b[x] == c2.st.b[x]
    {
      PurgedBucket(sc, cs, e, c1, c2, x);
    }
    assert c1.st.b == c2.st.b;
    assert c1.ts == c2.ts;
    PlacedWhere(sc, max, cs, e);
    PurgedHead(cs.free, e, c1.free);
    PurgedHead(cs.free, e, c2.free);
    hide SlotPurged, PoolOk, Stored;
  }

  lemma PurgedBucket(sc: Scheme, cs: Cache, e: nat, c1: Cache, c2: Cache, x: nat)
    requires Shape(sc, cs.st) && Purged(sc, cs, {e}, c1) && Purged(sc, cs, {e}, c2) && x < |cs.st.b|
    ensures c1.st.b[x] == c2.st.b[x]
  {
    assert SlotPurged(cs.st, {e}, c1.st, x, 0) && SlotPurged(cs.st, {e}, c2.st, x, 0);
    var b1, b2 := c1.st.b[x], c2.st.b[x];
    assert |b1.idx| == |b2.idx| == |b1.hash| == |b2.hash| == SLOTS;
    forall s | 0 <= s < SLOTS
      ensures b1.idx[s] == b2.idx[s] && b1.hash[s] == b2.hash[s]
    {
      assert SlotPurged(cs.st, {e}, c1.st, x, s) && SlotPurged(cs.st, {e}, c2.st, x, s);
    }
    assert b1.idx == b2.idx && b1.hash == b2.hash;
  }

  lemma PurgedHead(free: seq<nat>, e: nat, free': seq<nat>)
    requires |free'| == |free| + 1 && free'[1..] == free && e !in free
    requires forall j: nat :: j in free' <==> j in free || j == e
    ensures free' == [e] + free
  {
    assert free' == [free'[0]] + free'[1..];
    assert e in free';
  }

  /** The oldest expired slot of a bucket is unique. */
  lemma OldestUnique(cs: Cache, x: nat, s: nat, t: nat, before: nat)
    requires Oldest(cs, x, s, before) && Oldest(cs, x, t, before) && s < SLOTS && t < SLOTS
    ensures s == t
  {
    assert NotOlder(cs, x, s, t) && NotOlder(cs, x, t, s);
  }

  /** Relief is determined by the state and the scan. */
  lemma ReliefUnique(sc: Scheme, cfg: Config, scan: Store, cs: Cache, k: Key, now: nat, v1: Victim, m1: Cache, v2: Victim, m2: Cache)
    requires ConfigOk(cfg) && PoolOk(sc, cfg.maxEntries, cs)
    requires ReliefStep(sc, cfg, scan, cs, k, now, v1, m1) && ReliefStep(sc, cfg, scan, cs, k, now, v2, m2)
    ensures v1 == v2 && m1 == m2
  {
    BothInRange(sc, k);
    VictimInRange(sc, cfg, scan, cs, k, now, v1, m1);
    VictimInRange(sc, cfg, scan, cs, k, now, v2, m2);
    hide Gaps, ReliefEmptySlots, EffTimeout, Live, ExpireBefore;
    SameVictim(sc, cfg, scan, cs, k, now, v1, m1, v2, m2);
    assert m1.stats == m2.stats;
    match v1
    case NoVictim =>
    case FromFirst(s) => VictimUnique(sc, cfg.maxEntries, cs, sc.B0(k), s, m1, m2);
    case FromSecond(s) => VictimUnique(sc, cfg.maxEntries, cs, sc.B1(k), s, m1, m2);
  }

  lemma BothInRange(sc: Scheme, k: Key)
    requires sc.Lawful()
    ensures sc.B0(k) < sc.nbBk && sc.B1(k) < sc.nbBk
  {
  }

  lemma VictimInRange(sc: Scheme, cfg: Config, scan: Store, cs: Cache, k: Key, now: nat, v: Victim, m: Cache)
    requires ConfigOk(cfg) && PoolOk(sc, cfg.maxEntries, cs) && ReliefStep(sc, cfg, scan, cs, k, now, v, m)
    ensures v != NoVictim ==> v.slot < SLOTS
  {
  }

  lemma SameVictim(sc: Scheme, cfg: Config, scan: Store, cs: Cache, k: Key, now: nat, v1: Victim, m1: Cache, v2: Victim, m2: Cache)
    requires ConfigOk(cfg) && (v1 != NoVictim ==> v1.slot < SLOTS) && (v2 != NoVictim ==> v2.slot < SLOTS)
    requires ReliefStep(sc, cfg, scan, cs, k, now, v1, m1) && ReliefStep(sc, cfg, scan, cs, k, now, v2, m2)
    ensures v1 == v2
  {
    hide Gaps, ReliefEmptySlots, EffTimeout, Live, ExpireBefore, Purged, NotOlder;
    var live := |Live(sc, cs.st)|;
    var tight := Gaps(scan, sc.B0(k)) <= ReliefEmptySlots(cfg, live);
    var c1 := if tight then cs.(eff := EffTimeout(cfg, live)) else cs;
    var before := ExpireBefore(now, c1.eff);
    if v1.FromFirst? && v2.FromFirst? {
      OldestUnique(c1, sc.B0(k), v1.slot, v2.slot, before);
    } else if v1.FromSecond? && v2.FromSecond? {
      OldestUnique(c1, sc.B1(k), v1.slot, v2.slot, before);
    }
  }

  lemma VictimUnique(sc: Scheme, max: nat, cs: Cache, x: nat, s: nat, m1: Cache, m2: Cache)
    requires PoolOk(sc, max, cs) && x < |cs.st.b| && s < SLOTS && m1.stats == m2.stats && m1.eff == m2.eff
    requires Purged(sc, cs.(eff := m1.eff), {cs.st.b[x].idx[s]}, m1) && Purged(sc, cs.(eff := m1.eff), {cs.st.b[x].idx[s]}, m2)
    ensures m1 == m2
  {
    Unstamped(sc, max, cs, cs.st, cs.(eff := m1.eff));
    PurgedUnique(sc, max, cs.(eff := m1.eff), cs.st.b[x].idx[s], m1, m2);
  }

  /** Nobody to evict for k: no pressure, or nothing expired in the buckets that relief looks at. */
  ghost predicate ReliefIdle(sc: Scheme, cfg: Config, scan: Store, cs: Cache, k: Key, now: nat)
    requires ConfigOk(cfg)
  {
    var live := |Live(sc, cs.st)|;
    var want, before := ReliefEmptySlots(cfg, live), ExpireBefore(now, EffTimeout(cfg, live));
    || cfg.totalSlots == 0
    || Gaps(scan, sc.B0(k)) > want
    || (NoneExpired(cs, sc.B0(k), before) && (Gaps(cs.st, sc.B1(k)) > want || NoneExpired(cs, sc.B1(k), before)))
  }

  /** Whether relief will evict can be told before the call. */
  lemma ReliefForeseen(sc: Scheme, cfg: Config, scan: Store, cs: Cache, k: Key, now: nat, v: Victim, m: Cache)
    requires ConfigOk(cfg) && PoolOk(sc, cfg.maxEntries, cs) && ReliefStep(sc, cfg, scan, cs, k, now, v, m)
    ensures v == NoVictim <==> ReliefIdle(sc, cfg, scan, cs, k, now)
  {
    VictimInRange(sc, cfg, scan, cs, k, now, v, m);
    var live := |Live(sc, cs.st)|;
    var before := ExpireBefore(now, EffTimeout(cfg, live));
    SameExpired(cs, cs.(eff := EffTimeout(cfg, live)), sc.B0(k), before);
    SameExpired(cs, cs.(eff := EffTimeout(cfg, live)), sc.B1(k), before);
    hide Gaps, ReliefEmptySlots, EffTimeout, Live, ExpireBefore, Purged, NotOlder, PoolOk, ExpiredAt;
  }

  /** An occupant of bucket x had its last access more than eff ago. */
  ghost predicate OverdueAt(cs: Cache, x: nat, s: nat, eff: nat, now: nat) {
    && x < |cs.st.b| && s < |cs.st.b[x].idx| && cs.st.b[x].idx[s] != NIL && cs.st.b[x].idx[s] < |cs.ts|
    && cs.ts[cs.st.b[x].idx[s]] + eff < now
  }

  /** At most want slots of bucket x are free. */
  ghost predicate Scarce(st: Store, x: nat, want: nat) {
    x < |st.b| ==> |st.b[x].idx| - |Occupied(st.b[x].idx)| <= want
  }

  /**
   * Relief in plain terms: a victim is overdue under the timeout for the present fill level, and nobody in its bucket is
   * older; and if the scan showed the first bucket short of room, an overdue occupant of it, or of a second bucket that is
   * short of room too, means that somebody goes.
   */
  lemma ReliefLaw(sc: Scheme, cfg: Config, scan: Store, cs: Cache, k: Key, now: nat, v: Victim, m: Cache)
    requires ConfigOk(cfg) && PoolOk(sc, cfg.maxEntries, cs) && ReliefStep(sc, cfg, scan, cs, k, now, v, m)
    ensures var live := |Live(sc, cs.st)|;
            var eff, want := EffTimeout(cfg, live), ReliefEmptySlots(cfg, live);
            && (v.FromFirst? ==> OverdueAt(cs, sc.B0(k), v.slot, eff, now) && OldestAt(cs, sc.B0(k), v.slot) && Scarce(scan, sc.B0(k), want))
            && (v.FromSecond? ==>
                  && OverdueAt(cs, sc.B1(k), v.slot, eff, now) && OldestAt(cs, sc.B1(k), v.slot)
                  && Scarce(scan, sc.B0(k), want) && Scarce(cs.st, sc.B1(k), want)
                  && forall s :: 0 <= s < SLOTS ==> !OverdueAt(cs, sc.B0(k), s, eff, now))
            && (v.NoVictim? && cfg.totalSlots != 0 && Scarce(scan, sc.B0(k), want) ==>
                  && (forall s :: 0 <= s < SLOTS ==> !OverdueAt(cs, sc.B0(k), s, eff, now))
                  && (Scarce(cs.st, sc.B1(k), want) ==> forall s :: 0 <= s < SLOTS ==> !OverdueAt(cs, sc.B1(k), s, eff, now)))
  {
    var live := |Live(sc, cs.st)|;
    var eff := EffTimeout(cfg, live);
    var c1, before := cs.(eff := eff), ExpireBefore(now, eff);
    VictimInRange(sc, cfg, scan, cs, k, now, v, m);
    GapsScarce(scan, sc.B0(k));
    GapsScarce(cs.st, sc.B1(k));
    forall x: nat, s: nat
      ensures OverdueAt(cs, x, s, eff, now) <==> ExpiredAt(c1, x, s, before)
    {
      if x < |cs.st.b| && s < |cs.st.b[x].idx| && cs.st.b[x].idx[s] != NIL && cs.st.b[x].idx[s] < |cs.ts| {
        ExpiryLaw(now, eff, cs.ts[cs.st.b[x].idx[s]]);
      }
    }
    if v != NoVictim {
      OldestLaw(c1, if v.FromFirst? then sc.B0(k) else sc.B1(k), v.slot, before);
    }
    hide Gaps, ReliefEmptySlots, EffTimeout, Live, ExpireBefore, Purged, PoolOk, ExpiredAt, OverdueAt, Scarce, Oldest;
  }

  /** No occupant of bucket x is older than the one in slot s. */
  ghost predicate OldestAt(cs: Cache, x: nat, s: nat) {
    && x < |cs.st.b| && s < |cs.st.b[x].idx| && cs.st.b[x].idx[s] < |cs.ts|
    && forall t :: 0 <= t < |cs.st.b[x].idx| && NIL < cs.st.b[x].idx[t] < |cs.ts| ==> cs.ts[cs.st.b[x].idx[s]] <= cs.ts[cs.st.b[x].idx[t]]
  }

  lemma OldestLaw(cs: Cache, x: nat, s: nat, before: nat)
    requires Oldest(cs, x, s, before) && x < |cs.st.b| && |cs.st.b[x].idx| == SLOTS
    ensures OldestAt(cs, x, s)
  {
    forall t | 0 <= t < |cs.st.b[x].idx| && NIL < cs.st.b[x].idx[t] < |cs.ts|
      ensures cs.ts[cs.st.b[x].idx[s]] <= cs.ts[cs.st.b[x].idx[t]]
    {
      assert ExpiredAt(cs, x, t, before) ==> NotOlder(cs, x, s, t);
    }
  }

  lemma GapsScarce(st: Store, x: nat)
    ensures forall want: nat :: Gaps(st, x) <= want <==> Scarce(st, x, want)
  {
    if x < |st.b| {
      UsedIsSize(st.b[x].idx);
    }
  }

  lemma SameExpired(cs: Cache, cs': Cache, x: nat, before: nat)
    requires cs'.st == cs.st && cs'.ts == cs.ts
    ensures forall s: nat :: ExpiredAt(cs', x, s, before) <==> ExpiredAt(cs, x, s, before)
  {
  }

  /** A step of find-or-add is determined by the state and the scan. */
  lemma FindAddStepUnique(sc: Scheme, cfg: Config, scan: Store, cs: Cache, k: Key, now: nat, c1: Course, s1: Cache, c2: Course, s2: Cache)
    requires ConfigOk(cfg) && PoolOk(sc, cfg.maxEntries, cs)
    requires FindAddStep(sc, cfg, scan, cs, k, now, c1, s1) && FindAddStep(sc, cfg, scan, cs, k, now, c2, s2)
    ensures c1 == c2 && s1 == s2
  {
    assert KeysUnique(sc, cs.st);
    hide ReliefStep, AddStep, PoolOk, Seen, Absent, Stored;
    if c1.kind != Hit && c2.kind != Hit {
      ReliefUnique(sc, cfg, scan, cs, k, now, c1.victim, c1.mid, c2.victim, c2.mid);
      AddStepUnique(sc, c1.mid, k, now, c1.r, s1, c2.r, s2);
    }
  }

  // ------------------------------------------------------------ delete

  /** Deleting k: its entry goes if it is stored. */
  ghost predicate DelStep(sc: Scheme, cs: Cache, k: Key, r: nat, cs': Cache) {
    if r == NIL then Absent(sc, cs.st, k) && cs' == cs
    else Holds(sc, cs.st, r, k) && Deleted(sc, cs, r, true, cs')
  }
}
