/**
 * Kickout and insert as functions of the table: the search is deterministic, in slot order, depth first.
 * The measures name the table last, which keeps the verifier from unrolling the search for constant depths.
 */
module SlotKick {
  import opened HashScheme
  import opened SlotStore

  /** How many levels insert lets kickout recurse. */
  const FOLLOW_DEPTH: int := 4

  /** A result and the table it leaves behind. */
  datatype Kick = Kick(r: int, st: Store)

  /** The lowest free slot of bucket x from slot s on, or -1. */
  ghost function FirstFree(st: Store, x: nat, s: nat): (r: int)
    ensures -1 <= r < SLOTS
    decreases SLOTS - s, st
  {
    if s >= SLOTS || x >= |st.b| || s >= |st.b[x].idx| then -1
    else if st.b[x].idx[s] == NIL then s
    else FirstFree(st, x, s + 1)
  }

  lemma {:induction false} FirstFreeIs(st: Store, x: nat, s: nat, r: int)
    requires x < |st.b| && |st.b[x].idx| == SLOTS && s <= SLOTS && -1 <= r < SLOTS
    requires if r < 0 then forall t :: s <= t < SLOTS ==> st.b[x].idx[t] != NIL
             else s <= r && st.b[x].idx[r] == NIL && forall t :: s <= t < r ==> st.b[x].idx[t] != NIL
    ensures FirstFree(st, x, s) == r
    decreases SLOTS - s
  {
    if s < SLOTS && st.b[x].idx[s] != NIL {
      FirstFreeIs(st, x, s + 1, r);
    }
  }

  /** The occupant of slot s moves to the first free slot of its other bucket. */
  ghost function FlipOf(sc: Scheme, st: Store, x: nat, s: nat): Kick {
    if !Shape(sc, st) || x >= |st.b| || s >= SLOTS || st.b[x].idx[s] == NIL || st.b[x].idx[s] >= |st.n| then Kick(-1, st)
    else
      var a := AltAt(sc, st, x, s);
      var f := FirstFree(st, a, 0);
      if a >= |st.b| || a == x || f < 0 then Kick(-1, st) else Kick(s, Moved(sc, st, x, s, a, f))
  }

  /** First pass: the first occupant from slot s on that can move. */
  ghost function DirectOf(sc: Scheme, st: Store, x: nat, s: nat): Kick
    decreases SLOTS - s, st
  {
    if s >= SLOTS then Kick(-1, st)
    else
      var k := FlipOf(sc, st, x, s);
      if k.r >= 0 then k else DirectOf(sc, st, x, s + 1)
  }

  /** Kickout: the first pass, then the rounds of the second. */
  ghost function KickOf(sc: Scheme, st: Store, x: nat, depth: int): Kick
    decreases depth, 2, 0, st
  {
    if depth <= 0 then Kick(-1, st)
    else
      var k := DirectOf(sc, st, x, 0);
      if k.r >= 0 then k else RoundsOf(sc, st, x, 0, depth)
  }

  /** Second pass from slot s on; a failed round may leave entries moved for the next one. */
  ghost function RoundsOf(sc: Scheme, st: Store, x: nat, s: nat, depth: int): Kick
    requires 0 < depth
    decreases depth, 1, SLOTS - s, st
  {
    if s >= SLOTS then Kick(-1, st)
    else
      var k := RoundOf(sc, st, x, s, depth);
      if k.r >= 0 then k else RoundsOf(sc, k.st, x, s + 1, depth)
  }

  /** One round: make room in the other bucket of the occupant, then move it if it is still there. */
  ghost function RoundOf(sc: Scheme, st: Store, x: nat, s: nat, depth: int): Kick
    requires 0 < depth
    decreases depth, 0, 0, st
  {
    if x >= |st.b| || s >= |st.b[x].idx| || s >= |st.b[x].hash| || st.b[x].idx[s] == NIL || st.b[x].idx[s] >= |st.n| then Kick(-1, st)
    else
      var k := KickOf(sc, st, AltAt(sc, st, x, s), depth - 1);
      if k.r < 0 then Kick(-1, k.st)
      else if !SameSlot(st, k.st, x, s) then Kick(FirstFree(k.st, x, 0), k.st)
      else FlipOf(sc, k.st, x, s)
  }

  /** Slot s of bucket x holds what it held before. */
  ghost predicate SameSlot(st: Store, st': Store, x: nat, s: nat)
    requires x < |st.b| && s < |st.b[x].idx| && s < |st.b[x].hash|
  {
    && x < |st'.b| && s < |st'.b[x].idx| && s < |st'.b[x].hash|
    && st'.b[x].hash[s] == st.b[x].hash[s] && st'.b[x].idx[s] == st.b[x].idx[s]
  }

  /** elm written into slot s of bucket x, NIL as the result. */
  ghost function PutAt(sc: Scheme, st: Store, x: nat, s: int, elm: nat, hf: Word): Kick {
    if Shape(sc, st) && x < |st.b| && 0 <= s < SLOTS && elm < |st.n| then Kick(NIL, Filled(sc, st, x, s, elm, hf)) else Kick(-1, st)
  }

  /** Inserting elm, whose key is new: the first free slot of its buckets, else kickout of the first, else of the second, else elm. */
  ghost function FreshOf(sc: Scheme, st: Store, elm: nat): Kick
    requires elm < |st.n|
  {
    var h := sc.hash(st.n[elm].key);
    var x0, x1 := sc.bucket(h.h0), sc.bucket(h.h1);
    var f0, f1 := FirstFree(st, x0, 0), FirstFree(st, x1, 0);
    if f0 >= 0 then PutAt(sc, st, x0, f0, elm, h.h0)
    else if f1 >= 0 then PutAt(sc, st, x1, f1, elm, h.h1)
    else
      var k0 := KickOf(sc, st, x0, FOLLOW_DEPTH);
      if k0.r >= 0 then PutAt(sc, k0.st, x0, k0.r, elm, h.h0)
      else
        var k1 := KickOf(sc, k0.st, x1, FOLLOW_DEPTH);
        if k1.r >= 0 then PutAt(sc, k1.st, x1, k1.r, elm, h.h1) else Kick(elm, k1.st)
  }

  /** The store that inserting elm leaves behind: the early write, and what FreshOf does for a new key. */
  ghost function InsertOf(sc: Scheme, st: Store, elm: nat): Kick
    requires elm < |st.n|
  {
    var st1 := WithEarlyWrite(sc, st, elm);
    if i: nat :| Stored(sc, st, i) && st.n[i].key == st.n[elm].key then Kick(i, st1) else FreshOf(sc, st1, elm)
  }

  lemma {:induction false} FirstFreeFree(st: Store, x: nat, s: nat)
    requires x < |st.b| && |st.b[x].idx| == SLOTS
    ensures FirstFree(st, x, s) >= 0 ==> s <= FirstFree(st, x, s) < SLOTS && st.b[x].idx[FirstFree(st, x, s)] == NIL
    decreases SLOTS - s
  {
    if s < SLOTS && st.b[x].idx[s] != NIL {
      FirstFreeFree(st, x, s + 1);
    }
  }

  lemma InsertOfDuplicate(sc: Scheme, st: Store, elm: nat, r: nat)
    requires KeysUnique(sc, st) && elm < |st.n|
    requires forall j: nat :: Stored(sc, WithEarlyWrite(sc, st, elm), j) <==> Stored(sc, st, j)
    requires Stored(sc, WithEarlyWrite(sc, st, elm), r) && st.n[r].key == st.n[elm].key
    ensures InsertOf(sc, st, elm) == Kick(r, WithEarlyWrite(sc, st, elm))
  {
    hide FreshOf;
    assert Stored(sc, st, r);
  }

  lemma InsertedDuplicate(sc: Scheme, st: Store, elm: nat, r: nat)
    requires KeysUnique(sc, st) && elm < |st.n| && r != NIL && Stored(sc, st, r) && st.n[r].key == st.n[elm].key
    requires var st' := WithEarlyWrite(sc, st, elm); forall j: nat :: Stored(sc, st', j) <==> Stored(sc, st, j)
    ensures if Stored(sc, st, elm) then r == elm else Inserted(sc, st, elm, r, WithEarlyWrite(sc, st, elm))
  {
    hide Stored;
  }

  lemma InsertOfFresh(sc: Scheme, st: Store, elm: nat)
    requires elm < |st.n| && forall i: nat :: Stored(sc, st, i) ==> st.n[i].key != st.n[elm].key
    ensures InsertOf(sc, st, elm) == FreshOf(sc, WithEarlyWrite(sc, st, elm), elm)
  {
    hide FreshOf;
  }
}
