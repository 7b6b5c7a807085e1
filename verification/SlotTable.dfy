/** The 16-way cuckoo table with stored bucket word and slot: find, insert with kickout, remove. */
module SlotTableModel {
  import opened HashScheme
  import opened SlotStore
  import opened SlotKick
  import opened Bits16

  /** The staged-find context of one key; masks may be older than the buckets they describe. */
  datatype FindCtx = FindCtx(hash: Hash, bk0: nat, bk1: nat, key: Key, fp: Word,
                             hits0: Mask, hits1: Mask, empties0: Mask, empties1: Mask)

  class SlotTable {
    const sc: Scheme
    const buckets: array<Bucket>
    /** The caller's node array; cell 0 is the unused NIL cell. */
    const node: array<Node>
    /** The number of stored nodes. */
    var nb: nat

    ghost function St(): Store
      reads buckets, node
    {
      Store(buckets[..], node[..])
    }

    ghost predicate Valid()
      reads this, buckets, node
    {
      && sc.Lawful() && buckets.Length == sc.nbBk
      && Inv(sc, St()) && nb == |Live(sc, St())|
    }

    /** A table over zeroed buckets. */
    constructor (sc: Scheme, buckets: array<Bucket>, node: array<Node>)
      requires sc.Lawful() && buckets.Length == sc.nbBk && 0 < node.Length
      requires forall x :: 0 <= x < buckets.Length ==> buckets[x] == EMPTY_BUCKET
      requires forall i :: 0 <= i < node.Length ==> node[i].slotField < SLOTS
      ensures this.sc == sc && this.buckets == buckets && this.node == node
      ensures Valid() && forall j: nat :: !Stored(sc, St(), j)
    {
      this.sc, this.buckets, this.node, nb := sc, buckets, node, 0;
      new;
      EmptyInv(sc, St());
    }

    // ------------------------------------------------------------ kickout

    /** The lowest free slot of a bucket, or -1. */
    method FindEmpty(bk: nat) returns (r: int)
      requires sc.Lawful() && Inv(sc, St()) && bk < buckets.Length
      ensures -1 <= r < SLOTS
      ensures r < 0 <==> Full(St(), bk)
      ensures 0 <= r ==> St().b[bk].idx[r] == NIL && forall t :: 0 <= t < r ==> St().b[bk].idx[t] != NIL
      ensures r == FirstFree(St(), bk, 0)
    {
      ghost var st := St();
      var nilm := FindX16(buckets[bk].hash, 0);
      forall t | 0 <= t < SLOTS
        ensures nilm[t] <==> st.b[bk].idx[t] == NIL
      {
        assert SlotOk(sc, st, bk, t);
      }
      if !Any(nilm) {
        FirstFreeIs(st, bk, 0, -1);
        return -1;
      }
      r := Lowest(nilm);
      FirstFreeIs(st, bk, 0, r);
    }

    /** Moves the occupant of a slot to its other bucket if that has room. */
    method FlipFlop(bk: nat, slot: nat) returns (r: int, ghost a: nat, ghost f: nat)
      requires sc.Lawful() && Inv(sc, St()) && bk < buckets.Length && slot < SLOTS
      modifies buckets, node
      ensures r < 0 || r == slot
      ensures r < 0 ==> St() == old(St()) && Pinned(sc, St(), bk, slot)
      ensures 0 <= r ==>
                && old(St()).b[bk].idx[slot] != NIL && old(St()).b[bk].idx[slot] < |old(St()).n|
                && a == AltAt(sc, old(St()), bk, slot) && a < buckets.Length && a != bk
                && f < SLOTS && old(St()).b[a].idx[f] == NIL
                && St() == Moved(sc, old(St()), bk, slot, a, f)
      ensures Kick(r, St()) == FlipOf(sc, old(St()), bk, slot)
    {
      ghost var st := St();
      assert SlotOk(sc, st, bk, slot);
      a, f := 0, 0;
      var fp, i := buckets[bk].hash[slot], buckets[bk].idx[slot];
      if i == NIL {
        return -1, 0, 0;
      }
      SlotLaws(sc, st, bk, slot);
      var h := node[i].hashField;
      var ab := sc.bucket(sc.xor(fp, h));
      var s := FindEmpty(ab);
      a := ab;
      if s < 0 {
        return -1, a, 0;
      }
      f := s;
      buckets[ab] := Bucket(buckets[ab].hash[s := fp], buckets[ab].idx[s := i]);
      node[i] := node[i].(hashField := sc.xor(fp, h), slotField := s);
      buckets[bk] := Bucket(buckets[bk].hash[slot := 0], buckets[bk].idx[slot := NIL]);
      r := slot;
    }

    /** The first pass of kickout: the first occupant that can move directly does. */
    method MoveDirect(bk: nat, ghost depth: int) returns (r: int)
      requires sc.Lawful() && Inv(sc, St()) && bk < buckets.Length && 1 <= depth
      modifies buckets, node
      ensures 0 <= r ==> Kicked(sc, old(St()), bk, depth, r, St())
      ensures r < 0 ==> r == -1 && St() == old(St()) && Jammed(sc, St(), bk)
      ensures 0 <= r ==> Room(sc, old(St()), bk, depth)
      ensures Kick(r, St()) == DirectOf(sc, old(St()), bk, 0)
    {
      hide FlipOf;
      ghost var st := St();
      for s := 0 to SLOTS
        invariant St() == st && DirectOf(sc, st, bk, 0) == DirectOf(sc, st, bk, s)
        invariant forall t :: 0 <= t < s ==> Pinned(sc, st, bk, t)
      {
        ghost var a, f;
        var q;
        q, a, f := FlipFlop(bk, s);
        if q >= 0 {
          DirectKick(sc, st, bk, s, a, f, depth);
          assert Leaves(sc, st, bk, s, depth);
          return s;
        }
      }
      r := -1;
    }

    /**
     * Makes a free slot in bucket bk by moving occupants to their other buckets, recursing to the
     * given depth. The recursion may come back to bk, so the held entry is checked afterwards.
     */
    method Kickout(bk: nat, depth: int) returns (r: int)
      requires sc.Lawful() && Inv(sc, St()) && bk < buckets.Length
      modifies buckets, node
      ensures Kicked(sc, old(St()), bk, depth, r, St())
      ensures Contents(sc, St()) == Contents(sc, old(St()))
      ensures Quiet(old(St()), bk, depth) ==> (0 <= r <==> Room(sc, old(St()), bk, depth))
      ensures Kick(r, St()) == KickOf(sc, old(St()), bk, depth)
      decreases depth, 2
    {
      hide KickOf, Room;
      ghost var st := St();
      r := MakeRoom(bk, depth);
      KickedBasics(sc, st, bk, depth, r, St());
      SameContents(sc, st, St());
    }

    /** Both passes of kickout. */
    method MakeRoom(bk: nat, depth: int) returns (r: int)
      requires sc.Lawful() && Inv(sc, St()) && bk < buckets.Length
      modifies buckets, node
      ensures Kicked(sc, old(St()), bk, depth, r, St())
      ensures Quiet(old(St()), bk, depth) ==> (0 <= r <==> Room(sc, old(St()), bk, depth))
      ensures Kick(r, St()) == KickOf(sc, old(St()), bk, depth)
      decreases depth, 1
    {
      hide DirectOf, RoundOf, Inv, Pinned, Stored, Leaves;
      ghost var st := St();
      if depth <= 0 {
        NoRoomAtDepth0(sc, st, bk, depth);
        return -1;
      }
      r := MoveDirect(bk, depth);
      if r >= 0 {
        return;
      }
      for s := 0 to SLOTS
        invariant Inv(sc, St()) && Same(sc, st, St())
        invariant Quiet(st, bk, depth) ==> St() == st && forall t :: 0 <= t < s ==> !Leaves(sc, st, bk, t, depth)
        invariant RoundsOf(sc, st, bk, 0, depth) == RoundsOf(sc, St(), bk, s, depth)
      {
        r := KickThrough(bk, s, depth, st);
        if r >= 0 {
          return;
        }
      }
      r := -1;
    }

    /** One round of the second pass: make room in the other bucket of the entry in slot s, then move it. */
    method KickThrough(bk: nat, s: nat, depth: int, ghost st: Store) returns (r: int)
      requires sc.Lawful() && Inv(sc, St()) && Inv(sc, st) && Same(sc, st, St())
      requires bk < buckets.Length && s < SLOTS && 1 <= depth && Jammed(sc, st, bk)
      requires Quiet(st, bk, depth) ==> St() == st
      modifies buckets, node
      ensures 0 <= r ==> Kicked(sc, st, bk, depth, r, St())
      ensures r < 0 ==> r == -1 && Inv(sc, St()) && Same(sc, st, St()) && (Quiet(st, bk, depth) ==> St() == st)
      ensures Quiet(st, bk, depth) ==> (0 <= r <==> Leaves(sc, st, bk, s, depth))
      ensures Kick(r, St()) == RoundOf(sc, old(St()), bk, s, depth)
      decreases depth, 0
    {
      hide FlipOf, FirstFree, KickOf, Kicked, Same, Jammed, Stored, KeysUnique, SlotOk, Full, Room, Leaves, Quiet;
      ghost var st0 := St();
      var fp, si := buckets[bk].hash[s], buckets[bk].idx[s];
      LeavesBy(sc, st, bk, s, depth);
      if si == NIL {
        return -1;
      }
      SlotLaws(sc, st0, bk, s);
      if Quiet(st, bk, depth) {
        QuietBelow(sc, st, bk, s, depth);
      }
      var sh := node[si].hashField;
      var ab := sc.bucket(sc.xor(fp, sh));
      var q := Kickout(ab, depth - 1);
      ghost var st1 := St();
      KickedBasics(sc, st0, ab, depth - 1, q, st1);
      SameTrans(sc, st, st0, st1);
      if q < 0 {
        if Quiet(st, bk, depth) {
          KickFailed(sc, st, bk, s, ab, depth, q, st1);
        }
        return -1;
      }
      if Quiet(st, bk, depth) {
        HeldEntry(sc, st, bk, s, ab, depth, q, st1);
        SlotLaws(sc, st1, bk, s);
      }
      if buckets[bk].hash[s] != fp || buckets[bk].idx[s] != si {
        r := FindEmpty(bk);
        if r >= 0 {
          KickedLoose(sc, st, bk, depth, r, St());
        }
        return;
      }
      r := MoveHeld(bk, s, ab, depth, q, st);
    }

    /** The last step of a round: the other bucket has room now, so the move cannot fail. */
    method MoveHeld(bk: nat, s: nat, ghost ab: nat, ghost depth: int, ghost q: int, ghost st: Store) returns (r: int)
      requires sc.Lawful() && Inv(sc, St()) && Inv(sc, st) && Same(sc, st, St())
      requires bk < buckets.Length && s < SLOTS && 1 <= depth && 0 <= q < SLOTS && Jammed(sc, st, bk)
      requires St().b[bk].idx[s] != NIL && St().b[bk].idx[s] < |St().n| && ab == AltAt(sc, St(), bk, s)
      requires ab < buckets.Length && St().b[ab].idx[q] == NIL
      requires Quiet(st, bk, depth) ==>
                 && st.b[bk].idx[s] != NIL && st.b[bk].idx[s] < |st.n| && ab == AltAt(sc, st, bk, s) && ab != bk
                 && Kicked(sc, st, ab, depth - 1, q, St())
      modifies buckets, node
      ensures r == s && Kicked(sc, st, bk, depth, r, St())
      ensures Kick(r, St()) == FlipOf(sc, old(St()), bk, s)
    {
      hide FlipOf, Kicked, Same, Jammed, Stored, KeysUnique, SlotOk;
      ghost var st1 := St();
      ghost var a, f;
      r, a, f := FlipFlop(bk, s);
      assert 0 <= r;
      MovedInv(sc, st1, bk, s, a, f);
      SameTrans(sc, st, st1, St());
      if Quiet(st, bk, depth) {
        RelayKick(sc, st, bk, s, ab, depth, q, st1, f);
      } else {
        KickedLoose(sc, st, bk, depth, r, St());
      }
    }

    // ------------------------------------------------------------ find

    /** Stage 1: hashes the key and names its two buckets. */
    method HashKey(key: Key) returns (ctx: FindCtx)
      requires sc.Lawful()
      ensures CtxFor(ctx, key)
    {
      var h := sc.hash(key);
      ctx := FindCtx(h, sc.bucket(h.h0), sc.bucket(h.h1), key, sc.xor(h.h0, h.h1), NO_HITS, NO_HITS, NO_HITS, NO_HITS);
    }

    /** The context belongs to key; its masks may be stale. */
    ghost predicate CtxFor(ctx: FindCtx, key: Key) {
      && ctx.key == key && ctx.hash == sc.hash(key) && ctx.fp == sc.Fp(key)
      && ctx.bk0 == sc.B0(key) && ctx.bk1 == sc.B1(key)
    }

    /** The hit mask covers every slot of the first bucket that holds the key of the context now. */
    ghost predicate Covers(ctx: FindCtx, st: Store) {
      && ctx.bk0 < |st.b|
      && forall s :: 0 <= s < SLOTS ==> CoversSlot(ctx, st, s)
    }

    ghost predicate CoversSlot(ctx: FindCtx, st: Store, s: nat)
      requires ctx.bk0 < |st.b|
    {
      s < |st.b[ctx.bk0].idx| && s < SLOTS && st.b[ctx.bk0].idx[s] < |st.n|
      && (st.b[ctx.bk0].idx[s] != NIL && st.n[st.b[ctx.bk0].idx[s]].key == ctx.key ==> ctx.hits0[s])
    }

    /** The hit mask marks exactly the slots of the first bucket that hold the fingerprint. */
    ghost predicate HitMask(ctx: FindCtx, st: Store) {
      && ctx.bk0 < |st.b| && |st.b[ctx.bk0].hash| == SLOTS
      && forall i :: 0 <= i < SLOTS ==> (ctx.hits0[i] <==> st.b[ctx.bk0].hash[i] == ctx.fp)
    }

    /** Stage 2: scans the first bucket for the fingerprint. */
    method ScanBk(ctx: FindCtx) returns (r: FindCtx)
      requires sc.Lawful() && Inv(sc, St()) && buckets.Length == sc.nbBk && CtxFor(ctx, ctx.key)
      ensures r == ctx.(hits0 := r.hits0, hits1 := NO_HITS) && Covers(r, St()) && HitMask(r, St())
    {
      var m := FindX16(buckets[ctx.bk0].hash, ctx.fp);
      r := ctx.(hits0 := m, hits1 := NO_HITS);
      ScanCovers(r, St());
    }

    lemma ScanCovers(ctx: FindCtx, st: Store)
      requires sc.Lawful() && Inv(sc, st) && CtxFor(ctx, ctx.key)
      requires ctx.bk0 < |st.b| && forall i :: 0 <= i < SLOTS ==> (ctx.hits0[i] <==> st.b[ctx.bk0].hash[i] == ctx.fp)
      ensures Covers(ctx, st)
    {
      forall s | 0 <= s < SLOTS
        ensures CoversSlot(ctx, st, s)
      {
        assert SlotOk(sc, st, ctx.bk0, s);
      }
    }

    /** Stage 2 with free slots: scans the first bucket for the fingerprint and for empty slots. */
    method ScanBkEmpties(ctx: FindCtx) returns (r: FindCtx)
      requires sc.Lawful() && Inv(sc, St()) && buckets.Length == sc.nbBk && CtxFor(ctx, ctx.key)
      ensures r == ctx.(hits0 := r.hits0, hits1 := NO_HITS, empties0 := r.empties0, empties1 := NO_HITS)
      ensures Covers(r, St()) && HitMask(r, St()) && EmptyMask(St(), r.bk0, r.empties0)
    {
      var m, e := FindX16Two(buckets[ctx.bk0].hash, ctx.fp, 0);
      r := ctx.(hits0 := m, empties0 := e, hits1 := NO_HITS, empties1 := NO_HITS);
      EmptyMaskByHash(St(), ctx.bk0, e);
      ScanCovers(r, St());
    }

    /** Compares the key with the occupants of the hit slots of one bucket. */
    method CompareHits(bk: nat, hits: Mask, key: Key) returns (r: nat)
      requires sc.Lawful() && Inv(sc, St()) && bk < buckets.Length
      ensures r != NIL ==> Stored(sc, St(), r) && St().n[r].key == key
      ensures r != NIL ==> sc.bucket(St().n[r].hashField) == bk && St().n[r].slotField < SLOTS && hits[St().n[r].slotField]
      ensures r == NIL ==> forall s :: 0 <= s < SLOTS && hits[s] ==> KeyNotAt(sc, St(), bk, s, key)
    {
      ghost var st := St();
      for s := 0 to LANES
        invariant forall t :: 0 <= t < s && hits[t] ==> KeyNotAt(sc, st, bk, t, key)
      {
        if hits[s] {
          assert SlotOk(sc, st, bk, s);
          var i := buckets[bk].idx[s];
          if i != NIL && node[i].key == key {
            SlotLaws(sc, st, bk, s);
            return i;
          }
        }
      }
      r := NIL;
    }

    /**
     * Last stage: the stale hits of the first bucket, then a fresh scan of the second. Hits are always
     * rechecked against the present occupants, so an answer is right; a miss is right when the mask
     * still covers the first bucket.
     */
    method CmpKey(ctx: FindCtx) returns (r: nat)
      requires sc.Lawful() && Inv(sc, St()) && buckets.Length == sc.nbBk && CtxFor(ctx, ctx.key)
      ensures r != NIL ==> Stored(sc, St(), r) && St().n[r].key == ctx.key && Sighted(ctx, St(), r)
      ensures r == NIL ==> Missed(ctx, St())
    {
      r := CompareHits(ctx.bk0, ctx.hits0, ctx.key);
      if r != NIL {
        return;
      }
      var m := FindX16(buckets[ctx.bk1].hash, ctx.fp);
      r := CompareHits(ctx.bk1, m, ctx.key);
      if r == NIL {
        MissAbsent(ctx, St(), m);
      }
    }

    /** The variant that also scans the second bucket for empty slots. */
    method CmpKeyEmpties(ctx: FindCtx) returns (r: nat, ctx': FindCtx)
      requires sc.Lawful() && Inv(sc, St()) && buckets.Length == sc.nbBk && CtxFor(ctx, ctx.key)
      ensures r != NIL ==> Stored(sc, St(), r) && St().n[r].key == ctx.key && Sighted(ctx, St(), r)
      ensures r == NIL ==> Missed(ctx, St())
      ensures ctx' == ctx.(hits1 := ctx'.hits1, empties1 := ctx'.empties1)
      ensures r == NIL ==> EmptyMask(St(), ctx.bk1, ctx'.empties1)
    {
      ctx' := ctx;
      r := CompareHits(ctx.bk0, ctx.hits0, ctx.key);
      if r != NIL {
        return;
      }
      var m, e := FindX16Two(buckets[ctx.bk1].hash, ctx.fp, 0);
      ctx' := ctx.(hits1 := m, empties1 := e);
      EmptyMaskByHash(St(), ctx.bk1, e);
      r := CompareHits(ctx.bk1, m, ctx.key);
      if r == NIL {
        MissAbsent(ctx, St(), m);
      }
    }

    /** The last stage looks at the slot of stored node i: every slot of the second bucket, the masked ones of the first. */
    ghost predicate Sighted(ctx: FindCtx, st: Store, i: nat) {
      i < |st.n| && (sc.bucket(st.n[i].hashField) == ctx.bk1 || (st.n[i].slotField < SLOTS && ctx.hits0[st.n[i].slotField]))
    }

    /** No stored node in sight has the key of the context. */
    ghost predicate Missed(ctx: FindCtx, st: Store) {
      forall i: nat :: Stored(sc, st, i) && st.n[i].key == ctx.key ==> !Sighted(ctx, st, i)
    }

    lemma MissAbsent(ctx: FindCtx, st: Store, m: Mask)
      requires sc.Lawful() && Inv(sc, st) && CtxFor(ctx, ctx.key)
      requires ctx.bk0 < |st.b| && ctx.bk1 < |st.b|
      requires forall i :: 0 <= i < SLOTS ==> (m[i] <==> st.b[ctx.bk1].hash[i] == ctx.fp)
      requires forall s :: 0 <= s < SLOTS && ctx.hits0[s] ==> KeyNotAt(sc, st, ctx.bk0, s, ctx.key)
      requires forall s :: 0 <= s < SLOTS && m[s] ==> KeyNotAt(sc, st, ctx.bk1, s, ctx.key)
      ensures Missed(ctx, st)
    {
      forall i: nat | Stored(sc, st, i) && st.n[i].key == ctx.key
        ensures !Sighted(ctx, st, i)
      {
        StoredLaws(sc, st, i);
        assert !KeyNotAt(sc, st, sc.bucket(st.n[i].hashField), st.n[i].slotField, ctx.key);
      }
    }

    /** A miss is right when the mask still covers the first bucket. */
    lemma MissCovered(ctx: FindCtx, st: Store)
      requires sc.Lawful() && Inv(sc, st) && CtxFor(ctx, ctx.key) && Missed(ctx, st) && Covers(ctx, st)
      ensures forall i: nat :: Stored(sc, st, i) ==> st.n[i].key != ctx.key
    {
      forall i: nat | Stored(sc, st, i)
        ensures st.n[i].key != ctx.key
      {
        StoredLaws(sc, st, i);
        assert CoversSlot(ctx, st, st.n[i].slotField);
      }
    }

    /** The mask marks the free slots of bucket x. */
    ghost predicate EmptyMask(st: Store, x: nat, mask: Mask) {
      x < |st.b| && |st.b[x].idx| == SLOTS && forall s :: 0 <= s < SLOTS ==> (mask[s] <==> st.b[x].idx[s] == NIL)
    }

    lemma EmptyMaskByHash(st: Store, x: nat, mask: Mask)
      requires Inv(sc, st) && x < |st.b| && forall i :: 0 <= i < SLOTS ==> (mask[i] <==> st.b[x].hash[i] == 0)
      ensures EmptyMask(st, x, mask)
    {
      forall s | 0 <= s < SLOTS
        ensures mask[s] <==> st.b[x].idx[s] == NIL
      {
        assert SlotOk(sc, st, x, s);
      }
    }

    /** The stored node with the key, or NIL exactly when there is none. */
    method Find(key: Key) returns (r: nat)
      requires Valid()
      ensures r != NIL ==> r in Contents(sc, St()) && Contents(sc, St())[r] == key
      ensures r == NIL <==> key !in Contents(sc, St()).Values
    {
      var ctx := HashKey(key);
      ctx := ScanBk(ctx);
      r := CmpKey(ctx);
      if r != NIL {
        assert Contents(sc, St())[r] == key;
      } else {
        MissCovered(ctx, St());
      }
    }

    // ------------------------------------------------------------ insert

    /**
     * Adds elm and returns NIL, returns the stored node that has the same key, or returns elm when no
     * room could be made. The given hash must be that of the key of elm. The bucket word of elm is
     * written first, so an element that is already stored must sit in its first bucket; it is returned.
     */
    method InsertHashed(elm: nat, h: Hash) returns (r: nat)
      requires Valid() && 0 < elm < node.Length
      requires Stored(sc, St(), elm) ==> sc.bucket(node[elm].hashField) == sc.B0(node[elm].key)
      requires h == sc.hash(node[elm].key)
      modifies this`nb, buckets, node
      ensures Valid()
      ensures if Stored(sc, old(St()), elm) then r == elm && St() == old(St()) else Inserted(sc, old(St()), elm, r, St())
      ensures var st := old(St());
              var x0, x1 := sc.B0(st.n[elm].key), sc.B1(st.n[elm].key);
              (forall i: nat :: Stored(sc, st, i) ==> st.n[i].key != st.n[elm].key) ==>
                (r == elm <==> Full(st, x0) && Full(st, x1) && !Room(sc, st, x0, 4) && !Room(sc, st, x1, 4))
      ensures Kick(r, St()) == InsertOf(sc, old(St()), elm)
    {
      hide FreshOf, Live, Room;
      ghost var st := St();
      var bk0, bk1, fp := sc.bucket(h.h0), sc.bucket(h.h1), sc.xor(h.h0, h.h1);
      EarlyWrite(sc, st, elm);
      node[elm] := node[elm].(hashField := h.h0);
      assert St() == WithEarlyWrite(sc, st, elm);
      LiveSame(sc, st, St());
      var zero0, zero1;
      r, zero0, zero1 := FindDuplicate(bk0, bk1, fp, node[elm].key);
      if r != NIL {
        InsertOfDuplicate(sc, st, elm, r);
        InsertedDuplicate(sc, st, elm, r);
        return;
      }
      forall i: nat | Stored(sc, st, i)
        ensures st.n[i].key != st.n[elm].key
      {
        assert Stored(sc, St(), i) && St().n[i].key == st.n[i].key;
      }
      InsertOfFresh(sc, st, elm);
      r := InsertFresh(elm, h, bk0, bk1, fp, zero0, zero1, st);
    }

    lemma FirstFreeMask(st: Store, x: nat, zero: Mask)
      requires x < |st.b| && |st.b[x].idx| == SLOTS && forall i :: 0 <= i < SLOTS ==> (zero[i] <==> st.b[x].idx[i] == NIL)
      ensures FirstFree(st, x, 0) < 0 <==> !Any(zero)
      ensures forall s :: 0 <= s < SLOTS && zero[s] && (forall i :: 0 <= i < s ==> !zero[i]) ==> FirstFree(st, x, 0) == s
    {
      if !Any(zero) {
        FirstFreeIs(st, x, 0, -1);
      }
      forall s | 0 <= s < SLOTS && zero[s] && forall i :: 0 <= i < s ==> !zero[i]
        ensures FirstFree(st, x, 0) == s
      {
        FirstFreeIs(st, x, 0, s);
      }
      FirstFreeFree(st, x, 0);
    }

    /** Stores elm, whose key is new: in a free slot of the first or second bucket, else by kickout. */
    method InsertFresh(elm: nat, h: Hash, bk0: nat, bk1: nat, fp: Word, zero0: Mask, zero1: Mask, ghost st: Store)
      returns (r: nat)
      requires Valid() && 0 < elm < node.Length && !Stored(sc, St(), elm)
      requires h == sc.hash(node[elm].key) && node[elm].hashField == h.h0
      requires bk0 == sc.bucket(h.h0) && bk1 == sc.bucket(h.h1) && fp == sc.xor(h.h0, h.h1)
      requires forall i: nat :: Stored(sc, St(), i) ==> St().n[i].key != St().n[elm].key
      requires forall i :: 0 <= i < SLOTS ==> (zero0[i] <==> St().b[bk0].idx[i] == NIL)
      requires forall i :: 0 <= i < SLOTS ==> (zero1[i] <==> St().b[bk1].idx[i] == NIL)
      requires OnlyNode(st, elm, St()) && forall j: nat :: Stored(sc, st, j) <==> Stored(sc, St(), j)
      modifies this`nb, buckets, node
      ensures Valid() && Inserted(sc, st, elm, r, St())
      ensures Kick(r, St()) == FreshOf(sc, old(St()), elm)
    {
      hide Inserted, Live, KeysUnique, SlotOk, KickOf, PutAt, FirstFree;
      FirstFreeMask(St(), bk0, zero0);
      FirstFreeMask(St(), bk1, zero1);
      r := NIL;
      if Any(zero0) {
        var s := Lowest(zero0);
        ghost var st1 := St();
        Place(bk0, s, elm, fp, h.h0);
        InsertedByFill(sc, st, elm, st1, st1, St());
      } else if Any(zero1) {
        var s := Lowest(zero1);
        ghost var st1 := St();
        Place(bk1, s, elm, fp, h.h1);
        InsertedByFill(sc, st, elm, st1, st1, St());
      } else {
        r := InsertByKickout(elm, h, bk0, bk1, fp, st);
      }
    }

    /** Scans both buckets once: the node with the key if there is one, and the free slots otherwise. */
    method FindDuplicate(bk0: nat, bk1: nat, fp: Word, key: Key) returns (r: nat, zero0: Mask, zero1: Mask)
      requires Valid()
      requires bk0 == sc.B0(key) && bk1 == sc.B1(key) && fp == sc.Fp(key)
      ensures r != NIL ==> Stored(sc, St(), r) && St().n[r].key == key
      ensures r == NIL ==> forall i: nat :: Stored(sc, St(), i) ==> St().n[i].key != key
      ensures r == NIL ==> forall i :: 0 <= i < SLOTS ==> (zero0[i] <==> St().b[bk0].idx[i] == NIL)
      ensures r == NIL ==> forall i :: 0 <= i < SLOTS ==> (zero1[i] <==> St().b[bk1].idx[i] == NIL)
    {
      var hits0, hits1;
      hits0, zero0 := FindX16Two(buckets[bk0].hash, fp, 0);
      hits1, zero1 := FindX16Two(buckets[bk1].hash, fp, 0);
      r := CompareHits(bk0, hits0, key);
      if r != NIL {
        return;
      }
      r := CompareHits(bk1, hits1, key);
      if r != NIL {
        return;
      }
      FreshMisses(sc, St(), key, hits0, hits1, zero0, zero1);
    }

    /** The slow path: room in the first bucket, else in the second, else none. */
    method InsertByKickout(elm: nat, h: Hash, bk0: nat, bk1: nat, fp: Word, ghost st: Store) returns (r: nat)
      requires Valid() && 0 < elm < node.Length && !Stored(sc, St(), elm)
      requires h == sc.hash(node[elm].key) && node[elm].hashField == h.h0
      requires bk0 == sc.bucket(h.h0) && bk1 == sc.bucket(h.h1) && fp == sc.xor(h.h0, h.h1)
      requires forall i: nat :: Stored(sc, St(), i) ==> St().n[i].key != St().n[elm].key
      requires Full(St(), bk0) && Full(St(), bk1)
      requires OnlyNode(st, elm, St()) && forall j: nat :: Stored(sc, st, j) <==> Stored(sc, St(), j)
      modifies this`nb, buckets, node
      requires FirstFree(St(), bk0, 0) < 0 && FirstFree(St(), bk1, 0) < 0
      ensures Valid() && Inserted(sc, st, elm, r, St())
      ensures Kick(r, St()) == FreshOf(sc, old(St()), elm)
    {
      hide KickOf, PutAt, FirstFree, Inserted, Jammed, Live, Inv, Stored, Full, Same, KeepsBackLinks, FreesOne, KeepsStuck, KeepsOccupied;
      ghost var st1 := St();
      var pos := Kickout(bk0, FOLLOW_DEPTH);
      ghost var st2 := St();
      SameLive(sc, st1, st2);
      StillFresh(sc, st1, elm, st2);
      if pos >= 0 {
        Place(bk0, pos, elm, fp, h.h0);
        FilledByKick(sc, st, elm, st1, st2, bk0, pos, h.h0);
        return NIL;
      }
      assert st2 == st1;
      pos := Kickout(bk1, FOLLOW_DEPTH);
      ghost var st3 := St();
      SameLive(sc, st1, st3);
      StillFresh(sc, st1, elm, st3);
      if pos < 0 {
        NoRoom(sc, st, elm, st1);
        return elm;
      }
      Place(bk1, pos, elm, fp, h.h1);
      FilledByKick(sc, st, elm, st1, st3, bk1, pos, h.h1);
      r := NIL;
    }

    /** Writes elm into a free slot. */
    method Place(bk: nat, s: nat, elm: nat, fp: Word, hf: Word)
      requires Valid() && 0 < elm < node.Length && !Stored(sc, St(), elm)
      requires bk < buckets.Length && s < SLOTS && St().b[bk].idx[s] == NIL
      requires forall i: nat :: Stored(sc, St(), i) ==> St().n[i].key != St().n[elm].key
      requires fp == sc.Fp(node[elm].key) && sc.bucket(hf) == bk
      requires hf == sc.hash(node[elm].key).h0 || hf == sc.hash(node[elm].key).h1
      modifies this`nb, buckets, node
      ensures Valid() && St() == Filled(sc, old(St()), bk, s, elm, hf)
      ensures PutAt(sc, old(St()), bk, s, elm, hf) == Kick(NIL, St())
      ensures forall j: nat :: Stored(sc, St(), j) <==> Stored(sc, old(St()), j) || j == elm
    {
      assert Shape(sc, St());
      hide Inv, Stored, Live, Full;
      ghost var st := St();
      buckets[bk] := Bucket(buckets[bk].hash[s := fp], buckets[bk].idx[s := elm]);
      node[elm] := node[elm].(hashField := hf, slotField := s);
      nb := nb + 1;
      assert St() == Filled(sc, st, bk, s, elm, hf);
      FilledInv(sc, st, bk, s, elm, hf);
      LiveAdd(sc, st, St(), elm);
    }

    method Insert(elm: nat) returns (r: nat)
      requires Valid() && 0 < elm < node.Length
      requires Stored(sc, St(), elm) ==> sc.bucket(node[elm].hashField) == sc.B0(node[elm].key)
      modifies this`nb, buckets, node
      ensures Valid()
      ensures if Stored(sc, old(St()), elm) then r == elm && St() == old(St()) else Inserted(sc, old(St()), elm, r, St())
      ensures var st := old(St());
              var x0, x1 := sc.B0(st.n[elm].key), sc.B1(st.n[elm].key);
              (forall i: nat :: Stored(sc, st, i) ==> st.n[i].key != st.n[elm].key) ==>
                (r == elm <==> Full(st, x0) && Full(st, x1) && !Room(sc, st, x0, 4) && !Room(sc, st, x1, 4))
    {
      r := InsertHashed(elm, sc.hash(node[elm].key));
    }

    // ------------------------------------------------------------ remove

    /** Empties one slot and returns the node that was in it, or NIL. */
    method RemoveAt(bk: nat, slot: nat) returns (i: nat)
      requires Valid() && bk < buckets.Length
      modifies this`nb, buckets
      ensures Valid()
      ensures i == if slot < SLOTS then old(St()).b[bk].idx[slot] else NIL
      ensures i == NIL ==> St() == old(St())
      ensures i != NIL ==> slot < SLOTS && Removed(sc, old(St()), i, St()) && St() == Cleared(sc, old(St()), bk, slot)
    {
      ghost var st := St();
      if slot >= SLOTS {
        return NIL;
      }
      i := buckets[bk].idx[slot];
      if i == NIL {
        return NIL;
      }
      SlotLaws(sc, st, bk, slot);
      buckets[bk] := Bucket(buckets[bk].hash[slot := 0], buckets[bk].idx[slot := NIL]);
      ClearedInv(sc, st, bk, slot);
      assert St() == Cleared(sc, st, bk, slot);
      LiveRemove(sc, st, St(), i);
      assert i in Live(sc, st);
      nb := nb - 1;
    }

    /** Takes elm out by its own bucket word and slot; a node outside the table is left alone. */
    method Remove(elm: nat) returns (r: nat)
      requires Valid() && 0 < elm < node.Length
      modifies this`nb, buckets
      ensures Valid()
      ensures r == if Stored(sc, old(St()), elm) then elm else NIL
      ensures r == NIL ==> St() == old(St())
      ensures r != NIL ==>
                && Removed(sc, old(St()), elm, St())
                && St() == Cleared(sc, old(St()), sc.bucket(old(node[elm].hashField)), old(node[elm].slotField))
    {
      var bk := sc.bucket(node[elm].hashField);
      var slot := node[elm].slotField;
      if slot >= SLOTS {
        return NIL;
      }
      if buckets[bk].idx[slot] != elm {
        return NIL;
      }
      var i := RemoveAt(bk, slot);
      if i != NIL {
        return elm;
      }
      r := NIL;
    }
  }
}
