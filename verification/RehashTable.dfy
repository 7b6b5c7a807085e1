/**
 * The cuckoo tables without a hash field in the node: the integer-key tables, whose buckets hold the keys,
 * and the key-only table, whose buckets hold fingerprints. The other bucket comes from hashing the key again.
 */
module RehashTableModel {
  import opened HashScheme
  import opened RehashStore
  import opened Bits16

  /** How many levels insert lets kickout recurse. */
  const FOLLOW_DEPTH: int := 4

  /** The integer-key tables: the tag is the key, and the key set aside for empty slots is never inserted. */
  function IntegerLayout(sc: Scheme, invalid: Key): Layout<Key> {
    Layout(sc, (k: Key) => k, invalid, true, sc.hash)
  }

  /** The key-only table: the tag is the fingerprint. */
  function KeyOnlyLayout(sc: Scheme): Layout<Word> {
    Layout(sc, (k: Key) => sc.Fp(k), 0, false, (w: Word) => Hash(w, w))
  }

  lemma LayoutsLawful(sc: Scheme, invalid: Key)
    requires sc.Lawful()
    ensures var la := IntegerLayout(sc, invalid);
            la.Lawful() && la.exact && la.empty == invalid && forall k :: la.tag(k) == k
    ensures var la := KeyOnlyLayout(sc);
            la.Lawful() && !la.exact && la.empty == 0 && forall k :: la.tag(k) == sc.xor(sc.hash(k).h0, sc.hash(k).h1)
  {
    forall k
      ensures sc.B0(k) != sc.B1(k) && sc.Fp(k) != 0
    {
      assert sc.KeyLaws(k);
    }
  }

  datatype Position = Position(bucket: nat, slot: nat)

  class RehashTable<T(==)> {
    const la: Layout<T>
    const buckets: array<KBucket<T>>
    /** The caller's node array; cell 0 is the unused NIL cell. */
    const node: array<KNode>
    var nb: nat

    ghost function St(): KStore<T>
      reads buckets, node
    {
      KStore(buckets[..], node[..])
    }

    ghost predicate Valid()
      reads this, buckets, node
    {
      la.Lawful() && buckets.Length == la.sc.nbBk && Inv(la, St()) && nb == |Live(St())|
    }

    /** Fills every slot with the mark of an empty slot and no index. */
    constructor (la: Layout<T>, buckets: array<KBucket<T>>, node: array<KNode>)
      requires la.Lawful() && buckets.Length == la.sc.nbBk && 0 < node.Length
      modifies buckets
      ensures this.la == la && this.buckets == buckets && this.node == node
      ensures Valid() && Contents(St()) == map[]
    {
      this.la, this.buckets, this.node, nb := la, buckets, node, 0;
      new;
      var empty := KBucket(seq(SLOTS, _ => la.empty), seq(SLOTS, _ => NIL));
      for b := 0 to buckets.Length
        invariant forall c :: 0 <= c < b ==> buckets[c] == empty
        modifies buckets
      {
        buckets[b] := empty;
      }
      ghost var st := St();
      assert forall x :: 0 <= x < |st.b| ==> |st.b[x].tag| == SLOTS && |st.b[x].idx| == SLOTS;
      forall x, s | 0 <= x < |st.b| && 0 <= s < SLOTS
        ensures SlotOk(la, st, x, s)
      {
        assert st.b[x].tag[s] == la.empty && st.b[x].idx[s] == NIL;
      }
      assert forall x: nat, s: nat, i: nat :: !At(st, x, s, i);
      assert Live(st) == {};
    }

    // ------------------------------------------------------------ kickout

    /** The lowest slot with the mark of an empty slot, or -1. */
    method FindEmpty(bk: nat) returns (r: int)
      requires Inv(la, St()) && bk < buckets.Length
      ensures -1 <= r < SLOTS && (r < 0 <==> Full(St(), bk))
      ensures 0 <= r ==> St().b[bk].idx[r] == NIL && forall t :: 0 <= t < r ==> St().b[bk].idx[t] != NIL
    {
      ghost var st := St();
      var nilm := FindX16(buckets[bk].tag, la.empty);
      forall t | 0 <= t < SLOTS
        ensures nilm[t] <==> st.b[bk].idx[t] == NIL
      {
        assert SlotOk(la, st, bk, t);
      }
      if !Any(nilm) {
        return -1;
      }
      r := Lowest(nilm);
    }

    /** The hash of an occupant's key: of the word in the bucket where that is the key, else of the node's key. */
    method VictimHash(bk: nat, slot: nat) returns (h: Hash)
      requires la.Lawful() && Inv(la, St()) && bk < buckets.Length && slot < SLOTS && St().b[bk].idx[slot] != NIL
      ensures St().b[bk].idx[slot] < node.Length && la.Candidate(node[St().b[bk].idx[slot]].key, bk)
      ensures h == la.sc.hash(node[St().b[bk].idx[slot]].key)
    {
      assert SlotOk(la, St(), bk, slot);
      h := if la.exact then la.hashOf(buckets[bk].tag[slot]) else la.sc.hash(node[buckets[bk].idx[slot]].key);
    }

    /** The other bucket of a key that sits in bucket bk, from its hash. */
    method AltOf(bk: nat, h: Hash, ghost key: Key) returns (ab: nat)
      requires la.Lawful() && la.Candidate(key, bk) && h == la.sc.hash(key)
      ensures ab == la.sc.Alt(key, bk) && ab != bk && ab < la.sc.nbBk
    {
      var b0, b1 := la.sc.bucket(h.h0), la.sc.bucket(h.h1);
      assert la.sc.B0(key) != la.sc.B1(key);
      ab := if bk == b0 then b1 else b0;
    }

    /** Writes the occupant of a slot into a free slot of its other bucket and empties the old one. */
    method MoveTo(bk: nat, slot: nat, ab: nat, es: nat)
      requires la.Lawful() && Inv(la, St()) && bk < buckets.Length && slot < SLOTS && es < SLOTS
      requires St().b[bk].idx[slot] != NIL && St().b[bk].idx[slot] < |St().n| && ab == AltAt(la, St(), bk, slot) && ab < buckets.Length && ab != bk
      requires St().b[ab].idx[es] == NIL
      modifies buckets
      ensures Inv(la, St()) && Same(old(St()), St()) && St().b[bk].idx[slot] == NIL
      ensures St() == Moved(la, old(St()), bk, slot, ab, es)
    {
      ghost var st := St();
      MovedInv(la, st, bk, slot, ab, es);
      buckets[ab] := KBucket(buckets[ab].tag[es := buckets[bk].tag[slot]], buckets[ab].idx[es := buckets[bk].idx[slot]]);
      buckets[bk] := KBucket(buckets[bk].tag[slot := la.empty], buckets[bk].idx[slot := NIL]);
      assert St().b == Moved(la, st, bk, slot, ab, es).b;
    }

    /** Moves the occupant of a slot to its other bucket if that has room. */
    method FlipFlop(bk: nat, slot: nat) returns (r: int, ghost a: nat, ghost f: nat)
      requires la.Lawful() && Inv(la, St()) && bk < buckets.Length && buckets.Length == la.sc.nbBk && slot < SLOTS
      modifies buckets
      ensures r == -1 || r == slot
      ensures r < 0 ==> St() == old(St()) && Pinned(la, St(), bk, slot)
      ensures 0 <= r ==>
                && old(St()).b[bk].idx[slot] != NIL && old(St()).b[bk].idx[slot] < |old(St()).n|
                && a == AltAt(la, old(St()), bk, slot) && a < buckets.Length && a != bk
                && f < SLOTS && old(St()).b[a].idx[f] == NIL
                && St() == Moved(la, old(St()), bk, slot, a, f)
    {
      hide Same, Stored;
      ghost var st := St();
      assert SlotOk(la, st, bk, slot);
      a, f := 0, 0;
      if buckets[bk].idx[slot] == NIL {
        return -1, 0, 0;
      }
      var h := VictimHash(bk, slot);
      var ab := AltOf(bk, h, node[buckets[bk].idx[slot]].key);
      var es := FindEmpty(ab);
      a := ab;
      if es < 0 {
        return -1, a, 0;
      }
      f := es;
      MoveTo(bk, slot, ab, es);
      r := slot;
    }

    /** The first pass of kickout: the first occupant that can move directly does. */
    method MoveDirect(bk: nat, ghost depth: int) returns (r: int)
      requires la.Lawful() && Inv(la, St()) && bk < buckets.Length && buckets.Length == la.sc.nbBk && 1 <= depth
      modifies buckets
      ensures 0 <= r ==> Kicked(la, old(St()), bk, depth, r, St())
      ensures r < 0 ==> r == -1 && St() == old(St()) && Jammed(la, St(), bk)
      ensures 0 <= r ==> Room(la, old(St()), bk, depth)
    {
      hide Kicked, Same, Stored, KeysApart;
      ghost var st := St();
      for s := 0 to SLOTS
        invariant St() == st
        invariant forall t :: 0 <= t < s ==> Pinned(la, st, bk, t)
      {
        ghost var a, f;
        var q;
        q, a, f := FlipFlop(bk, s);
        if q >= 0 {
          DirectKick(la, st, bk, s, a, f, depth);
          assert Leaves(la, st, bk, s, depth);
          return s;
        }
      }
      r := -1;
    }

    /** Makes a free slot in bucket bk, recursing to the given depth. */
    method Kickout(bk: nat, depth: int) returns (r: int)
      requires la.Lawful() && Inv(la, St()) && bk < buckets.Length && buckets.Length == la.sc.nbBk
      modifies buckets
      ensures Kicked(la, old(St()), bk, depth, r, St())
      ensures Quiet(old(St()), bk, depth) ==> (0 <= r <==> Room(la, old(St()), bk, depth))
      decreases depth, 1
    {
      hide Stored, KeysApart, SlotOk, Pinned, Leaves;
      ghost var st := St();
      if depth <= 0 {
        NoRoomAtDepth0(la, st, bk, depth);
        return -1;
      }
      r := MoveDirect(bk, depth);
      if r >= 0 {
        return;
      }
      for s := 0 to SLOTS
        invariant Inv(la, St()) && Same(st, St())
        invariant Quiet(st, bk, depth) ==> St() == st && forall t :: 0 <= t < s ==> !Leaves(la, st, bk, t, depth)
      {
        r := KickThrough(bk, s, depth, st);
        if r >= 0 {
          return;
        }
      }
      r := -1;
    }

    /** One round of the second pass; the entry may have been relocated by the recursion. */
    method KickThrough(bk: nat, s: nat, depth: int, ghost st: KStore<T>) returns (r: int)
      requires la.Lawful() && Inv(la, St()) && Inv(la, st) && Same(st, St()) && bk < buckets.Length && buckets.Length == la.sc.nbBk
      requires s < SLOTS && 1 <= depth && Jammed(la, st, bk)
      requires Quiet(st, bk, depth) ==> St() == st
      modifies buckets
      ensures 0 <= r ==> Kicked(la, st, bk, depth, r, St())
      ensures r < 0 ==> r == -1 && Inv(la, St()) && Same(st, St()) && (Quiet(st, bk, depth) ==> St() == st)
      ensures Quiet(st, bk, depth) ==> (0 <= r <==> Leaves(la, st, bk, s, depth))
      decreases depth, 0
    {
      hide Kicked, Stored, KeysApart, Jammed, Full, Room, Leaves, Quiet;
      ghost var st0 := St();
      assert SlotOk(la, st0, bk, s);
      var tag, si := buckets[bk].tag[s], buckets[bk].idx[s];
      LeavesBy(la, st, bk, s, depth);
      if si == NIL {
        return -1;
      }
      if Quiet(st, bk, depth) {
        QuietBelow(la, st, bk, s, depth);
      }
      var h := VictimHash(bk, s);
      var ab := AltOf(bk, h, node[si].key);
      var q := Kickout(ab, depth - 1);
      ghost var st1 := St();
      KickedBasics(la, st0, ab, depth - 1, q, st1);
      SameTrans(st, st0, st1);
      if q < 0 {
        if Quiet(st, bk, depth) {
          KickFailed(la, st, bk, s, ab, depth, q, st1);
        }
        return -1;
      }
      if Quiet(st, bk, depth) {
        HeldEntry(la, st, bk, s, ab, depth, q, st1);
        assert SlotOk(la, st1, bk, s);
      }
      if buckets[bk].tag[s] != tag || buckets[bk].idx[s] != si {
        r := FindEmpty(bk);
        if r >= 0 {
          KickedLoose(la, st, bk, depth, r, St());
        }
        return;
      }
      r := MoveHeld(bk, s, ab, depth, q, st);
    }

    /** The inline move at the end of a round: the other bucket has room now. */
    method MoveHeld(bk: nat, s: nat, ab: nat, ghost depth: int, ghost q: int, ghost st: KStore<T>) returns (r: int)
      requires la.Lawful() && Inv(la, St()) && Inv(la, st) && Same(st, St())
      requires bk < buckets.Length && s < SLOTS && 1 <= depth && 0 <= q < SLOTS && Jammed(la, st, bk)
      requires St().b[bk].idx[s] != NIL && St().b[bk].idx[s] < |St().n| && ab == AltAt(la, St(), bk, s)
      requires ab < buckets.Length && ab != bk && St().b[ab].idx[q] == NIL
      requires Quiet(st, bk, depth) ==>
                 && st.b[bk].idx[s] != NIL && st.b[bk].idx[s] < |st.n| && ab == AltAt(la, st, bk, s)
                 && Kicked(la, st, ab, depth - 1, q, St())
      modifies buckets
      ensures r == s && Kicked(la, st, bk, depth, r, St())
    {
      hide Kicked, Same, Jammed, Stored, KeysApart, SlotOk;
      ghost var st1 := St();
      var es := FindEmpty(ab);
      assert 0 <= es;
      MoveTo(bk, s, ab, es);
      SameTrans(st, st1, St());
      if Quiet(st, bk, depth) {
        RelayKick(la, st, bk, s, ab, depth, q, st1, es);
      } else {
        KickedLoose(la, st, bk, depth, s, St());
      }
      r := s;
    }

    // ------------------------------------------------------------ find

    /**
     * Looks for a key in a bucket. Where a match of tags is exact the first one is taken as it is, empty
     * slots included when the key is the mark; otherwise the keys of all matches are compared.
     */
    method Match(bk: nat, key: Key) returns (found: bool, i: nat)
      requires la.Lawful() && Inv(la, St()) && bk < buckets.Length
      ensures i != NIL ==> found && i < |St().n| && Stored(St(), i) && St().n[i].key == key
      ensures i == NIL ==> NotIn(St(), bk, key)
      ensures found && la.tag(key) != la.empty ==> i != NIL
    {
      ghost var st := St();
      var hits := FindX16(buckets[bk].tag, la.tag(key));
      if la.exact {
        found, i := MatchFirst(bk, key, hits);
      } else {
        i := MatchCompare(bk, key, hits);
        found := i != NIL;
      }
    }

    method MatchFirst(bk: nat, key: Key, hits: Mask) returns (found: bool, i: nat)
      requires la.Lawful() && la.exact && Inv(la, St()) && bk < buckets.Length
      requires forall s :: 0 <= s < SLOTS ==> (hits[s] <==> St().b[bk].tag[s] == la.tag(key))
      ensures i != NIL ==> found && i < |St().n| && Stored(St(), i) && St().n[i].key == key
      ensures i == NIL ==> NotIn(St(), bk, key)
      ensures found && la.tag(key) != la.empty ==> i != NIL
    {
      ghost var st := St();
      found, i := Any(hits), NIL;
      if found {
        var bit := Lowest(hits);
        assert SlotOk(la, st, bk, bit);
        i := buckets[bk].idx[bit];
        assert i != NIL ==> At(st, bk, bit, i);
      }
      forall s: nat, j: nat | At(st, bk, s, j) && j < |st.n|
        ensures st.n[j].key == key ==> s < SLOTS && hits[s] && la.tag(key) != la.empty
      {
        AtLaws(la, st, bk, s, j);
      }
    }

    method MatchCompare(bk: nat, key: Key, hits: Mask) returns (i: nat)
      requires Inv(la, St()) && bk < buckets.Length
      requires forall s :: 0 <= s < SLOTS ==> (hits[s] <==> St().b[bk].tag[s] == la.tag(key))
      ensures i != NIL ==> i < |St().n| && Stored(St(), i) && St().n[i].key == key
      ensures i == NIL ==> NotIn(St(), bk, key)
    {
      ghost var st := St();
      forall s: nat, j: nat | At(st, bk, s, j) && j < |st.n|
        ensures st.n[j].key == key ==> s < SLOTS && hits[s]
      {
        AtLaws(la, st, bk, s, j);
      }
      for s := 0 to LANES
        invariant forall u: nat, j: nat :: u < s && At(st, bk, u, j) && j < |st.n| ==> st.n[j].key != key
      {
        if hits[s] {
          assert SlotOk(la, st, bk, s);
          i := buckets[bk].idx[s];
          if i != NIL && node[i].key == key {
            assert At(st, bk, s, i);
            return;
          }
        }
      }
      i := NIL;
    }

    /** The stored node with the key, NIL if there is none. */
    method Find(key: Key) returns (r: nat)
      requires Valid()
      ensures r != NIL ==> r in Contents(St()) && Contents(St())[r] == key
      ensures r == NIL <==> key !in Contents(St()).Values
    {
      ghost var st := St();
      LiveMembers(la, st);
      var h := la.sc.hash(key);
      var found;
      found, r := Match(la.sc.bucket(h.h0), key);
      if found && r == NIL {
        Unmarked(la, st, key);
      } else if !found {
        found, r := Match(la.sc.bucket(h.h1), key);
        if r == NIL {
          AbsentKey(la, st, key);
        }
      }
      if r != NIL {
        assert r in Contents(st) && Contents(st)[r] == key;
      }
    }

    // ------------------------------------------------------------ insert

    /**
     * Adds elm and returns NIL, returns the node that already has its key, which may be elm itself, or
     * returns elm, with the table untouched, when no room could be made. Its tag must not be the mark of an empty slot.
     */
    method Insert(elm: nat) returns (r: nat)
      requires Valid() && 0 < elm < node.Length && la.tag(node[elm].key) != la.empty
      modifies this`nb, buckets
      ensures Valid() && Inserted(la, old(St()), elm, r, St())
      ensures var st := old(St());
              var x0, x1 := la.sc.B0(st.n[elm].key), la.sc.B1(st.n[elm].key);
              (forall i: nat :: Stored(st, i) && i < |st.n| ==> st.n[i].key != st.n[elm].key) ==>
                (r == elm <==> Full(st, x0) && Full(st, x1) && !Room(la, st, x0, 4) && !Room(la, st, x1, 4))
    {
      hide Stored, KeysApart, SlotOk, Jammed, Live, Room, Pinned;
      ghost var st := St();
      var h := la.sc.hash(node[elm].key);
      var bk0, bk1 := la.sc.bucket(h.h0), la.sc.bucket(h.h1);
      var found;
      found, r := Match(bk0, node[elm].key);
      if found {
        return;
      }
      found, r := Match(bk1, node[elm].key);
      if found {
        return;
      }
      AbsentKey(la, st, node[elm].key);
      NoSelf(st, elm);
      var slot := FindEmpty(bk0);
      if slot >= 0 {
        Place(bk0, slot, elm);
        return NIL;
      }
      slot := FindEmpty(bk1);
      if slot >= 0 {
        Place(bk1, slot, elm);
        return NIL;
      }
      r := InsertByKickout(elm, bk0, bk1);
    }

    lemma NoSelf(st: KStore<T>, elm: nat)
      requires elm < |st.n| && forall i: nat :: Stored(st, i) && i < |st.n| ==> st.n[i].key != st.n[elm].key
      ensures !Stored(st, elm)
    {
    }

    method InsertByKickout(elm: nat, bk0: nat, bk1: nat) returns (r: nat)
      requires Valid() && 0 < elm < node.Length && la.tag(node[elm].key) != la.empty && !Stored(St(), elm)
      requires bk0 == la.sc.B0(node[elm].key) && bk1 == la.sc.B1(node[elm].key) && Full(St(), bk0) && Full(St(), bk1)
      requires forall i: nat :: Stored(St(), i) && i < |St().n| ==> St().n[i].key != St().n[elm].key
      modifies this`nb, buckets
      ensures Valid() && Inserted(la, old(St()), elm, r, St())
    {
      hide Stored, KeysApart, SlotOk, Jammed, Live, Full;
      ghost var st := St();
      var slot := Kickout(bk0, FOLLOW_DEPTH);
      LiveSame(la, st, St());
      if slot >= 0 {
        Place(bk0, slot, elm);
        return NIL;
      }
      assert St() == st;
      slot := Kickout(bk1, FOLLOW_DEPTH);
      LiveSame(la, st, St());
      if slot < 0 {
        return elm;
      }
      Place(bk1, slot, elm);
      r := NIL;
    }

    method Place(bk: nat, slot: nat, elm: nat)
      requires Valid() && 0 < elm < node.Length && la.tag(node[elm].key) != la.empty && !Stored(St(), elm)
      requires bk < buckets.Length && slot < SLOTS && St().b[bk].idx[slot] == NIL && la.Candidate(node[elm].key, bk)
      requires forall i: nat :: Stored(St(), i) && i < |St().n| ==> St().n[i].key != St().n[elm].key
      modifies this`nb, buckets
      ensures Valid() && |St().b| == |old(St()).b| && St() == WithSlot(old(St()), bk, slot, la.tag(node[elm].key), elm)
      ensures forall j: nat :: Stored(St(), j) <==> Stored(old(St()), j) || j == elm
    {
      hide Stored, KeysApart, SlotOk, Live;
      ghost var st := St();
      FilledInv(la, st, bk, slot, elm);
      buckets[bk] := KBucket(buckets[bk].tag[slot := la.tag(node[elm].key)], buckets[bk].idx[slot := elm]);
      nb := nb + 1;
      assert St().b == WithSlot(st, bk, slot, la.tag(st.n[elm].key), elm).b;
      LiveAdd(la, st, St(), elm);
    }

    // ------------------------------------------------------------ remove

    /** Takes elm out by looking for its index in the two buckets of its key. */
    method Remove(elm: nat) returns (r: nat)
      requires Valid() && 0 < elm < node.Length
      modifies this`nb, buckets
      ensures Valid() && r == if Stored(old(St()), elm) then elm else NIL
      ensures if r == NIL then St() == old(St()) else Removed(old(St()), elm, St())
    {
      hide Stored, KeysApart, SlotOk, Live;
      var h := la.sc.hash(node[elm].key);
      var did := RemoveFrom(la.sc.bucket(h.h0), elm);
      if did {
        return elm;
      }
      did := RemoveFrom(la.sc.bucket(h.h1), elm);
      if did {
        return elm;
      }
      AbsentNode(la, St(), elm);
      r := NIL;
    }

    /** Empties the first slot of a bucket that names elm. */
    method RemoveFrom(bk: nat, elm: nat) returns (did: bool)
      requires Valid() && 0 < elm < node.Length && bk < buckets.Length
      modifies this`nb, buckets
      ensures Valid() && (did ==> Removed(old(St()), elm, St()))
      ensures !did ==> St() == old(St()) && forall s :: 0 <= s < SLOTS ==> St().b[bk].idx[s] != elm
    {
      ghost var st := St();
      var hits := FindX16(buckets[bk].idx, elm);
      did := Any(hits);
      if did {
        var slot := Lowest(hits);
        assert At(st, bk, slot, elm);
        hide Stored, KeysApart, SlotOk, Live;
        ClearedInv(la, st, bk, slot);
        buckets[bk] := KBucket(buckets[bk].tag[slot := la.empty], buckets[bk].idx[slot := NIL]);
        assert St().b == Cleared(la, st, bk, slot).b;
        LiveRemove(la, st, St(), elm);
        nb := nb - 1;
      }
    }

    // ------------------------------------------------------------ walk

    /** Calls cb on the occupant of every slot in table order and stops at the first answer other than 0. */
    method Walk(cb: nat -> int) returns (rc: int, visited: seq<nat>)
      requires Valid()
      ensures (forall k :: 0 <= k < |visited| ==> Stored(St(), visited[k])) && forall j, k :: 0 <= j < k < |visited| ==> visited[j] != visited[k]
      ensures forall k :: 0 <= k < |visited| - 1 ==> cb(visited[k]) == 0
      ensures if rc != 0 then |visited| > 0 && rc == cb(visited[|visited| - 1])
              else (forall i: nat :: Stored(St(), i) ==> i in visited) && forall k :: 0 <= k < |visited| ==> cb(visited[k]) == 0
    {
      hide Inv, Live;
      ghost var st: KStore<T>, pos: seq<Position> := St(), [];
      visited, rc := [], 0;
      for b := 0 to buckets.Length
        invariant Walked(st, b, 0, visited, pos) && forall k :: 0 <= k < |visited| ==> cb(visited[k]) == 0
      {
        NextBucketShape(st, b);
        for s := 0 to SLOTS
          invariant Walked(st, b, s, visited, pos) && forall k :: 0 <= k < |visited| ==> cb(visited[k]) == 0
        {
          var i := buckets[b].idx[s];
          WalkStep(st, b, s, visited, pos);
          if i != NIL {
            visited, pos := visited + [i], pos + [Position(b, s)];
            rc := cb(i);
            if rc != 0 {
              return;
            }
          }
        }
        NextBucket(st, b, visited, pos);
      }
      forall i: nat | Stored(st, i)
        ensures i in visited
      {
        var x: nat, s: nat :| At(st, x, s, i);
        assert Before(Position(x, s), buckets.Length, 0);
      }
    }

    lemma NextBucketShape(st: KStore<T>, b: nat)
      requires Inv(la, st) && b < |st.b|
      ensures |st.b[b].idx| == SLOTS
    {
    }

    /** Position p comes before slot s of bucket b. */
    ghost predicate Before(p: Position, b: nat, s: nat) {
      p.bucket < b || (p.bucket == b && p.slot < s)
    }

    /** Exactly the occupants before slot s of bucket b have been visited, once each; pos says where they sit. */
    ghost predicate Walked(st: KStore<T>, b: nat, s: nat, visited: seq<nat>, pos: seq<Position>) {
      && |pos| == |visited|
      && (forall k :: 0 <= k < |visited| ==> At(st, pos[k].bucket, pos[k].slot, visited[k]) && Before(pos[k], b, s))
      && (forall j, k :: 0 <= j < k < |visited| ==> visited[j] != visited[k])
      && forall x: nat, t: nat, i: nat :: At(st, x, t, i) && Before(Position(x, t), b, s) ==> i in visited
    }

    lemma WalkStep(st: KStore<T>, b: nat, s: nat, visited: seq<nat>, pos: seq<Position>)
      requires Inv(la, st) && b < |st.b| && s < |st.b[b].idx| && Walked(st, b, s, visited, pos)
      ensures var i := st.b[b].idx[s];
              if i == NIL then Walked(st, b, s + 1, visited, pos)
              else Walked(st, b, s + 1, visited + [i], pos + [Position(b, s)])
    {
      var i := st.b[b].idx[s];
      if i != NIL {
        assert At(st, b, s, i);
        AtLaws(la, st, b, s, i);
        var v, p := visited + [i], pos + [Position(b, s)];
        forall k | 0 <= k < |visited|
          ensures visited[k] != i
        {
          assert At(st, pos[k].bucket, pos[k].slot, visited[k]) && Before(pos[k], b, s);
        }
        forall x: nat, t: nat, j: nat | At(st, x, t, j) && Before(Position(x, t), b, s + 1)
          ensures j in v
        {
          if Before(Position(x, t), b, s) {
            assert j in visited;
          } else {
            assert v[|visited|] == i;
          }
        }
      }
    }

    lemma NextBucket(st: KStore<T>, b: nat, visited: seq<nat>, pos: seq<Position>)
      requires Inv(la, st) && b < |st.b| && Walked(st, b, SLOTS, visited, pos)
      ensures Walked(st, b + 1, 0, visited, pos)
    {
      forall x: nat, t: nat, i: nat | At(st, x, t, i) && Before(Position(x, t), b + 1, 0)
        ensures i in visited
      {
        assert Before(Position(x, t), b, SLOTS);
      }
      forall k | 0 <= k < |visited|
        ensures Before(pos[k], b + 1, 0)
      {
        assert Before(pos[k], b, SLOTS);
      }
    }
  }
}
