/** The slot table as a value: buckets of fingerprints and node indices, and the nodes they name. */
module SlotStore {
  import opened HashScheme

  const NIL: nat := 0
  const SLOTS: nat := 16

  /** A bucket holds a fingerprint and a node index per slot. */
  datatype Bucket = Bucket(hash: seq<Word>, idx: seq<nat>)

  /** The node fields that the table reads and writes. */
  datatype Node = Node(key: Key, hashField: Word, slotField: nat)

  datatype Store = Store(b: seq<Bucket>, n: seq<Node>)

  ghost predicate Shape(sc: Scheme, st: Store) {
    && |st.b| == sc.nbBk
    && forall x :: 0 <= x < |st.b| ==> |st.b[x].hash| == SLOTS && |st.b[x].idx| == SLOTS
  }

  /** Slot s of bucket x is empty, or names a node whose own fields lead back to it. */
  ghost predicate SlotOk(sc: Scheme, st: Store, x: nat, s: nat)
    requires Shape(sc, st) && x < |st.b| && s < SLOTS
  {
    var i := st.b[x].idx[s];
    && (st.b[x].hash[s] == 0 <==> i == NIL)
    && (i != NIL ==>
          && i < |st.n|
          && st.n[i].slotField == s
          && sc.bucket(st.n[i].hashField) == x
          && st.b[x].hash[s] == sc.Fp(st.n[i].key)
          && (st.n[i].hashField == sc.hash(st.n[i].key).h0 || st.n[i].hashField == sc.hash(st.n[i].key).h1))
  }

  /** Node i is in the table: the slot that its fields name holds it. */
  ghost predicate Stored(sc: Scheme, st: Store, i: nat) {
    && 0 < i < |st.n|
    && sc.bucket(st.n[i].hashField) < |st.b|
    && st.n[i].slotField < |st.b[sc.bucket(st.n[i].hashField)].idx|
    && st.b[sc.bucket(st.n[i].hashField)].idx[st.n[i].slotField] == i
  }

  ghost predicate Inv(sc: Scheme, st: Store) {
    && Shape(sc, st) && 0 < |st.n|
    && (forall x, s :: 0 <= x < |st.b| && 0 <= s < SLOTS ==> SlotOk(sc, st, x, s))
    && (forall i :: 0 <= i < |st.n| ==> st.n[i].slotField < SLOTS)
    && KeysUnique(sc, st)
  }

  ghost predicate KeysUnique(sc: Scheme, st: Store) {
    forall i: nat, j: nat :: Stored(sc, st, i) && Stored(sc, st, j) && st.n[i].key == st.n[j].key ==> i == j
  }

  ghost function Live(sc: Scheme, st: Store): set<nat> {
    set i | 0 <= i < |st.n| && Stored(sc, st, i)
  }

  /** The finite map that the table stands for: stored node index to key; KeysUnique makes it injective. */
  ghost function Contents(sc: Scheme, st: Store): map<nat, Key> {
    map i | i in Live(sc, st) :: st.n[i].key
  }

  /** Both states hold the same nodes under the same keys, and nodes outside the table are untouched. */
  ghost predicate Same(sc: Scheme, st: Store, st': Store) {
    && |st'.b| == |st.b| && |st'.n| == |st.n|
    && (forall i: nat :: Stored(sc, st', i) <==> Stored(sc, st, i))
    && (forall i :: 0 <= i < |st.n| ==> st'.n[i].key == st.n[i].key)
    && (forall i :: 0 <= i < |st.n| && !Stored(sc, st, i) ==> st'.n[i] == st.n[i])
  }

  lemma SameTrans(sc: Scheme, s1: Store, s2: Store, s3: Store)
    requires Same(sc, s1, s2) && Same(sc, s2, s3)
    ensures Same(sc, s1, s3)
  {
  }

  lemma SameContents(sc: Scheme, st: Store, st': Store)
    requires Same(sc, st, st')
    ensures Live(sc, st') == Live(sc, st) && Contents(sc, st') == Contents(sc, st)
  {
    assert forall i :: i in Live(sc, st') <==> i in Live(sc, st);
  }

  lemma SlotLaws(sc: Scheme, st: Store, x: nat, s: nat)
    requires sc.Lawful() && Inv(sc, st) && x < |st.b| && s < SLOTS && st.b[x].idx[s] != NIL
    ensures var i := st.b[x].idx[s];
            && i < |st.n| && Stored(sc, st, i) && st.b[x].hash[s] != 0
            && sc.bucket(st.n[i].hashField) == x && st.n[i].slotField == s
            && st.b[x].hash[s] == sc.Fp(st.n[i].key)
            && (x == sc.B0(st.n[i].key) || x == sc.B1(st.n[i].key))
            && sc.bucket(sc.xor(st.b[x].hash[s], st.n[i].hashField)) == sc.Alt(st.n[i].key, x)
            && sc.Alt(st.n[i].key, x) != x && sc.Alt(st.n[i].key, x) < |st.b|
            && (var hf' := sc.xor(st.b[x].hash[s], st.n[i].hashField); hf' == sc.hash(st.n[i].key).h0 || hf' == sc.hash(st.n[i].key).h1)
  {
    assert SlotOk(sc, st, x, s);
    assert sc.KeyLaws(st.n[st.b[x].idx[s]].key);
  }

  /** A stored node sits in one of the two candidate buckets of its key. */
  lemma StoredLaws(sc: Scheme, st: Store, i: nat)
    requires sc.Lawful() && Inv(sc, st) && Stored(sc, st, i)
    ensures var x, s := sc.bucket(st.n[i].hashField), st.n[i].slotField;
            && x < |st.b| && s < SLOTS && st.b[x].idx[s] == i
            && st.b[x].hash[s] == sc.Fp(st.n[i].key)
            && (x == sc.B0(st.n[i].key) || x == sc.B1(st.n[i].key))
  {
    SlotLaws(sc, st, sc.bucket(st.n[i].hashField), st.n[i].slotField);
  }

  // ------------------------------------------------------------- slot writes

  ghost function WithSlot(b: seq<Bucket>, x: nat, s: nat, h: Word, i: nat): seq<Bucket>
    requires x < |b| && s < |b[x].hash| && s < |b[x].idx|
  {
    b[x := Bucket(b[x].hash[s := h], b[x].idx[s := i])]
  }

  /** Slot s of bucket x becomes empty. */
  ghost function Cleared(sc: Scheme, st: Store, x: nat, s: nat): Store
    requires Shape(sc, st) && x < |st.b| && s < SLOTS
  {
    st.(b := WithSlot(st.b, x, s, 0, NIL))
  }

  /** Node i with bucket word hf goes into slot s of bucket x. */
  ghost function Filled(sc: Scheme, st: Store, x: nat, s: nat, i: nat, hf: Word): Store
    requires Shape(sc, st) && x < |st.b| && s < SLOTS && i < |st.n|
  {
    Store(WithSlot(st.b, x, s, sc.Fp(st.n[i].key), i), st.n[i := st.n[i].(hashField := hf, slotField := s)])
  }

  lemma SlotWriteCells(sc: Scheme, st: Store, x: nat, s: nat, h: Word, i: nat)
    requires Shape(sc, st) && x < |st.b| && s < SLOTS
    ensures var b' := WithSlot(st.b, x, s, h, i);
            && |b'| == |st.b| && Shape(sc, st.(b := b'))
            && b'[x].hash[s] == h && b'[x].idx[s] == i
            && forall y, t :: 0 <= y < |st.b| && 0 <= t < SLOTS && (y != x || t != s) ==>
                 b'[y].hash[t] == st.b[y].hash[t] && b'[y].idx[t] == st.b[y].idx[t]
  {
  }

  lemma ClearedInv(sc: Scheme, st: Store, x: nat, s: nat)
    requires Inv(sc, st) && x < |st.b| && s < SLOTS && st.b[x].idx[s] != NIL
    ensures var st' := Cleared(sc, st, x, s);
            && Inv(sc, st')
            && forall j: nat :: Stored(sc, st', j) <==> Stored(sc, st, j) && j != st.b[x].idx[s]
  {
    var st', i := Cleared(sc, st, x, s), st.b[x].idx[s];
    SlotWriteCells(sc, st, x, s, 0, NIL);
    assert SlotOk(sc, st, x, s);
    forall y, t | 0 <= y < |st'.b| && 0 <= t < SLOTS
      ensures SlotOk(sc, st', y, t)
    {
      assert SlotOk(sc, st, y, t);
    }
  }

  lemma FilledInv(sc: Scheme, st: Store, x: nat, s: nat, i: nat, hf: Word)
    requires sc.Lawful() && Inv(sc, st) && x < |st.b| && s < SLOTS && st.b[x].idx[s] == NIL
    requires 0 < i < |st.n| && !Stored(sc, st, i)
    requires sc.bucket(hf) == x && (hf == sc.hash(st.n[i].key).h0 || hf == sc.hash(st.n[i].key).h1)
    requires forall j: nat :: Stored(sc, st, j) ==> st.n[j].key != st.n[i].key
    ensures var st' := Filled(sc, st, x, s, i, hf);
            && Inv(sc, st')
            && forall j: nat :: Stored(sc, st', j) <==> Stored(sc, st, j) || j == i
  {
    var st' := Filled(sc, st, x, s, i, hf);
    assert sc.KeyLaws(st.n[i].key);
    SlotWriteCells(sc, st, x, s, sc.Fp(st.n[i].key), i);
    forall y, t | 0 <= y < |st'.b| && 0 <= t < SLOTS
      ensures SlotOk(sc, st', y, t)
    {
      assert SlotOk(sc, st, y, t);
    }
    FilledStored(sc, st, x, s, i, hf);
  }

  lemma FilledStored(sc: Scheme, st: Store, x: nat, s: nat, i: nat, hf: Word)
    requires Inv(sc, st) && x < |st.b| && s < SLOTS && st.b[x].idx[s] == NIL
    requires 0 < i < |st.n| && !Stored(sc, st, i) && sc.bucket(hf) == x
    ensures forall j: nat :: Stored(sc, Filled(sc, st, x, s, i, hf), j) <==> Stored(sc, st, j) || j == i
  {
    SlotWriteCells(sc, st, x, s, sc.Fp(st.n[i].key), i);
  }

  // ------------------------------------------------------------- one move

  /** The occupant of slot s in bucket x moves to slot f of its other bucket a. */
  ghost function Moved(sc: Scheme, st: Store, x: nat, s: nat, a: nat, f: nat): Store
    requires Shape(sc, st) && x < |st.b| && a < |st.b| && a != x && s < SLOTS && f < SLOTS
    requires st.b[x].idx[s] < |st.n|
  {
    var fp, i := st.b[x].hash[s], st.b[x].idx[s];
    var b1 := WithSlot(st.b, a, f, fp, i);
    Store(WithSlot(b1, x, s, 0, NIL),
          st.n[i := st.n[i].(hashField := sc.xor(fp, st.n[i].hashField), slotField := f)])
  }

  lemma MovedInv(sc: Scheme, st: Store, x: nat, s: nat, a: nat, f: nat)
    requires sc.Lawful() && Inv(sc, st)
    requires x < |st.b| && s < SLOTS && f < SLOTS && st.b[x].idx[s] != NIL
    requires st.b[x].idx[s] < |st.n| && a == sc.Alt(st.n[st.b[x].idx[s]].key, x)
    requires a < |st.b| && a != x && st.b[a].idx[f] == NIL
    ensures Inv(sc, Moved(sc, st, x, s, a, f)) && Same(sc, st, Moved(sc, st, x, s, a, f))
  {
    var i := st.b[x].idx[s];
    var st1 := Cleared(sc, st, x, s);
    var hf := sc.xor(st.b[x].hash[s], st.n[i].hashField);
    SlotLaws(sc, st, x, s);
    ClearedInv(sc, st, x, s);
    FilledInv(sc, st1, a, f, i, hf);
    assert Moved(sc, st, x, s, a, f) == Filled(sc, st1, a, f, i, hf);
  }

  // ------------------------------------------------------------- kickout

  ghost predicate Full(st: Store, x: nat) {
    x < |st.b| && forall s :: 0 <= s < |st.b[x].idx| ==> st.b[x].idx[s] != NIL
  }

  /** The other candidate bucket of the node in slot s of bucket x. */
  ghost function AltAt(sc: Scheme, st: Store, x: nat, s: nat): nat
    requires x < |st.b| && s < |st.b[x].idx| && st.b[x].idx[s] < |st.n|
  {
    sc.Alt(st.n[st.b[x].idx[s]].key, x)
  }

  /** Slot s of bucket x is empty or its occupant has no free slot to go to. */
  ghost predicate Pinned(sc: Scheme, st: Store, x: nat, s: nat) {
    x < |st.b| && s < |st.b[x].idx| && st.b[x].idx[s] < |st.n|
    && (st.b[x].idx[s] == NIL || Full(st, AltAt(sc, st, x, s)))
  }

  /** No occupant of bucket x can move directly. */
  ghost predicate Jammed(sc: Scheme, st: Store, x: nat) {
    x < |st.b| && forall s :: 0 <= s < SLOTS ==> Pinned(sc, st, x, s)
  }

  /** A chain of at most d moves makes a free slot in bucket x: each move goes into the slot that the next one leaves, the last into a free one. */
  ghost predicate Room(sc: Scheme, st: Store, x: nat, d: int)
    decreases d, 1, st
  {
    exists s :: 0 <= s < SLOTS && Leaves(sc, st, x, s, d)
  }

  /** The occupant of slot s heads such a chain: its other bucket is not full, or has room with one move less. */
  ghost predicate Leaves(sc: Scheme, st: Store, x: nat, s: nat, d: int)
    decreases d, 0, st
  {
    && 0 < d && x < |st.b| && s < |st.b[x].idx| && st.b[x].idx[s] != NIL && st.b[x].idx[s] < |st.n|
    && var a := AltAt(sc, st, x, s);
       a < |st.b| && (!Full(st, a) || Room(sc, st, a, d - 1))
  }

  /** A full bucket with no chain of up to four moves. */
  ghost predicate Blocked(sc: Scheme, st: Store, x: nat) {
    Full(st, x) && !Room(sc, st, x, 4)
  }

  /** In particular every occupant could only go to a full bucket. */
  lemma BlockedJammed(sc: Scheme, st: Store, x: nat)
    requires sc.Lawful() && Inv(sc, st) && Blocked(sc, st, x)
    ensures Jammed(sc, st, x)
  {
    forall s | 0 <= s < SLOTS
      ensures Pinned(sc, st, x, s)
    {
      SlotLaws(sc, st, x, s);
      assert !Leaves(sc, st, x, s, 4);
    }
  }

  /** Chains depend on the buckets and on the keys of their occupants only. */
  lemma {:induction false} RoomSame(sc: Scheme, st: Store, st': Store, x: nat, d: int)
    requires st'.b == st.b && |st'.n| == |st.n|
    requires forall y, s :: 0 <= y < |st.b| && 0 <= s < |st.b[y].idx| && NIL < st.b[y].idx[s] < |st.n| ==>
               st'.n[st.b[y].idx[s]].key == st.n[st.b[y].idx[s]].key
    ensures Room(sc, st', x, d) <==> Room(sc, st, x, d)
    decreases d
  {
    forall s | 0 <= s < SLOTS
      ensures Leaves(sc, st', x, s, d) <==> Leaves(sc, st, x, s, d)
    {
      if 0 < d && x < |st.b| && s < |st.b[x].idx| && NIL < st.b[x].idx[s] < |st.n| {
        RoomSame(sc, st, st', AltAt(sc, st, x, s), d - 1);
      }
    }
  }

  /** Depths at which a failing kickout provably touches nothing. */
  ghost predicate Quiet(st: Store, x: nat, depth: int) {
    depth <= 2 || (depth <= 4 && Full(st, x))
  }

  /**
   * What kickout(x, depth) with result r does to the store. Beyond keeping the contents, the clauses
   * bound which buckets the recursion can touch: up to four levels, starting from a full bucket, a
   * recursive call cannot move the entry that its caller is holding on to.
   */
  ghost predicate Kicked(sc: Scheme, st: Store, x: nat, depth: int, r: int, st': Store) {
    && Inv(sc, st) && Inv(sc, st') && Same(sc, st, st') && x < |st.b|
    && -1 <= r < SLOTS
    && (0 <= r ==> st'.b[x].idx[r] == NIL)
    && (depth <= 0 ==> r < 0)
    && (r < 0 && Quiet(st, x, depth) ==> st' == st)
    && (r < 0 && 1 <= depth ==> Jammed(sc, st, x))
    && (0 <= r && depth <= 1 ==> !Jammed(sc, st, x) && KeepsOccupied(st, x, st'))
    && (0 <= r && depth <= 2 ==> KeepsStuck(sc, st, x, st'))
    && (0 <= r && depth <= 2 && Full(st, x) ==> FreesOne(sc, st, x, r, st'))
    && (0 <= r && depth <= 3 && Full(st, x) ==> KeepsBackLinks(sc, st, x, st'))
  }

  /** Outside bucket x, occupied slots keep their occupant. */
  ghost predicate KeepsOccupied(st: Store, x: nat, st': Store) {
    |st'.b| == |st.b| &&
    forall c, s :: 0 <= c < |st.b| && c != x && 0 <= s < |st.b[c].idx| && st.b[c].idx[s] != NIL ==>
      |st'.b[c].idx| == |st.b[c].idx| && st'.b[c].idx[s] == st.b[c].idx[s]
  }

  /** Other buckets that are full and jammed stay as they are. */
  ghost predicate KeepsStuck(sc: Scheme, st: Store, x: nat, st': Store) {
    |st'.b| == |st.b| &&
    forall c: nat :: c < |st.b| && c != x && Full(st, c) && Jammed(sc, st, c) ==> st'.b[c] == st.b[c]
  }

  /** Bucket x changes in slot r only, and its former occupant could not be blocked by a jammed bucket. */
  ghost predicate FreesOne(sc: Scheme, st: Store, x: nat, r: int, st': Store) {
    && x < |st.b| == |st'.b| && 0 <= r < |st.b[x].idx| == |st'.b[x].idx|
    && (forall s :: 0 <= s < |st.b[x].idx| && s != r ==> st'.b[x].idx[s] == st.b[x].idx[s])
    && st.b[x].idx[r] < |st.n|
    && (Jammed(sc, st, x) ==> !Jammed(sc, st, AltAt(sc, st, x, r)))
  }

  /** Other stuck buckets keep every occupant whose other candidate is x. */
  ghost predicate KeepsBackLinks(sc: Scheme, st: Store, x: nat, st': Store) {
    |st'.b| == |st.b| &&
    forall c: nat, s: nat | c < |st.b| && c != x && Full(st, c) && Jammed(sc, st, c) && s < SLOTS ::
      BackLinkKept(sc, st, x, st', c, s)
  }

  ghost predicate BackLinkKept(sc: Scheme, st: Store, x: nat, st': Store, c: nat, s: nat) {
    && c < |st.b| && c < |st'.b| && s < |st.b[c].idx| && s < |st'.b[c].idx| && st.b[c].idx[s] < |st.n|
    && (AltAt(sc, st, c, s) == x ==> st'.b[c].idx[s] == st.b[c].idx[s])
  }

  /** A direct move out of x meets the whole contract at every depth. */
  lemma DirectKick(sc: Scheme, st: Store, x: nat, s: nat, a: nat, f: nat, depth: int)
    requires sc.Lawful() && Inv(sc, st) && 1 <= depth
    requires x < |st.b| && s < SLOTS && f < SLOTS && st.b[x].idx[s] != NIL && st.b[x].idx[s] < |st.n|
    requires a == AltAt(sc, st, x, s) && a < |st.b| && a != x && st.b[a].idx[f] == NIL
    ensures Kicked(sc, st, x, depth, s, Moved(sc, st, x, s, a, f))
  {
    var st' := Moved(sc, st, x, s, a, f);
    MovedInv(sc, st, x, s, a, f);
    assert !Full(st, a);
    assert !Pinned(sc, st, x, s);
    forall c: nat, t: nat | c < |st.b| && c != x && Full(st, c) && Jammed(sc, st, c) && t < SLOTS
      ensures BackLinkKept(sc, st, x, st', c, t)
    {
      assert Pinned(sc, st, c, t);
    }
  }

  lemma KickedBasics(sc: Scheme, st: Store, x: nat, depth: int, r: int, st': Store)
    requires Kicked(sc, st, x, depth, r, st')
    ensures Inv(sc, st') && Same(sc, st, st') && -1 <= r < SLOTS && (0 <= r ==> x < |st'.b| && |st'.b[x].idx| == SLOTS && st'.b[x].idx[r] == NIL)
  {
  }

  lemma NoRoomAtDepth0(sc: Scheme, st: Store, x: nat, d: int)
    requires d <= 0
    ensures !Room(sc, st, x, d)
  {
  }

  /** Where no direct move is possible, a chain through slot s is a chain out of the other bucket of its occupant. */
  lemma LeavesBy(sc: Scheme, st: Store, x: nat, s: nat, depth: int)
    requires sc.Lawful() && Inv(sc, st) && x < |st.b| && s < SLOTS && 1 <= depth && Jammed(sc, st, x)
    ensures st.b[x].idx[s] < |st.n|
    ensures Leaves(sc, st, x, s, depth) <==> st.b[x].idx[s] != NIL && Room(sc, st, AltAt(sc, st, x, s), depth - 1)
  {
    assert Pinned(sc, st, x, s);
    hide Room;
  }

  /** From a quiet depth the recursion starts at a full bucket and is quiet too. */
  lemma QuietBelow(sc: Scheme, st: Store, x: nat, s: nat, depth: int)
    requires Jammed(sc, st, x) && Quiet(st, x, depth) && x < |st.b| && s < SLOTS && s < |st.b[x].idx|
    requires st.b[x].idx[s] != NIL && st.b[x].idx[s] < |st.n|
    ensures Quiet(st, AltAt(sc, st, x, s), depth - 1)
  {
    assert Pinned(sc, st, x, s);
  }

  /** A quiet caller's failing recursion is quiet too. */
  lemma KickFailed(sc: Scheme, st: Store, x: nat, s: nat, a: nat, depth: int, r: int, st1: Store)
    requires x < |st.b| && s < SLOTS && s < |st.b[x].idx| && st.b[x].idx[s] != NIL && st.b[x].idx[s] < |st.n|
    requires Jammed(sc, st, x) && Quiet(st, x, depth) && a == AltAt(sc, st, x, s)
    requires Kicked(sc, st, a, depth - 1, r, st1) && r < 0
    ensures st1 == st
  {
    assert Pinned(sc, st, x, s);
  }

  /** Outside the quiet depths, a free slot in bucket x is all that a success promises. */
  lemma KickedLoose(sc: Scheme, st: Store, x: nat, depth: int, r: int, st': Store)
    requires Inv(sc, st) && Inv(sc, st') && Same(sc, st, st') && x < |st.b|
    requires !Quiet(st, x, depth) && 0 <= r < SLOTS && x < |st'.b| && st'.b[x].idx[r] == NIL
    ensures Kicked(sc, st, x, depth, r, st')
  {
  }

  /** While the recursion makes room in the other bucket a, the entry that waits in slot s of x stays put. */
  lemma HeldEntry(sc: Scheme, st: Store, x: nat, s: nat, a: nat, depth: int, r: int, st1: Store)
    requires sc.Lawful() && Inv(sc, st) && x < |st.b| && s < SLOTS && st.b[x].idx[s] != NIL
    requires Jammed(sc, st, x) && Quiet(st, x, depth)
    requires st.b[x].idx[s] < |st.n| && a == AltAt(sc, st, x, s) && a != x
    requires Kicked(sc, st, a, depth - 1, r, st1) && 0 <= r
    ensures st1.b[x].idx[s] == st.b[x].idx[s]
  {
    assert Pinned(sc, st, x, s);
    if 3 < depth {
      assert BackLinkKept(sc, st, a, st1, x, s);
    }
  }

  /** Moving the held entry after a successful recursion meets the contract of the caller. */
  lemma RelayKick(sc: Scheme, st: Store, x: nat, s: nat, a: nat, depth: int, r: int, st1: Store, f: nat)
    requires sc.Lawful() && Inv(sc, st) && x < |st.b| && s < SLOTS && st.b[x].idx[s] != NIL
    requires Jammed(sc, st, x) && Quiet(st, x, depth)
    requires st.b[x].idx[s] < |st.n| && a == AltAt(sc, st, x, s) && a != x
    requires Kicked(sc, st, a, depth - 1, r, st1) && 0 <= r
    requires f < SLOTS && st1.b[a].idx[f] == NIL
    ensures st1.b[x].idx[s] == st.b[x].idx[s]
    ensures Kicked(sc, st, x, depth, s, Moved(sc, st1, x, s, a, f))
  {
    HeldEntry(sc, st, x, s, a, depth, r, st1);
    var st2 := Moved(sc, st1, x, s, a, f);
    MovedInv(sc, st1, x, s, a, f);
    SameTrans(sc, st, st1, st2);
    assert Pinned(sc, st, x, s);
    if depth <= 2 {
      RelayStuck(sc, st, x, s, a, r, st1, f);
    }
    if depth <= 3 && Full(st, x) {
      RelayBackLinks(sc, st, x, s, a, depth, r, st1, f);
    }
  }

  lemma RelayStuck(sc: Scheme, st: Store, x: nat, s: nat, a: nat, r: int, st1: Store, f: nat)
    requires sc.Lawful() && Inv(sc, st) && x < |st.b| && s < SLOTS && st.b[x].idx[s] != NIL
    requires st.b[x].idx[s] < |st.n| && a == AltAt(sc, st, x, s) && a != x
    requires Kicked(sc, st, a, 1, r, st1) && 0 <= r
    requires f < SLOTS && st1.b[a].idx[f] == NIL && st1.b[x].idx[s] == st.b[x].idx[s]
    ensures KeepsStuck(sc, st, x, Moved(sc, st1, x, s, a, f))
    ensures Full(st, x) ==> FreesOne(sc, st, x, s, Moved(sc, st1, x, s, a, f))
  {
  }

  lemma RelayBackLinks(sc: Scheme, st: Store, x: nat, s: nat, a: nat, depth: int, r: int, st1: Store, f: nat)
    requires sc.Lawful() && Inv(sc, st) && x < |st.b| && s < SLOTS && st.b[x].idx[s] != NIL
    requires Jammed(sc, st, x) && Full(st, x) && depth <= 3
    requires st.b[x].idx[s] < |st.n| && a == AltAt(sc, st, x, s) && a != x
    requires Kicked(sc, st, a, depth - 1, r, st1) && 0 <= r
    requires f < SLOTS && st1.b[a].idx[f] == NIL && st1.b[x].idx[s] == st.b[x].idx[s]
    ensures KeepsBackLinks(sc, st, x, Moved(sc, st1, x, s, a, f))
  {
    var st2 := Moved(sc, st1, x, s, a, f);
    forall c: nat, t: nat | c < |st.b| && c != x && Full(st, c) && Jammed(sc, st, c) && t < SLOTS
      ensures BackLinkKept(sc, st, x, st2, c, t)
    {
      assert Pinned(sc, st, c, t);
    }
  }

  // ------------------------------------------------------------- nodes outside the table

  /** Rewriting the fields of a node that is not in the table changes nothing. */
  lemma OutsideInv(sc: Scheme, st: Store, i: nat, nd: Node)
    requires Inv(sc, st) && 0 < i < |st.n| && !Stored(sc, st, i) && nd.slotField < SLOTS
    ensures var st' := st.(n := st.n[i := nd]);
            Inv(sc, st') && forall j: nat :: Stored(sc, st', j) <==> Stored(sc, st, j)
  {
    var st' := st.(n := st.n[i := nd]);
    forall x, s | 0 <= x < |st.b| && 0 <= s < SLOTS
      ensures SlotOk(sc, st', x, s) && st.b[x].idx[s] != i
    {
      assert SlotOk(sc, st, x, s);
    }
    forall j: nat
      ensures Stored(sc, st', j) <==> Stored(sc, st, j)
    {
      assert j != i && j < |st.n| ==> st'.n[j] == st.n[j];
    }
  }

  /** What insert does to node e before it looks for duplicates: the word of the first bucket goes into its field. */
  ghost function WithEarlyWrite(sc: Scheme, st: Store, e: nat): Store
    requires e < |st.n|
  {
    st.(n := st.n[e := st.n[e].(hashField := sc.hash(st.n[e].key).h0)])
  }

  /** The early write is harmless for a node outside the table, and for one that sits in its first bucket. */
  lemma EarlyWrite(sc: Scheme, st: Store, e: nat)
    requires sc.Lawful() && Inv(sc, st) && 0 < e < |st.n|
    requires Stored(sc, st, e) ==> sc.bucket(st.n[e].hashField) == sc.B0(st.n[e].key)
    ensures var st' := WithEarlyWrite(sc, st, e);
            && Inv(sc, st') && (Stored(sc, st, e) ==> st' == st)
            && forall j: nat :: Stored(sc, st', j) <==> Stored(sc, st, j)
  {
    if Stored(sc, st, e) {
      assert SlotOk(sc, st, sc.bucket(st.n[e].hashField), st.n[e].slotField);
      assert sc.KeyLaws(st.n[e].key);
    } else {
      OutsideInv(sc, st, e, st.n[e].(hashField := sc.hash(st.n[e].key).h0));
    }
  }

  /** For a stored node it is harmless exactly in that case; otherwise the node no longer leads back to its slot. */
  lemma EarlyWriteHarmless(sc: Scheme, st: Store, e: nat)
    requires sc.Lawful() && Inv(sc, st) && Stored(sc, st, e)
    ensures Inv(sc, WithEarlyWrite(sc, st, e)) <==> sc.bucket(st.n[e].hashField) == sc.B0(st.n[e].key)
  {
    var x, s, st' := sc.bucket(st.n[e].hashField), st.n[e].slotField, WithEarlyWrite(sc, st, e);
    if x == sc.B0(st.n[e].key) {
      EarlyWrite(sc, st, e);
    } else {
      StoredLaws(sc, st, e);
      assert st'.b[x].idx[s] == e && sc.bucket(st'.n[e].hashField) != x;
      assert Inv(sc, st') ==> SlotOk(sc, st', x, s);
    }
  }

  /** No stored node has key k when neither candidate bucket holds one. */
  lemma AbsentKey(sc: Scheme, st: Store, k: Key)
    requires sc.Lawful() && Inv(sc, st)
    requires forall s :: 0 <= s < SLOTS ==> KeyNotAt(sc, st, sc.B0(k), s, k) && KeyNotAt(sc, st, sc.B1(k), s, k)
    ensures forall i: nat :: Stored(sc, st, i) ==> st.n[i].key != k
  {
    forall i: nat | Stored(sc, st, i)
      ensures st.n[i].key != k
    {
      StoredLaws(sc, st, i);
      var s := st.n[i].slotField;
      assert KeyNotAt(sc, st, sc.B0(k), s, k) && KeyNotAt(sc, st, sc.B1(k), s, k);
    }
  }

  ghost predicate KeyNotAt(sc: Scheme, st: Store, x: nat, s: nat, k: Key) {
    x < |st.b| && s < |st.b[x].idx| && st.b[x].idx[s] < |st.n|
    && (st.b[x].idx[s] != NIL ==> st.n[st.b[x].idx[s]].key != k)
  }

  // ------------------------------------------------------------- insert and remove on contents

  /** Only the table fields of node e may differ. */
  ghost predicate OnlyNode(st: Store, e: nat, st': Store) {
    && |st'.n| == |st.n| && e < |st.n| && st' == st.(n := st.n[e := st'.n[e]]) && st'.n[e].key == st.n[e].key
  }

  /** Node elm went into the lowest free slot of bucket x, and no other node moved. */
  ghost predicate PutIn(sc: Scheme, st: Store, x: nat, elm: nat, st': Store) {
    && elm < |st'.n| == |st.n| && x < |st.b| && sc.bucket(st'.n[elm].hashField) == x
    && st'.n[elm].slotField < |st.b[x].idx| && st.b[x].idx[st'.n[elm].slotField] == NIL
    && (forall t :: 0 <= t < st'.n[elm].slotField ==> st.b[x].idx[t] != NIL)
    && forall i :: 0 <= i < |st.n| && i != elm ==> st'.n[i] == st.n[i]
  }

  /** What insert(elm) with result r does to the store. */
  ghost predicate Inserted(sc: Scheme, st: Store, elm: nat, r: nat, st': Store) {
    && elm < |st.n| == |st'.n| && |st'.b| == |st.b|
    && (forall i :: 0 <= i < |st.n| ==> st'.n[i].key == st.n[i].key)
    && (forall i :: 0 <= i < |st.n| && i != elm && !Stored(sc, st, i) ==> st'.n[i] == st.n[i])
    && ((r == NIL || r == elm) <==> forall i: nat :: Stored(sc, st, i) ==> st.n[i].key != st.n[elm].key)
    && (r == NIL ==> forall j: nat :: Stored(sc, st', j) <==> Stored(sc, st, j) || j == elm)
    && (r != NIL ==> OnlyNode(st, elm, st') && forall j: nat :: Stored(sc, st', j) <==> Stored(sc, st, j))
    && (r != NIL && r != elm ==> Stored(sc, st, r) && st.n[r].key == st.n[elm].key)
    && (r == NIL && !Full(st, sc.B0(st.n[elm].key)) ==> PutIn(sc, st, sc.B0(st.n[elm].key), elm, st'))
    && (r == NIL && Full(st, sc.B0(st.n[elm].key)) && !Full(st, sc.B1(st.n[elm].key)) ==> PutIn(sc, st, sc.B1(st.n[elm].key), elm, st'))
    && (r == NIL || r == elm ==> (r == elm <==> Blocked(sc, st, sc.B0(st.n[elm].key)) && Blocked(sc, st, sc.B1(st.n[elm].key))))
  }

  /** Insert adds exactly one pair to the map, or leaves the map alone. */
  lemma InsertedContents(sc: Scheme, st: Store, elm: nat, r: nat, st': Store)
    requires Inserted(sc, st, elm, r, st') && 0 < elm && !Stored(sc, st, elm)
    ensures r == NIL ==> Contents(sc, st') == Contents(sc, st)[elm := st.n[elm].key]
    ensures r != NIL ==> Contents(sc, st') == Contents(sc, st)
    ensures r == NIL || r == elm <==> st.n[elm].key !in Contents(sc, st).Values
  {
    var c := Contents(sc, st);
    if r == NIL {
      ContentsAdd(sc, st, st', elm);
    } else {
      ContentsSame(sc, st, st');
    }
    if r != NIL && r != elm {
      assert r in c && c[r] == st.n[elm].key;
    }
    if r == NIL || r == elm {
      assert forall j :: j in c ==> Stored(sc, st, j);
    }
  }

  lemma ContentsAdd(sc: Scheme, st: Store, st': Store, i: nat)
    requires |st'.n| == |st.n| && 0 < i < |st.n| && forall j :: 0 <= j < |st.n| ==> st'.n[j].key == st.n[j].key
    requires forall j: nat :: Stored(sc, st', j) <==> Stored(sc, st, j) || j == i
    ensures Contents(sc, st') == Contents(sc, st)[i := st.n[i].key]
  {
    assert forall j :: j in Contents(sc, st') <==> j in Contents(sc, st) || j == i;
  }

  lemma ContentsSame(sc: Scheme, st: Store, st': Store)
    requires |st'.n| == |st.n| && forall j :: 0 <= j < |st.n| ==> st'.n[j].key == st.n[j].key
    requires forall j: nat :: Stored(sc, st', j) <==> Stored(sc, st, j)
    ensures Contents(sc, st') == Contents(sc, st)
  {
    assert forall j :: j in Contents(sc, st') <==> j in Contents(sc, st);
  }

  lemma LiveMembers(sc: Scheme, st: Store)
    ensures forall j: nat :: j in Live(sc, st) <==> Stored(sc, st, j)
  {
  }

  lemma LiveAdd(sc: Scheme, st: Store, st': Store, i: nat)
    requires !Stored(sc, st, i) && forall j: nat :: Stored(sc, st', j) <==> Stored(sc, st, j) || j == i
    ensures Live(sc, st') == Live(sc, st) + {i} && |Live(sc, st')| == |Live(sc, st)| + 1
  {
    LiveMembers(sc, st);
    LiveMembers(sc, st');
    hide Live, Stored;
    assert Live(sc, st') == Live(sc, st) + {i};
  }

  lemma LiveRemove(sc: Scheme, st: Store, st': Store, i: nat)
    requires Stored(sc, st, i) && forall j: nat :: Stored(sc, st', j) <==> Stored(sc, st, j) && j != i
    ensures Live(sc, st') == Live(sc, st) - {i} && |Live(sc, st')| == |Live(sc, st)| - 1
  {
    LiveMembers(sc, st);
    LiveMembers(sc, st');
    hide Live, Stored;
    assert Live(sc, st') == Live(sc, st) - {i};
  }

  lemma LiveSame(sc: Scheme, st: Store, st': Store)
    requires forall j: nat :: Stored(sc, st', j) <==> Stored(sc, st, j)
    ensures Live(sc, st') == Live(sc, st)
  {
    LiveMembers(sc, st);
    LiveMembers(sc, st');
    hide Live, Stored;
  }

  /** Node i leaves the table: its slot is empty, nothing else changes. */
  ghost predicate Removed(sc: Scheme, st: Store, i: nat, st': Store) {
    && st'.n == st.n && |st'.b| == |st.b| && Stored(sc, st, i)
    && forall j: nat :: Stored(sc, st', j) <==> Stored(sc, st, j) && j != i
  }

  lemma RemovedContents(sc: Scheme, st: Store, i: nat, st': Store)
    requires Removed(sc, st, i, st')
    ensures Contents(sc, st') == Contents(sc, st) - {i}
  {
    var c, c' := Contents(sc, st), Contents(sc, st');
    assert forall j: nat :: j in c <==> Stored(sc, st, j);
    assert forall j: nat :: j in c' <==> Stored(sc, st', j);
  }

  /** Fingerprint scans that find neither a hit with key k nor a duplicate mean that k is not stored. */
  lemma FreshMisses(sc: Scheme, st: Store, k: Key, hits0: seq<bool>, hits1: seq<bool>, zero0: seq<bool>, zero1: seq<bool>)
    requires sc.Lawful() && Inv(sc, st) && |hits0| == |hits1| == |zero0| == |zero1| == SLOTS
    requires sc.B0(k) < |st.b| && sc.B1(k) < |st.b|
    requires forall i :: 0 <= i < SLOTS ==> (hits0[i] <==> st.b[sc.B0(k)].hash[i] == sc.Fp(k)) && (zero0[i] <==> st.b[sc.B0(k)].hash[i] == 0)
    requires forall i :: 0 <= i < SLOTS ==> (hits1[i] <==> st.b[sc.B1(k)].hash[i] == sc.Fp(k)) && (zero1[i] <==> st.b[sc.B1(k)].hash[i] == 0)
    requires forall s :: 0 <= s < SLOTS && hits0[s] ==> KeyNotAt(sc, st, sc.B0(k), s, k)
    requires forall s :: 0 <= s < SLOTS && hits1[s] ==> KeyNotAt(sc, st, sc.B1(k), s, k)
    ensures forall i: nat :: Stored(sc, st, i) ==> st.n[i].key != k
    ensures forall i :: 0 <= i < SLOTS ==> (zero0[i] <==> st.b[sc.B0(k)].idx[i] == NIL)
    ensures forall i :: 0 <= i < SLOTS ==> (zero1[i] <==> st.b[sc.B1(k)].idx[i] == NIL)
  {
    forall s | 0 <= s < SLOTS
      ensures KeyNotAt(sc, st, sc.B0(k), s, k) && KeyNotAt(sc, st, sc.B1(k), s, k)
      ensures zero0[s] <==> st.b[sc.B0(k)].idx[s] == NIL
      ensures zero1[s] <==> st.b[sc.B1(k)].idx[s] == NIL
    {
      assert SlotOk(sc, st, sc.B0(k), s) && SlotOk(sc, st, sc.B1(k), s);
    }
    AbsentKey(sc, st, k);
  }

  /** Moving others and then filling a free slot with elm is a successful insert. */
  lemma InsertedByFill(sc: Scheme, st: Store, elm: nat, st1: Store, st2: Store, st3: Store)
    requires OnlyNode(st, elm, st1) && forall j: nat :: Stored(sc, st1, j) <==> Stored(sc, st, j)
    requires 0 < elm && !Stored(sc, st, elm)
    requires forall i: nat :: Stored(sc, st, i) ==> st.n[i].key != st.n[elm].key
    requires Same(sc, st1, st2) && |st3.n| == |st2.n| && |st3.b| == |st2.b|
    requires forall i :: 0 <= i < |st2.n| ==> st3.n[i].key == st2.n[i].key && (i != elm ==> st3.n[i] == st2.n[i])
    requires forall j: nat :: Stored(sc, st3, j) <==> Stored(sc, st2, j) || j == elm
    requires Full(st, sc.B0(st.n[elm].key)) || PutIn(sc, st, sc.B0(st.n[elm].key), elm, st3)
    requires !Full(st, sc.B0(st.n[elm].key)) || Full(st, sc.B1(st.n[elm].key)) || PutIn(sc, st, sc.B1(st.n[elm].key), elm, st3)
    requires !Blocked(sc, st, sc.B0(st.n[elm].key)) || !Blocked(sc, st, sc.B1(st.n[elm].key))
    ensures Inserted(sc, st, elm, NIL, st3)
  {
    hide Blocked;
  }

  lemma SameLive(sc: Scheme, st: Store, st': Store)
    requires Same(sc, st, st')
    ensures Live(sc, st') == Live(sc, st)
  {
    LiveSame(sc, st, st');
  }

  lemma FilledByKick(sc: Scheme, st: Store, elm: nat, st1: Store, st2: Store, x: nat, s: nat, hf: Word)
    requires OnlyNode(st, elm, st1) && forall j: nat :: Stored(sc, st1, j) <==> Stored(sc, st, j)
    requires 0 < elm && !Stored(sc, st1, elm) && Inv(sc, st2) && Same(sc, st1, st2)
    requires forall i: nat :: Stored(sc, st1, i) ==> st1.n[i].key != st1.n[elm].key
    requires x < |st2.b| && s < SLOTS && st2.b[x].idx[s] == NIL && sc.bucket(hf) == x
    requires Full(st1, sc.B0(st1.n[elm].key)) && Full(st1, sc.B1(st1.n[elm].key))
    requires !Blocked(sc, st1, sc.B0(st1.n[elm].key)) || !Blocked(sc, st1, sc.B1(st1.n[elm].key))
    ensures Inserted(sc, st, elm, NIL, Filled(sc, st2, x, s, elm, hf))
  {
    FilledStored(sc, st2, x, s, elm, hf);
    BlockedSame(sc, st, elm, st1, sc.B0(st.n[elm].key));
    BlockedSame(sc, st, elm, st1, sc.B1(st.n[elm].key));
    hide Blocked;
    InsertedByFill(sc, st, elm, st1, st2, Filled(sc, st2, x, s, elm, hf));
  }

  /** Moving others leaves the key of elm fresh and elm outside. */
  lemma StillFresh(sc: Scheme, st: Store, elm: nat, st': Store)
    requires Same(sc, st, st') && elm < |st.n| && !Stored(sc, st, elm)
    requires forall i: nat :: Stored(sc, st, i) ==> st.n[i].key != st.n[elm].key
    ensures elm < |st'.n| && !Stored(sc, st', elm) && st'.n[elm] == st.n[elm]
    ensures forall i: nat :: Stored(sc, st', i) ==> st'.n[i].key != st'.n[elm].key
  {
  }

  /** An insert that found no room in two blocked buckets. */
  lemma NoRoom(sc: Scheme, st: Store, elm: nat, st1: Store)
    requires 0 < elm && OnlyNode(st, elm, st1) && forall j: nat :: Stored(sc, st, j) <==> Stored(sc, st1, j)
    requires forall i: nat :: Stored(sc, st1, i) ==> st1.n[i].key != st1.n[elm].key
    requires Blocked(sc, st1, sc.B0(st.n[elm].key)) && Blocked(sc, st1, sc.B1(st.n[elm].key))
    ensures Inserted(sc, st, elm, elm, st1)
  {
    BlockedSame(sc, st, elm, st1, sc.B0(st.n[elm].key));
    BlockedSame(sc, st, elm, st1, sc.B1(st.n[elm].key));
    hide Blocked;
  }

  lemma BlockedSame(sc: Scheme, st: Store, e: nat, st': Store, x: nat)
    requires OnlyNode(st, e, st')
    ensures Blocked(sc, st', x) <==> Blocked(sc, st, x)
  {
    RoomSame(sc, st, st', x, 4);
  }

  const EMPTY_BUCKET: Bucket :=
    Bucket([0, 0, 0, 0, 0, 0, 0, 0, 0, 0, 0, 0, 0, 0, 0, 0],
           [0, 0, 0, 0, 0, 0, 0, 0, 0, 0, 0, 0, 0, 0, 0, 0])

  lemma EmptyInv(sc: Scheme, st: Store)
    requires |st.b| == sc.nbBk && 0 < |st.n| && forall x :: 0 <= x < |st.b| ==> st.b[x] == EMPTY_BUCKET
    requires forall i :: 0 <= i < |st.n| ==> st.n[i].slotField < SLOTS
    ensures Inv(sc, st) && Live(sc, st) == {} && forall j: nat :: !Stored(sc, st, j)
  {
    assert forall x :: 0 <= x < |st.b| ==> |st.b[x].hash| == SLOTS && |st.b[x].idx| == SLOTS;
    forall x, s | 0 <= x < |st.b| && 0 <= s < SLOTS
      ensures SlotOk(sc, st, x, s)
    {
      assert st.b[x].hash[s] == 0 && st.b[x].idx[s] == NIL;
    }
  }
}
