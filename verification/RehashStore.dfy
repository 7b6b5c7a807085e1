/** The tables that find a victim's other bucket by hashing its key again, as a value. */
module RehashStore {
  import opened HashScheme

  const NIL: nat := 0
  const SLOTS: nat := 16

  /** A caller's node. */
  datatype KNode = KNode(key: Key)

  datatype KBucket<T> = KBucket(tag: seq<T>, idx: seq<nat>)

  /** Buckets, and the caller's nodes; cell 0 is the unused NIL cell. */
  datatype KStore<T> = KStore(b: seq<KBucket<T>>, n: seq<KNode>)

  /**
   * Geometry, what a bucket keeps of a key, and the mark of an empty slot. Integer-key tables keep the
   * key itself, so a match is exact, and set one key aside as the mark; the key-only table keeps the
   * fingerprint, which is never 0. Where the tag is the key, hashOf hashes the word in the bucket.
   */
  datatype Layout<!T> = Layout(sc: Scheme, tag: Key -> T, empty: T, exact: bool, hashOf: T -> Hash) {
    ghost predicate Lawful() {
      && (forall w :: sc.bucket(w) < sc.nbBk) && (forall k :: sc.B0(k) != sc.B1(k))
      && (exact ==> forall k, k' :: tag(k) == tag(k') ==> k == k')
      && (exact ==> forall k :: hashOf(tag(k)) == sc.hash(k))
      && (!exact ==> forall k :: tag(k) != empty)
    }

    /** x is one of the two buckets of k. */
    ghost predicate Candidate(k: Key, x: nat) {
      x == sc.B0(k) || x == sc.B1(k)
    }
  }

  ghost predicate Shape<T>(la: Layout<T>, st: KStore<T>) {
    && |st.b| == la.sc.nbBk && 0 < |st.n|
    && forall x :: 0 <= x < |st.b| ==> |st.b[x].tag| == SLOTS && |st.b[x].idx| == SLOTS
  }

  /** Node i sits in slot s of bucket x. */
  ghost predicate At<T>(st: KStore<T>, x: nat, s: nat, i: nat) {
    x < |st.b| && s < |st.b[x].idx| && st.b[x].idx[s] == i != NIL
  }

  ghost predicate Stored<T>(st: KStore<T>, i: nat) {
    exists x: nat, s: nat :: At(st, x, s, i)
  }

  /** The mark is on exactly the empty slots; any other tag is that of the node in the slot, in a bucket of its key. */
  ghost predicate SlotOk<T>(la: Layout<T>, st: KStore<T>, x: nat, s: nat)
    requires Shape(la, st) && x < |st.b| && s < SLOTS
  {
    var i := st.b[x].idx[s];
    && (st.b[x].tag[s] == la.empty <==> i == NIL)
    && (i != NIL ==> i < |st.n| && st.b[x].tag[s] == la.tag(st.n[i].key) && la.Candidate(st.n[i].key, x))
  }

  /** No key is in two slots. */
  ghost predicate KeysApart<T>(st: KStore<T>) {
    forall x: nat, s: nat, i: nat, y: nat, t: nat, j: nat ::
      At(st, x, s, i) && At(st, y, t, j) && i < |st.n| && j < |st.n| && st.n[i].key == st.n[j].key ==> x == y && s == t
  }

  ghost predicate Inv<T>(la: Layout<T>, st: KStore<T>) {
    && Shape(la, st)
    && (forall x, s :: 0 <= x < |st.b| && 0 <= s < SLOTS ==> SlotOk(la, st, x, s))
    && KeysApart(st)
  }

  ghost function Live<T>(st: KStore<T>): set<nat> {
    set i | 0 <= i < |st.n| && Stored(st, i)
  }

  /** The finite map that the table stands for. */
  ghost function Contents<T>(st: KStore<T>): map<nat, Key> {
    map i | i in Live(st) :: st.n[i].key
  }

  ghost predicate Same<T>(st: KStore<T>, st': KStore<T>) {
    && |st'.b| == |st.b| && st'.n == st.n
    && forall i: nat :: Stored(st', i) <==> Stored(st, i)
  }

  lemma SameTrans<T>(s1: KStore<T>, s2: KStore<T>, s3: KStore<T>)
    requires Same(s1, s2) && Same(s2, s3)
    ensures Same(s1, s3)
  {
    hide Stored;
  }

  lemma AtLaws<T>(la: Layout<T>, st: KStore<T>, x: nat, s: nat, i: nat)
    requires Inv(la, st) && At(st, x, s, i)
    ensures x < |st.b| && s < SLOTS && i < |st.n| && Stored(st, i) && st.b[x].tag[s] == la.tag(st.n[i].key) != la.empty
    ensures la.Candidate(st.n[i].key, x)
  {
    assert SlotOk(la, st, x, s);
  }

  /** Where a stored node sits. */
  lemma Where<T>(la: Layout<T>, st: KStore<T>, i: nat) returns (x: nat, s: nat)
    requires Inv(la, st) && Stored(st, i)
    ensures At(st, x, s, i) && x < |st.b| && s < SLOTS && i < |st.n|
    ensures la.Candidate(st.n[i].key, x) && st.b[x].tag[s] == la.tag(st.n[i].key) != la.empty
  {
    x, s :| At(st, x, s, i);
    AtLaws(la, st, x, s, i);
  }

  // ------------------------------------------------------------ slot writes

  ghost function WithSlot<T>(st: KStore<T>, x: nat, s: nat, k: T, i: nat): KStore<T>
    requires x < |st.b| && s < |st.b[x].tag| && s < |st.b[x].idx|
  {
    st.(b := st.b[x := KBucket(st.b[x].tag[s := k], st.b[x].idx[s := i])])
  }

  ghost function Cleared<T>(la: Layout<T>, st: KStore<T>, x: nat, s: nat): KStore<T>
    requires Shape(la, st) && x < |st.b| && s < SLOTS
  {
    WithSlot(st, x, s, la.empty, NIL)
  }

  lemma WriteCells<T>(la: Layout<T>, st: KStore<T>, x: nat, s: nat, k: T, i: nat)
    requires Shape(la, st) && x < |st.b| && s < SLOTS
    ensures var st' := WithSlot(st, x, s, k, i);
            && Shape(la, st') && |st'.b| == |st.b| && st'.b[x].tag[s] == k && st'.b[x].idx[s] == i
            && (forall y, t :: 0 <= y < |st.b| && 0 <= t < SLOTS && (y != x || t != s) ==>
                  st'.b[y].tag[t] == st.b[y].tag[t] && st'.b[y].idx[t] == st.b[y].idx[t])
            && forall y: nat, t: nat, j: nat ::
                 At(st', y, t, j) <==> if y == x && t == s then j == i != NIL else At(st, y, t, j)
  {
  }

  lemma ClearedInv<T>(la: Layout<T>, st: KStore<T>, x: nat, s: nat)
    requires Inv(la, st) && x < |st.b| && s < SLOTS && st.b[x].idx[s] != NIL
    ensures var st' := Cleared(la, st, x, s);
            && Inv(la, st') && forall j: nat :: Stored(st', j) <==> Stored(st, j) && j != st.b[x].idx[s]
  {
    var st', i := Cleared(la, st, x, s), st.b[x].idx[s];
    WriteCells(la, st, x, s, la.empty, NIL);
    hide Cleared, At;
    forall y, t | 0 <= y < |st'.b| && 0 <= t < SLOTS
      ensures SlotOk(la, st', y, t)
    {
      assert SlotOk(la, st, y, t);
    }
    forall j: nat
      ensures Stored(st', j) <==> Stored(st, j) && j != i
    {
      ClearedStored(la, st, x, s, j);
    }
  }

  lemma ClearedStored<T>(la: Layout<T>, st: KStore<T>, x: nat, s: nat, j: nat)
    requires Inv(la, st) && x < |st.b| && s < SLOTS && st.b[x].idx[s] != NIL
    ensures Stored(Cleared(la, st, x, s), j) <==> Stored(st, j) && j != st.b[x].idx[s]
  {
    var st', i := Cleared(la, st, x, s), st.b[x].idx[s];
    WriteCells(la, st, x, s, la.empty, NIL);
    assert At(st, x, s, i);
    AtLaws(la, st, x, s, i);
    if Stored(st', j) {
      var y: nat, t: nat :| At(st', y, t, j);
      assert At(st, y, t, j);
    }
    if Stored(st, j) && j != i {
      var y: nat, t: nat :| At(st, y, t, j);
      assert At(st', y, t, j);
    }
  }

  lemma FilledInv<T>(la: Layout<T>, st: KStore<T>, x: nat, s: nat, i: nat)
    requires Inv(la, st) && x < |st.b| && s < SLOTS && st.b[x].idx[s] == NIL
    requires 0 < i < |st.n| && la.tag(st.n[i].key) != la.empty && la.Candidate(st.n[i].key, x)
    requires forall j: nat :: Stored(st, j) && j < |st.n| ==> st.n[j].key != st.n[i].key
    ensures var st' := WithSlot(st, x, s, la.tag(st.n[i].key), i);
            && Inv(la, st') && forall j: nat :: Stored(st', j) <==> Stored(st, j) || j == i
  {
    var st' := WithSlot(st, x, s, la.tag(st.n[i].key), i);
    WriteCells(la, st, x, s, la.tag(st.n[i].key), i);
    hide WithSlot;
    forall y, t | 0 <= y < |st'.b| && 0 <= t < SLOTS
      ensures SlotOk(la, st', y, t)
    {
      assert SlotOk(la, st, y, t);
    }
    forall j: nat
      ensures Stored(st', j) <==> Stored(st, j) || j == i
    {
      FilledStored(la, st, x, s, i, j);
    }
    FilledApart(la, st, x, s, i);
  }

  lemma FilledStored<T>(la: Layout<T>, st: KStore<T>, x: nat, s: nat, i: nat, j: nat)
    requires Inv(la, st) && x < |st.b| && s < SLOTS && st.b[x].idx[s] == NIL && 0 < i < |st.n|
    ensures Stored(WithSlot(st, x, s, la.tag(st.n[i].key), i), j) <==> Stored(st, j) || j == i
  {
    var st' := WithSlot(st, x, s, la.tag(st.n[i].key), i);
    WriteCells(la, st, x, s, la.tag(st.n[i].key), i);
    assert At(st', x, s, i);
    if Stored(st', j) && j != i {
      var y: nat, t: nat :| At(st', y, t, j);
      assert At(st, y, t, j);
    }
    if Stored(st, j) {
      var y: nat, t: nat :| At(st, y, t, j);
      assert At(st', y, t, j);
    }
  }

  lemma FilledApart<T>(la: Layout<T>, st: KStore<T>, x: nat, s: nat, i: nat)
    requires Inv(la, st) && x < |st.b| && s < SLOTS && st.b[x].idx[s] == NIL && 0 < i < |st.n|
    requires forall j: nat :: Stored(st, j) && j < |st.n| ==> st.n[j].key != st.n[i].key
    ensures KeysApart(WithSlot(st, x, s, la.tag(st.n[i].key), i))
  {
    var st' := WithSlot(st, x, s, la.tag(st.n[i].key), i);
    WriteCells(la, st, x, s, la.tag(st.n[i].key), i);
    hide WithSlot;
    forall y: nat, t: nat, j: nat, z: nat, u: nat, l: nat |
      At(st', y, t, j) && At(st', z, u, l) && j < |st'.n| && l < |st'.n| && st'.n[j].key == st'.n[l].key
      ensures y == z && t == u
    {
      assert (y == x && t == s) || At(st, y, t, j);
      assert (z == x && u == s) || At(st, z, u, l);
    }
  }

  // ------------------------------------------------------------ moves

  /** The other candidate bucket of the occupant of slot s of bucket x. */
  ghost function AltAt<T>(la: Layout<T>, st: KStore<T>, x: nat, s: nat): nat
    requires x < |st.b| && s < |st.b[x].idx| && st.b[x].idx[s] < |st.n|
  {
    la.sc.Alt(st.n[st.b[x].idx[s]].key, x)
  }

  /** The occupant of slot s of bucket x moves to slot f of bucket a. */
  ghost function Moved<T>(la: Layout<T>, st: KStore<T>, x: nat, s: nat, a: nat, f: nat): KStore<T>
    requires Shape(la, st) && x < |st.b| && a < |st.b| && a != x && s < SLOTS && f < SLOTS
  {
    Cleared(la, WithSlot(st, a, f, st.b[x].tag[s], st.b[x].idx[s]), x, s)
  }

  lemma MovedInv<T>(la: Layout<T>, st: KStore<T>, x: nat, s: nat, a: nat, f: nat)
    requires la.Lawful() && Inv(la, st) && x < |st.b| && s < SLOTS && f < SLOTS && st.b[x].idx[s] != NIL && st.b[x].idx[s] < |st.n|
    requires a == AltAt(la, st, x, s) && a < |st.b| && a != x && st.b[a].idx[f] == NIL
    ensures Inv(la, Moved(la, st, x, s, a, f)) && Same(st, Moved(la, st, x, s, a, f))
  {
    var i := st.b[x].idx[s];
    assert At(st, x, s, i);
    AtLaws(la, st, x, s, i);
    var st1 := Cleared(la, st, x, s);
    ClearedInv(la, st, x, s);
    NotTwice(la, st, x, s, i);
    FilledInv(la, st1, a, f, i);
    assert Moved(la, st, x, s, a, f) == WithSlot(st1, a, f, la.tag(st1.n[i].key), i);
  }

  lemma NotTwice<T>(la: Layout<T>, st: KStore<T>, x: nat, s: nat, i: nat)
    requires Inv(la, st) && At(st, x, s, i) && s < SLOTS && i < |st.n|
    ensures forall j: nat :: Stored(Cleared(la, st, x, s), j) && j < |st.n| ==> st.n[j].key != st.n[i].key
  {
    AtLaws(la, st, x, s, i);
    forall j: nat | Stored(Cleared(la, st, x, s), j) && j < |st.n|
      ensures st.n[j].key != st.n[i].key
    {
      ClearedStored(la, st, x, s, j);
      var y, t := Where(la, st, j);
      WriteCells(la, st, x, s, la.empty, NIL);
    }
  }

  // ------------------------------------------------------------ what kickout and insert do

  ghost predicate Full<T>(st: KStore<T>, x: nat) {
    x < |st.b| && forall s :: 0 <= s < |st.b[x].idx| ==> st.b[x].idx[s] != NIL
  }

  /** Slot s of bucket x is empty or its occupant has no free slot to go to. */
  ghost predicate Pinned<T>(la: Layout<T>, st: KStore<T>, x: nat, s: nat) {
    && x < |st.b| && s < |st.b[x].idx| && st.b[x].idx[s] < |st.n|
    && (st.b[x].idx[s] == NIL || Full(st, AltAt(la, st, x, s)))
  }

  ghost predicate Jammed<T>(la: Layout<T>, st: KStore<T>, x: nat) {
    x < |st.b| && forall s :: 0 <= s < SLOTS ==> Pinned(la, st, x, s)
  }

  /** A chain of at most d moves makes a free slot in bucket x: each move goes into the slot that the next one leaves, the last into a free one. */
  ghost predicate Room<T>(la: Layout<T>, st: KStore<T>, x: nat, d: int)
    decreases d, 1, st
  {
    exists s :: 0 <= s < SLOTS && Leaves(la, st, x, s, d)
  }

  /** The occupant of slot s heads such a chain: its other bucket is not full, or has room with one move less. */
  ghost predicate Leaves<T>(la: Layout<T>, st: KStore<T>, x: nat, s: nat, d: int)
    decreases d, 0, st
  {
    && 0 < d && x < |st.b| && s < |st.b[x].idx| && st.b[x].idx[s] != NIL && st.b[x].idx[s] < |st.n|
    && var a := AltAt(la, st, x, s);
       a < |st.b| && (!Full(st, a) || Room(la, st, a, d - 1))
  }

  /** A full bucket with no chain of up to four moves. */
  ghost predicate Blocked<T>(la: Layout<T>, st: KStore<T>, x: nat) {
    Full(st, x) && !Room(la, st, x, 4)
  }

  lemma NoRoomAtDepth0<T>(la: Layout<T>, st: KStore<T>, x: nat, d: int)
    requires d <= 0
    ensures !Room(la, st, x, d)
  {
  }

  /** Where no direct move is possible, a chain through slot s is a chain out of the other bucket of its occupant. */
  lemma LeavesBy<T>(la: Layout<T>, st: KStore<T>, x: nat, s: nat, depth: int)
    requires la.Lawful() && Inv(la, st) && x < |st.b| && s < SLOTS && 1 <= depth && Jammed(la, st, x)
    ensures st.b[x].idx[s] < |st.n|
    ensures Leaves(la, st, x, s, depth) <==> st.b[x].idx[s] != NIL && Room(la, st, AltAt(la, st, x, s), depth - 1)
  {
    assert Pinned(la, st, x, s);
    hide Room;
  }

  /** From a quiet depth the recursion starts at a full bucket and is quiet too. */
  lemma QuietBelow<T>(la: Layout<T>, st: KStore<T>, x: nat, s: nat, depth: int)
    requires Jammed(la, st, x) && Quiet(st, x, depth) && x < |st.b| && s < SLOTS && s < |st.b[x].idx|
    requires st.b[x].idx[s] != NIL && st.b[x].idx[s] < |st.n|
    ensures Quiet(st, AltAt(la, st, x, s), depth - 1)
  {
    assert Pinned(la, st, x, s);
  }

  /** Depths at which a failing kickout provably touches nothing. */
  ghost predicate Quiet<T>(st: KStore<T>, x: nat, depth: int) {
    depth <= 2 || (depth <= 4 && Full(st, x))
  }

  /**
   * What kickout(x, depth) with result r does to the store. Beyond keeping the contents, the clauses
   * bound which buckets the recursion can touch: up to four levels, starting from a full bucket, a
   * recursive call cannot move the entry that its caller is holding on to.
   */
  ghost predicate Kicked<T>(la: Layout<T>, st: KStore<T>, x: nat, depth: int, r: int, st': KStore<T>) {
    && Inv(la, st) && Inv(la, st') && Same(st, st') && x < |st.b|
    && -1 <= r < SLOTS
    && (0 <= r ==> st'.b[x].idx[r] == NIL)
    && (depth <= 0 ==> r < 0)
    && (r < 0 && Quiet(st, x, depth) ==> st' == st)
    && (r < 0 && 1 <= depth ==> Jammed(la, st, x))
    && (0 <= r && depth <= 1 ==> !Jammed(la, st, x) && KeepsOccupied(st, x, st'))
    && (0 <= r && depth <= 2 ==> KeepsStuck(la, st, x, st'))
    && (0 <= r && depth <= 2 && Full(st, x) ==> FreesOne(la, st, x, r, st'))
    && (0 <= r && depth <= 3 && Full(st, x) ==> KeepsBackLinks(la, st, x, st'))
  }

  /** Outside bucket x, occupied slots keep their occupant. */
  ghost predicate KeepsOccupied<T>(st: KStore<T>, x: nat, st': KStore<T>) {
    |st'.b| == |st.b| &&
    forall c, s :: 0 <= c < |st.b| && c != x && 0 <= s < |st.b[c].idx| && st.b[c].idx[s] != NIL ==>
      |st'.b[c].idx| == |st.b[c].idx| && st'.b[c].idx[s] == st.b[c].idx[s]
  }

  /** Other buckets that are full and jammed stay as they are. */
  ghost predicate KeepsStuck<T>(la: Layout<T>, st: KStore<T>, x: nat, st': KStore<T>) {
    |st'.b| == |st.b| &&
    forall c: nat :: c < |st.b| && c != x && Full(st, c) && Jammed(la, st, c) ==> st'.b[c] == st.b[c]
  }

  /** Bucket x changes in slot r only, and its former occupant could not be blocked by a jammed bucket. */
  ghost predicate FreesOne<T>(la: Layout<T>, st: KStore<T>, x: nat, r: int, st': KStore<T>) {
    && x < |st.b| == |st'.b| && 0 <= r < |st.b[x].idx| == |st'.b[x].idx|
    && (forall s :: 0 <= s < |st.b[x].idx| && s != r ==> st'.b[x].idx[s] == st.b[x].idx[s])
    && st.b[x].idx[r] < |st.n|
    && (Jammed(la, st, x) ==> !Jammed(la, st, AltAt(la, st, x, r)))
  }

  /** Other stuck buckets keep every occupant whose other candidate is x. */
  ghost predicate KeepsBackLinks<T>(la: Layout<T>, st: KStore<T>, x: nat, st': KStore<T>) {
    |st'.b| == |st.b| &&
    forall c: nat, s: nat | c < |st.b| && c != x && Full(st, c) && Jammed(la, st, c) && s < SLOTS ::
      BackLinkKept(la, st, x, st', c, s)
  }

  ghost predicate BackLinkKept<T>(la: Layout<T>, st: KStore<T>, x: nat, st': KStore<T>, c: nat, s: nat) {
    && c < |st.b| && c < |st'.b| && s < |st.b[c].idx| && s < |st'.b[c].idx| && st.b[c].idx[s] < |st.n|
    && (AltAt(la, st, c, s) == x ==> st'.b[c].idx[s] == st.b[c].idx[s])
  }

  /** A direct move out of x meets the whole contract at every depth. */
  lemma DirectKick<T>(la: Layout<T>, st: KStore<T>, x: nat, s: nat, a: nat, f: nat, depth: int)
    requires la.Lawful() && Inv(la, st) && 1 <= depth
    requires x < |st.b| && s < SLOTS && f < SLOTS && st.b[x].idx[s] != NIL && st.b[x].idx[s] < |st.n|
    requires a == AltAt(la, st, x, s) && a < |st.b| && a != x && st.b[a].idx[f] == NIL
    ensures Kicked(la, st, x, depth, s, Moved(la, st, x, s, a, f))
  {
    var st' := Moved(la, st, x, s, a, f);
    MovedInv(la, st, x, s, a, f);
    assert !Full(st, a);
    assert !Pinned(la, st, x, s);
    forall c: nat, t: nat | c < |st.b| && c != x && Full(st, c) && Jammed(la, st, c) && t < SLOTS
      ensures BackLinkKept(la, st, x, st', c, t)
    {
      assert Pinned(la, st, c, t);
    }
  }

  lemma KickedBasics<T>(la: Layout<T>, st: KStore<T>, x: nat, depth: int, r: int, st': KStore<T>)
    requires Kicked(la, st, x, depth, r, st')
    ensures Inv(la, st') && Same(st, st') && -1 <= r < SLOTS && (0 <= r ==> x < |st'.b| && |st'.b[x].idx| == SLOTS && st'.b[x].idx[r] == NIL)
  {
  }

  /** A quiet caller's failing recursion is quiet too. */
  lemma KickFailed<T>(la: Layout<T>, st: KStore<T>, x: nat, s: nat, a: nat, depth: int, r: int, st1: KStore<T>)
    requires x < |st.b| && s < SLOTS && s < |st.b[x].idx| && st.b[x].idx[s] != NIL && st.b[x].idx[s] < |st.n|
    requires Jammed(la, st, x) && Quiet(st, x, depth) && a == AltAt(la, st, x, s)
    requires Kicked(la, st, a, depth - 1, r, st1) && r < 0
    ensures st1 == st
  {
    assert Pinned(la, st, x, s);
  }

  /** Outside the quiet depths, a free slot in bucket x is all that a success promises. */
  lemma KickedLoose<T>(la: Layout<T>, st: KStore<T>, x: nat, depth: int, r: int, st': KStore<T>)
    requires Inv(la, st) && Inv(la, st') && Same(st, st') && x < |st.b|
    requires !Quiet(st, x, depth) && 0 <= r < SLOTS && x < |st'.b| && st'.b[x].idx[r] == NIL
    ensures Kicked(la, st, x, depth, r, st')
  {
  }

  /** While the recursion makes room in the other bucket a, the entry that waits in slot s of x stays put. */
  lemma HeldEntry<T>(la: Layout<T>, st: KStore<T>, x: nat, s: nat, a: nat, depth: int, r: int, st1: KStore<T>)
    requires la.Lawful() && Inv(la, st) && x < |st.b| && s < SLOTS && st.b[x].idx[s] != NIL
    requires Jammed(la, st, x) && Quiet(st, x, depth)
    requires st.b[x].idx[s] < |st.n| && a == AltAt(la, st, x, s) && a != x
    requires Kicked(la, st, a, depth - 1, r, st1) && 0 <= r
    ensures st1.b[x].idx[s] == st.b[x].idx[s]
  {
    assert Pinned(la, st, x, s);
    if 3 < depth {
      assert BackLinkKept(la, st, a, st1, x, s);
    }
  }

  /** Moving the held entry after a successful recursion meets the contract of the caller. */
  lemma RelayKick<T>(la: Layout<T>, st: KStore<T>, x: nat, s: nat, a: nat, depth: int, r: int, st1: KStore<T>, f: nat)
    requires la.Lawful() && Inv(la, st) && x < |st.b| && s < SLOTS && st.b[x].idx[s] != NIL
    requires Jammed(la, st, x) && Quiet(st, x, depth)
    requires st.b[x].idx[s] < |st.n| && a == AltAt(la, st, x, s) && a != x
    requires Kicked(la, st, a, depth - 1, r, st1) && 0 <= r
    requires f < SLOTS && st1.b[a].idx[f] == NIL
    ensures st1.b[x].idx[s] == st.b[x].idx[s]
    ensures Kicked(la, st, x, depth, s, Moved(la, st1, x, s, a, f))
  {
    HeldEntry(la, st, x, s, a, depth, r, st1);
    var st2 := Moved(la, st1, x, s, a, f);
    MovedInv(la, st1, x, s, a, f);
    SameTrans(st, st1, st2);
    assert Pinned(la, st, x, s);
    if depth <= 2 {
      RelayStuck(la, st, x, s, a, r, st1, f);
    }
    if depth <= 3 && Full(st, x) {
      RelayBackLinks(la, st, x, s, a, depth, r, st1, f);
    }
  }

  lemma RelayStuck<T>(la: Layout<T>, st: KStore<T>, x: nat, s: nat, a: nat, r: int, st1: KStore<T>, f: nat)
    requires la.Lawful() && Inv(la, st) && x < |st.b| && s < SLOTS && st.b[x].idx[s] != NIL
    requires st.b[x].idx[s] < |st.n| && a == AltAt(la, st, x, s) && a != x
    requires Kicked(la, st, a, 1, r, st1) && 0 <= r
    requires f < SLOTS && st1.b[a].idx[f] == NIL && st1.b[x].idx[s] == st.b[x].idx[s]
    ensures KeepsStuck(la, st, x, Moved(la, st1, x, s, a, f))
    ensures Full(st, x) ==> FreesOne(la, st, x, s, Moved(la, st1, x, s, a, f))
  {
  }

  lemma RelayBackLinks<T>(la: Layout<T>, st: KStore<T>, x: nat, s: nat, a: nat, depth: int, r: int, st1: KStore<T>, f: nat)
    requires la.Lawful() && Inv(la, st) && x < |st.b| && s < SLOTS && st.b[x].idx[s] != NIL
    requires Jammed(la, st, x) && Full(st, x) && depth <= 3
    requires st.b[x].idx[s] < |st.n| && a == AltAt(la, st, x, s) && a != x
    requires Kicked(la, st, a, depth - 1, r, st1) && 0 <= r
    requires f < SLOTS && st1.b[a].idx[f] == NIL && st1.b[x].idx[s] == st.b[x].idx[s]
    ensures KeepsBackLinks(la, st, x, Moved(la, st1, x, s, a, f))
  {
    var st2 := Moved(la, st1, x, s, a, f);
    forall c: nat, t: nat | c < |st.b| && c != x && Full(st, c) && Jammed(la, st, c) && t < SLOTS
      ensures BackLinkKept(la, st, x, st2, c, t)
    {
      assert Pinned(la, st, c, t);
    }
  }

  /** Node elm went into the lowest free slot of bucket x, nothing else moved. */
  ghost predicate PutIn<T>(la: Layout<T>, st: KStore<T>, x: nat, elm: nat, st': KStore<T>) {
    && Shape(la, st) && x < |st.b| && elm < |st.n|
    && exists s :: 0 <= s < SLOTS && st.b[x].idx[s] == NIL && (forall t :: 0 <= t < s ==> st.b[x].idx[t] != NIL) && st' == WithSlot(st, x, s, la.tag(st.n[elm].key), elm)
  }

  /** What insert(elm) with result r does to the table. A refused insert leaves it untouched. */
  ghost predicate Inserted<T>(la: Layout<T>, st: KStore<T>, elm: nat, r: nat, st': KStore<T>) {
    && st'.n == st.n && elm < |st.n| && |st'.b| == |st.b|
    && (r == NIL ==> (forall j: nat :: Stored(st', j) <==> Stored(st, j) || j == elm) && !Stored(st, elm))
    && (r != NIL ==> forall j: nat :: Stored(st', j) <==> Stored(st, j))
    && ((r == NIL || (r == elm && !Stored(st, elm))) <==> forall j: nat :: Stored(st, j) && j < |st.n| ==> st.n[j].key != st.n[elm].key)
    && (r != NIL && (r != elm || Stored(st, elm)) ==> Stored(st, r) && r < |st.n| && st.n[r].key == st.n[elm].key && st' == st)
    && (r == elm && !Stored(st, elm) ==> st' == st)
    && (r == NIL || (r == elm && !Stored(st, elm)) ==>
          (r == elm <==> Blocked(la, st, la.sc.B0(st.n[elm].key)) && Blocked(la, st, la.sc.B1(st.n[elm].key))))
    && (r == NIL && !Full(st, la.sc.B0(st.n[elm].key)) ==> PutIn(la, st, la.sc.B0(st.n[elm].key), elm, st'))
    && (r == NIL && Full(st, la.sc.B0(st.n[elm].key)) && !Full(st, la.sc.B1(st.n[elm].key)) ==> PutIn(la, st, la.sc.B1(st.n[elm].key), elm, st'))
  }

  lemma InsertedContents<T>(la: Layout<T>, st: KStore<T>, elm: nat, r: nat, st': KStore<T>)
    requires Inserted(la, st, elm, r, st')
    ensures r == NIL ==> Contents(st') == Contents(st)[elm := st.n[elm].key]
    ensures r != NIL ==> Contents(st') == Contents(st)
    ensures r == NIL || (r == elm && !Stored(st, elm)) <==> st.n[elm].key !in Contents(st).Values
  {
    hide Stored;
    assert forall j: nat :: j in Contents(st) <==> j < |st.n| && Stored(st, j);
    assert forall j: nat :: j in Contents(st') <==> j < |st.n| && Stored(st', j);
    if r != NIL && (r != elm || Stored(st, elm)) {
      assert r in Contents(st) && Contents(st)[r] == st.n[elm].key;
    }
  }

  /** Node i left the table. */
  ghost predicate Removed<T>(st: KStore<T>, i: nat, st': KStore<T>) {
    st'.n == st.n && |st'.b| == |st.b| && Stored(st, i) && forall j: nat :: Stored(st', j) <==> Stored(st, j) && j != i
  }

  lemma RemovedContents<T>(st: KStore<T>, i: nat, st': KStore<T>)
    requires Removed(st, i, st')
    ensures Contents(st') == Contents(st) - {i}
  {
    hide Stored;
    assert forall j: nat :: j in Contents(st) <==> j < |st.n| && Stored(st, j);
    assert forall j: nat :: j in Contents(st') <==> j < |st.n| && Stored(st', j);
  }

  // ------------------------------------------------------------ counting

  lemma LiveMembers<T>(la: Layout<T>, st: KStore<T>)
    requires Inv(la, st)
    ensures forall j: nat :: j in Live(st) <==> Stored(st, j)
  {
    forall j: nat | Stored(st, j)
      ensures j < |st.n|
    {
      var x, s := Where(la, st, j);
    }
  }

  lemma LiveAdd<T>(la: Layout<T>, st: KStore<T>, st': KStore<T>, i: nat)
    requires Inv(la, st) && Inv(la, st') && !Stored(st, i) && forall j: nat :: Stored(st', j) <==> Stored(st, j) || j == i
    ensures |Live(st')| == |Live(st)| + 1
  {
    LiveMembers(la, st);
    LiveMembers(la, st');
    hide Live, Stored, Inv;
    assert Live(st') == Live(st) + {i};
  }

  lemma LiveRemove<T>(la: Layout<T>, st: KStore<T>, st': KStore<T>, i: nat)
    requires Inv(la, st) && Inv(la, st') && Stored(st, i) && forall j: nat :: Stored(st', j) <==> Stored(st, j) && j != i
    ensures |Live(st')| == |Live(st)| - 1 && 0 < |Live(st)|
  {
    LiveMembers(la, st);
    LiveMembers(la, st');
    hide Live, Stored, Inv;
    assert Live(st') == Live(st) - {i} && i in Live(st);
  }

  lemma LiveSame<T>(la: Layout<T>, st: KStore<T>, st': KStore<T>)
    requires Inv(la, st) && Inv(la, st') && Same(st, st')
    ensures Live(st') == Live(st)
  {
    LiveMembers(la, st);
    LiveMembers(la, st');
    hide Live, Stored, Inv;
  }

  // ------------------------------------------------------------ lookups

  /** No slot of bucket x holds a node with key k. */
  ghost predicate NotIn<T>(st: KStore<T>, x: nat, k: Key) {
    x < |st.b| && forall s: nat, i: nat :: At(st, x, s, i) && i < |st.n| ==> st.n[i].key != k
  }

  lemma AbsentKey<T>(la: Layout<T>, st: KStore<T>, k: Key)
    requires Inv(la, st) && NotIn(st, la.sc.B0(k), k) && NotIn(st, la.sc.B1(k), k)
    ensures forall i: nat :: Stored(st, i) && i < |st.n| ==> st.n[i].key != k
  {
    forall i: nat | Stored(st, i) && i < |st.n|
      ensures st.n[i].key != k
    {
      var x, s := Where(la, st, i);
    }
  }

  /** No stored key has the mark of an empty slot for a tag. */
  lemma Unmarked<T>(la: Layout<T>, st: KStore<T>, k: Key)
    requires Inv(la, st) && la.tag(k) == la.empty
    ensures forall i: nat :: Stored(st, i) && i < |st.n| ==> st.n[i].key != k
  {
    forall i: nat | Stored(st, i) && i < |st.n|
      ensures st.n[i].key != k
    {
      var x, s := Where(la, st, i);
    }
  }

  /** No slot of the two buckets of its key names node i. */
  lemma AbsentNode<T>(la: Layout<T>, st: KStore<T>, i: nat)
    requires Inv(la, st) && i < |st.n| && la.sc.B0(st.n[i].key) < |st.b| && la.sc.B1(st.n[i].key) < |st.b|
    requires forall s :: 0 <= s < SLOTS ==> st.b[la.sc.B0(st.n[i].key)].idx[s] != i && st.b[la.sc.B1(st.n[i].key)].idx[s] != i
    ensures !Stored(st, i)
  {
    if Stored(st, i) {
      var x, s := Where(la, st, i);
    }
  }
}
