/**
 * The fingerprint and key-only tables share buckets and kickout with the slot table but keep less in a node.
 * On every table that is valid for the slot variant, the ways in which they find a victim's slot and
 * its other bucket lead to the same place as slot_field and the exclusive or.
 */
module SlotVariantsModel {
  import opened HashScheme
  import opened SlotStore
  import opened SlotTableModel
  import opened Bits16

  /** In a valid table node i occurs in its own slot only. */
  lemma OnlyThere(t: SlotTable, st: Store, i: nat, x: nat, s: nat)
    requires t.sc.Lawful() && Inv(t.sc, st) && x < |st.b| && s < SLOTS && i != NIL && st.b[x].idx[s] == i
    ensures Stored(t.sc, st, i) && i < |st.n| && x == t.sc.bucket(st.n[i].hashField) && s == st.n[i].slotField
    ensures x == t.sc.B0(st.n[i].key) || x == t.sc.B1(st.n[i].key)
  {
    SlotLaws(t.sc, st, x, s);
  }

  /** Removal in the fingerprint table: the bucket comes from hash_field, the slot from a scan for the index. */
  method RemoveByScan(t: SlotTable, elm: nat) returns (r: nat)
    requires t.Valid() && 0 < elm < t.node.Length
    modifies t`nb, t.buckets
    ensures t.Valid() && r == if Stored(t.sc, old(t.St()), elm) then elm else NIL
    ensures r == NIL ==> t.St() == old(t.St())
    ensures r != NIL ==>
              && Removed(t.sc, old(t.St()), elm, t.St())
              && t.St() == Cleared(t.sc, old(t.St()), t.sc.bucket(old(t.node[elm].hashField)), old(t.node[elm].slotField))
  {
    var bk := t.sc.bucket(t.node[elm].hashField);
    var hits := FindX16(t.buckets[bk].idx, elm);
    if Any(hits) {
      var slot := Lowest(hits);
      OnlyThere(t, t.St(), elm, bk, slot);
      var i := t.RemoveAt(bk, slot);
      return elm;
    }
    r := NIL;
  }

  /** Removal in the key-only table: both buckets of the key are scanned for the index. */
  method RemoveByKey(t: SlotTable, elm: nat) returns (r: nat)
    requires t.Valid() && 0 < elm < t.node.Length
    modifies t`nb, t.buckets
    ensures t.Valid() && r == if Stored(t.sc, old(t.St()), elm) then elm else NIL
    ensures r == NIL ==> t.St() == old(t.St())
    ensures r != NIL ==>
              && Removed(t.sc, old(t.St()), elm, t.St())
              && t.St() == Cleared(t.sc, old(t.St()), t.sc.bucket(old(t.node[elm].hashField)), old(t.node[elm].slotField))
  {
    var h := t.sc.hash(t.node[elm].key);
    var bk0, bk1 := t.sc.bucket(h.h0), t.sc.bucket(h.h1);
    var hits := FindX16(t.buckets[bk0].idx, elm);
    if Any(hits) {
      var slot := Lowest(hits);
      OnlyThere(t, t.St(), elm, bk0, slot);
      var i := t.RemoveAt(bk0, slot);
      return elm;
    }
    hits := FindX16(t.buckets[bk1].idx, elm);
    if Any(hits) {
      var slot := Lowest(hits);
      OnlyThere(t, t.St(), elm, bk1, slot);
      var i := t.RemoveAt(bk1, slot);
      return elm;
    }
    if Stored(t.sc, t.St(), elm) {
      StoredLaws(t.sc, t.St(), elm);
      assert false;
    }
    r := NIL;
  }

  /** The other bucket of an occupant: hashing its key again leads where fingerprint and hash_field lead. */
  method AltByRehash(t: SlotTable, bk: nat, slot: nat) returns (ab: nat)
    requires t.Valid() && bk < t.buckets.Length && slot < SLOTS && t.buckets[bk].idx[slot] != NIL
    ensures t.buckets[bk].idx[slot] < t.node.Length
    ensures ab == t.sc.bucket(t.sc.xor(t.buckets[bk].hash[slot], t.node[t.buckets[bk].idx[slot]].hashField))
    ensures ab != bk && ab < t.buckets.Length
  {
    SlotLaws(t.sc, t.St(), bk, slot);
    var h := t.sc.hash(t.node[t.buckets[bk].idx[slot]].key);
    var b0, b1 := t.sc.bucket(h.h0), t.sc.bucket(h.h1);
    ab := if bk == b0 then b1 else b0;
  }
}
