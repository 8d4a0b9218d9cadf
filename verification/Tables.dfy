/** A remote table as a desired-state controller sees it: it reads the rows, stops when one is as
    wanted, and otherwise updates a row of its own or adds one. */
module Tables {
  import opened Options

  datatype Row<D> = Row(id: nat, data: D)

  type Table<D> = seq<Row<D>>

  /** owned: the row is the controller's own.  good: the row is as wanted.  update and added: what a
      set and an add write.  firstOnly: only the first own row is looked at, not all of them. */
  datatype Want<!D> = Want(owned: D -> bool, good: D -> bool, update: D -> D, added: D, firstOnly: bool)

  // ---------------------------------------------------------------- reading

  function Query<D>(t: Table<D>, p: D -> bool): Table<D> {
    if t == [] then []
    else
      var n := |t| - 1;
      Query(t[..n], p) + if p(t[n].data) then [t[n]] else []
  }

  function LastOwned<D>(t: Table<D>, owned: D -> bool): Option<Row<D>> {
    if t == [] then None
    else if owned(t[|t| - 1].data) then Some(t[|t| - 1])
    else LastOwned(t[..|t| - 1], owned)
  }

  function FirstOwned<D>(t: Table<D>, owned: D -> bool): Option<Row<D>> {
    if t == [] then None
    else if FirstOwned(t[..|t| - 1], owned).Some? then FirstOwned(t[..|t| - 1], owned)
    else if owned(t[|t| - 1].data) then Some(t[|t| - 1]) else None
  }

  predicate Has<D>(t: Table<D>, p: D -> bool) {
    exists i :: 0 <= i < |t| && p(t[i].data)
  }

  /** The row a set command goes to. */
  function Target<D>(t: Table<D>, w: Want<D>): Option<Row<D>> {
    if w.firstOnly then FirstOwned(t, w.owned) else LastOwned(t, w.owned)
  }

  predicate Settled<D>(t: Table<D>, w: Want<D>) {
    if w.firstOnly then FirstOwned(t, w.owned).Some? && w.good(FirstOwned(t, w.owned).value.data)
    else Has(t, w.good)
  }

  lemma {:induction false} QueryOnly<D>(t: Table<D>, p: D -> bool)
    ensures forall i :: 0 <= i < |Query(t, p)| ==> p(Query(t, p)[i].data)
  {
    if t != [] {
      QueryOnly(t[..|t| - 1], p);
    }
  }

  // ---------------------------------------------------------------- writing

  function SetRow<D>(t: Table<D>, id: nat, update: D -> D): (r: Table<D>)
    ensures |r| == |t|
    ensures forall i :: 0 <= i < |t| ==>
              r[i] == if t[i].id == id then Row(id, update(t[i].data)) else t[i]
  {
    seq(|t|, i requires 0 <= i < |t| => if t[i].id == id then Row(id, update(t[i].data)) else t[i])
  }

  /** The table after the controller's write took effect. */
  function Written<D>(t: Table<D>, w: Want<D>, nextId: nat): Table<D> {
    match Target(t, w)
    case Some(row) => SetRow(t, row.id, w.update)
    case None => t + [Row(nextId, w.added)]
  }

  /** The router's next free id after that. */
  function IdAfter<D>(t: Table<D>, w: Want<D>, nextId: nat): nat {
    if Target(t, w).Some? then nextId else nextId + 1
  }

  // ---------------------------------------------------------------- invariants

  predicate DistinctIds<D>(t: Table<D>, nextId: nat) {
    && (forall i :: 0 <= i < |t| ==> t[i].id < nextId)
    && (forall i, j :: 0 <= i < j < |t| ==> t[i].id != t[j].id)
  }

  predicate AtMostOne<D>(t: Table<D>, owned: D -> bool) {
    forall i, j :: 0 <= i < j < |t| && owned(t[i].data) ==> !owned(t[j].data)
  }

  /** Updating a row of w's does not change whose row it is for w'. */
  ghost predicate KeepsOwner<D(!new)>(w: Want<D>, w': Want<D>) {
    && (forall d :: w'.owned(w.update(d)) == w'.owned(d))
    && (w'.owned(w.added) ==> forall d :: w'.owned(d) ==> w.owned(d))
  }

  /** What w writes is its own and as wanted. */
  ghost predicate Effective<D(!new)>(w: Want<D>) {
    && w.good(w.added) && w.owned(w.added)
    && (forall d :: w.owned(d) ==> w.owned(w.update(d)) && w.good(w.update(d)))
  }

  /** What w writes does not spoil what w' wants. */
  ghost predicate Harmless<D(!new)>(w: Want<D>, w': Want<D>) {
    && KeepsOwner(w, w')
    && (forall d :: w.owned(d) && w'.good(d) ==> w'.good(w.update(d)))
  }

  // ---------------------------------------------------------------- lemmas on reading

  lemma OwnedSnoc<D>(t: Table<D>, row: Row<D>, owned: D -> bool)
    ensures LastOwned(t + [row], owned) == if owned(row.data) then Some(row) else LastOwned(t, owned)
    ensures FirstOwned(t + [row], owned) ==
              if FirstOwned(t, owned).Some? then FirstOwned(t, owned)
              else if owned(row.data) then Some(row) else None
  {
    assert (t + [row])[..|t|] == t;
  }

  lemma {:induction false} QueryKeepsTargets<D>(t: Table<D>, p: D -> bool, owned: D -> bool)
    requires forall i :: 0 <= i < |t| && owned(t[i].data) ==> p(t[i].data)
    ensures LastOwned(Query(t, p), owned) == LastOwned(t, owned)
    ensures FirstOwned(Query(t, p), owned) == FirstOwned(t, owned)
  {
    if t != [] {
      var n := |t| - 1;
      var q := Query(t[..n], p);
      QueryKeepsTargets(t[..n], p, owned);
      assert t == t[..n] + [t[n]];
      OwnedSnoc(t[..n], t[n], owned);
      if p(t[n].data) {
        OwnedSnoc(q, t[n], owned);
      } else {
        assert Query(t, p) == q;
      }
    }
  }

  lemma {:induction false} QueryKeepsHas<D>(t: Table<D>, p: D -> bool, good: D -> bool)
    requires forall i :: 0 <= i < |t| && good(t[i].data) ==> p(t[i].data)
    ensures Has(Query(t, p), good) <==> Has(t, good)
  {
    if t != [] {
      var n := |t| - 1;
      QueryKeepsHas(t[..n], p, good);
      HasSnoc(t, good);
      var q := Query(t[..n], p);
      if p(t[n].data) {
        HasSnoc(q + [t[n]], good);
        assert (q + [t[n]])[..|q|] == q;
      } else {
        assert q + [] == q;
      }
    }
  }

  lemma HasSnoc<D>(t: Table<D>, good: D -> bool)
    requires t != []
    ensures Has(t, good) <==> Has(t[..|t| - 1], good) || good(t[|t| - 1].data)
  {
    if Has(t, good) {
      var i :| 0 <= i < |t| && good(t[i].data);
      assert i < |t| - 1 ==> t[..|t| - 1][i] == t[i];
    }
    if Has(t[..|t| - 1], good) {
      var i :| 0 <= i < |t| - 1 && good(t[..|t| - 1][i].data);
      assert good(t[i].data);
    }
  }

  /** A reply that leaves out only rows of no interest decides like the whole table. */
  lemma ReplyDecides<D>(t: Table<D>, p: D -> bool, w: Want<D>)
    requires !w.firstOnly
    requires forall i :: 0 <= i < |t| && (w.owned(t[i].data) || w.good(t[i].data)) ==> p(t[i].data)
    ensures Settled(t, w) <==> Has(Query(t, p), w.good)
    ensures Target(t, w) == LastOwned(Query(t, p), w.owned)
  {
    QueryKeepsTargets(t, p, w.owned);
    QueryKeepsHas(t, p, w.good);
  }

  lemma {:induction false} OwnedFound<D>(t: Table<D>, owned: D -> bool)
    ensures LastOwned(t, owned).Some? <==> Has(t, owned)
    ensures FirstOwned(t, owned).Some? <==> Has(t, owned)
    ensures LastOwned(t, owned).Some? ==>
              LastOwned(t, owned).value in t && owned(LastOwned(t, owned).value.data)
    ensures FirstOwned(t, owned).Some? ==>
              FirstOwned(t, owned).value in t && owned(FirstOwned(t, owned).value.data)
  {
    if t != [] {
      OwnedFound(t[..|t| - 1], owned);
      HasSnoc(t, owned);
    }
  }

  /** Every row before the first own row belongs to somebody else. */
  lemma {:induction false} FirstIndex<D>(t: Table<D>, owned: D -> bool) returns (k: nat)
    requires FirstOwned(t, owned).Some?
    ensures k < |t| && FirstOwned(t, owned).value == t[k]
    ensures owned(t[k].data) && forall i :: 0 <= i < k ==> !owned(t[i].data)
  {
    var n := |t| - 1;
    if FirstOwned(t[..n], owned).Some? {
      k := FirstIndex(t[..n], owned);
    } else {
      k := n;
      OwnedFound(t[..n], owned);
      forall i | 0 <= i < n ensures !owned(t[i].data) {
        assert t[..n][i] == t[i];
      }
    }
  }

  /** Every row behind the last own row belongs to somebody else. */
  lemma {:induction false} LastIndex<D>(t: Table<D>, owned: D -> bool) returns (k: nat)
    requires LastOwned(t, owned).Some?
    ensures k < |t| && LastOwned(t, owned).value == t[k]
    ensures owned(t[k].data) && forall i :: k < i < |t| ==> !owned(t[i].data)
  {
    var n := |t| - 1;
    if owned(t[n].data) {
      k := n;
    } else {
      k := LastIndex(t[..n], owned);
    }
  }

  lemma {:induction false} FirstIs<D>(t: Table<D>, owned: D -> bool, k: nat)
    requires k < |t| && owned(t[k].data) && forall i :: 0 <= i < k ==> !owned(t[i].data)
    ensures FirstOwned(t, owned) == Some(t[k])
  {
    OwnedFound(t, owned);
    assert Has(t, owned);
    var j := FirstIndex(t, owned);
  }

  // ---------------------------------------------------------------- lemmas on writing

  lemma TargetIsOwned<D>(t: Table<D>, w: Want<D>) returns (k: nat)
    requires Target(t, w).Some?
    ensures k < |t| && t[k] == Target(t, w).value && w.owned(t[k].data)
    ensures w.firstOnly ==> forall i :: 0 <= i < k ==> !w.owned(t[i].data)
    ensures !w.firstOnly ==> forall i :: k < i < |t| ==> !w.owned(t[i].data)
  {
    OwnedFound(t, w.owned);
    if w.firstOnly {
      k := FirstIndex(t, w.owned);
    } else {
      k := LastIndex(t, w.owned);
    }
  }

  /** The row that a write goes to when there is an own one: the first or the last of them. */
  lemma WrittenAt<D>(t: Table<D>, w: Want<D>, nextId: nat) returns (k: nat)
    requires DistinctIds(t, nextId) && Has(t, w.owned)
    ensures k < |t| && w.owned(t[k].data)
    ensures Written(t, w, nextId) == t[k := Row(t[k].id, w.update(t[k].data))]
    ensures IdAfter(t, w, nextId) == nextId
    ensures w.firstOnly ==> forall i :: 0 <= i < k ==> !w.owned(t[i].data)
    ensures !w.firstOnly ==> forall i :: k < i < |t| ==> !w.owned(t[i].data)
  {
    OwnedFound(t, w.owned);
    k := TargetIsOwned(t, w);
  }

  /** A write changes one own row in place, under its id, or appends one row when there was none. */
  lemma WrittenRows<D>(t: Table<D>, w: Want<D>, nextId: nat)
    requires DistinctIds(t, nextId)
    ensures var r := Written(t, w, nextId);
            && DistinctIds(r, IdAfter(t, w, nextId))
            && (Has(t, w.owned) ==>
                  |r| == |t| &&
                  exists k :: 0 <= k < |t| && w.owned(t[k].data)
                              && r == t[k := Row(t[k].id, w.update(t[k].data))])
            && (!Has(t, w.owned) ==> r == t + [Row(nextId, w.added)])
  {
    OwnedFound(t, w.owned);
    if Target(t, w).Some? {
      var k := TargetIsOwned(t, w);
      assert Written(t, w, nextId) == t[k := Row(t[k].id, w.update(t[k].data))];
    }
  }

  lemma WriteKeepsAtMostOne<D(!new)>(t: Table<D>, w: Want<D>, nextId: nat, w': Want<D>)
    requires AtMostOne(t, w'.owned) && KeepsOwner(w, w')
    ensures AtMostOne(Written(t, w, nextId), w'.owned)
  {
    OwnedFound(t, w.owned);
    var r := Written(t, w, nextId);
    assert w'.owned(w.added) && Has(t, w'.owned) ==> Has(t, w.owned);
    forall i, j | 0 <= i < j < |r| && w'.owned(r[i].data) ensures !w'.owned(r[j].data) {
      assert w'.owned(t[i].data) && Has(t, w'.owned);
    }
  }

  /** After an effective write the controller is content. */
  lemma WriteSettles<D(!new)>(t: Table<D>, w: Want<D>, nextId: nat)
    requires DistinctIds(t, nextId) && Effective(w)
    ensures Settled(Written(t, w, nextId), w)
  {
    OwnedFound(t, w.owned);
    var r := Written(t, w, nextId);
    if Target(t, w).Some? {
      var k := TargetIsOwned(t, w);
      assert r[k].data == w.update(t[k].data);
      if w.firstOnly {
        assert forall i :: 0 <= i < k ==> r[i] == t[i];
        FirstIs(r, w.owned, k);
      }
    } else {
      var n := |t|;
      assert r[n].data == w.added;
      if w.firstOnly {
        assert forall i :: 0 <= i < n ==> r[i] == t[i] && !w.owned(t[i].data);
        FirstIs(r, w.owned, n);
      }
    }
  }

  /** A harmless write leaves a content controller content. */
  lemma WriteKeepsSettled<D(!new)>(t: Table<D>, w: Want<D>, nextId: nat, w': Want<D>)
    requires DistinctIds(t, nextId) && Harmless(w, w') && Settled(t, w')
    ensures Settled(Written(t, w, nextId), w')
  {
    WrittenRows(t, w, nextId);
    var r := Written(t, w, nextId);
    assert forall i :: 0 <= i < |t| ==>
      w'.owned(r[i].data) == w'.owned(t[i].data) && (w'.good(t[i].data) ==> w'.good(r[i].data));
    if w'.firstOnly {
      var k := FirstIndex(t, w'.owned);
      FirstIs(r, w'.owned, k);
    } else {
      var k :| 0 <= k < |t| && w'.good(t[k].data);
      assert w'.good(r[k].data);
    }
  }
}
