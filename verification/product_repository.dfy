/**
 `ProductRepository`: the synchronisation engine between the local table and
 the remote `products` collection. Outbound, each write goes to the local
 table first and is then mirrored to the remote document, a remote failure
 being swallowed. Inbound, each change the remote collection reports is
 reconciled against the local row carrying the same document id.
 */
module ProductRepository {
  import opened Wrappers
  import opened Products
  import Dao = ProductDao

  /** The local table and the remote collection, whose documents are keyed by document id. */
  datatype SyncState = SyncState(local: Dao.Table, remote: map<string, Product>)

  /** No two local rows carry the same remote document id. */
  predicate UniqueDocumentIds(rows: seq<Product>)
  {
    forall x, y :: x in rows && y in rows && x.firestoreId.Some? && x.firestoreId == y.firestoreId ==> x == y
  }

  /**
   A document id as the remote client mints it: carried by no remote document
   and no local row. (The client draws 20 random characters; this is its
   promise, which the model takes as given.)
   */
  predicate FreshDocumentId(s: SyncState, id: string)
  {
    id !in s.remote && !Dao.Carries(s.local.rows, id)
  }

  // ---------------------------------------------------------------------------
  // Outbound path
  // ---------------------------------------------------------------------------

  /**
   `insert(product)`: with the document id `minted` drawn first, the product
   is stored locally carrying it; then the stored row, with the key the table
   assigned, is written to the remote document `minted`. `remoteOk` is the
   outcome of that remote write; a failure leaves the remote collection as it
   was and is not reported.
   */
  function Insert(s: SyncState, p: Product, minted: string, remoteOk: bool): (r: SyncState)
    requires s.local.Valid()
    requires FreshDocumentId(s, minted)
    ensures r.local.Valid()
    ensures Dao.ByFirestoreId(r.local, minted).Some?
    ensures var row := Dao.ByFirestoreId(r.local, minted).value;
      && row == p.(id := row.id, firestoreId := Some(minted))
      && row.id != Unassigned
      && Dao.GetById(r.local, row.id) == Some(row)
      && (p.id == Unassigned ==> Dao.GetById(s.local, row.id) == None)
      && (forall k :: k != row.id ==> Dao.GetById(r.local, k) == Dao.GetById(s.local, k))
      && (remoteOk ==> r.remote == s.remote[minted := row])
    ensures !remoteOk ==> r.remote == s.remote
    ensures p.id == Unassigned ==> |r.local.rows| == |s.local.rows| + 1
  {
    var stamped := p.(firestoreId := Some(minted));
    var ins := Dao.Insert(s.local, stamped);
    var row := stamped.(id := ins.key);
    assert forall x :: x in ins.table.rows && x.firestoreId == Some(minted) ==> x == row;
    var found := Dao.ByFirestoreId(ins.table, minted);
    assert found == Some(row) by {
      var i :| 0 <= i < |ins.table.rows| && ins.table.rows[i] == row;
      assert Dao.Carries(ins.table.rows, minted);
    }
    SyncState(ins.table, if remoteOk then s.remote[minted := row] else s.remote)
  }

  /**
   `update(product)`: the local row under `p.id` is overwritten (nothing
   happens locally without one); then, if `p` carries a document id, `p` is
   written to that remote document. A failed remote write leaves the remote
   collection as it was.
   */
  function Update(s: SyncState, p: Product, remoteOk: bool): (r: SyncState)
    requires s.local.Valid()
    ensures r.local.Valid() && |r.local.rows| == |s.local.rows|
    ensures Dao.GetById(s.local, p.id).Some? ==> Dao.GetById(r.local, p.id) == Some(p)
    ensures Dao.GetById(s.local, p.id).None? ==> r.local == s.local
    ensures forall k :: k != p.id ==> Dao.GetById(r.local, k) == Dao.GetById(s.local, k)
    ensures forall x :: x in r.local.rows ==> x == p || x in s.local.rows
    ensures p.firestoreId.None? || !remoteOk ==> r.remote == s.remote
    ensures p.firestoreId.Some? && remoteOk ==> r.remote == s.remote[p.firestoreId.value := p]
  {
    var local := Dao.Update(s.local, p);
    match p.firestoreId
    case None => SyncState(local, s.remote)
    case Some(f) => SyncState(local, if remoteOk then s.remote[f := p] else s.remote)
  }

  /**
   `delete(product)`: the local row under `p.id` is removed (nothing happens
   locally without one); then, if `p` carries a document id, that remote
   document is deleted. A failed remote delete leaves the remote collection
   as it was.
   */
  function Delete(s: SyncState, p: Product, remoteOk: bool): (r: SyncState)
    requires s.local.Valid()
    ensures r.local.Valid()
    ensures Dao.GetById(r.local, p.id) == None
    ensures |r.local.rows| == if Dao.GetById(s.local, p.id).Some? then |s.local.rows| - 1 else |s.local.rows|
    ensures forall k :: k != p.id ==> Dao.GetById(r.local, k) == Dao.GetById(s.local, k)
    ensures forall x :: x in r.local.rows ==> x in s.local.rows
    ensures p.firestoreId.None? || !remoteOk ==> r.remote == s.remote
    ensures p.firestoreId.Some? && remoteOk ==> r.remote == s.remote - {p.firestoreId.value}
  {
    var local := Dao.Delete(s.local, p);
    match p.firestoreId
    case None => SyncState(local, s.remote)
    case Some(f) => SyncState(local, if remoteOk then s.remote - {f} else s.remote)
  }

  /** A new product lands at the end of the scan order, under the next key of the sequence. */
  lemma InsertAppends(s: SyncState, p: Product, minted: string, remoteOk: bool) returns (row: Product)
    requires s.local.Valid() && FreshDocumentId(s, minted) && p.id == Unassigned
    ensures row == p.(id := s.local.nextId, firestoreId := Some(minted))
    ensures Insert(s, p, minted, remoteOk).local.rows == s.local.rows + [row]
  {
    row := p.(id := s.local.nextId, firestoreId := Some(minted));
    Dao.InsertFreshThenDelete(s.local, p.(firestoreId := Some(minted)));
  }

  /** The outcome of the remote write never reaches the local table. */
  lemma RemoteOutcomeLeavesLocalAlone(s: SyncState, p: Product, minted: string)
    requires s.local.Valid() && FreshDocumentId(s, minted)
    ensures Insert(s, p, minted, true).local == Insert(s, p, minted, false).local
    ensures Update(s, p, true).local == Update(s, p, false).local
    ensures Delete(s, p, true).local == Delete(s, p, false).local
  {
    var stamped := p.(firestoreId := Some(minted));
    assert Insert(s, p, minted, true).local == Dao.Insert(s.local, stamped).table;
    assert Insert(s, p, minted, false).local == Dao.Insert(s.local, stamped).table;
    assert Update(s, p, true).local == Dao.Update(s.local, p) == Update(s, p, false).local;
    assert Delete(s, p, true).local == Dao.Delete(s.local, p) == Delete(s, p, false).local;
  }

  /** An insert keeps document ids unique: the minted id is carried by the new row alone. */
  lemma InsertKeepsDocumentIdsUnique(s: SyncState, p: Product, minted: string, remoteOk: bool)
    requires s.local.Valid() && FreshDocumentId(s, minted)
    requires UniqueDocumentIds(s.local.rows)
    ensures UniqueDocumentIds(Insert(s, p, minted, remoteOk).local.rows)
  {
    var stamped := p.(firestoreId := Some(minted));
    var ins := Dao.Insert(s.local, stamped);
    assert forall x :: x in s.local.rows ==> x.firestoreId != Some(minted);
  }

  /** An edit that keeps the stored row's document id keeps document ids unique. */
  lemma UpdateKeepsDocumentIdsUnique(s: SyncState, p: Product, remoteOk: bool)
    requires s.local.Valid() && UniqueDocumentIds(s.local.rows)
    requires forall x :: x in s.local.rows && x.id == p.id ==> x.firestoreId == p.firestoreId
    ensures UniqueDocumentIds(Update(s, p, remoteOk).local.rows)
  {
    var t := s.local;
    var r := Dao.Update(t, p);
    forall x, y | x in r.rows && y in r.rows && x.firestoreId.Some? && x.firestoreId == y.firestoreId
      ensures x == y
    {
      Dao.UpdatedMember(t, p, x);
      Dao.UpdatedMember(t, p, y);
      Dao.MemberIsLookup(r, x);
      Dao.MemberIsLookup(r, y);
    }
  }

  // ---------------------------------------------------------------------------
  // Inbound path
  // ---------------------------------------------------------------------------

  datatype ChangeType = Added | Modified | Removed

  /** The fields of a remote document as typed reads see them: `None` when the field is missing. */
  datatype DocumentFields = DocumentFields(name: Option<string>, quantity: Option<int>, price: Option<real>)

  /** One entry of a snapshot's document changes. */
  datatype DocumentChange = DocumentChange(
    kind: ChangeType,
    docId: string,
    fields: DocumentFields,
    hasPendingWrites: bool)

  datatype Parsed = Parsed(name: string, quantity: int, price: real)

  /** Reads a document's fields, a missing field reading as `""`, `0` or `0.0`. */
  function Parse(f: DocumentFields): (r: Parsed)
    ensures r.name == (if f.name.Some? then f.name.value else "")
    ensures r.quantity == (if f.quantity.Some? then f.quantity.value else 0)
    ensures r.price == (if f.price.Some? then f.price.value else 0.0)
  {
    Parsed(f.name.GetOr(""), f.quantity.GetOr(0), f.price.GetOr(0.0))
  }

  /** The typed fields of the remote document a product was written to. */
  function FieldsOf(p: Product): DocumentFields
  {
    DocumentFields(Some(p.name), Some(p.quantity), Some(p.price))
  }

  /** Reading back a document written from a product yields that product's name, quantity and price. */
  lemma ParseWrittenDocument(p: Product)
    ensures Parse(FieldsOf(p)) == Parsed(p.name, p.quantity, p.price)
  {
  }

  /**
   Reconciles one change against the local table: an echo of a write still
   pending on this device is skipped; otherwise the local row carrying the
   document's id, if any, is overwritten (ADDED/MODIFIED, keeping its local
   key) or deleted (REMOVED), and an ADDED/MODIFIED document no row carries
   is inserted as a new row.
   */
  function ApplyChange(t: Dao.Table, c: DocumentChange): (r: Dao.Table)
    requires t.Valid()
    ensures r.Valid()
    ensures c.hasPendingWrites ==> r == t
    ensures c.kind == Removed ==> |r.rows| <= |t.rows|
    ensures c.kind != Removed ==> |r.rows| >= |t.rows|
  {
    if c.hasPendingWrites then t
    else
      var f := Parse(c.fields);
      var local := Dao.ByFirestoreId(t, c.docId);
      match c.kind
      case Added | Modified =>
        if local.Some? then
          Dao.Update(t, local.value.(name := f.name, quantity := f.quantity, price := f.price, firestoreId := Some(c.docId)))
        else
          Dao.Insert(t, Product(Unassigned, Some(c.docId), f.name, f.quantity, f.price)).table
      case Removed =>
        if local.Some? then Dao.Delete(t, local.value) else t
  }

  /** Reconciles a snapshot's changes one after another, in the order listed. */
  function ApplyChanges(t: Dao.Table, cs: seq<DocumentChange>): (r: Dao.Table)
    requires t.Valid()
    ensures r.Valid()
    ensures (forall i :: 0 <= i < |cs| ==> cs[i].kind != Removed) ==> |r.rows| >= |t.rows|
    ensures (forall i :: 0 <= i < |cs| ==> cs[i].kind == Removed) ==> |r.rows| <= |t.rows|
    decreases |cs|
  {
    if |cs| == 0 then t
    else ApplyChanges(ApplyChange(t, cs[0]), cs[1..])
  }

  /**
   The snapshot listener: a callback delivered with an error, or without a
   snapshot, changes nothing; otherwise the snapshot's changes are reconciled.
   */
  function OnSnapshot(t: Dao.Table, snapshot: Option<seq<DocumentChange>>, failed: bool): (r: Dao.Table)
    requires t.Valid()
    ensures r.Valid()
    ensures failed || snapshot.None? ==> r == t
  {
    if failed then t
    else match snapshot
      case None => t
      case Some(cs) => ApplyChanges(t, cs)
  }

  /**
   ADDED/MODIFIED for a document some local row carries overwrites that row's
   name, quantity and price in place: same local key, same row count, every
   other row untouched.
   */
  lemma UpsertKnownDocument(t: Dao.Table, c: DocumentChange)
    requires t.Valid() && !c.hasPendingWrites && c.kind != Removed
    requires Dao.ByFirestoreId(t, c.docId).Some?
    ensures var lp := Dao.ByFirestoreId(t, c.docId).value;
      var f := Parse(c.fields);
      var r := ApplyChange(t, c);
      && |r.rows| == |t.rows|
      && Dao.GetById(r, lp.id) == Some(Product(lp.id, Some(c.docId), f.name, f.quantity, f.price))
      && (forall k :: k != lp.id ==> Dao.GetById(r, k) == Dao.GetById(t, k))
  {
    var lp := Dao.ByFirestoreId(t, c.docId).value;
    Dao.MemberIsLookup(t, lp);
  }

  /**
   ADDED/MODIFIED for a document no local row carries inserts exactly one row,
   under a key not in use, carrying the document id and the document's fields.
   */
  lemma UpsertUnknownDocument(t: Dao.Table, c: DocumentChange)
    requires t.Valid() && !c.hasPendingWrites && c.kind != Removed
    requires Dao.ByFirestoreId(t, c.docId).None?
    ensures var f := Parse(c.fields);
      var r := ApplyChange(t, c);
      var row := Product(t.nextId, Some(c.docId), f.name, f.quantity, f.price);
      && |r.rows| == |t.rows| + 1
      && Dao.GetById(t, t.nextId) == None
      && Dao.GetById(r, t.nextId) == Some(row)
      && Dao.ByFirestoreId(r, c.docId) == Some(row)
      && (forall x :: x in r.rows && x.firestoreId == Some(c.docId) ==> x == row)
      && (forall k :: k != t.nextId ==> Dao.GetById(r, k) == Dao.GetById(t, k))
  {
    var f := Parse(c.fields);
    var r := ApplyChange(t, c);
    var row := Product(t.nextId, Some(c.docId), f.name, f.quantity, f.price);
    assert forall x :: x in t.rows ==> x.firestoreId != Some(c.docId);
    assert Dao.Carries(r.rows, c.docId) by {
      var i :| 0 <= i < |r.rows| && r.rows[i] == row;
    }
  }

  /** REMOVED deletes the local row carrying the document, if there is one, and nothing else. */
  lemma RemoveDocument(t: Dao.Table, c: DocumentChange)
    requires t.Valid() && !c.hasPendingWrites && c.kind == Removed
    ensures var r := ApplyChange(t, c);
      match Dao.ByFirestoreId(t, c.docId)
      case None => r == t
      case Some(lp) =>
        && |r.rows| == |t.rows| - 1
        && Dao.GetById(r, lp.id) == None
        && (forall k :: k != lp.id ==> Dao.GetById(r, k) == Dao.GetById(t, k))
  {
    var found := Dao.ByFirestoreId(t, c.docId);
    if found.Some? {
      Dao.MemberIsLookup(t, found.value);
    }
  }

  /** Reconciling a change keeps local document ids unique. */
  lemma ApplyChangeKeepsDocumentIdsUnique(t: Dao.Table, c: DocumentChange)
    requires t.Valid() && UniqueDocumentIds(t.rows)
    ensures UniqueDocumentIds(ApplyChange(t, c).rows)
  {
    if !c.hasPendingWrites {
      if c.kind == Removed {
        RemoveKeepsDocumentIdsUnique(t, c);
      } else if Dao.ByFirestoreId(t, c.docId).Some? {
        MergeKeepsDocumentIdsUnique(t, c);
      } else {
        UpsertUnknownDocument(t, c);
      }
    }
  }

  lemma MergeKeepsDocumentIdsUnique(t: Dao.Table, c: DocumentChange)
    requires t.Valid() && UniqueDocumentIds(t.rows) && !c.hasPendingWrites && c.kind != Removed
    requires Dao.ByFirestoreId(t, c.docId).Some?
    ensures UniqueDocumentIds(ApplyChange(t, c).rows)
  {
    var lp := Dao.ByFirestoreId(t, c.docId).value;
    Dao.MemberIsLookup(t, lp);
    UpdateKeepsDocumentIdsUnique(SyncState(t, map[]), ApplyChangeRow(lp, c), false);
  }

  lemma RemoveKeepsDocumentIdsUnique(t: Dao.Table, c: DocumentChange)
    requires t.Valid() && UniqueDocumentIds(t.rows) && !c.hasPendingWrites && c.kind == Removed
    ensures UniqueDocumentIds(ApplyChange(t, c).rows)
  {
    var found := Dao.ByFirestoreId(t, c.docId);
    if found.Some? {
      UniqueWithin(t.rows, Dao.Delete(t, found.value).rows);
    }
  }

  /** Rows drawn from rows with unique document ids have unique document ids. */
  lemma UniqueWithin(rows: seq<Product>, sub: seq<Product>)
    requires UniqueDocumentIds(rows) && forall x :: x in sub ==> x in rows
    ensures UniqueDocumentIds(sub)
  {
  }

  /** The row an ADDED/MODIFIED change writes over the local row `lp` carrying its document. */
  function ApplyChangeRow(lp: Product, c: DocumentChange): (r: Product)
    ensures r.id == lp.id && r.firestoreId == Some(c.docId)
    ensures var f := Parse(c.fields); r.name == f.name && r.quantity == f.quantity && r.price == f.price
  {
    var f := Parse(c.fields);
    lp.(name := f.name, quantity := f.quantity, price := f.price, firestoreId := Some(c.docId))
  }

  /** After an ADDED/MODIFIED change, the row carrying its document holds the document's fields. */
  lemma UpsertedRow(t: Dao.Table, c: DocumentChange) returns (row: Product)
    requires t.Valid() && UniqueDocumentIds(t.rows) && !c.hasPendingWrites && c.kind != Removed
    ensures row.firestoreId == Some(c.docId)
    ensures Dao.ByFirestoreId(ApplyChange(t, c), c.docId) == Some(row)
    ensures ApplyChangeRow(row, c) == row
  {
    var found := Dao.ByFirestoreId(t, c.docId);
    if found.Some? {
      row := ApplyChangeRow(found.value, c);
      MergedRowFound(t, c);
    } else {
      UpsertUnknownDocument(t, c);
      var f := Parse(c.fields);
      row := Product(t.nextId, Some(c.docId), f.name, f.quantity, f.price);
    }
  }

  lemma MergedRowFound(t: Dao.Table, c: DocumentChange)
    requires t.Valid() && UniqueDocumentIds(t.rows) && !c.hasPendingWrites && c.kind != Removed
    requires Dao.ByFirestoreId(t, c.docId).Some?
    ensures var row := ApplyChangeRow(Dao.ByFirestoreId(t, c.docId).value, c);
      Dao.ByFirestoreId(ApplyChange(t, c), c.docId) == Some(row)
  {
    var t1 := ApplyChange(t, c);
    var lp := Dao.ByFirestoreId(t, c.docId).value;
    var row := ApplyChangeRow(lp, c);
    UpsertKnownDocument(t, c);
    assert Dao.GetById(t1, lp.id) == Some(row);
    MergeKeepsDocumentIdsUnique(t, c);
    assert Dao.Carries(t1.rows, c.docId) by {
      var i :| 0 <= i < |t1.rows| && t1.rows[i] == row;
    }
  }

  /**
   A confirmed ADDED/MODIFIED document whose fields match the row already
   carrying it changes nothing: this is how the listener's report of a write
   made on this device comes back without duplicating or reverting it.
   */
  lemma ConfirmedDocumentChangesNothing(t: Dao.Table, x: Product, c: DocumentChange)
    requires t.Valid() && UniqueDocumentIds(t.rows)
    requires x in t.rows && x.firestoreId == Some(c.docId)
    requires !c.hasPendingWrites && c.kind != Removed && c.fields == FieldsOf(x)
    ensures ApplyChange(t, c) == t
  {
    assert Dao.Carries(t.rows, c.docId) by {
      var i :| 0 <= i < |t.rows| && t.rows[i] == x;
    }
    assert Dao.ByFirestoreId(t, c.docId) == Some(x);
    ParseWrittenDocument(x);
    assert ApplyChangeRow(x, c) == x;
    Dao.UpdateWithStoredRow(t, x);
  }

  /** Reconciling the same ADDED/MODIFIED change twice is reconciling it once. */
  lemma UpsertIdempotent(t: Dao.Table, c: DocumentChange)
    requires t.Valid() && UniqueDocumentIds(t.rows) && !c.hasPendingWrites && c.kind != Removed
    ensures ApplyChange(ApplyChange(t, c), c) == ApplyChange(t, c)
  {
    var t1 := ApplyChange(t, c);
    var row := UpsertedRow(t, c);
    Dao.UpdateWithStoredRow(t1, row);
  }

  /** Reconciling the same REMOVED change twice is reconciling it once. */
  lemma RemoveIdempotent(t: Dao.Table, c: DocumentChange)
    requires t.Valid() && UniqueDocumentIds(t.rows) && !c.hasPendingWrites && c.kind == Removed
    ensures ApplyChange(ApplyChange(t, c), c) == ApplyChange(t, c)
  {
    var t1 := ApplyChange(t, c);
    var found := Dao.ByFirestoreId(t, c.docId);
    if found.Some? {
      var lp := found.value;
      Dao.MemberIsLookup(t, lp);
      forall x | x in t1.rows
        ensures x.firestoreId != Some(c.docId)
      {
        Dao.MemberIsLookup(t1, x);
      }
    }
  }

  /**
   Reconciling the same change twice is reconciling it once, provided no two
   local rows carry the same document id.
   */
  lemma ApplyChangeIdempotent(t: Dao.Table, c: DocumentChange)
    requires t.Valid() && UniqueDocumentIds(t.rows)
    ensures ApplyChange(ApplyChange(t, c), c) == ApplyChange(t, c)
  {
    if !c.hasPendingWrites {
      if c.kind == Removed {
        RemoveIdempotent(t, c);
      } else {
        UpsertIdempotent(t, c);
      }
    }
  }

  /** A batch made only of echoes of this device's pending writes leaves the local table as it is. */
  lemma {:induction false} EchoBatchChangesNothing(t: Dao.Table, cs: seq<DocumentChange>)
    requires t.Valid()
    requires forall i :: 0 <= i < |cs| ==> cs[i].hasPendingWrites
    ensures ApplyChanges(t, cs) == t
    decreases |cs|
  {
    if |cs| > 0 {
      EchoBatchChangesNothing(t, cs[1..]);
    }
  }

  /** Reconciling a whole batch keeps local document ids unique. */
  lemma {:induction false} ApplyChangesKeepsDocumentIdsUnique(t: Dao.Table, cs: seq<DocumentChange>)
    requires t.Valid() && UniqueDocumentIds(t.rows)
    ensures UniqueDocumentIds(ApplyChanges(t, cs).rows)
    decreases |cs|
  {
    if |cs| > 0 {
      var t1 := ApplyChange(t, cs[0]);
      ApplyChangeKeepsDocumentIdsUnique(t, cs[0]);
      ApplyChangesKeepsDocumentIdsUnique(t1, cs[1..]);
      assert ApplyChanges(t, cs) == ApplyChanges(t1, cs[1..]);
    }
  }

  /** Deleting a product only drops rows, so document ids stay unique. */
  lemma DeleteKeepsDocumentIdsUnique(s: SyncState, p: Product, remoteOk: bool)
    requires s.local.Valid() && UniqueDocumentIds(s.local.rows)
    ensures UniqueDocumentIds(Delete(s, p, remoteOk).local.rows)
  {
    UniqueWithin(s.local.rows, Delete(s, p, remoteOk).local.rows);
  }

  /** Whatever the listener delivers, reconciling it keeps document ids unique. */
  lemma OnSnapshotKeepsDocumentIdsUnique(t: Dao.Table, snapshot: Option<seq<DocumentChange>>, failed: bool)
    requires t.Valid() && UniqueDocumentIds(t.rows)
    ensures UniqueDocumentIds(OnSnapshot(t, snapshot, failed).rows)
  {
    if !failed && snapshot.Some? {
      ApplyChangesKeepsDocumentIdsUnique(t, snapshot.value);
    }
  }
}
