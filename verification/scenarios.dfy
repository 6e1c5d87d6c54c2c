/**
 End-to-end walks through the synchronisation engine: a product created on
 this device, two products totalled, a product arriving from another device,
 and this device's own writes echoed back by the remote listener.
 */
module Scenarios {
  import opened Wrappers
  import opened Products
  import Dao = ProductDao
  import Repo = ProductRepository
  import VM = ProductViewModel

  /** A fresh install: empty table, empty remote collection. */
  const Start: Repo.SyncState := Repo.SyncState(Dao.Empty, map[])

  /**
   Creating "Widget" (10 at 2.5) on a fresh install leaves one row, under an
   assigned key and carrying the minted document id, and a stock value of 25.
   */
  lemma CreateWidget(minted: string, remoteOk: bool)
    ensures var s := VM.AddProduct(Start, "Widget", 10, 2.5, minted, remoteOk);
      var listing := Dao.AllProducts(s.local);
      && VM.TotalProductCount(listing) == 1
      && listing[0] == Product(listing[0].id, Some(minted), "Widget", 10, 2.5)
      && listing[0].id != Unassigned
      && VM.TotalStockValue(listing) == 25.0
  {
    var s := VM.AddProduct(Start, "Widget", 10, 2.5, minted, remoteOk);
    var listing := Dao.AllProducts(s.local);
    var row := Repo.InsertAppends(Start, NewProduct("Widget", 10, 2.5), minted, remoteOk);
    assert s.local.rows == [row];
    assert listing[0] in multiset(s.local.rows);
    VM.AddProductAddsValue(Start, "Widget", 10, 2.5, minted, remoteOk);
  }

  /** After the first product ("A", 1, 10.0): one valid row, and any other id is still fresh. */
  lemma FirstOfTwoFresh(m1: string, m2: string, ok1: bool)
    requires m1 != m2
    ensures var s1 := VM.AddProduct(Start, "A", 1, 10.0, m1, ok1);
      && s1.local.Valid()
      && Repo.FreshDocumentId(s1, m2)
      && |s1.local.rows| == 1
  {
    var s1 := VM.AddProduct(Start, "A", 1, 10.0, m1, ok1);
    var row := Repo.InsertAppends(Start, NewProduct("A", 1, 10.0), m1, ok1);
    assert s1.local.rows == [row];
    Dao.CarriesSingle(row, m2);
    assert s1.remote.Keys <= {m1};
  }

  /** After the first product ("A", 1, 10.0) the stock is worth 10. */
  lemma FirstOfTwoValue(m1: string, ok1: bool)
    ensures VM.TotalStockValue(Dao.AllProducts(VM.AddProduct(Start, "A", 1, 10.0, m1, ok1).local)) == 10.0
  {
    VM.AddProductAddsValue(Start, "A", 1, 10.0, m1, ok1);
    assert VM.TotalStockValue(Dao.AllProducts(Start.local)) == 0.0;
  }

  /** Products ("A", 1, 10.0) and ("B", 2, 5.0) count 2 and are worth 10 + 10 = 20. */
  lemma TwoProducts(m1: string, m2: string, ok1: bool, ok2: bool)
    requires m1 != m2
    ensures Repo.FreshDocumentId(VM.AddProduct(Start, "A", 1, 10.0, m1, ok1), m2)
    ensures var s2 := VM.AddProduct(VM.AddProduct(Start, "A", 1, 10.0, m1, ok1), "B", 2, 5.0, m2, ok2);
      && VM.TotalProductCount(Dao.AllProducts(s2.local)) == 2
      && VM.TotalStockValue(Dao.AllProducts(s2.local)) == 20.0
  {
    FirstOfTwoFresh(m1, m2, ok1);
    FirstOfTwoValue(m1, ok1);
    var s1 := VM.AddProduct(Start, "A", 1, 10.0, m1, ok1);
    VM.AddProductAddsValue(s1, "B", 2, 5.0, m2, ok2);
  }

  /** An ADDED document no local row knows appears as a new row carrying its id and fields. */
  lemma GadgetArrives()
    ensures var c := Repo.DocumentChange(Repo.Added, "r1",
        Repo.DocumentFields(Some("Gadget"), Some(3), Some(4.0)), false);
      var t := Repo.ApplyChange(Dao.Empty, c);
      && |t.rows| == 1
      && Dao.ByFirestoreId(t, "r1") == Some(Product(1, Some("r1"), "Gadget", 3, 4.0))
  {
    var c := Repo.DocumentChange(Repo.Added, "r1",
      Repo.DocumentFields(Some("Gadget"), Some(3), Some(4.0)), false);
    Repo.UpsertUnknownDocument(Dao.Empty, c);
  }

  /**
   A local edit followed by the listener's echo of it leaves the edit in place:
   the echo is skipped while the write is pending, and once the server has
   confirmed it, reconciling the confirmed document changes nothing either.
   */
  lemma EditThenEcho(s: Repo.SyncState, p: Product, f: string, remoteOk: bool)
    requires s.local.Valid() && Repo.UniqueDocumentIds(s.local.rows)
    requires Dao.GetById(s.local, p.id).Some?
    requires Dao.GetById(s.local, p.id).value.firestoreId == Some(f) && p.firestoreId == Some(f)
    ensures var s1 := VM.UpdateProduct(s, p, remoteOk);
      var echo := Repo.DocumentChange(Repo.Modified, f, Repo.FieldsOf(p), true);
      var confirmed := Repo.DocumentChange(Repo.Modified, f, Repo.FieldsOf(p), false);
      && Repo.ApplyChange(s1.local, echo) == s1.local
      && Repo.ApplyChange(s1.local, confirmed) == s1.local
      && Dao.GetById(s1.local, p.id) == Some(p)
  {
    var s1 := VM.UpdateProduct(s, p, remoteOk);
    var confirmed := Repo.DocumentChange(Repo.Modified, f, Repo.FieldsOf(p), false);
    forall x | x in s.local.rows && x.id == p.id
      ensures x.firestoreId == p.firestoreId
    {
      Dao.MemberIsLookup(s.local, x);
    }
    Repo.UpdateKeepsDocumentIdsUnique(s, p, remoteOk);
    assert p in s1.local.rows;
    Repo.ConfirmedDocumentChangesNothing(s1.local, p, confirmed);
  }

  /**
   A product created on this device and then reported by the listener as a
   confirmed document (no pending writes) is matched to its own row by the
   minted document id: no duplicate row, and the row is left as it was.
   */
  lemma CreateThenConfirm(s: Repo.SyncState, p: Product, minted: string, kind: Repo.ChangeType)
    requires s.local.Valid() && Repo.FreshDocumentId(s, minted) && Repo.UniqueDocumentIds(s.local.rows)
    requires kind != Repo.Removed
    ensures var s1 := Repo.Insert(s, p, minted, true);
      var confirmed := Repo.DocumentChange(kind, minted, Repo.FieldsOf(p), false);
      Repo.ApplyChange(s1.local, confirmed) == s1.local
  {
    var s1 := Repo.Insert(s, p, minted, true);
    var row := Dao.ByFirestoreId(s1.local, minted).value;
    var confirmed := Repo.DocumentChange(kind, minted, Repo.FieldsOf(p), false);
    Repo.InsertKeepsDocumentIdsUnique(s, p, minted, true);
    assert Repo.FieldsOf(row) == Repo.FieldsOf(p);
    Repo.ConfirmedDocumentChangesNothing(s1.local, row, confirmed);
  }

  /** From a fresh install, every session the app can produce leaves no document id on two rows. */
  lemma SessionsKeepDocumentIdsUnique(acts: seq<VM.Action>)
    ensures VM.Run(Start, acts).Some? ==> Repo.UniqueDocumentIds(VM.Run(Start, acts).value.local.rows)
  {
    VM.RunKeepsDocumentIdsUnique(Start, acts);
  }
}
