/**
 `ProductViewModel`: the values the screens derive from the live listing
 (product count, stock value, CSV export text) and the user actions it
 forwards to the repository.
 */
module ProductViewModel {
  import opened Wrappers
  import opened Products
  import Dao = ProductDao
  import Repo = ProductRepository
  import SeqFacts

  // ---------------------------------------------------------------------------
  // Statistics
  // ---------------------------------------------------------------------------

  /** `totalProductCount`: the size of the current listing. */
  function TotalProductCount(products: seq<Product>): nat
  {
    |products|
  }

  /** The product count shown is the number of rows in the table. */
  lemma ProductCountIsRowCount(t: Dao.Table)
    requires t.Valid()
    ensures TotalProductCount(Dao.AllProducts(t)) == |t.rows|
    ensures TotalProductCount(Dao.AllProducts(Dao.DeleteAll(t))) == 0
  {
  }

  /** One product's share of the stock value. */
  function LineValue(p: Product): real
  {
    p.price * p.quantity as real
  }

  lemma LineValueOf(p: Product, price: real, quantity: int)
    requires p.price == price && p.quantity == quantity
    ensures LineValue(p) == price * quantity as real
  {
  }

  /** `totalStockValue`: the sum of price × quantity over the listing. */
  function TotalStockValue(products: seq<Product>): (v: real)
    ensures |products| == 0 ==> v == 0.0
    ensures (forall i :: 0 <= i < |products| ==> products[i].price >= 0.0 && products[i].quantity >= 0) ==> v >= 0.0
  {
    if |products| == 0 then 0.0
    else LineValue(products[0]) + TotalStockValue(products[1..])
  }

  /** The stock value of two listings joined is the sum of their values. */
  lemma {:induction false} StockValueAppend(a: seq<Product>, b: seq<Product>)
    ensures TotalStockValue(a + b) == TotalStockValue(a) + TotalStockValue(b)
  {
    if |a| > 0 {
      assert (a + b)[1..] == a[1..] + b;
      StockValueAppend(a[1..], b);
    } else {
      assert a + b == b;
    }
  }

  /** Taking one product out of a listing takes its share out of the stock value. */
  lemma StockValueWithout(b: seq<Product>, i: int)
    requires 0 <= i < |b|
    ensures TotalStockValue(b) == LineValue(b[i]) + TotalStockValue(b[..i] + b[i + 1..])
  {
    var rest := b[i + 1..];
    SeqFacts.SplitAt(b, i);
    StockValueAppend(b[..i], [b[i]] + rest);
    StockValueAppend(b[..i], rest);
    assert TotalStockValue([b[i]] + rest) == LineValue(b[i]) + TotalStockValue(rest);
  }

  /** The stock value does not depend on the order the products are listed in. */
  lemma {:induction false} StockValuePermutation(a: seq<Product>, b: seq<Product>)
    requires multiset(a) == multiset(b)
    ensures TotalStockValue(a) == TotalStockValue(b)
    decreases |a|
  {
    if |a| == 0 {
      assert |b| == |multiset(b)| == 0;
    } else {
      assert a[0] in multiset(b);
      var i :| 0 <= i < |b| && b[i] == a[0];
      var rest := b[..i] + b[i + 1..];
      MultisetWithout(a, b, i);
      StockValuePermutation(a[1..], rest);
      StockValueWithout(b, i);
    }
  }

  lemma MultisetWithout(a: seq<Product>, b: seq<Product>, i: int)
    requires multiset(a) == multiset(b) && |a| > 0 && 0 <= i < |b| && b[i] == a[0]
    ensures multiset(a[1..]) == multiset(b[..i] + b[i + 1..])
  {
    assert a == [a[0]] + a[1..];
    assert b == b[..i] + [b[i]] + b[i + 1..];
    assert multiset(a[1..]) == multiset(a) - multiset{a[0]};
    assert multiset(b[..i] + b[i + 1..]) == multiset(b) - multiset{b[i]};
  }

  /** The stock value shown equals the value of the table's rows, whatever the listing order. */
  lemma StockValueOfTable(t: Dao.Table)
    requires t.Valid()
    ensures TotalStockValue(Dao.AllProducts(t)) == TotalStockValue(t.rows)
  {
    StockValuePermutation(Dao.AllProducts(t), t.rows);
  }

  // ---------------------------------------------------------------------------
  // User actions
  // ---------------------------------------------------------------------------

  /**
   `addProduct(name, quantity, price)`: hands the repository a new product
   with exactly these fields, no key and no document id; the repository
   stamps it with the minted document id and the table gives it a new key.
   */
  function AddProduct(s: Repo.SyncState, name: string, quantity: int, price: real, minted: string, remoteOk: bool): (r: Repo.SyncState)
    requires s.local.Valid() && Repo.FreshDocumentId(s, minted)
    ensures r.local.Valid()
    ensures |r.local.rows| == |s.local.rows| + 1
    ensures Dao.ByFirestoreId(r.local, minted).Some?
    ensures var row := Dao.ByFirestoreId(r.local, minted).value;
      && row == Product(row.id, Some(minted), name, quantity, price)
      && row.id != Unassigned
      && Dao.GetById(s.local, row.id) == None
      && (forall k :: k != row.id ==> Dao.GetById(r.local, k) == Dao.GetById(s.local, k))
      && (remoteOk ==> r.remote == s.remote[minted := row])
    ensures !remoteOk ==> r.remote == s.remote
  {
    Repo.Insert(s, NewProduct(name, quantity, price), minted, remoteOk)
  }

  /** A row appended to the table adds its own value to the stock value shown. */
  lemma StockValueAfterAppend(t: Dao.Table, t': Dao.Table, row: Product)
    requires t.Valid() && t'.Valid() && t'.rows == t.rows + [row]
    ensures TotalStockValue(Dao.AllProducts(t')) == TotalStockValue(Dao.AllProducts(t)) + LineValue(row)
  {
    StockValueOfTable(t);
    StockValueOfTable(t');
    StockValueAppend(t.rows, [row]);
  }

  /** Adding a product raises the stock value by its price × quantity. */
  lemma AddProductAddsValue(s: Repo.SyncState, name: string, quantity: int, price: real, minted: string, remoteOk: bool)
    requires s.local.Valid() && Repo.FreshDocumentId(s, minted)
    ensures TotalStockValue(Dao.AllProducts(AddProduct(s, name, quantity, price, minted, remoteOk).local))
         == TotalStockValue(Dao.AllProducts(s.local)) + price * quantity as real
  {
    var row := Repo.InsertAppends(s, NewProduct(name, quantity, price), minted, remoteOk);
    var t' := AddProduct(s, name, quantity, price, minted, remoteOk).local;
    assert t'.rows == s.local.rows + [row];
    LineValueOf(row, price, quantity);
    StockValueAfterAppend(s.local, t', row);
  }

  /** `updateProduct(product)`: the product goes to the repository's `update` as given. */
  function UpdateProduct(s: Repo.SyncState, p: Product, remoteOk: bool): (r: Repo.SyncState)
    requires s.local.Valid()
    ensures r == Repo.Update(s, p, remoteOk)
    ensures Dao.GetById(s.local, p.id).Some? ==> Dao.GetById(r.local, p.id) == Some(p)
  {
    Repo.Update(s, p, remoteOk)
  }

  /** `deleteProduct(product)`: the product goes to the repository's `delete` as given. */
  function DeleteProduct(s: Repo.SyncState, p: Product, remoteOk: bool): (r: Repo.SyncState)
    requires s.local.Valid()
    ensures r == Repo.Delete(s, p, remoteOk)
    ensures Dao.GetById(r.local, p.id) == None
  {
    Repo.Delete(s, p, remoteOk)
  }

  // ---------------------------------------------------------------------------
  // Sessions
  // ---------------------------------------------------------------------------

  /**
   One thing that happens to the synchronisation state while the screen is
   open: one of the three user actions, or one listener callback (the sync
   started when the view model is created). `minted` and `remoteOk` stand for
   the remote client's id and write outcome, as in the repository.
   */
  datatype Action =
    | Add(name: string, quantity: int, price: real, minted: string, remoteOk: bool)
    | Edit(product: Product, remoteOk: bool)
    | Drop(product: Product, remoteOk: bool)
    | Listen(snapshot: Option<seq<Repo.DocumentChange>>, failed: bool)

  /**
   Whether the app can produce `a` in state `s`: a minted id is fresh, and an
   edit is the edited row with a new name, quantity and price (the entry
   screen's `productToEdit.copy(...)`), so it keeps that row's document id.
   */
  predicate Allowed(s: Repo.SyncState, a: Action)
  {
    match a
    case Add(_, _, _, minted, _) => Repo.FreshDocumentId(s, minted)
    case Edit(p, _) => forall x :: x in s.local.rows && x.id == p.id ==> x.firestoreId == p.firestoreId
    case Drop(_, _) => true
    case Listen(_, _) => true
  }

  /** The state after `a`. A listener callback touches only the local table. */
  function Step(s: Repo.SyncState, a: Action): (r: Repo.SyncState)
    requires s.local.Valid() && Allowed(s, a)
    ensures r.local.Valid()
    ensures a.Listen? ==> r.remote == s.remote
  {
    match a
    case Add(name, quantity, price, minted, ok) => AddProduct(s, name, quantity, price, minted, ok)
    case Edit(p, ok) => UpdateProduct(s, p, ok)
    case Drop(p, ok) => DeleteProduct(s, p, ok)
    case Listen(snapshot, failed) => Repo.SyncState(Repo.OnSnapshot(s.local, snapshot, failed), s.remote)
  }

  /** The state after `acts` in order, or `None` when one of them is not one the app can produce where it occurs. */
  function Run(s: Repo.SyncState, acts: seq<Action>): (r: Option<Repo.SyncState>)
    requires s.local.Valid()
    ensures r.Some? ==> r.value.local.Valid()
    ensures |acts| == 0 ==> r == Some(s)
    decreases |acts|
  {
    if |acts| == 0 then Some(s)
    else if !Allowed(s, acts[0]) then None
    else Run(Step(s, acts[0]), acts[1..])
  }

  /** Every action keeps document ids unique. */
  lemma StepKeepsDocumentIdsUnique(s: Repo.SyncState, a: Action)
    requires s.local.Valid() && Allowed(s, a) && Repo.UniqueDocumentIds(s.local.rows)
    ensures Repo.UniqueDocumentIds(Step(s, a).local.rows)
  {
    match a
    case Add(name, quantity, price, minted, ok) =>
      Repo.InsertKeepsDocumentIdsUnique(s, NewProduct(name, quantity, price), minted, ok);
    case Edit(p, ok) =>
      Repo.UpdateKeepsDocumentIdsUnique(s, p, ok);
    case Drop(p, ok) =>
      Repo.DeleteKeepsDocumentIdsUnique(s, p, ok);
    case Listen(snapshot, failed) =>
      Repo.OnSnapshotKeepsDocumentIdsUnique(s.local, snapshot, failed);
  }

  /** Document ids stay unique over any session the app can produce. */
  lemma {:induction false} RunKeepsDocumentIdsUnique(s: Repo.SyncState, acts: seq<Action>)
    requires s.local.Valid() && Repo.UniqueDocumentIds(s.local.rows)
    ensures Run(s, acts).Some? ==> Repo.UniqueDocumentIds(Run(s, acts).value.local.rows)
    decreases |acts|
  {
    if |acts| > 0 && Allowed(s, acts[0]) {
      StepKeepsDocumentIdsUnique(s, acts[0]);
      RunKeepsDocumentIdsUnique(Step(s, acts[0]), acts[1..]);
    }
  }

  // ---------------------------------------------------------------------------
  // CSV export
  // ---------------------------------------------------------------------------

  /** The header line of the export (without its line break). */
  const CsvHeader: string := "ID,Nom,Quantité,Prix (TND)"

  /**
   One product's line (without its line break): key, name, quantity and
   price joined by commas. `showInt` and `showReal` are the platform's
   renderings of numbers as text.
   */
  function CsvRow(p: Product, showInt: int -> string, showReal: real -> string): string
  {
    showInt(p.id) + "," + p.name + "," + showInt(p.quantity) + "," + showReal(p.price)
  }

  /** The products' lines, each followed by a line break, in listing order. */
  function CsvBody(ps: seq<Product>, showInt: int -> string, showReal: real -> string): string
  {
    if |ps| == 0 then ""
    else CsvRow(ps[0], showInt, showReal) + "\n" + CsvBody(ps[1..], showInt, showReal)
  }

  /**
   `exportToCSV`: nothing to write for an empty listing; otherwise the file
   text is the header line followed by one line per product.
   */
  function ExportCsv(ps: seq<Product>, showInt: int -> string, showReal: real -> string): (r: Option<string>)
    ensures r.None? <==> |ps| == 0
    ensures r.Some? ==> |r.value| > |CsvHeader| && r.value[..|CsvHeader| + 1] == CsvHeader + "\n"
  {
    if |ps| == 0 then None
    else
      var text := CsvHeader + "\n" + CsvBody(ps, showInt, showReal);
      assert text[..|CsvHeader| + 1] == CsvHeader + "\n";
      Some(text)
  }

  // Reading the text back line by line.

  predicate SingleLine(s: string)
  {
    forall i :: 0 <= i < |s| ==> s[i] != '\n'
  }

  /** The position of the first line break, or `|s|` when there is none. */
  function LineEnd(s: string): (i: nat)
    ensures i <= |s|
    ensures i < |s| ==> s[i] == '\n'
    ensures SingleLine(s[..i])
  {
    if |s| == 0 then 0
    else if s[0] == '\n' then 0
    else
      var i := 1 + LineEnd(s[1..]);
      assert forall j :: 1 <= j < i ==> s[..i][j] == s[1..][..i - 1][j - 1];
      i
  }

  /** The lines of a text, each line break ending one; a last line without a break still counts. */
  function Lines(s: string): seq<string>
    decreases |s|
  {
    if |s| == 0 then []
    else
      var i := LineEnd(s);
      if i == |s| then [s] else [s[..i]] + Lines(s[i + 1..])
  }

  lemma LinesCons(a: string, b: string)
    requires SingleLine(a)
    ensures Lines(a + "\n" + b) == [a] + Lines(b)
  {
    var s := a + "\n" + b;
    var i := LineEnd(s);
    assert s[|a|] == '\n';
    assert forall j :: 0 <= j < |a| ==> s[j] == a[j];
    assert forall j :: 0 <= j < i ==> s[..i][j] == s[j];
    assert i == |a|;
    assert s[..i] == a;
    assert s[i + 1..] == b;
  }

  lemma {:induction false} CsvBodyLines(ps: seq<Product>, showInt: int -> string, showReal: real -> string)
    requires forall i :: 0 <= i < |ps| ==> SingleLine(CsvRow(ps[i], showInt, showReal))
    ensures |Lines(CsvBody(ps, showInt, showReal))| == |ps|
    ensures forall i :: 0 <= i < |ps| ==> Lines(CsvBody(ps, showInt, showReal))[i] == CsvRow(ps[i], showInt, showReal)
  {
    if |ps| > 0 {
      CsvBodyLines(ps[1..], showInt, showReal);
      LinesCons(CsvRow(ps[0], showInt, showReal), CsvBody(ps[1..], showInt, showReal));
    }
  }

  lemma SingleLineJoin(a: string, b: string)
    requires SingleLine(a) && SingleLine(b)
    ensures SingleLine(a + "," + b)
  {
  }

  /**
   Provided no name and no rendered number contains a line break, the
   exported text reads back as the header line followed by exactly one line
   per product, in listing order: 1 + |ps| lines in all.
   */
  lemma ExportLines(ps: seq<Product>, showInt: int -> string, showReal: real -> string)
    requires |ps| > 0
    requires forall i :: 0 <= i < |ps| ==> SingleLine(ps[i].name)
    requires forall n :: SingleLine(showInt(n))
    requires forall x :: SingleLine(showReal(x))
    ensures var lines := Lines(ExportCsv(ps, showInt, showReal).value);
      && |lines| == 1 + |ps|
      && lines[0] == CsvHeader
      && forall i :: 0 <= i < |ps| ==> lines[i + 1] == CsvRow(ps[i], showInt, showReal)
  {
    forall i | 0 <= i < |ps|
      ensures SingleLine(CsvRow(ps[i], showInt, showReal))
    {
      var p := ps[i];
      SingleLineJoin(showInt(p.id), p.name);
      SingleLineJoin(showInt(p.id) + "," + p.name, showInt(p.quantity));
      SingleLineJoin(showInt(p.id) + "," + p.name + "," + showInt(p.quantity), showReal(p.price));
    }
    CsvBodyLines(ps, showInt, showReal);
    assert SingleLine(CsvHeader);
    LinesCons(CsvHeader, CsvBody(ps, showInt, showReal));
  }
}
