# SmartShop product synchronisation, modelled in Dafny

SmartShop is an Android inventory app. Its products (name, quantity, price)
live in a local Room table and are mirrored to a Firestore collection. This
project models the part of the app that holds all its logic:

- **`ProductDao`** (`product_dao.dfy`): the `products` table. Rows are keyed
  by an auto-generated integer `id` and carry a nullable `firestoreId`. The
  interface offers lookups by `id` and by `firestoreId`, insert with REPLACE,
  update and delete by key, delete-all, and the listing ordered by name.
- **`ProductRepository`** (`product_repository.dfy`): the sync engine.
  - Outbound, `insert`, `update` and `delete` write locally first, then to
    the remote document. A remote failure is swallowed.
  - Inbound, the snapshot listener reconciles each document change (ADDED,
    MODIFIED, REMOVED) against the local row carrying the same
    `firestoreId`. Echoes of this device's pending writes are skipped.
    Missing fields are read as defaults.
- **`ProductViewModel`** (`product_view_model.dfy`): the product count, the
  stock value (Σ price × quantity), the CSV export text, and the add, update
  and delete actions that go to the repository, and sessions of actions and
  listener callbacks.

`scenarios.dfy` walks through several end-to-end cases:

- a product created on a fresh install;
- two products totalled;
- a product arriving from another device;
- this device's own writes echoed back by the listener and then confirmed;
- any session from a fresh install keeping document ids unique.

Supporting modules: `wrappers.dfy` (an `Option` for Kotlin's nullable
types), `products.dfy` (the `Product` entity), `text_order.dfy` (the
text order used by `ORDER BY name`) and `seq_facts.dfy` (sequence
identities the proofs split on).

## How the model is built

- **Product.** `Product(id, firestoreId, name, quantity, price)`.
  - The entity class is not part of this model. Its shape is inferred from
    its uses.
  - `id == 0` (`Unassigned`) is the default that the auto-generated key
    treats as "not set".
  - `price` is a `real`, so sums are exact.
- **Table.** A table is its rows in ascending key order plus `nextId`, the
  table's AUTOINCREMENT sequence.
  - Key order is the table's B-tree order, so "the first row a query
    returns" is well defined.
  - `Valid()` says keys strictly ascend, the unset key is never stored, and
    every key lies below `nextId`.
- **Remote collection.** The remote collection is a `map<string, Product>`
  from document id to the written product.
- **Parameters for things outside the model.**
  - Minting a document id is the parameter `minted`. `FreshDocumentId`
    requires that no document and no local row already uses it. The client
    library promises this by drawing 20 random characters.
  - The outcome of each remote write is the parameter `remoteOk`.
- **Inbound batches.** The changes of one snapshot are reconciled one after
  another, in the order listed (`ApplyChanges`). The app instead launches a
  coroutine per change. Treating them in sequence is an idealisation.
- **`getAllProducts` order.** Names compare by code point, which is also
  the order of SQLite's BINARY collation over UTF-8. Rows with equal names
  are listed in key order. The query leaves that tie order open, so this is
  a choice the model makes.
- **`getProductByFirestoreId`.** Room returns the first row of the result,
  which is the row with the smallest key among those carrying the id.
  `UniqueDocumentIds` states that at most one row carries any id. Inserts,
  reconciliation, and edits that keep a row's document id all preserve it.

- **Update of a missing row.** Room's `@Update` on a key with no row
  changes nothing and raises no error. `update` still writes the remote
  document when the product carries a `firestoreId`
  (ProductRepository.kt:36-45). See `ProductDao.Update` and
  `ProductRepository.Update`.
- **Order of inbound changes.** The listener launches one coroutine per
  change (ProductRepository.kt:80). The model applies them in list order.
- **Sessions.** `ProductViewModel.Run` plays a sequence of user actions and
  listener callbacks. An edit is the edited row with new values
  (ProductEntryScreen.kt:95), so it keeps that row's document id.
  `RunKeepsDocumentIdsUnique` shows that no session makes two rows carry
  the same document id.

## Model

| member | source | states |
|---|---|---|
| Products.NewProduct | app/src/main/java/com/example/smartshop/ui/products/ProductViewModel.kt:62 | a product built from name, quantity and price has those fields, the unset key and no document id |
| ProductDao.AllProducts | app/src/main/java/com/example/smartshop/data/local/ProductDao.kt:9-10 | the listing holds every row of the table exactly once (same multiset), sorted by name ascending, equal names in key order |
| ProductDao.SortRows | app/src/main/java/com/example/smartshop/data/local/ProductDao.kt:9 | sorting yields a permutation of the rows that is ordered by (name, key) |
| ProductDao.GetById | app/src/main/java/com/example/smartshop/data/local/ProductDao.kt:12-13 | returns the row stored under the key if there is one (and it is the only one), null exactly when no row has that key |
| ProductDao.ByFirestoreId | app/src/main/java/com/example/smartshop/data/local/ProductDao.kt:15-16 | a non-null result is a stored row carrying the document id, with the smallest key among such rows; null exactly when no row carries it |
| ProductDao.Insert | app/src/main/java/com/example/smartshop/data/local/ProductDao.kt:18-19 | returns the key, which is fresh for an unset id and the given id otherwise; afterwards that key looks up the inserted product, every other key looks up what it did before, and the row count grows by one unless an existing row was replaced |
| ProductDao.InsertFreshThenDelete | app/src/main/java/com/example/smartshop/data/local/ProductDao.kt:18-25 | an insert with unset id appends a row under the sequence's next key; deleting it restores the rows exactly |
| ProductDao.Update | app/src/main/java/com/example/smartshop/data/local/ProductDao.kt:21-22 | the row under the product's key becomes the product; an absent key leaves the table unchanged; no other key's row changes; the row count is kept |
| ProductDao.UpdateWithStoredRow | app/src/main/java/com/example/smartshop/data/local/ProductDao.kt:21-22 | writing back a stored row unchanged leaves the table unchanged |
| ProductDao.UpdatedMember | app/src/main/java/com/example/smartshop/data/local/ProductDao.kt:21-22 | every row after an update is the written product (which then replaced an existing row) or an untouched row under another key |
| ProductDao.Delete | app/src/main/java/com/example/smartshop/data/local/ProductDao.kt:24-25 | afterwards no row has the product's key; other keys are unaffected; an absent key leaves the table unchanged; the count drops by one exactly when the row existed |
| ProductDao.DeleteIdempotent | app/src/main/java/com/example/smartshop/data/local/ProductDao.kt:24-25 | deleting the same product twice equals deleting it once |
| ProductDao.DeleteAll | app/src/main/java/com/example/smartshop/data/local/ProductDao.kt:27-28 | no key finds a row afterwards and the listing is empty |
| ProductDao.MemberIsLookup | app/src/main/java/com/example/smartshop/data/local/ProductDao.kt:12-13 | a stored row is what a lookup of its own key returns (keys identify rows) |
| ProductRepository.Insert | app/src/main/java/com/example/smartshop/data/repository/ProductRepository.kt:18-34 | the stored row carries the minted document id and the product's fields under an assigned key; when the id was unset the key is new and the count grows by one; it is found by that document id; other rows are unchanged; on remote success the document equals the stored row including its key, and on failure the remote is unchanged and nothing is reported |
| ProductRepository.InsertAppends | app/src/main/java/com/example/smartshop/data/repository/ProductRepository.kt:20-25 | a new product is stored, stamped with the minted id, under the sequence's next key, after all existing rows |
| ProductRepository.InsertKeepsDocumentIdsUnique | app/src/main/java/com/example/smartshop/data/repository/ProductRepository.kt:20-25 | since the id is minted before the local write, the new row is the only one carrying it |
| ProductRepository.Update | app/src/main/java/com/example/smartshop/data/repository/ProductRepository.kt:36-45 | the local row under the key always becomes the product when present; the remote document is written only when the product carries a document id and the write succeeds, otherwise the remote is unchanged |
| ProductRepository.UpdateKeepsDocumentIdsUnique | app/src/main/java/com/example/smartshop/data/repository/ProductRepository.kt:36-37 | an edit that keeps the row's document id keeps document ids unique |
| ProductRepository.Delete | app/src/main/java/com/example/smartshop/data/repository/ProductRepository.kt:47-56 | the local row always goes; the remote document is deleted only when the product carries a document id and the delete succeeds; a failure leaves the remote unchanged |
| ProductRepository.RemoteOutcomeLeavesLocalAlone | app/src/main/java/com/example/smartshop/data/repository/ProductRepository.kt:28-56 | for insert, update and delete, the local table afterwards does not depend on whether the remote write succeeded |
| ProductRepository.Parse | app/src/main/java/com/example/smartshop/data/repository/ProductRepository.kt:73-75 | a missing name, quantity or price reads as "", 0 or 0.0; present fields are read as they are |
| ProductRepository.ParseWrittenDocument | app/src/main/java/com/example/smartshop/data/repository/ProductRepository.kt:73-75 | a document written from a product reads back as that product's name, quantity and price |
| ProductRepository.ApplyChange | app/src/main/java/com/example/smartshop/data/repository/ProductRepository.kt:66-113 | the table stays valid; a change with pending writes (an echo) leaves it unchanged; REMOVED never adds rows and ADDED/MODIFIED never removes any |
| ProductRepository.ApplyChangeRow | app/src/main/java/com/example/smartshop/data/repository/ProductRepository.kt:88-93 | the merged row keeps the local key and takes the document id and the document's name, quantity and price |
| ProductRepository.UpsertKnownDocument | app/src/main/java/com/example/smartshop/data/repository/ProductRepository.kt:81-105 | ADDED/MODIFIED for a document a local row carries overwrites that row's fields under the same key, keeps the row count, and leaves other keys alone |
| ProductRepository.UpsertUnknownDocument | app/src/main/java/com/example/smartshop/data/repository/ProductRepository.kt:94-107 | ADDED/MODIFIED for an unknown document inserts exactly one row under a new key, carrying the document id and fields; it is then the only row carrying the id, and the count grows by one |
| ProductRepository.RemoveDocument | app/src/main/java/com/example/smartshop/data/repository/ProductRepository.kt:110-112 | REMOVED deletes the row carrying the document, if any, and nothing else; without such a row the table is unchanged |
| ProductRepository.ApplyChangeKeepsDocumentIdsUnique | app/src/main/java/com/example/smartshop/data/repository/ProductRepository.kt:81-112 | reconciling a change never makes two rows carry the same document id |
| ProductRepository.ConfirmedDocumentChangesNothing | app/src/main/java/com/example/smartshop/data/repository/ProductRepository.kt:81-105 | a confirmed ADDED/MODIFIED document whose fields match the row already carrying its id leaves the table unchanged: no duplicate row, no reverted edit |
| ProductRepository.UpsertIdempotent | app/src/main/java/com/example/smartshop/data/repository/ProductRepository.kt:84-108 | reconciling an ADDED/MODIFIED change twice equals reconciling it once |
| ProductRepository.RemoveIdempotent | app/src/main/java/com/example/smartshop/data/repository/ProductRepository.kt:110-112 | reconciling a REMOVED change twice equals reconciling it once |
| ProductRepository.ApplyChangeIdempotent | app/src/main/java/com/example/smartshop/data/repository/ProductRepository.kt:81-112 | with unique document ids, any change applied twice has the effect of applying it once |
| ProductRepository.ApplyChanges | app/src/main/java/com/example/smartshop/data/repository/ProductRepository.kt:65-115 | reconciling a batch keeps the table valid; a batch without REMOVED never shrinks it, one of only REMOVED never grows it |
| ProductRepository.EchoBatchChangesNothing | app/src/main/java/com/example/smartshop/data/repository/ProductRepository.kt:68-69 | a batch made only of echoes leaves the table unchanged |
| ProductRepository.ApplyChangesKeepsDocumentIdsUnique | app/src/main/java/com/example/smartshop/data/repository/ProductRepository.kt:65-115 | reconciling a whole batch keeps document ids unique |
| ProductRepository.OnSnapshot | app/src/main/java/com/example/smartshop/data/repository/ProductRepository.kt:61-64 | a callback with an error, or without a snapshot, processes no change and leaves the table unchanged |
| ProductRepository.DeleteKeepsDocumentIdsUnique | app/src/main/java/com/example/smartshop/data/repository/ProductRepository.kt:47-56 | a delete only drops a row, so document ids stay unique |
| ProductRepository.OnSnapshotKeepsDocumentIdsUnique | app/src/main/java/com/example/smartshop/data/repository/ProductRepository.kt:61-116 | whatever a listener callback delivers (an error, no snapshot, or any batch of changes), document ids stay unique |
| ProductViewModel.ProductCountIsRowCount | app/src/main/java/com/example/smartshop/ui/products/ProductViewModel.kt:38 | the count shown equals the number of rows in the table, and 0 after delete-all |
| ProductViewModel.TotalStockValue | app/src/main/java/com/example/smartshop/ui/products/ProductViewModel.kt:44-50 | the empty listing is worth 0; with non-negative prices and quantities the value is non-negative |
| ProductViewModel.StockValueAppend | app/src/main/java/com/example/smartshop/ui/products/ProductViewModel.kt:44-45 | the value of two joined listings is the sum of their values |
| ProductViewModel.StockValuePermutation | app/src/main/java/com/example/smartshop/ui/products/ProductViewModel.kt:44-45 | listings with the same products in any order have the same value |
| ProductViewModel.StockValueOfTable | app/src/main/java/com/example/smartshop/ui/products/ProductViewModel.kt:44-45 | the value shown equals the value of the table's rows |
| ProductViewModel.AddProduct | app/src/main/java/com/example/smartshop/ui/products/ProductViewModel.kt:60-64 | adds exactly one row carrying exactly the given name, quantity and price plus the minted document id, under a new key; other rows are unchanged |
| ProductViewModel.AddProductAddsValue | app/src/main/java/com/example/smartshop/ui/products/ProductViewModel.kt:44-64 | adding a product raises the stock value by its price × quantity |
| ProductViewModel.UpdateProduct | app/src/main/java/com/example/smartshop/ui/products/ProductViewModel.kt:66-70 | the product goes unchanged to the repository's update, so an existing row becomes it |
| ProductViewModel.DeleteProduct | app/src/main/java/com/example/smartshop/ui/products/ProductViewModel.kt:72-76 | the product goes unchanged to the repository's delete, so no row keeps its key |
| ProductViewModel.Step | app/src/main/java/com/example/smartshop/ui/products/ProductViewModel.kt:53-76 | each user action and each listener callback leaves a valid table; a listener callback leaves the remote collection as it was |
| ProductViewModel.StepKeepsDocumentIdsUnique | app/src/main/java/com/example/smartshop/ui/products/ProductViewModel.kt:60-76 | every action the app can produce (a fresh minted id, an edit copied from the stored row) keeps document ids unique |
| ProductViewModel.RunKeepsDocumentIdsUnique | app/src/main/java/com/example/smartshop/ui/products/ProductViewModel.kt:53-76 | any sequence of allowed actions and listener callbacks keeps document ids unique |
| ProductViewModel.ExportCsv | app/src/main/java/com/example/smartshop/ui/products/ProductViewModel.kt:78-91 | an empty listing produces no file content; otherwise the text begins with the header line `ID,Nom,Quantité,Prix (TND)` |
| ProductViewModel.ExportLines | app/src/main/java/com/example/smartshop/ui/products/ProductViewModel.kt:87-91 | when no name or rendered number holds a line break, the text reads back as the header then one `id,name,quantity,price` line per product in listing order, 1 + n lines |
| Scenarios.CreateWidget | app/src/main/java/com/example/smartshop/ui/products/ProductViewModel.kt:60-64 | creating ("Widget", 10, 2.5) on a fresh install gives one row, with an assigned key and the minted document id, worth 25 |
| Scenarios.TwoProducts | app/src/main/java/com/example/smartshop/ui/products/ProductViewModel.kt:38-50 | ("A", 1, 10.0) and ("B", 2, 5.0) count 2 and are worth 20 |
| Scenarios.GadgetArrives | app/src/main/java/com/example/smartshop/data/repository/ProductRepository.kt:94-107 | an ADDED document "r1" ("Gadget", 3, 4.0) on an empty table becomes the one row carrying "r1", under key 1 |
| Scenarios.EditThenEcho | app/src/main/java/com/example/smartshop/data/repository/ProductRepository.kt:36-93 | after a local edit, neither its echo with pending writes nor its confirmed document changes the table, so the edit is not reverted or duplicated |
| Scenarios.CreateThenConfirm | app/src/main/java/com/example/smartshop/data/repository/ProductRepository.kt:18-107 | a product created here and then reported as a confirmed document is matched to its own row by the minted id, so no duplicate row appears and the table is unchanged |
| Scenarios.SessionsKeepDocumentIdsUnique | app/src/main/java/com/example/smartshop/ui/products/ProductViewModel.kt:53-76 | from a fresh install, no session the app can produce leaves two rows carrying the same document id |

## Left out

- Compose screens, navigation, Toasts, Firebase Auth and the entry-form
  checks are user interface or external services. The model starts where
  they call the view-model.
- Reactive plumbing is left out. This covers `Flow`/`StateFlow`, `stateIn`
  sharing, `callbackFlow`, `trySend` and the listener's
  `awaitClose { registration.remove() }`. The model computes the current
  value of each derived quantity from the current table and has no
  subscriptions.
- Firestore's id generator and the network are parameters: `minted` (with
  its freshness precondition) and `remoteOk`. Retries do not exist in the
  source and are not modelled.
- Concurrency is left out: `viewModelScope.launch` and the per-change
  `launch` in the listener. Actions and changes are applied one at a time.
  Two changes for the same new document processed concurrently could both
  miss the local row and insert twice. The sequential model cannot show
  this.
- ProductDao.Insert: a Room storage failure (an `SQLiteException`) is not
  modelled. The table has no constraint besides its key, and REPLACE
  resolves that one.
- ProductRepository.Insert: the conversion `id.toInt()` of the returned
  `Long` key is not modelled. Keys stay far below 2^31 here.
- ProductRepository.Parse: the `Long`-to-`Int` truncation of `quantity` is
  not modelled. A document's fields are optional values of the right type,
  so a field stored with another type is not modelled either: `getString`
  throws on a value that is not a string, and `getLong`/`getDouble` convert
  a number of the other kind (2.7 reads as 2).
- TotalStockValue: prices are exact reals. `Double` rounding in
  `sumOf { price * quantity }` is not modelled.
- ExportCsv: number-to-text rendering is left out. It is the parameters
  `showInt` and `showReal`. Writing the file (`File`, `FileOutputStream`)
  and the exception path are also left out.
- ExportLines: the export neither quotes nor escapes names. The
  line-by-line reading therefore requires that names contain no line
  break, and the field layout would also break on a name containing a
  comma.
- The `Product` entity class and the Room database class are not part of
  this model. The default `id = 0`, the auto-generated key and
  AUTOINCREMENT are inferred from how the code uses them.
