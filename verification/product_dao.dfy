/**
 The `products` table behind the `ProductDao` interface: rows keyed by an
 auto-generated integer primary key, with the queries and mutations the
 interface declares.
 */
module ProductDao {
  import opened Wrappers
  import opened Products
  import TextOrder
  import SeqFacts

  /**
   The table's rows in ascending key order (the order of the table's B-tree,
   and so of a full scan), and the key the next auto-generated insert receives
   (the AUTOINCREMENT sequence, which never hands a key out twice).
   */
  datatype Table = Table(rows: seq<Product>, nextId: int) {

    /** Keys strictly ascend (so no key repeats), none is the unset key, all lie below the sequence. */
    predicate Valid()
    {
      && nextId > Unassigned
      && KeyOrdered(rows)
      && forall p :: p in rows ==> p.id != Unassigned && p.id < nextId
    }
  }

  /** A freshly created database: no rows, first key 1. */
  const Empty: Table := Table([], 1)

  predicate KeyOrdered(rows: seq<Product>)
  {
    forall i, j :: 0 <= i < j < |rows| ==> rows[i].id < rows[j].id
  }

  /** Some row carries `f` as its remote document id. */
  predicate Carries(rows: seq<Product>, f: string)
  {
    exists i :: 0 <= i < |rows| && rows[i].firestoreId == Some(f)
  }

  /** A single row carries exactly its own document id. */
  lemma CarriesSingle(x: Product, f: string)
    ensures Carries([x], f) <==> x.firestoreId == Some(f)
  {
    if x.firestoreId == Some(f) {
      assert [x][0] == x;
    }
  }

  // ---------------------------------------------------------------------------
  // Lookup by key
  // ---------------------------------------------------------------------------

  /** The first row, in scan order, stored under key `k`. */
  function Lookup(rows: seq<Product>, k: int): (r: Option<Product>)
    ensures r.Some? ==> r.value.id == k && r.value in rows
    ensures r.None? <==> forall i :: 0 <= i < |rows| ==> rows[i].id != k
  {
    if |rows| == 0 then None
    else if rows[0].id == k then Some(rows[0])
    else Lookup(rows[1..], k)
  }

  /** In a key-ordered table the row stored under a key is the only one carrying it. */
  lemma LookupFinds(rows: seq<Product>, i: int)
    requires KeyOrdered(rows) && 0 <= i < |rows|
    ensures Lookup(rows, rows[i].id) == Some(rows[i])
  {
    var r := Lookup(rows, rows[i].id);
    if r.Some? {
      var j :| 0 <= j < |rows| && rows[j] == r.value;
      assert rows[j].id == rows[i].id;
    }
  }

  /** A stored row is what a lookup of its own key returns. */
  lemma MemberIsLookup(t: Table, x: Product)
    requires t.Valid() && x in t.rows
    ensures GetById(t, x.id) == Some(x)
  {
    var i :| 0 <= i < |t.rows| && t.rows[i] == x;
    LookupFinds(t.rows, i);
  }

  /** `getProductById(id)`: the row stored under `id`, or null when there is none. */
  function GetById(t: Table, id: int): (r: Option<Product>)
    requires t.Valid()
    ensures r.Some? ==> r.value.id == id && r.value in t.rows
    ensures r.None? <==> forall i :: 0 <= i < |t.rows| ==> t.rows[i].id != id
    ensures forall i :: 0 <= i < |t.rows| && t.rows[i].id == id ==> r == Some(t.rows[i])
  {
    forall i | 0 <= i < |t.rows| && t.rows[i].id == id
      ensures Lookup(t.rows, id) == Some(t.rows[i])
    {
      LookupFinds(t.rows, i);
    }
    Lookup(t.rows, id)
  }

  // ---------------------------------------------------------------------------
  // Lookup by remote document id
  // ---------------------------------------------------------------------------

  /** The position of the first row, in scan order, carrying `f`; `|rows|` when none does. */
  function FirstCarrying(rows: seq<Product>, f: string): (i: nat)
    ensures i <= |rows|
    ensures i < |rows| ==> rows[i].firestoreId == Some(f)
    ensures forall j :: 0 <= j < i ==> rows[j].firestoreId != Some(f)
  {
    if |rows| == 0 then 0
    else if rows[0].firestoreId == Some(f) then 0
    else 1 + FirstCarrying(rows[1..], f)
  }

  /**
   `getProductByFirestoreId(f)`: a row carrying `f`, or null exactly when no
   row does. The query returns the first row a scan in key order meets, so
   among several rows carrying `f` it is the one with the smallest key.
   */
  function ByFirestoreId(t: Table, f: string): (r: Option<Product>)
    requires t.Valid()
    ensures r.None? <==> !Carries(t.rows, f)
    ensures r.Some? ==> r.value in t.rows && r.value.firestoreId == Some(f)
    ensures r.Some? ==> forall i :: 0 <= i < |t.rows| && t.rows[i].firestoreId == Some(f) ==> r.value.id <= t.rows[i].id
  {
    var i := FirstCarrying(t.rows, f);
    if i < |t.rows| then Some(t.rows[i]) else None
  }

  // ---------------------------------------------------------------------------
  // Listing
  // ---------------------------------------------------------------------------

  /** The listing order: by name ascending; rows with equal names in key order. */
  predicate RowLe(a: Product, b: Product)
  {
    TextOrder.Lt(a.name, b.name) || (a.name == b.name && a.id <= b.id)
  }

  lemma RowLeTotal(a: Product, b: Product)
    ensures RowLe(a, b) || RowLe(b, a)
  {
    TextOrder.LeTotal(a.name, b.name);
  }

  lemma RowLeTransitive(a: Product, b: Product, c: Product)
    requires RowLe(a, b) && RowLe(b, c)
    ensures RowLe(a, c)
  {
    if a.name != b.name && b.name != c.name {
      TextOrder.LeTransitive(a.name, b.name, c.name);
      if a.name == c.name {
        TextOrder.LeAntisymmetric(a.name, b.name);
      }
    }
  }

  lemma RowLeNames(a: Product, b: Product)
    requires RowLe(a, b)
    ensures TextOrder.Le(a.name, b.name)
  {
    if a.name == b.name {
      TextOrder.LeReflexive(a.name);
    }
  }

  predicate SortedRows(s: seq<Product>)
  {
    forall i, j :: 0 <= i < j < |s| ==> RowLe(s[i], s[j])
  }

  /** A row sorting no later than the head of a sorted sequence can lead it. */
  lemma SortedCons(x: Product, s: seq<Product>)
    requires SortedRows(s)
    requires forall j :: 0 <= j < |s| ==> RowLe(x, s[j])
    ensures SortedRows([x] + s)
  {
  }

  /** A row sorting no later than the head of a sorted sequence sorts no later than all of it. */
  lemma BelowHead(x: Product, s: seq<Product>)
    requires SortedRows(s) && |s| > 0 && RowLe(x, s[0])
    ensures forall j :: 0 <= j < |s| ==> RowLe(x, s[j])
  {
    forall j | 0 < j < |s|
      ensures RowLe(x, s[j])
    {
      RowLeTransitive(x, s[0], s[j]);
    }
  }

  /** The head of a sorted sequence sorts no later than anything drawn from its rest or `x`, when it sorts before `x`. */
  lemma HeadBelowAll(x: Product, s: seq<Product>, tail: seq<Product>)
    requires SortedRows(s) && |s| > 0 && RowLe(s[0], x)
    requires multiset(tail) == multiset(s[1..]) + multiset{x}
    ensures forall j :: 0 <= j < |tail| ==> RowLe(s[0], tail[j])
  {
    forall j | 0 <= j < |tail|
      ensures RowLe(s[0], tail[j])
    {
      assert tail[j] in multiset(tail);
      if tail[j] != x {
        assert tail[j] in multiset(s[1..]);
        var m :| 1 <= m < |s| && s[m] == tail[j];
      }
    }
  }

  /** Places `x` into a sorted sequence, ahead of the first row it sorts no later than. */
  function InsertSorted(x: Product, s: seq<Product>): (r: seq<Product>)
    requires SortedRows(s)
    ensures SortedRows(r)
    ensures multiset(r) == multiset(s) + multiset{x}
  {
    if |s| == 0 then [x]
    else if RowLe(x, s[0]) then
      BelowHead(x, s);
      SortedCons(x, s);
      [x] + s
    else
      RowLeTotal(x, s[0]);
      var tail := InsertSorted(x, s[1..]);
      SeqFacts.Uncons(s);
      HeadBelowAll(x, s, tail);
      SortedCons(s[0], tail);
      [s[0]] + tail
  }

  /** The rows sorted into listing order, by insertion. */
  function SortRows(s: seq<Product>): (r: seq<Product>)
    ensures SortedRows(r)
    ensures multiset(r) == multiset(s)
  {
    if |s| == 0 then []
    else
      assert s == [s[0]] + s[1..];
      InsertSorted(s[0], SortRows(s[1..]))
  }

  /**
   `getAllProducts()` (`SELECT * FROM products ORDER BY name ASC`), the current
   value of the live listing: every row of the table exactly once, sorted by
   name, rows sharing a name in key order.
   */
  function AllProducts(t: Table): (r: seq<Product>)
    requires t.Valid()
    ensures multiset(r) == multiset(t.rows)
    ensures |r| == |t.rows|
    ensures forall i, j :: 0 <= i < j < |r| ==> TextOrder.Le(r[i].name, r[j].name)
    ensures forall i, j :: 0 <= i < j < |r| && r[i].name == r[j].name ==> r[i].id <= r[j].id
  {
    var r := SortRows(t.rows);
    assert |r| == |multiset(r)|;
    forall i, j | 0 <= i < j < |r|
      ensures TextOrder.Le(r[i].name, r[j].name)
    {
      RowLeNames(r[i], r[j]);
    }
    r
  }

  // ---------------------------------------------------------------------------
  // Mutations
  // ---------------------------------------------------------------------------

  /** Looking a key up behind one more leading row. */
  lemma LookupCons(x: Product, rows: seq<Product>)
    ensures forall k :: Lookup([x] + rows, k) == if x.id == k then Some(x) else Lookup(rows, k)
  {
    assert ([x] + rows)[1..] == rows;
  }

  /** A row keyed below every row of a key-ordered sequence can lead it. */
  lemma KeyOrderedCons(x: Product, rows: seq<Product>)
    requires KeyOrdered(rows)
    requires forall y :: y in rows ==> x.id < y.id
    ensures KeyOrdered([x] + rows)
  {
  }

  lemma LookupMissesBelow(rows: seq<Product>, k: int)
    requires KeyOrdered(rows) && (|rows| == 0 || k < rows[0].id)
    ensures Lookup(rows, k) == None
  {
  }

  /** Puts `q` under its key, replacing the row already there, keeping key order. */
  function Place(rows: seq<Product>, q: Product): (r: seq<Product>)
    requires KeyOrdered(rows)
    ensures KeyOrdered(r)
    ensures forall x :: x in r ==> x == q || x in rows
    ensures q in r
  {
    if |rows| == 0 then [q]
    else if rows[0].id == q.id then
      assert forall x :: x in rows[1..] ==> q.id < x.id;
      [q] + rows[1..]
    else if q.id < rows[0].id then
      assert forall x :: x in rows ==> q.id < x.id;
      [q] + rows
    else
      var tail := Place(rows[1..], q);
      assert forall x :: x in rows[1..] ==> rows[0].id < x.id;
      KeyOrderedCons(rows[0], tail);
      [rows[0]] + tail
  }

  /** Placing `q` leaves every other key's lookup as it was. */
  lemma {:induction false} PlaceLookup(rows: seq<Product>, q: Product)
    requires KeyOrdered(rows)
    ensures forall k :: k != q.id ==> Lookup(Place(rows, q), k) == Lookup(rows, k)
  {
    if |rows| > 0 {
      var tail := rows[1..];
      SeqFacts.Uncons(rows);
      LookupCons(rows[0], tail);
      if rows[0].id == q.id {
        LookupCons(q, tail);
      } else if q.id < rows[0].id {
        LookupCons(q, rows);
      } else {
        PlaceLookup(tail, q);
        PlacePast(rows, q);
        LookupCons(rows[0], Place(tail, q));
      }
    }
  }

  /** Placing `q` adds a row exactly when its key was not stored. */
  lemma {:induction false} PlaceCount(rows: seq<Product>, q: Product)
    requires KeyOrdered(rows)
    ensures |Place(rows, q)| == if Lookup(rows, q.id).Some? then |rows| else |rows| + 1
  {
    if |rows| > 0 {
      var tail := rows[1..];
      SeqFacts.Uncons(rows);
      LookupCons(rows[0], tail);
      if q.id < rows[0].id {
        LookupMissesBelow(rows, q.id);
      } else if rows[0].id != q.id {
        PlaceCount(tail, q);
        PlacePast(rows, q);
      }
    }
  }

  /** Replaces the row stored under `p.id` by `p`; without such a row, nothing changes. */
  function Replace(rows: seq<Product>, p: Product): (r: seq<Product>)
    requires KeyOrdered(rows)
    ensures KeyOrdered(r) && |r| == |rows|
    ensures forall i :: 0 <= i < |rows| ==> r[i].id == rows[i].id
    ensures forall i :: 0 <= i < |rows| ==> r[i] == if rows[i].id == p.id then p else rows[i]
  {
    if |rows| == 0 then []
    else if rows[0].id == p.id then
      assert forall i :: 0 < i < |rows| ==> rows[i].id != p.id;
      [p] + rows[1..]
    else [rows[0]] + Replace(rows[1..], p)
  }

  /** Replacing changes what the replaced key finds, if anything, and no other key's lookup. */
  lemma {:induction false} ReplaceLookup(rows: seq<Product>, p: Product)
    requires KeyOrdered(rows)
    ensures forall k :: k != p.id ==> Lookup(Replace(rows, p), k) == Lookup(rows, k)
    ensures Lookup(rows, p.id).Some? ==> Lookup(Replace(rows, p), p.id) == Some(p)
  {
    if |rows| > 0 {
      var tail := rows[1..];
      SeqFacts.Uncons(rows);
      LookupCons(rows[0], tail);
      if rows[0].id == p.id {
        assert Replace(rows, p) == [p] + tail;
        LookupCons(p, tail);
      } else {
        ReplaceLookup(tail, p);
        assert Replace(rows, p) == [rows[0]] + Replace(tail, p);
        LookupCons(rows[0], Replace(tail, p));
      }
    }
  }

  /** After replacing, every row is an old row or `p` under a key already in use. */
  lemma ReplaceMembers(t: Table, p: Product)
    requires t.Valid()
    ensures forall x :: x in Replace(t.rows, p) ==> x == p || x in t.rows
    ensures forall x :: x in Replace(t.rows, p) ==> x.id != Unassigned && x.id < t.nextId
  {
    var r := Replace(t.rows, p);
    forall x | x in r
      ensures (x == p || x in t.rows) && x.id != Unassigned && x.id < t.nextId
    {
      var i :| 0 <= i < |r| && r[i] == x;
      assert t.rows[i] in t.rows;
    }
  }

  /** Replacing leaves the rows as they are when the key is absent or already holds exactly `p`. */
  lemma ReplaceKeeps(rows: seq<Product>, p: Product)
    requires KeyOrdered(rows) && (Lookup(rows, p.id).None? || Lookup(rows, p.id) == Some(p))
    ensures Replace(rows, p) == rows
  {
    var r := Replace(rows, p);
    forall i | 0 <= i < |rows|
      ensures r[i] == rows[i]
    {
      if rows[i].id == p.id {
        LookupFinds(rows, i);
      }
    }
  }

  /** Removes the row stored under key `k`; without such a row, nothing changes. */
  function Remove(rows: seq<Product>, k: int): (r: seq<Product>)
    requires KeyOrdered(rows)
    ensures KeyOrdered(r)
    ensures forall x :: x in r ==> x in rows && x.id != k
  {
    if |rows| == 0 then []
    else if rows[0].id == k then
      assert forall x :: x in rows[1..] ==> rows[0].id < x.id;
      rows[1..]
    else
      var tail := Remove(rows[1..], k);
      assert forall x :: x in rows[1..] ==> rows[0].id < x.id;
      KeyOrderedCons(rows[0], tail);
      [rows[0]] + tail
  }

  /** Removing a key leaves every other key's lookup as it was. */
  lemma {:induction false} RemoveLookup(rows: seq<Product>, k: int)
    requires KeyOrdered(rows)
    ensures forall j :: j != k ==> Lookup(Remove(rows, k), j) == Lookup(rows, j)
  {
    if |rows| > 0 {
      var tail := rows[1..];
      SeqFacts.Uncons(rows);
      LookupCons(rows[0], tail);
      if rows[0].id != k {
        RemoveLookup(tail, k);
        RemovePast(rows, k);
        LookupCons(rows[0], Remove(tail, k));
      }
    }
  }

  /** Removing a key drops one row when the key is stored, and changes nothing when it is not. */
  lemma {:induction false} RemoveCount(rows: seq<Product>, k: int)
    requires KeyOrdered(rows)
    ensures |Remove(rows, k)| == if Lookup(rows, k).Some? then |rows| - 1 else |rows|
    ensures Lookup(rows, k) == None ==> Remove(rows, k) == rows
  {
    if |rows| > 0 {
      var tail := rows[1..];
      SeqFacts.Uncons(rows);
      LookupCons(rows[0], tail);
      if rows[0].id != k {
        RemoveCount(tail, k);
        RemovePast(rows, k);
      }
    }
  }

  datatype Inserted = Inserted(table: Table, key: int)

  /**
   `insertProduct(p)` with REPLACE on conflict: an unset `id` receives the next
   key of the sequence, a set one is used as given; a row already under that
   key is overwritten, so a key never holds two rows. Returns the key.
   */
  function Insert(t: Table, p: Product): (r: Inserted)
    requires t.Valid()
    ensures r.table.Valid()
    ensures r.key != Unassigned
    ensures p.id != Unassigned ==> r.key == p.id
    ensures p.id == Unassigned ==> GetById(t, r.key) == None
    ensures GetById(r.table, r.key) == Some(p.(id := r.key))
    ensures forall k :: k != r.key ==> GetById(r.table, k) == GetById(t, k)
    ensures forall x :: x in r.table.rows ==> x == p.(id := r.key) || x in t.rows
    ensures |r.table.rows| == if GetById(t, r.key).Some? then |t.rows| else |t.rows| + 1
  {
    var key := if p.id == Unassigned then t.nextId else p.id;
    var q := p.(id := key);
    var rows := Place(t.rows, q);
    var next := if key >= t.nextId then key + 1 else t.nextId;
    var r := Table(rows, next);
    var i :| 0 <= i < |rows| && rows[i] == q;
    LookupFinds(rows, i);
    PlaceLookup(t.rows, q);
    PlaceCount(t.rows, q);
    Inserted(r, key)
  }

  /**
   `updateProduct(p)`: overwrites the row stored under `p.id`; with no such
   row the table is left as it is. No other row changes.
   */
  function Update(t: Table, p: Product): (r: Table)
    requires t.Valid()
    ensures r.Valid() && |r.rows| == |t.rows|
    ensures GetById(t, p.id).Some? ==> GetById(r, p.id) == Some(p)
    ensures GetById(t, p.id).None? ==> r == t
    ensures forall k :: k != p.id ==> GetById(r, k) == GetById(t, k)
    ensures forall x :: x in r.rows ==> x == p || x in t.rows
  {
    ReplaceLookup(t.rows, p);
    ReplaceMembers(t, p);
    if GetById(t, p.id).None? then
      ReplaceKeeps(t.rows, p);
      t.(rows := Replace(t.rows, p))
    else t.(rows := Replace(t.rows, p))
  }

  /**
   `deleteProduct(p)`: removes the row stored under `p.id`, whatever its other
   columns hold; with no such row the table is left as it is.
   */
  function Delete(t: Table, p: Product): (r: Table)
    requires t.Valid()
    ensures r.Valid()
    ensures GetById(r, p.id) == None
    ensures forall k :: k != p.id ==> GetById(r, k) == GetById(t, k)
    ensures GetById(t, p.id).None? ==> r == t
    ensures |r.rows| == if GetById(t, p.id).Some? then |t.rows| - 1 else |t.rows|
    ensures forall x :: x in r.rows ==> x in t.rows
  {
    RemoveLookup(t.rows, p.id);
    RemoveCount(t.rows, p.id);
    t.(rows := Remove(t.rows, p.id))
  }

  /** `deleteAllProducts()`: no rows remain; the key sequence is not reset. */
  function DeleteAll(t: Table): (r: Table)
    requires t.Valid()
    ensures r.Valid()
    ensures forall k :: GetById(r, k) == None
    ensures AllProducts(r) == []
  {
    t.(rows := [])
  }

  // ---------------------------------------------------------------------------
  // Properties relating several calls
  // ---------------------------------------------------------------------------

  /** Deleting the same product twice is deleting it once. */
  lemma DeleteIdempotent(t: Table, p: Product)
    requires t.Valid()
    ensures Delete(Delete(t, p), p) == Delete(t, p)
  {
  }

  /** A row keyed above the leading row is placed among the rest. */
  lemma PlacePast(rows: seq<Product>, q: Product)
    requires KeyOrdered(rows) && |rows| > 0 && rows[0].id < q.id
    ensures Place(rows, q) == [rows[0]] + Place(rows[1..], q)
  {
  }

  /** A row whose key exceeds every stored key goes to the end of the scan order. */
  lemma {:induction false} PlaceAbove(rows: seq<Product>, q: Product)
    requires KeyOrdered(rows)
    requires forall x :: x in rows ==> x.id < q.id
    ensures Place(rows, q) == rows + [q]
  {
    if |rows| > 0 {
      var tail := rows[1..];
      assert rows[0] in rows;
      assert forall x :: x in tail ==> x in rows;
      PlaceAbove(tail, q);
      PlacePast(rows, q);
      SeqFacts.SplitFirst(rows, q);
    }
  }

  /** A key other than the leading row's is removed from among the rest. */
  lemma RemovePast(rows: seq<Product>, k: int)
    requires KeyOrdered(rows) && |rows| > 0 && rows[0].id != k
    ensures Remove(rows, k) == [rows[0]] + Remove(rows[1..], k)
  {
  }

  /** Removing the last row's key drops exactly that row. */
  lemma {:induction false} RemoveLast(rows: seq<Product>, q: Product)
    requires KeyOrdered(rows + [q])
    ensures Remove(rows + [q], q.id) == rows
  {
    var s := rows + [q];
    if |rows| > 0 {
      SeqFacts.SplitFirst(rows, q);
      assert s[0].id < s[|s| - 1].id;
      RemoveLast(rows[1..], q);
      RemovePast(s, q.id);
    }
  }

  /**
   An insert with an unset key appends a row under a brand-new key; deleting
   that row again restores the rows exactly (the key sequence has moved on).
   */
  lemma InsertFreshThenDelete(t: Table, p: Product)
    requires t.Valid() && p.id == Unassigned
    ensures var r := Insert(t, p);
      && r.key == t.nextId
      && r.table.rows == t.rows + [p.(id := r.key)]
      && Delete(r.table, p.(id := r.key)).rows == t.rows
  {
    var q := p.(id := t.nextId);
    PlaceAbove(t.rows, q);
    RemoveLast(t.rows, q);
  }

  /** After an update, a row is either the written product or an untouched row under another key. */
  lemma UpdatedMember(t: Table, p: Product, x: Product)
    requires t.Valid() && x in Update(t, p).rows
    ensures x == p || (x in t.rows && x.id != p.id)
    ensures x == p ==> GetById(t, p.id).Some?
  {
    MemberIsLookup(Update(t, p), x);
    if x in t.rows {
      MemberIsLookup(t, x);
    }
  }

  /** Writing back a row exactly as it is stored changes nothing. */
  lemma UpdateWithStoredRow(t: Table, p: Product)
    requires t.Valid() && p in t.rows
    ensures Update(t, p) == t
  {
    MemberIsLookup(t, p);
    ReplaceKeeps(t.rows, p);
  }
}
