/** The records of table `Main`, the rows of the on-screen table, and the
    pure meaning of the statements the form sends to the table: INSERT with
    a NULL id, DELETE ... WHERE username=?, and SELECT * in storage order. */
module Records {
  import opened Validation

  /** One row of table `Main(id, username, name, phone, address, status)`.
      `status` holds the text `str(approved)`, that is "True" or "False". */
  datatype Record = Record(id: int, username: string, name: string, phone: string,
                           address: string, status: string)

  /** One row of the table widget: username, first name, phone, address
      and the approval label. */
  datatype Row = Row(username: string, name: string, phone: string, address: string,
                     status: string)

  /** `str(approved)`: the text stored in the status column. */
  function StoredStatus(approved: bool): string
  {
    if approved then "True" else "False"
  }

  /** The label the form shows for the approval checkbox. */
  function StatusLabel(approved: bool): string
  {
    if approved then "Approved" else "Not approved"
  }

  /** The result of `SELECT username FROM Main`. */
  function Usernames(store: seq<Record>): (us: seq<string>)
    ensures |us| == |store|
    ensures forall k :: 0 <= k < |store| ==> us[k] == store[k].username
  {
    seq(|store|, k requires 0 <= k < |store| => store[k].username)
  }

  /** The primary key: no two records share an id. */
  predicate DistinctIds(store: seq<Record>)
  {
    forall i, j :: 0 <= i < j < |store| ==> store[i].id != store[j].id
  }

  /** Storage order is rowid order: ids strictly increase along the table,
      which is the order `SELECT *` returns. It implies `DistinctIds`. */
  predicate AscendingIds(store: seq<Record>)
  {
    forall i, j :: 0 <= i < j < |store| ==> store[i].id < store[j].id
  }

  /** No two records share a username. */
  predicate UniqueUsernames(store: seq<Record>)
  {
    forall i, j :: 0 <= i < j < |store| ==> store[i].username != store[j].username
  }

  // ---------------------------------------------------------------------
  // INSERT INTO Main VALUES(NULL, ...)
  // ---------------------------------------------------------------------

  /** The largest id in a non-empty table. */
  function MaxId(store: seq<Record>): (m: int)
    requires store != []
    ensures forall k :: 0 <= k < |store| ==> store[k].id <= m
    ensures exists k :: 0 <= k < |store| && store[k].id == m
  {
    if |store| == 1 then store[0].id
    else
      var rest := MaxId(store[1..]);
      assert forall k :: 1 <= k < |store| ==> store[k] == store[1..][k - 1];
      if store[0].id >= rest then store[0].id
      else
        var j :| 0 <= j < |store[1..]| && store[1..][j].id == rest;
        assert store[j + 1].id == rest;
        rest
  }

  /** The id SQLite gives a row inserted with a NULL `INTEGER PRIMARY KEY`:
      one more than the largest id present, or 1 in an empty table. It is
      larger than, hence different from, every id already stored. */
  function NextId(store: seq<Record>): (id: int)
    ensures forall k :: 0 <= k < |store| ==> store[k].id < id
    ensures store == [] ==> id == 1
  {
    if store == [] then 1 else MaxId(store) + 1
  }

  /** The record `add_button_clicked` inserts. */
  function NewRecord(store: seq<Record>, username: string, name: string, phone: string,
                     address: string, approved: bool): Record
  {
    Record(NextId(store), username, name, phone, address, StoredStatus(approved))
  }

  /** The row `add_button_clicked` appends to the table widget. */
  function AddedRow(username: string, name: string, phone: string, address: string,
                    approved: bool): Row
  {
    Row(username, name, phone, address, StatusLabel(approved))
  }

  /** Appending the inserted record keeps the ids distinct. */
  lemma InsertKeepsDistinctIds(store: seq<Record>, username: string, name: string,
                               phone: string, address: string, approved: bool)
    requires DistinctIds(store)
    ensures DistinctIds(store + [NewRecord(store, username, name, phone, address, approved)])
  {
  }

  /** Appending the inserted record keeps the ids ascending: the new id is
      above every stored one. */
  lemma InsertKeepsAscendingIds(store: seq<Record>, username: string, name: string,
                                phone: string, address: string, approved: bool)
    requires AscendingIds(store)
    ensures AscendingIds(store + [NewRecord(store, username, name, phone, address, approved)])
  {
  }

  /** A validated insertion never repeats a username: an equal username is
      a substring, so the duplicate rule rejects it. */
  lemma ValidInsertKeepsUniqueUsernames(store: seq<Record>, username: string, name: string,
                                        phone: string, address: string, approved: bool)
    requires UniqueUsernames(store)
    requires Validate(Usernames(store), username, phone) == Accepted
    ensures UniqueUsernames(store + [NewRecord(store, username, name, phone, address, approved)])
  {
    var s' := store + [NewRecord(store, username, name, phone, address, approved)];
    forall i, j | 0 <= i < j < |s'| ensures s'[i].username != s'[j].username {
      if j == |store| {
        var u := store[i].username;
        assert u == Usernames(store)[i];
        assert OccursAt(username, u, 0) ==> IsSubstring(username, u);
      }
    }
  }

  // ---------------------------------------------------------------------
  // DELETE FROM Main WHERE username=?
  // ---------------------------------------------------------------------

  /** The table after deleting every record whose username equals `u`. */
  function DeleteByUsername(store: seq<Record>, u: string): (r: seq<Record>)
    ensures forall x :: x in r <==> x in store && x.username != u
  {
    if store == [] then []
    else if store[0].username == u then DeleteByUsername(store[1..], u)
    else [store[0]] + DeleteByUsername(store[1..], u)
  }

  /** How many records carry username `u`. */
  function CountUsername(store: seq<Record>, u: string): nat
  {
    if store == [] then 0
    else (if store[0].username == u then 1 else 0) + CountUsername(store[1..], u)
  }

  /** Deletion works record by record: the survivors keep their order. */
  lemma {:induction false} DeleteDistributes(a: seq<Record>, b: seq<Record>, u: string)
    ensures DeleteByUsername(a + b, u) == DeleteByUsername(a, u) + DeleteByUsername(b, u)
  {
    if a != [] {
      assert (a + b)[1..] == a[1..] + b;
      DeleteDistributes(a[1..], b, u);
    } else {
      assert a + b == b;
    }
  }

  /** Exactly the matching records are removed, no more and no fewer. */
  lemma {:induction false} DeleteLength(store: seq<Record>, u: string)
    ensures |DeleteByUsername(store, u)| == |store| - CountUsername(store, u)
  {
    if store != [] {
      DeleteLength(store[1..], u);
    }
  }

  /** Two records with username `u` make the count at least two. */
  lemma {:induction false} CountAtLeastTwo(store: seq<Record>, u: string, i: nat, j: nat)
    requires i < j < |store|
    requires store[i].username == u && store[j].username == u
    ensures CountUsername(store, u) >= 2
  {
    if i == 0 {
      CountPositive(store[1..], u, j - 1);
    } else {
      CountAtLeastTwo(store[1..], u, i - 1, j - 1);
    }
  }

  /** A record with username `u` makes the count positive. */
  lemma {:induction false} CountPositive(store: seq<Record>, u: string, j: nat)
    requires j < |store| && store[j].username == u
    ensures CountUsername(store, u) >= 1
  {
    if j > 0 {
      CountPositive(store[1..], u, j - 1);
    }
  }

  /** Deleting a username nobody has is a no-op, and only then. */
  lemma {:induction false} DeleteNoMatch(store: seq<Record>, u: string)
    ensures DeleteByUsername(store, u) == store <==>
      forall k :: 0 <= k < |store| ==> store[k].username != u
  {
    DeleteLength(store, u);
    if forall k :: 0 <= k < |store| ==> store[k].username != u {
      DeleteKeepsAll(store, u);
    } else {
      var k :| 0 <= k < |store| && store[k].username == u;
      CountPositive(store, u, k);
    }
  }

  lemma {:induction false} DeleteKeepsAll(store: seq<Record>, u: string)
    requires forall k :: 0 <= k < |store| ==> store[k].username != u
    ensures DeleteByUsername(store, u) == store
  {
    if store != [] {
      assert store == [store[0]] + store[1..];
      DeleteKeepsAll(store[1..], u);
    }
  }

  /** When the username at `k` is held by no other record, deleting it
      removes exactly position `k`. */
  lemma {:induction false} DeleteSingle(store: seq<Record>, k: nat)
    requires k < |store|
    requires forall j :: 0 <= j < |store| && j != k ==> store[j].username != store[k].username
    ensures DeleteByUsername(store, store[k].username) == RemoveAt(store, k)
  {
    var u := store[k].username;
    var tail := store[1..];
    assert forall j :: 0 <= j < |tail| ==> tail[j] == store[j + 1];
    if k == 0 {
      DeleteKeepsAll(tail, u);
    } else {
      DeleteSingle(tail, k - 1);
      assert [store[0]] + RemoveAt(tail, k - 1) == RemoveAt(store, k);
    }
  }

  /** Deletion keeps the ids distinct. */
  lemma {:induction false} DeleteKeepsDistinctIds(store: seq<Record>, u: string)
    requires DistinctIds(store)
    ensures DistinctIds(DeleteByUsername(store, u))
  {
    if store != [] {
      assert DistinctIds(store[1..]);
      DeleteKeepsDistinctIds(store[1..], u);
      var rest := DeleteByUsername(store[1..], u);
      if store[0].username != u {
        assert forall x :: x in rest ==> x in store[1..];
        assert forall k :: 0 <= k < |rest| ==> rest[k] in store[1..];
        assert forall x :: x in store[1..] ==> x.id != store[0].id;
        var r := [store[0]] + rest;
        forall i, j | 0 <= i < j < |r| ensures r[i].id != r[j].id {
          if i == 0 {
            assert r[j] == rest[j - 1];
          } else {
            assert r[i] == rest[i - 1] && r[j] == rest[j - 1];
          }
        }
      }
    }
  }

  /** Deletion keeps the ids ascending: the survivors keep their order. */
  lemma {:induction false} DeleteKeepsAscendingIds(store: seq<Record>, u: string)
    requires AscendingIds(store)
    ensures AscendingIds(DeleteByUsername(store, u))
  {
    if store != [] {
      assert AscendingIds(store[1..]);
      DeleteKeepsAscendingIds(store[1..], u);
      var rest := DeleteByUsername(store[1..], u);
      if store[0].username != u {
        assert forall k :: 0 <= k < |rest| ==> rest[k] in store[1..];
        assert forall x :: x in store[1..] ==> store[0].id < x.id;
        var r := [store[0]] + rest;
        forall i, j | 0 <= i < j < |r| ensures r[i].id < r[j].id {
          if i == 0 {
            assert r[j] == rest[j - 1];
          } else {
            assert r[i] == rest[i - 1] && r[j] == rest[j - 1];
          }
        }
      }
    }
  }

  // ---------------------------------------------------------------------
  // The table widget
  // ---------------------------------------------------------------------

  /** `removeRow(k)`: drop position k, keep the rest in order. */
  function RemoveAt<T>(s: seq<T>, k: nat): (r: seq<T>)
    requires k < |s|
    ensures |r| == |s| - 1
    ensures forall j :: 0 <= j < k ==> r[j] == s[j]
    ensures forall j :: k <= j < |r| ==> r[j] == s[j + 1]
  {
    s[..k] + s[k + 1..]
  }

  /** `insertRow(k)` followed by `setItem` on every column of row k. */
  function InsertAt<T>(s: seq<T>, k: nat, x: T): (r: seq<T>)
    requires k <= |s|
    ensures |r| == |s| + 1 && r[k] == x
    ensures forall j :: 0 <= j < k ==> r[j] == s[j]
    ensures forall j :: k < j < |r| ==> r[j] == s[j - 1]
  {
    s[..k] + [x] + s[k..]
  }

  /** `allRows.index(row)`: the first position holding `x`. */
  function IndexOf(s: seq<Record>, x: Record): (k: nat)
    requires x in s
    ensures k < |s| && s[k] == x
    ensures forall j :: 0 <= j < k ==> s[j] != x
  {
    if s[0] == x then 0
    else
      var k := IndexOf(s[1..], x);
      assert forall j :: 1 <= j <= k ==> s[j] == s[1..][j - 1];
      k + 1
  }

  /** With distinct ids every record is found at its own position. */
  lemma IndexOfDistinct(s: seq<Record>, k: nat)
    requires DistinctIds(s) && k < |s|
    ensures IndexOf(s, s[k]) == k
  {
  }

  /** The text `load_initial_settings` puts in the status column, as the
      program is written: `str(row[5]) is True` compares a string with the
      boolean object by identity, which never holds. */
  function LoadedStatusAsWritten(status: string): (shown: string)
    ensures shown != StatusLabel(status == "True") <==> status == "True"
  {
    "Not approved"
  }

  /** The row `load_initial_settings` shows for a stored record. */
  function LoadedRow(r: Record): Row
  {
    Row(r.username, r.name, r.phone, r.address, LoadedStatusAsWritten(r.status))
  }

  /** The four text columns of a row are those of the record. */
  predicate SameColumns(row: Row, r: Record)
  {
    row.username == r.username && row.name == r.name && row.phone == r.phone
    && row.address == r.address
  }

  /** The widget shows the table: one row per record, same order, same
      text columns (the status label is not compared). */
  predicate Mirrors(view: seq<Row>, store: seq<Record>)
  {
    |view| == |store| && forall k :: 0 <= k < |view| ==> SameColumns(view[k], store[k])
  }

  /** The rows `load_initial_settings` builds from `SELECT * FROM Main`:
      one per record, in storage order, columns copied, and every status
      label "Not approved" whatever the stored status. */
  function LoadedView(store: seq<Record>): (v: seq<Row>)
    ensures Mirrors(v, store)
    ensures forall k :: 0 <= k < |v| ==> v[k].status == "Not approved"
  {
    seq(|store|, k requires 0 <= k < |store| => LoadedRow(store[k]))
  }

  lemma LoadedViewSnoc(store: seq<Record>, k: nat)
    requires k < |store|
    ensures LoadedView(store[..k + 1]) == LoadedView(store[..k]) + [LoadedRow(store[k])]
  {
    assert forall j :: 0 <= j < k ==> store[..k + 1][j] == store[..k][j];
  }

  /** Removing the selected row keeps the widget and the table in step
      exactly when no other record shares the selected row's username;
      otherwise the table loses more records than the widget loses rows. */
  lemma RemoveMirrorsIff(view: seq<Row>, store: seq<Record>, k: nat)
    requires Mirrors(view, store) && k < |view|
    ensures Mirrors(RemoveAt(view, k), DeleteByUsername(store, view[k].username)) <==>
      forall j :: 0 <= j < |store| && j != k ==> store[j].username != store[k].username
  {
    var u := view[k].username;
    if forall j :: 0 <= j < |store| && j != k ==> store[j].username != store[k].username {
      DeleteSingle(store, k);
    } else {
      var j :| 0 <= j < |store| && j != k && store[j].username == store[k].username;
      DeleteLength(store, u);
      if j < k { CountAtLeastTwo(store, u, j, k); } else { CountAtLeastTwo(store, u, k, j); }
    }
  }

  /** With unique usernames, removal keeps the widget mirroring the table. */
  lemma RemoveKeepsMirror(view: seq<Row>, store: seq<Record>, k: nat)
    requires Mirrors(view, store) && UniqueUsernames(store) && k < |view|
    ensures Mirrors(RemoveAt(view, k), DeleteByUsername(store, view[k].username))
  {
    RemoveMirrorsIff(view, store, k);
  }

  /** Two records named "bob": removing one on-screen row deletes both
      records, and the widget still shows the other one. */
  lemma RemoveDiverges()
    ensures var store := [Record(1, "bob", "Bob", "234-567-8910", "A St", "True"),
                          Record(2, "bob", "Rob", "234-567-8911", "B St", "False")];
            var view := LoadedView(store);
            DeleteByUsername(store, view[0].username) == [] && |RemoveAt(view, 0)| == 1
  {
  }

  // ---------------------------------------------------------------------
  // The reloaded status label
  // ---------------------------------------------------------------------

  /** After a restart an approved record added by the form is shown as
      "Not approved", although the form showed it as "Approved". */
  lemma ReloadForgetsApproval(store: seq<Record>, username: string, name: string,
                              phone: string, address: string)
    ensures LoadedRow(NewRecord(store, username, name, phone, address, true))
         != AddedRow(username, name, phone, address, true)
  {
  }

  /** The evidently intended label: "Approved" for a stored "True". */
  function LoadedStatus(status: string): (shown: string)
    ensures shown == "Approved" <==> status == "True"
  {
    StatusLabel(status == "True")
  }

  function IntendedLoadedRow(r: Record): Row
  {
    Row(r.username, r.name, r.phone, r.address, LoadedStatus(r.status))
  }

  /** With the intended label, reloading a record shows the row the form
      showed when it added the record, for either checkbox state. */
  lemma IntendedReloadMatchesAdd(store: seq<Record>, username: string, name: string,
                                 phone: string, address: string, approved: bool)
    ensures IntendedLoadedRow(NewRecord(store, username, name, phone, address, approved))
         == AddedRow(username, name, phone, address, approved)
  {
  }
}
