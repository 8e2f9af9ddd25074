/** The main window of the form with its widgets taken away: what is left
    is table `Main` of the database and the rows of the table widget, and
    the handlers that change them. The texts of the input widgets and the
    state of the approval checkbox become parameters. */
module MainWindow {
  import opened Validation
  import opened Records
  import opened Export

  class Main {
    /** Table `Main`, in storage (insertion) order. */
    var store: seq<Record>
    /** The rows of the table widget, top to bottom. */
    var view: seq<Row>

    /** The primary key holds, and storage order is rowid order: ids
        strictly increase along the table. */
    ghost predicate Valid()
      reads this
    {
      AscendingIds(store) && DistinctIds(store)
    }

    /** Opening the window on an existing table: the widget starts empty
        and is filled by `load_initial_settings`. */
    constructor (table: seq<Record>)
      requires AscendingIds(table)
      ensures Valid() && store == table && view == LoadedView(table)
    {
      store := table;
      view := [];
      new;
      LoadInitialSettings();
      assert LoadedView(table) + [] == LoadedView(table);
    }

    /** `load_initial_settings`: for each record of `SELECT * FROM Main`,
        insert a row at the record's `allRows.index(...)`. With distinct ids
        that index is the record's own position, so the rows come out in
        storage order ahead of whatever the widget held. */
    method LoadInitialSettings()
      requires Valid()
      modifies this
      ensures Valid() && store == old(store)
      ensures view == LoadedView(store) + old(view)
    {
      var allRows := store;
      var k := 0;
      while k < |allRows|
        invariant 0 <= k <= |allRows| && store == allRows == old(store)
        invariant view == LoadedView(allRows[..k]) + old(view)
      {
        var row := allRows[k];
        var inx := IndexOf(allRows, row);
        IndexOfDistinct(allRows, k);
        assert |LoadedView(allRows[..k])| == k;
        view := InsertAt(view, inx, LoadedRow(row));
        LoadedViewSnoc(allRows, k);
        k := k + 1;
      }
      assert allRows[..k] == allRows;
    }

    /** `validate_fields`: scan the stored usernames and stop at the first
        that contains the candidate, then try the phone pattern. */
    method ValidateFields(username: string, phone: string) returns (v: Verdict)
      ensures v == Validate(Usernames(store), username, phone)
    {
      var usernames := Usernames(store);
      var i := 0;
      while i < |usernames|
        invariant 0 <= i <= |usernames|
        invariant forall j :: 0 <= j < i ==> !Contains(username, usernames[j])
      {
        if Contains(username, usernames[i]) {
          return DuplicateUsername;
        }
        i := i + 1;
      }
      if !PhoneMatches(phone) {
        return InvalidPhone;
      }
      return Accepted;
    }

    /** `add_button_clicked`: when validation fails nothing changes;
        otherwise one row is appended to the widget and one record, with a
        fresh id and the text of the checkbox state, to the table. */
    method AddButtonClicked(username: string, firstName: string, phone: string,
                            address: string, approved: bool) returns (v: Verdict)
      requires Valid()
      modifies this
      ensures Valid()
      ensures v == Validate(Usernames(old(store)), username, phone)
      ensures v != Accepted ==> store == old(store) && view == old(view)
      ensures v == Accepted ==>
        && store == old(store) + [NewRecord(old(store), username, firstName, phone, address, approved)]
        && view == old(view) + [AddedRow(username, firstName, phone, address, approved)]
      ensures Mirrors(old(view), old(store)) ==> Mirrors(view, store)
      ensures UniqueUsernames(old(store)) ==> UniqueUsernames(store)
    {
      v := ValidateFields(username, phone);
      if v != Accepted {
        return;
      }
      var currentRowCount := |view|;
      view := InsertAt(view, currentRowCount, AddedRow(username, firstName, phone, address, approved));
      InsertKeepsDistinctIds(store, username, firstName, phone, address, approved);
      InsertKeepsAscendingIds(store, username, firstName, phone, address, approved);
      if UniqueUsernames(store) {
        ValidInsertKeepsUniqueUsernames(store, username, firstName, phone, address, approved);
      }
      store := store + [NewRecord(store, username, firstName, phone, address, approved)];
    }

    /** `remove_row_clicked`: with no selection (-1) nothing changes;
        otherwise every record whose username is the selected row's is
        deleted from the table, and only the selected row from the widget. */
    method RemoveRowClicked(currentRow: int)
      requires Valid()
      requires currentRow < |view|
      modifies this
      ensures Valid()
      ensures currentRow <= -1 ==> store == old(store) && view == old(view)
      ensures currentRow > -1 ==>
        && store == DeleteByUsername(old(store), old(view)[currentRow].username)
        && view == RemoveAt(old(view), currentRow)
      ensures currentRow > -1 && Mirrors(old(view), old(store)) && UniqueUsernames(old(store))
        ==> Mirrors(view, store)
    {
      if currentRow > -1 {
        var currentUsername := view[currentRow].username;
        if Mirrors(view, store) && UniqueUsernames(store) {
          RemoveKeepsMirror(view, store, currentRow);
        }
        DeleteKeepsDistinctIds(store, currentUsername);
        DeleteKeepsAscendingIds(store, currentUsername);
        store := DeleteByUsername(store, currentUsername);
        view := RemoveAt(view, currentRow);
      }
    }

    /** The row and count logic of `export_action_triggered`: an empty path
        (the save dialog cancelled) exports nothing; otherwise every record
        is written as one six-field row, in storage order, and the count
        reported is the number of records. */
    method ExportActionTriggered(destination: string) returns (report: Option<Report>)
      ensures destination == [] ==> report == None
      ensures destination != [] ==> report.Some? && report.value.path == destination
      ensures report.Some? ==>
        && report.value.rowCount == |report.value.rows| == |store|
        && (forall k :: 0 <= k < |store| ==> report.value.rows[k] == Cells(store[k]))
        && report.value.rows == ExportRows(store)
    {
      if destination == [] {
        return None;
      }
      var rows := store;
      var rowCount := |rows|;
      var written: seq<seq<Cell>> := [];
      for i := 0 to |rows|
        invariant |written| == i
        invariant forall k :: 0 <= k < i ==> written[k] == Cells(rows[k])
      {
        written := written + [Cells(rows[i])];
      }
      report := Some(Report(written, rowCount, destination));
    }
  }
}
