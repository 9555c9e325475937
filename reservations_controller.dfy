/** The controller between the reservations window and the storage layer:
    it turns the table's listing into the rows of the window's tree and
    refreshes the window after a change to the table. */
module ReservationsController {
  import opened Outcomes
  import Text
  import opened TreeData
  import opened ReservationsModel
  import ReservationsView

  /** The value a record holds in column `c`. */
  function ColumnValue(e: Entry, c: Column): FieldValue
  {
    match c
    case ReservationId => IdValue(e.id)
    case Name => TextValue(e.record.name)
    case Gender => TextValue(e.record.gender)
    case PassportNumber => TextValue(e.record.passportNumber)
    case DestinationColumn => TextValue(e.record.destination)
    case DepartureDt => TextValue(e.record.departure)
    case ArrivalDt => TextValue(e.record.arrival)
  }

  /** `list(idx.values())` for one record: its seven fields in column order. */
  function RowValues(e: Entry): (vs: seq<FieldValue>)
    ensures |vs| == |Columns|
    ensures forall i :: 0 <= i < |Columns| ==> vs[i] == ColumnValue(e, Columns[i])
  {
    [IdValue(e.id), TextValue(e.record.name), TextValue(e.record.gender),
     TextValue(e.record.passportNumber), TextValue(e.record.destination),
     TextValue(e.record.departure), TextValue(e.record.arrival)]
  }

  /** Reads a row of seven values back as the record it shows; `None` for
      anything that is not such a row. */
  function EntryOf(vs: seq<FieldValue>): Option<Entry>
  {
    if |vs| == 7 && vs[0].IdValue? && vs[1].TextValue? && vs[2].TextValue? && vs[3].TextValue?
       && vs[4].TextValue? && vs[5].TextValue? && vs[6].TextValue?
    then Some(Entry(vs[0].id, Reservation(vs[1].text, vs[2].text, vs[3].text, vs[4].text, vs[5].text, vs[6].text)))
    else None
  }

  /** A row of values shows its record completely: reading it back gives the record. */
  lemma RowValuesRoundTrip(e: Entry)
    ensures EntryOf(RowValues(e)) == Some(e)
  {
  }

  /** Distinct records give distinct rows of values. */
  lemma RowValuesInjective(e: Entry, f: Entry)
    requires RowValues(e) == RowValues(f)
    ensures e == f
  {
    RowValuesRoundTrip(e);
    RowValuesRoundTrip(f);
  }

  /** One value list per entry of a listing, in the listing's order. */
  function ValueLists(listing: seq<Entry>): (r: seq<seq<FieldValue>>)
    ensures |r| == |listing|
    ensures forall i :: 0 <= i < |r| ==> EntryOf(r[i]) == Some(listing[i])
  {
    seq(|listing|, i requires 0 <= i < |listing| => RowValues(listing[i]))
  }

  /** `_retrieveReservationsList`: one value list per reservation, newest
      first; each reads back as a record of the table under its own id. */
  function RetrieveReservationsList(db: ReservationTable): (r: seq<seq<FieldValue>>)
    reads db
    ensures |r| == |db.ReservationsData()|
    ensures forall i :: 0 <= i < |r| ==>
      && EntryOf(r[i]).Some?
      && EntryOf(r[i]).value.id in db.rows
      && db.rows[EntryOf(r[i]).value.id] == EntryOf(r[i]).value.record
    ensures forall i, j :: 0 <= i < j < |r| ==> EntryOf(r[i]).value.id > EntryOf(r[j]).value.id
  {
    ValueLists(db.ReservationsData())
  }

  /** `_retrieveDestinationsList` and `retrieveDestinations`: one single-element
      list per destination, holding its city, in ascending city order. */
  function RetrieveDestinations(db: ReservationTable): (r: seq<seq<string>>)
    reads db
    ensures |r| == |db.destinations|
    ensures forall i :: 0 <= i < |r| ==> |r[i]| == 1
    ensures forall i, j :: 0 <= i < j < |r| ==> Text.LexLe(r[i][0], r[j][0])
    ensures multiset(seq(|r|, i requires 0 <= i < |r| => r[i][0])) == multiset(Cities(db.destinations))
  {
    var cities := db.DestinationsData();
    assert |cities| == |db.destinations| by {
      assert |multiset(cities)| == |multiset(Cities(db.destinations))|;
    }
    var r := seq(|cities|, i requires 0 <= i < |cities| => [cities[i]]);
    assert seq(|r|, i requires 0 <= i < |r| => r[i][0]) == cities;
    r
  }

  /** `retrieveTreeColumnNames`: the model's seven column labels, unchanged. */
  function RetrieveTreeColumnNames(): (r: seq<string>)
    ensures |r| == |Columns|
    ensures forall i :: 0 <= i < |r| ==> r[i] == VerboseName(Columns[i])
  {
    ColumnNames()
  }

  const RowKeyPrefix: string := "-row_"

  /** `"-row_{}-".format(n)`: the tree key of row `n`. */
  function RowKey(n: nat): (key: string)
    ensures |key| > |RowKeyPrefix| + 1
  {
    RowKeyPrefix + Text.Decimal(n) + "-"
  }

  /** Reads a row key back as its row number; `None` for any other text. */
  function RowNumber(key: string): Option<nat>
  {
    if |key| > |RowKeyPrefix| + 1 && key[..|RowKeyPrefix|] == RowKeyPrefix && key[|key| - 1] == '-'
       && Text.AllDigits(key[|RowKeyPrefix|..|key| - 1])
    then Some(Text.DecimalValue(key[|RowKeyPrefix|..|key| - 1]))
    else None
  }

  /** The number of a row can be read back from its key. */
  lemma RowKeyRoundTrip(n: nat)
    ensures RowNumber(RowKey(n)) == Some(n)
  {
    var key := RowKey(n);
    assert key[..|RowKeyPrefix|] == RowKeyPrefix;
    assert key[|RowKeyPrefix|..|key| - 1] == Text.Decimal(n);
    Text.DecimalRoundTrip(n);
  }

  /** Different rows get different keys. */
  lemma RowKeysDistinct(m: nat, n: nat)
    requires m != n
    ensures RowKey(m) != RowKey(n)
  {
    RowKeyRoundTrip(m);
    RowKeyRoundTrip(n);
  }

  /** The tree rows for a list of value lists: row `i` (counting from 1) has
      key `"-row_i-"`, text `i` and the `i`-th value list. */
  function TreeProjection(lists: seq<seq<FieldValue>>): (rows: seq<TreeRow>)
    ensures |rows| == |lists|
  {
    seq(|lists|, i requires 0 <= i < |lists| => TreeRow(RowKey(i + 1), i + 1, lists[i]))
  }

  /** Every row of the tree is numbered by its position, its key reads back
      as that number, and no two rows share a key. */
  lemma TreeRowsNumbered(lists: seq<seq<FieldValue>>)
    ensures forall i :: 0 <= i < |lists| ==>
      && TreeProjection(lists)[i].text == i + 1
      && RowNumber(TreeProjection(lists)[i].key) == Some(i + 1)
      && TreeProjection(lists)[i].values == lists[i]
    ensures forall i, j :: 0 <= i < j < |lists| ==> TreeProjection(lists)[i].key != TreeProjection(lists)[j].key
  {
    var rows := TreeProjection(lists);
    forall i | 0 <= i < |lists|
      ensures RowNumber(rows[i].key) == Some(i + 1)
    {
      RowKeyRoundTrip(i + 1);
    }
    forall i, j | 0 <= i < j < |lists|
      ensures rows[i].key != rows[j].key
    {
      RowKeysDistinct(i + 1, j + 1);
    }
  }

  /** The loop of `_retrieveTreeData`: numbers the value lists from 1 and
      inserts one tree row per list, keyed `"-row_n-"`. */
  method InsertTreeRows(reservationsList: seq<seq<FieldValue>>) returns (treedata: seq<TreeRow>)
    ensures treedata == TreeProjection(reservationsList)
  {
    treedata := [];
    var n := 0;
    while n < |reservationsList|
      invariant 0 <= n <= |reservationsList|
      invariant treedata == TreeProjection(reservationsList[..n])
    {
      var res := reservationsList[n];
      n := n + 1;
      treedata := treedata + [TreeRow(RowKey(n), n, res)];
    }
    assert reservationsList[..n] == reservationsList;
  }

  /** `_retrieveTreeData` and `retrieveReservations`: the tree rows of the
      reservation lists, numbered from 1. */
  method RetrieveTreeData(db: ReservationTable) returns (treedata: seq<TreeRow>)
    ensures treedata == TreeProjection(RetrieveReservationsList(db))
  {
    var reservationsList := RetrieveReservationsList(db);
    treedata := InsertTreeRows(reservationsList);
  }

  /** `deleteReservation`: deletes the record `id`; when a window is given and
      the deletion succeeded, the window's tree data becomes the tree of the
      new table and the tree is refreshed once. A failed deletion touches no window. */
  method DeleteReservation(db: ReservationTable, id: nat, viewRef: ReservationsView.ReservationsWindow?)
    returns (r: Outcome)
    requires db.Valid()
    modifies db`rows, viewRef
    ensures db.Valid()
    ensures r == (if id in old(db.rows) then Done else DoesNotExist(id))
    ensures db.rows == if id in old(db.rows) then old(db.rows) - {id} else old(db.rows)
    ensures viewRef != null && r == Done ==>
      && viewRef.treedata == TreeProjection(RetrieveReservationsList(db))
      && viewRef.shown == viewRef.treedata
      && viewRef.refreshes == old(viewRef.refreshes) + 1
    ensures viewRef != null && r != Done ==> unchanged(viewRef)
  {
    r := db.DeleteReservation(id);
    if r != Done {
      return;
    }
    if viewRef != null {
      var treedata := RetrieveTreeData(db);
      viewRef.treedata := treedata;
      viewRef.RefreshTree();
    }
  }

  /** `createReservation`: adds the record to the table; no window is refreshed. */
  method CreateReservation(db: ReservationTable, name: string, gender: string, passportNum: string,
                           destination: string, departure: string, arrival: string)
    returns (id: nat)
    requires db.Valid()
    modifies db`rows, db`nextId
    ensures db.Valid()
    ensures id == old(db.nextId) && db.nextId == old(db.nextId) + 1
    ensures id !in old(db.rows) && forall k :: k in old(db.rows) ==> k < id
    ensures db.rows == old(db.rows)[id := Reservation(name, gender, passportNum, destination, departure, arrival)]
  {
    id := db.CreateReservation(name, gender, passportNum, destination, departure, arrival);
  }

  /** `updateReservation`: overwrites the record `id`; when a window is given
      and the update succeeded, the window's tree data becomes the tree of
      the new table and the tree is refreshed once. A failed update touches no window. */
  method UpdateReservation(db: ReservationTable, id: nat, name: string, gender: string, passportNum: string,
                           destination: string, departure: string, arrival: string,
                           viewRef: ReservationsView.ReservationsWindow?)
    returns (r: Outcome)
    requires db.Valid()
    modifies db`rows, viewRef
    ensures db.Valid()
    ensures r == (if id in old(db.rows) then Done else DoesNotExist(id))
    ensures db.rows == if id in old(db.rows)
                       then old(db.rows)[id := Reservation(name, gender, passportNum, destination, departure, arrival)]
                       else old(db.rows)
    ensures viewRef != null && r == Done ==>
      && viewRef.treedata == TreeProjection(RetrieveReservationsList(db))
      && viewRef.shown == viewRef.treedata
      && viewRef.refreshes == old(viewRef.refreshes) + 1
    ensures viewRef != null && r != Done ==> unchanged(viewRef)
  {
    r := db.UpdateReservation(id, name, gender, passportNum, destination, departure, arrival);
    if r != Done {
      return;
    }
    if viewRef != null {
      var treedata := RetrieveTreeData(db);
      viewRef.treedata := treedata;
      viewRef.RefreshTree();
    }
  }
}
