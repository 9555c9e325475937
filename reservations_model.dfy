/** The storage layer: the `Reservations` and `Destinations` tables and the
    CRUD operations on them, with the table held in memory as a map from
    reservation id to the record's six other fields. */
module ReservationsModel {
  import opened Outcomes
  import Sequences
  import Text

  /** The six fields of a reservation besides its id. The dates are kept as
      the text the form submitted. */
  datatype Reservation = Reservation(
    name: string,
    gender: string,
    passportNumber: string,
    destination: string,
    departure: string,
    arrival: string)

  /** One row of the reservations listing: the id and the record. */
  datatype Entry = Entry(id: nat, record: Reservation)

  datatype Destination = Destination(city: string, country: Option<string>)

  /** The columns of the `Reservations` table, in declaration order. */
  datatype Column = ReservationId | Name | Gender | PassportNumber | DestinationColumn | DepartureDt | ArrivalDt

  const Columns: seq<Column> := [ReservationId, Name, Gender, PassportNumber, DestinationColumn, DepartureDt, ArrivalDt]

  function VerboseName(c: Column): string
  {
    match c
    case ReservationId => "Reservation Id"
    case Name => "Name"
    case Gender => "Gender"
    case PassportNumber => "Passport #"
    case DestinationColumn => "Destination"
    case DepartureDt => "Departure Date/Time"
    case ArrivalDt => "Arrival Date/Time"
  }

  /** `retrieveColumnNames`: the verbose name of every column, in declaration order. */
  function ColumnNames(): (r: seq<string>)
    ensures r == ["Reservation Id", "Name", "Gender", "Passport #", "Destination",
                  "Departure Date/Time", "Arrival Date/Time"]
    ensures forall i, j :: 0 <= i < j < |r| ==> r[i] != r[j]
  {
    seq(|Columns|, i requires 0 <= i < |Columns| => VerboseName(Columns[i]))
  }

  /** Ids strictly decrease along the listing. */
  predicate DescendingIds(s: seq<Entry>)
  {
    forall i, j :: 0 <= i < j < |s| ==> s[i].id > s[j].id
  }

  /** The ids that occur in a listing. */
  function Ids(s: seq<Entry>): set<nat>
  {
    set e | e in s :: e.id
  }

  /** `s` shows exactly the records of `rows`, each under its own id. */
  predicate ListsExactly(s: seq<Entry>, rows: map<nat, Reservation>)
  {
    && Ids(s) == rows.Keys
    && forall i :: 0 <= i < |s| ==> s[i].id in rows && rows[s[i].id] == s[i].record
  }

  /** `m` is the largest id of `ids`. */
  predicate IsMaxId(m: nat, ids: set<nat>)
  {
    m in ids && forall k :: k in ids ==> k <= m
  }

  lemma {:induction false} MaxExists(ids: set<nat>)
    requires ids != {}
    ensures exists m :: IsMaxId(m, ids)
  {
    var x :| x in ids;
    var rest := ids - {x};
    if rest == {} {
      forall k | k in ids ensures k <= x {
        assert k !in rest;
      }
      assert IsMaxId(x, ids);
    } else {
      MaxExists(rest);
      var m :| IsMaxId(m, rest);
      var top := if x > m then x else m;
      forall k | k in ids ensures k <= top {
        if k != x {
          assert k in rest;
        }
      }
      assert IsMaxId(top, ids);
    }
  }

  /** The largest id in use. */
  function MaxId(ids: set<nat>): (m: nat)
    requires ids != {}
    ensures m in ids && forall k :: k in ids ==> k <= m
  {
    MaxExists(ids);
    var m :| IsMaxId(m, ids);
    m
  }

  lemma IdsCons(e: Entry, s: seq<Entry>)
    ensures Ids([e] + s) == {e.id} + Ids(s)
  {
    assert forall x :: x in [e] + s <==> x == e || x in s;
  }

  /** Putting the largest id in front of a listing of the other records lists them all. */
  lemma ListingStep(rows: map<nat, Reservation>, m: nat, tail: seq<Entry>)
    requires m in rows && forall k :: k in rows ==> k <= m
    requires DescendingIds(tail) && ListsExactly(tail, rows - {m})
    ensures DescendingIds([Entry(m, rows[m])] + tail)
    ensures ListsExactly([Entry(m, rows[m])] + tail, rows)
  {
    var r := [Entry(m, rows[m])] + tail;
    IdsCons(Entry(m, rows[m]), tail);
    forall i | 0 <= i < |tail| ensures tail[i].id in rows - {m} {
      assert tail[i] in tail;
    }
    assert forall i :: 0 < i < |r| ==> r[i] == tail[i - 1];
  }

  /** `SELECT * FROM reservations ORDER BY reservation_id DESC`: the entry with
      the largest id, then the listing of the others. */
  function Listing(rows: map<nat, Reservation>): (r: seq<Entry>)
    ensures r == [] <==> rows == map[]
    decreases |rows|
  {
    if rows == map[] then []
    else
      var m := MaxId(rows.Keys);
      assert |rows - {m}| < |rows| by {
        assert (rows - {m}).Keys == rows.Keys - {m};
      }
      [Entry(m, rows[m])] + Listing(rows - {m})
  }

  /** The listing shows every record of the table under its own id, and
      nothing else, in strictly descending id order. */
  lemma {:induction false} ListingCorrect(rows: map<nat, Reservation>)
    ensures DescendingIds(Listing(rows)) && ListsExactly(Listing(rows), rows)
    decreases |rows|
  {
    if rows == map[] {
      assert Ids([]) == {};
    } else {
      var m := MaxId(rows.Keys);
      assert (rows - {m}).Keys == rows.Keys - {m};
      ListingCorrect(rows - {m});
      ListingStep(rows, m, Listing(rows - {m}));
    }
  }

  /** In an id-descending listing of a table, the first entry has the largest id. */
  lemma HeadHasMaxId(rows: map<nat, Reservation>, s: seq<Entry>)
    requires DescendingIds(s) && ListsExactly(s, rows) && rows != map[]
    ensures s != [] && s[0].id == MaxId(rows.Keys)
  {
    var m := MaxId(rows.Keys);
    assert m in Ids(s);
    var e :| e in s && e.id == m;
    var i :| 0 <= i < |s| && s[i] == e;
    assert s[0] in s;
    assert s[0].id in rows.Keys;
  }

  /** The id of a listing's first entry is among its ids. */
  lemma HeadIdListed(s: seq<Entry>)
    ensures s != [] ==> s[0].id in Ids(s)
  {
    if s != [] {
      assert s[0] in s;
    }
  }

  /** In an id-descending listing, the ids after the first are the others. */
  lemma TailIds(s: seq<Entry>)
    requires DescendingIds(s) && s != []
    ensures Ids(s[1..]) == Ids(s) - {s[0].id}
  {
    forall f | f in s[1..]
      ensures f.id < s[0].id
    {
      var k :| 0 <= k < |s[1..]| && s[1..][k] == f;
      assert s[k + 1] == f;
    }
    assert s == [s[0]] + s[1..];
    IdsCons(s[0], s[1..]);
  }

  /** Dropping the first entry of a listing lists the table without that entry's id. */
  lemma TailLists(rows: map<nat, Reservation>, s: seq<Entry>)
    requires DescendingIds(s) && ListsExactly(s, rows) && s != []
    ensures DescendingIds(s[1..]) && ListsExactly(s[1..], rows - {s[0].id})
  {
    TailIds(s);
    assert (rows - {s[0].id}).Keys == rows.Keys - {s[0].id};
    assert forall k :: 0 <= k < |s[1..]| ==> s[1..][k] == s[k + 1];
  }

  /** The listing is the only id-descending sequence that shows exactly the
      table's records: whatever the database returns for the query is it. */
  lemma {:induction false} ListingUnique(rows: map<nat, Reservation>, s: seq<Entry>)
    requires DescendingIds(s) && ListsExactly(s, rows)
    ensures s == Listing(rows)
    decreases |s|
  {
    if rows == map[] {
      HeadIdListed(s);
    } else {
      HeadHasMaxId(rows, s);
      var m := s[0].id;
      TailLists(rows, s);
      ListingUnique(rows - {m}, s[1..]);
      assert Listing(rows) == [Entry(m, rows[m])] + Listing(rows - {m});
      assert s == [s[0]] + s[1..];
    }
  }

  /** A record whose id is larger than every id in use comes first in the
      listing, ahead of the unchanged listing of the others. */
  lemma NewestFirst(rows: map<nat, Reservation>, id: nat, rec: Reservation)
    requires forall k :: k in rows ==> k < id
    ensures Listing(rows[id := rec]) == [Entry(id, rec)] + Listing(rows)
  {
    var after := rows[id := rec];
    var m := MaxId(after.Keys);
    assert m == id by {
      assert id in after.Keys;
      assert m == id || m in rows;
    }
    assert after - {id} == rows;
  }

  /** The listing without the entry whose id is `id`. */
  function WithoutId(s: seq<Entry>, id: nat): seq<Entry>
  {
    Sequences.Select(s, (e: Entry) => e.id != id)
  }

  /** Deleting a record takes exactly its entry out of the listing and keeps
      the order of the rest. */
  lemma ListingAfterDelete(rows: map<nat, Reservation>, id: nat)
    ensures Listing(rows - {id}) == WithoutId(Listing(rows), id)
  {
    ListingCorrect(rows);
    WithoutIdListsRest(Listing(rows), rows, id);
    ListingUnique(rows - {id}, WithoutId(Listing(rows), id));
  }

  /** Taking entry `id` out of a descending listing of a table leaves a
      descending listing of the other records. */
  lemma WithoutIdListsRest(l: seq<Entry>, rows: map<nat, Reservation>, id: nat)
    requires DescendingIds(l) && ListsExactly(l, rows)
    ensures DescendingIds(WithoutId(l, id))
    ensures ListsExactly(WithoutId(l, id), rows - {id})
  {
    var p := (e: Entry) => e.id != id;
    var s := WithoutId(l, id);
    Sequences.SelectKeepsOrder(l, p, (e: Entry) => -(e.id as int));
    forall e | true ensures e in s <==> e in l && e.id != id {
      Sequences.SelectMembers(l, p, e);
    }
    assert forall i :: 0 <= i < |s| ==> s[i] in s;
    assert Ids(s) == (rows - {id}).Keys;
  }

  /** The listing with the record of the entry `id` replaced by `rec`. */
  function ReplaceRecord(s: seq<Entry>, id: nat, rec: Reservation): (r: seq<Entry>)
  {
    seq(|s|, i requires 0 <= i < |s| => if s[i].id == id then Entry(id, rec) else s[i])
  }

  lemma ReplaceRecordCons(e: Entry, t: seq<Entry>, id: nat, rec: Reservation)
    ensures ReplaceRecord([e] + t, id, rec)
         == [if e.id == id then Entry(id, rec) else e] + ReplaceRecord(t, id, rec)
  {
  }

  /** Replacing a record no listing entry has changes nothing. */
  lemma ReplaceAbsent(s: seq<Entry>, id: nat, rec: Reservation)
    requires id !in Ids(s)
    ensures ReplaceRecord(s, id, rec) == s
  {
    forall i | 0 <= i < |s| ensures s[i].id != id {
      assert s[i] in s;
    }
  }

  /** The listing of a non-empty table: its largest id, then the listing of the rest. */
  lemma ListingUnfold(rows: map<nat, Reservation>)
    requires rows != map[]
    ensures |rows - {MaxId(rows.Keys)}| < |rows|
    ensures Listing(rows) == [Entry(MaxId(rows.Keys), rows[MaxId(rows.Keys)])] + Listing(rows - {MaxId(rows.Keys)})
  {
    assert (rows - {MaxId(rows.Keys)}).Keys == rows.Keys - {MaxId(rows.Keys)};
  }

  /** Updating a record changes its entry in place and nothing else in the listing. */
  lemma {:induction false} ListingAfterUpdate(rows: map<nat, Reservation>, id: nat, rec: Reservation)
    requires id in rows
    ensures Listing(rows[id := rec]) == ReplaceRecord(Listing(rows), id, rec)
    decreases |rows|
  {
    var m := MaxId(rows.Keys);
    ListingUnfold(rows);
    if m == id {
      UpdateNewest(rows, rec);
    } else {
      ListingAfterUpdate(rows - {m}, id, rec);
      UpdateBelowNewest(rows, id, rec);
    }
  }

  /** Updating the newest record replaces the head of the listing. */
  lemma UpdateNewest(rows: map<nat, Reservation>, rec: Reservation)
    requires rows != map[]
    ensures Listing(rows[MaxId(rows.Keys) := rec]) == ReplaceRecord(Listing(rows), MaxId(rows.Keys), rec)
  {
    var m := MaxId(rows.Keys);
    var after := rows[m := rec];
    var rest := rows - {m};
    assert after.Keys == rows.Keys;
    assert MaxId(after.Keys) == m;
    ListingUnfold(after);
    assert after - {m} == rest;
    assert Listing(after) == [Entry(m, rec)] + Listing(rest);
    ListingUnfold(rows);
    ReplaceRecordCons(Entry(m, rows[m]), Listing(rest), m, rec);
    ListingCorrect(rest);
    assert rest.Keys == rows.Keys - {m};
    ReplaceAbsent(Listing(rest), m, rec);
  }

  /** Updating an older record keeps the head of the listing and updates the rest. */
  lemma UpdateBelowNewest(rows: map<nat, Reservation>, id: nat, rec: Reservation)
    requires id in rows && id != MaxId(rows.Keys)
    requires Listing((rows - {MaxId(rows.Keys)})[id := rec])
          == ReplaceRecord(Listing(rows - {MaxId(rows.Keys)}), id, rec)
    ensures Listing(rows[id := rec]) == ReplaceRecord(Listing(rows), id, rec)
  {
    var m := MaxId(rows.Keys);
    var after := rows[id := rec];
    var rest := rows - {m};
    assert after.Keys == rows.Keys;
    assert MaxId(after.Keys) == m;
    ListingUnfold(after);
    assert after - {m} == rest[id := rec];
    assert Listing(after) == [Entry(m, rows[m])] + Listing(rest[id := rec]);
    ListingUnfold(rows);
    ReplaceRecordCons(Entry(m, rows[m]), Listing(rest), id, rec);
  }

  /** The city of every destination, in table order. */
  function Cities(ds: seq<Destination>): (r: seq<string>)
    ensures |r| == |ds| && forall i :: 0 <= i < |ds| ==> r[i] == ds[i].city
  {
    seq(|ds|, i requires 0 <= i < |ds| => ds[i].city)
  }

  /** What a mutating operation reports: done, or the `DoesNotExist` error that
      `.get()` raises when no record has the id. */
  datatype Outcome = Done | DoesNotExist(id: nat)

  /** The `Reservations` and `Destinations` tables. */
  class ReservationTable {
    var rows: map<nat, Reservation>
    /** The id the `AutoField` assigns next; larger than every id in use. */
    var nextId: nat
    var destinations: seq<Destination>

    ghost predicate Valid()
      reads this
    {
      0 < nextId && forall id :: id in rows ==> 0 < id < nextId
    }

    constructor (destinations: seq<Destination>)
      ensures Valid() && rows == map[] && this.destinations == destinations
      ensures nextId == 1
    {
      rows := map[];
      nextId := 1;
      this.destinations := destinations;
    }

    /** `getReservationsData`: every reservation, newest (largest id) first. */
    function ReservationsData(): (r: seq<Entry>)
      reads this
      ensures DescendingIds(r) && ListsExactly(r, rows)
    {
      ListingCorrect(rows);
      Listing(rows)
    }

    /** `getDestinationsData`: the city of every destination, in ascending order. */
    function DestinationsData(): (r: seq<string>)
      reads this
      ensures Text.Ascending(r) && multiset(r) == multiset(Cities(destinations))
    {
      Text.SortAscending(Cities(destinations))
    }

    /** `createReservation`: adds one record under the id the `AutoField`
        assigns next, which is not in use and larger than every id in use; the
        counter moves on by one and the other records stay as they were. */
    method CreateReservation(name: string, gender: string, passportNum: string,
                             destination: string, departure: string, arrival: string)
      returns (id: nat)
      requires Valid()
      modifies this`rows, this`nextId
      ensures Valid()
      ensures id == old(nextId) && nextId == old(nextId) + 1
      ensures id !in old(rows) && forall k :: k in old(rows) ==> k < id
      ensures rows == old(rows)[id := Reservation(name, gender, passportNum, destination, departure, arrival)]
    {
      id := nextId;
      rows := rows[id := Reservation(name, gender, passportNum, destination, departure, arrival)];
      nextId := nextId + 1;
    }

    /** `updateReservation`: overwrites the six fields of the record `id`;
        fails, changing nothing, when there is no such record. */
    method UpdateReservation(id: nat, name: string, gender: string, passportNum: string,
                             destination: string, departure: string, arrival: string)
      returns (r: Outcome)
      requires Valid()
      modifies this`rows
      ensures Valid()
      ensures r == (if id in old(rows) then Done else DoesNotExist(id))
      ensures rows == if id in old(rows)
                      then old(rows)[id := Reservation(name, gender, passportNum, destination, departure, arrival)]
                      else old(rows)
    {
      if id !in rows {
        return DoesNotExist(id);
      }
      rows := rows[id := Reservation(name, gender, passportNum, destination, departure, arrival)];
      r := Done;
    }

    /** `deleteReservation`: removes the record `id` and nothing else; fails,
        changing nothing, when there is no such record. */
    method DeleteReservation(id: nat) returns (r: Outcome)
      requires Valid()
      modifies this`rows
      ensures Valid()
      ensures r == (if id in old(rows) then Done else DoesNotExist(id))
      ensures rows == if id in old(rows) then old(rows) - {id} else old(rows)
    {
      if id !in rows {
        return DoesNotExist(id);
      }
      rows := rows - {id};
      r := Done;
    }
  }

  /** On a new table the `AutoField` hands out id 1 to the first record
      created and id 2 to the second. */
  method FirstIds(a: Reservation, b: Reservation) returns (first: nat, second: nat, rows: map<nat, Reservation>)
    ensures first == 1 && second == 2
    ensures rows == map[1 := a, 2 := b]
  {
    var db := new ReservationTable([]);
    first := db.CreateReservation(a.name, a.gender, a.passportNumber, a.destination, a.departure, a.arrival);
    second := db.CreateReservation(b.name, b.gender, b.passportNumber, b.destination, b.departure, b.arrival);
    rows := db.rows;
  }
}
