/**
 The store: `SQLite_database` holds one table,
 `Database(ID INTEGER PRIMARY KEY, Country STRING NOT NULL, CO2World2017 FLOAT NOT NULL)`.
 The database engine is not modelled; the table is the sequence of rows
 inserted so far, in insertion order, and the one constraint an insert of
 this program can break is the primary key.
 */
module Store {
  import opened Text
  import opened PyDict

  /** One row of the table. */
  datatype Row = Row(id: int, country: String, share: String)

  /** The primary keys in use. */
  function Ids(rows: seq<Row>): (ids: set<int>)
    ensures forall i :: 0 <= i < |rows| ==> rows[i].id in ids
    ensures forall id :: id in ids ==> exists i :: 0 <= i < |rows| && rows[i].id == id
  {
    set r | r in rows :: r.id
  }

  /** The table after one insert: a row whose ID is already taken is refused and nothing changes. */
  function InsertRow(rows: seq<Row>, row: Row): seq<Row>
  {
    if row.id in Ids(rows) then rows else rows + [row]
  }

  /** The table after inserting `news` one by one. */
  function InsertAll(rows: seq<Row>, news: seq<Row>): seq<Row>
  {
    if news == [] then rows
    else InsertRow(InsertAll(rows, news[..|news| - 1]), news[|news| - 1])
  }

  lemma InsertAllSnoc(rows: seq<Row>, news: seq<Row>, row: Row)
    ensures InsertAll(rows, news + [row]) == InsertRow(InsertAll(rows, news), row)
  {
    assert (news + [row])[..|news|] == news;
  }

  /** `SELECT Country, CO2World2017 from Database`, in the order the rows were stored. */
  function Select(rows: seq<Row>): (records: seq<(String, String)>)
    ensures |records| == |rows|
    ensures forall i :: 0 <= i < |rows| ==> records[i] == (rows[i].country, rows[i].share)
  {
    seq(|rows|, i requires 0 <= i < |rows| => (rows[i].country, rows[i].share))
  }

  /** Folding the selected records into a dictionary keeps exactly the countries of the rows. */
  lemma ReadBackKeys(rows: seq<Row>, k: String)
    ensures k in PutAll(Empty(), Select(rows)).values <==> exists i :: 0 <= i < |rows| && rows[i].country == k
  {
    var records := Select(rows);
    PutAllKeys(Empty(), records, k);
    if k in Firsts(records) {
      var i :| 0 <= i < |records| && Firsts(records)[i] == k;
      assert rows[i].country == k;
    }
    if exists i :: 0 <= i < |rows| && rows[i].country == k {
      var i :| 0 <= i < |rows| && rows[i].country == k;
      assert Firsts(records)[i] == k;
    }
  }

  /** Folding the selected records into a dictionary maps a country to the share of the last row carrying it. */
  lemma ReadBackLastRow(rows: seq<Row>, i: nat)
    requires i < |rows|
    requires forall j :: i < j < |rows| ==> rows[j].country != rows[i].country
    ensures rows[i].country in PutAll(Empty(), Select(rows)).values
    ensures PutAll(Empty(), Select(rows)).values[rows[i].country] == rows[i].share
  {
    LastWriteWins(Empty(), Select(rows), i);
  }

  /** `SQLite_database`, connected and with its table created. */
  class Database {
    var rows: seq<Row>

    /** A freshly created table has no rows. */
    constructor()
      ensures rows == []
    {
      rows := [];
    }

    /**
     `INSERT INTO Database(ID, Country, CO2World2017) VALUES(?, ?, ?)`:
     succeeds, and appends the row, exactly when no row has that ID yet;
     a refused insert leaves the table as it was.
     */
    method Insert(id: int, country: String, share: String) returns (ok: bool)
      modifies this
      ensures ok <==> id !in Ids(old(rows))
      ensures rows == InsertRow(old(rows), Row(id, country, share))
    {
      if id in Ids(rows) {
        ok := false;
      } else {
        rows := rows + [Row(id, country, share)];
        ok := true;
      }
    }

    /**
     Reads every (country, share) record into a dictionary, in the order the
     table returns them; `ReadBackKeys` and `ReadBackLastRow` say what the
     result holds.
     */
    method ReadData4MatPlotLib() returns (listOfValues: Dict<String, String>)
      ensures WellFormed(listOfValues)
      ensures listOfValues == PutAll(Empty(), Select(rows))
    {
      var records := Select(rows);
      listOfValues := Empty();
      var n := 0;
      while n < |records|
        invariant 0 <= n <= |records|
        invariant listOfValues == PutAll(Empty(), records[..n])
      {
        var row := records[n];
        PutAllSnoc(Empty(), records[..n], row);
        assert records[..n + 1] == records[..n] + [row];
        listOfValues := Put(listOfValues, row.0, row.1);
        n := n + 1;
      }
      assert records[..n] == records;
    }
  }
}
