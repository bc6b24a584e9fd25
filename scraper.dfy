/**
 The extractor: `BeautifulSoupScraper.ReadFile` walks the rows of the
 emissions table and records, per country, the text of its share-of-world
 column. Fetching the page and parsing the HTML are not modelled: the
 table arrives as the text of the `<td>` cells of each `<tr>`, in order.
 */
module Scraper {
  import opened Text
  import opened PyDict

  /** Rows before this index are headers and are never examined (`[5:]`). */
  const HeaderRows := 5
  /** Only rows with exactly this many cells carry data. */
  const CellsPerRow := 8
  /** Column of the country name. */
  const CountryCell := 0
  /** Column of the share of world emissions, written with a trailing `%`. */
  const ShareCell := 4

  /** The text of the cells of one table row. */
  type Cells = seq<String>

  /** `rows[5:]`: the rows that follow the header rows; none when the table is shorter. */
  function DataRows(table: seq<Cells>): (rows: seq<Cells>)
    ensures |table| <= HeaderRows ==> rows == []
    ensures |table| > HeaderRows ==> |rows| == |table| - HeaderRows
    ensures forall i :: 0 <= i < |rows| ==> rows[i] == table[i + HeaderRows]
  {
    if |table| <= HeaderRows then [] else table[HeaderRows..]
  }

  /** A row yields an entry exactly when it has eight cells. */
  predicate Qualifies(cells: Cells)
  {
    |cells| == CellsPerRow
  }

  /** The (country, share) entry of a data row: stripped cell 0, and stripped cell 4 less its last character. */
  function Entry(cells: Cells): (e: (String, String))
    requires Qualifies(cells)
    ensures e.0 == Strip(cells[CountryCell])
    ensures e.1 == DropLast(Strip(cells[ShareCell]))
  {
    var cols := seq(|cells|, j requires 0 <= j < |cells| => Strip(cells[j]));
    (cols[CountryCell], DropLast(cols[ShareCell]))
  }

  /** The entries of the qualifying rows, in row order. */
  function Entries(rows: seq<Cells>): (es: seq<(String, String)>)
    ensures |es| <= |rows|
  {
    if rows == [] then []
    else
      var last := rows[|rows| - 1];
      Entries(rows[..|rows| - 1]) + (if Qualifies(last) then [Entry(last)] else [])
  }

  /** The dictionary after `ReadFile(table)` on a scraper whose dictionary was `d`. */
  function Extract(d: Dict<String, String>, table: seq<Cells>): Dict<String, String>
  {
    PutAll(d, Entries(DataRows(table)))
  }

  lemma EntriesSnoc(rows: seq<Cells>, row: Cells)
    ensures Entries(rows + [row]) == Entries(rows) + (if Qualifies(row) then [Entry(row)] else [])
  {
    assert (rows + [row])[..|rows|] == rows;
  }

  /** Every entry comes from some qualifying row. */
  lemma {:induction false} EntryHasRow(rows: seq<Cells>, e: (String, String)) returns (i: nat)
    requires e in Entries(rows)
    ensures i < |rows| && Qualifies(rows[i]) && Entry(rows[i]) == e
  {
    var init, last := rows[..|rows| - 1], rows[|rows| - 1];
    if e in Entries(init) {
      i := EntryHasRow(init, e);
      assert rows[i] == init[i];
    } else {
      i := |rows| - 1;
    }
  }

  /** Every qualifying row contributes its entry. */
  lemma {:induction false} RowHasEntry(rows: seq<Cells>, i: nat)
    requires i < |rows| && Qualifies(rows[i])
    ensures Entry(rows[i]) in Entries(rows)
  {
    var init, last := rows[..|rows| - 1], rows[|rows| - 1];
    if i < |init| {
      RowHasEntry(init, i);
      assert init[i] == rows[i];
    }
  }

  /** An entry is produced if and only if some row has exactly eight cells and yields it. */
  lemma EntryIffQualifyingRow(rows: seq<Cells>, e: (String, String))
    ensures e in Entries(rows) <==> exists i :: 0 <= i < |rows| && Qualifies(rows[i]) && Entry(rows[i]) == e
  {
    if e in Entries(rows) {
      var i := EntryHasRow(rows, e);
    }
    if exists i :: 0 <= i < |rows| && Qualifies(rows[i]) && Entry(rows[i]) == e {
      var i :| 0 <= i < |rows| && Qualifies(rows[i]) && Entry(rows[i]) == e;
      RowHasEntry(rows, i);
    }
  }

  /** A row whose cell count is not eight is skipped wherever it stands. */
  lemma {:induction false} MalformedRowSkipped(before: seq<Cells>, row: Cells, after: seq<Cells>)
    requires !Qualifies(row)
    ensures Entries(before + [row] + after) == Entries(before + after)
  {
    if after == [] {
      assert before + [row] + after == before + [row];
      assert before + after == before;
      EntriesSnoc(before, row);
    } else {
      var init := after[..|after| - 1];
      var last := after[|after| - 1];
      MalformedRowSkipped(before, row, init);
      assert before + [row] + after == (before + [row] + init) + [last];
      assert before + after == (before + init) + [last];
      EntriesSnoc(before + [row] + init, last);
      EntriesSnoc(before + init, last);
    }
  }

  /** The header rows do not matter: tables that agree from row 5 on extract the same dictionary. */
  lemma HeaderRowsIgnored(d: Dict<String, String>, t1: seq<Cells>, t2: seq<Cells>)
    requires |t1| == |t2|
    requires forall i :: HeaderRows <= i < |t1| ==> t1[i] == t2[i]
    ensures Extract(d, t1) == Extract(d, t2)
  {
    assert DataRows(t1) == DataRows(t2);
  }

  /** A country takes the share of the last qualifying row that names it. */
  lemma {:induction false} LastRowWins(d: Dict<String, String>, rows: seq<Cells>, i: nat)
    requires i < |rows| && Qualifies(rows[i])
    requires forall j :: i < j < |rows| && Qualifies(rows[j]) ==> Entry(rows[j]).0 != Entry(rows[i]).0
    ensures var e := Entry(rows[i]);
      e.0 in PutAll(d, Entries(rows)).values && PutAll(d, Entries(rows)).values[e.0] == e.1
  {
    var init := rows[..|rows| - 1];
    var last := rows[|rows| - 1];
    assert rows == init + [last];
    EntriesSnoc(init, last);
    if i == |rows| - 1 {
      PutAllSnoc(d, Entries(init), Entry(last));
    } else {
      assert init[i] == rows[i];
      LastRowWins(d, init, i);
      if Qualifies(last) {
        assert Entry(last).0 != Entry(rows[i]).0;
        PutAllSnoc(d, Entries(init), Entry(last));
      } else {
        assert Entries(rows) == Entries(init);
      }
    }
  }

  /** A country that no qualifying row names keeps whatever the dictionary held before. */
  lemma UnnamedCountryKept(d: Dict<String, String>, rows: seq<Cells>, k: String)
    requires k in d.values
    requires forall j :: 0 <= j < |rows| && Qualifies(rows[j]) ==> Entry(rows[j]).0 != k
    ensures k in PutAll(d, Entries(rows)).values && PutAll(d, Entries(rows)).values[k] == d.values[k]
  {
    var es := Entries(rows);
    forall j | 0 <= j < |es|
      ensures es[j].0 != k
    {
      EntryIffQualifyingRow(rows, es[j]);
    }
    UntouchedKey(d, es, k);
  }

  /**
   After `ReadFile(table)` a country is a key exactly when it was one before
   or some data row (index 5 on) has eight cells and names it.
   */
  lemma ExtractKeys(d: Dict<String, String>, table: seq<Cells>, k: String)
    ensures k in Extract(d, table).values <==>
      k in d.values || exists i :: HeaderRows <= i < |table| && Qualifies(table[i]) && Entry(table[i]).0 == k
  {
    var rows := DataRows(table);
    var es := Entries(rows);
    PutAllKeys(d, es, k);
    if k in Firsts(es) {
      var p :| 0 <= p < |es| && es[p].0 == k;
      EntryIffQualifyingRow(rows, es[p]);
      var i :| 0 <= i < |rows| && Qualifies(rows[i]) && Entry(rows[i]) == es[p];
      assert table[i + HeaderRows] == rows[i];
    }
    if exists i :: HeaderRows <= i < |table| && Qualifies(table[i]) && Entry(table[i]).0 == k {
      var i :| HeaderRows <= i < |table| && Qualifies(table[i]) && Entry(table[i]).0 == k;
      assert rows[i - HeaderRows] == table[i];
      EntryIffQualifyingRow(rows, Entry(table[i]));
      var p :| 0 <= p < |es| && es[p] == Entry(table[i]);
      assert Firsts(es)[p] == k;
    }
  }

  /** After `ReadFile(table)` a country holds the share of the last data row with eight cells that names it. */
  lemma ExtractLastRowWins(d: Dict<String, String>, table: seq<Cells>, i: nat)
    requires HeaderRows <= i < |table| && Qualifies(table[i])
    requires forall j :: i < j < |table| && Qualifies(table[j]) ==> Entry(table[j]).0 != Entry(table[i]).0
    ensures var e := Entry(table[i]);
      e.0 in Extract(d, table).values && Extract(d, table).values[e.0] == e.1
  {
    var rows := DataRows(table);
    assert rows[i - HeaderRows] == table[i];
    LastRowWins(d, rows, i - HeaderRows);
  }

  /**
   After `ReadFile(table)` a country that no data row names keeps the share
   an earlier call left in the dictionary.
   */
  lemma ExtractKeepsEarlier(d: Dict<String, String>, table: seq<Cells>, k: String)
    requires k in d.values
    requires forall i :: HeaderRows <= i < |table| && Qualifies(table[i]) ==> Entry(table[i]).0 != k
    ensures k in Extract(d, table).values && Extract(d, table).values[k] == d.values[k]
  {
    var rows := DataRows(table);
    assert forall j :: 0 <= j < |rows| ==> rows[j] == table[j + HeaderRows];
    UnnamedCountryKept(d, rows, k);
  }

  /** The entries of the first `k` rows are a prefix of the entries of all rows. */
  lemma {:induction false} EntriesPrefix(rows: seq<Cells>, k: nat)
    requires k <= |rows|
    ensures Entries(rows[..k]) <= Entries(rows)
    decreases |rows|
  {
    if k < |rows| {
      var init := rows[..|rows| - 1];
      assert init[..k] == rows[..k];
      EntriesPrefix(init, k);
    } else {
      assert rows[..k] == rows;
    }
  }

  /** The entry of a qualifying row among the first `n` is among the entries of those rows. */
  lemma EarlierRowEntry(rows: seq<Cells>, i: nat, n: nat) returns (p: nat)
    requires i < n <= |rows| && Qualifies(rows[i])
    ensures p < |Entries(rows[..n])| && p < |Entries(rows)|
    ensures Entries(rows)[p] == Entry(rows[i])
  {
    var head := rows[..n];
    EntriesPrefix(rows, n);
    assert head[i] == rows[i];
    RowHasEntry(head, i);
    p :| 0 <= p < |Entries(head)| && Entries(head)[p] == Entry(rows[i]);
  }

  /** No entry of the first `n` rows names a country that no qualifying row among them names. */
  lemma UnnamedBefore(rows: seq<Cells>, n: nat, k: String)
    requires n <= |rows|
    requires forall p :: 0 <= p < n && Qualifies(rows[p]) ==> Entry(rows[p]).0 != k
    ensures |Entries(rows[..n])| <= |Entries(rows)|
    ensures forall p :: 0 <= p < |Entries(rows[..n])| ==> Entries(rows)[p].0 != k
  {
    var head := rows[..n];
    var hs := Entries(head);
    EntriesPrefix(rows, n);
    forall p | 0 <= p < |hs|
      ensures Entries(rows)[p].0 != k
    {
      var r := EntryHasRow(head, hs[p]);
      assert head[r] == rows[r];
    }
  }

  /** A qualifying row's entry comes right after the entries of the rows before it. */
  lemma RowEntryAt(rows: seq<Cells>, j: nat)
    requires j < |rows| && Qualifies(rows[j])
    ensures |Entries(rows[..j])| < |Entries(rows)|
    ensures Entries(rows)[|Entries(rows[..j])|] == Entry(rows[j])
  {
    assert rows[..j + 1] == rows[..j] + [rows[j]];
    EntriesSnoc(rows[..j], rows[j]);
    EntriesPrefix(rows, j + 1);
  }

  /**
   Countries iterate in the order of their first qualifying row: the country
   of an earlier qualifying row comes before a country that no earlier
   qualifying row names and the dictionary did not hold.
   */
  lemma FirstRowOrder(d: Dict<String, String>, rows: seq<Cells>, i: nat, j: nat)
    requires WellFormed(d)
    requires i < j < |rows| && Qualifies(rows[i]) && Qualifies(rows[j])
    requires Entry(rows[j]).0 !in d.values
    requires forall p :: 0 <= p < j && Qualifies(rows[p]) ==> Entry(rows[p]).0 != Entry(rows[j]).0
    ensures exists a, b ::
              && 0 <= a < b < |PutAll(d, Entries(rows)).keys|
              && PutAll(d, Entries(rows)).keys[a] == Entry(rows[i]).0
              && PutAll(d, Entries(rows)).keys[b] == Entry(rows[j]).0
  {
    var es := Entries(rows);
    var n := |Entries(rows[..j])|;
    var p := EarlierRowEntry(rows, i, j);
    UnnamedBefore(rows, j, Entry(rows[j]).0);
    RowEntryAt(rows, j);
    NewKeyOrder(d, es, n, Entry(rows[i]).0, Entry(rows[j]).0);
  }

  /**
   After `ReadFile(table)` the countries iterate in the order of their first
   data row, which is the order in which `main` numbers them and in which
   the sort meets tied shares.
   */
  lemma ExtractFirstRowOrder(d: Dict<String, String>, table: seq<Cells>, i: nat, j: nat)
    requires WellFormed(d)
    requires HeaderRows <= i < j < |table| && Qualifies(table[i]) && Qualifies(table[j])
    requires Entry(table[j]).0 !in d.values
    requires forall p :: HeaderRows <= p < j && Qualifies(table[p]) ==> Entry(table[p]).0 != Entry(table[j]).0
    ensures exists a, b ::
              && 0 <= a < b < |Extract(d, table).keys|
              && Extract(d, table).keys[a] == Entry(table[i]).0
              && Extract(d, table).keys[b] == Entry(table[j]).0
  {
    var rows := DataRows(table);
    var i', j' := i - HeaderRows, j - HeaderRows;
    assert rows[i'] == table[i] && rows[j'] == table[j];
    var k2 := Entry(table[j]).0;
    forall p | 0 <= p < j' && Qualifies(rows[p])
      ensures Entry(rows[p]).0 != k2
    {
      assert rows[p] == table[p + HeaderRows];
    }
    FirstRowOrder(d, rows, i', j');
    var ks := PutAll(d, Entries(rows)).keys;
    var a, b :| 0 <= a < b < |ks| && ks[a] == Entry(rows[i']).0 && ks[b] == Entry(rows[j']).0;
    assert Extract(d, table).keys == ks;
  }

  /** One turn of the `ReadFile` loop: row `i` adds its entry when it qualifies and nothing otherwise. */
  lemma ReadRowStep(d: Dict<String, String>, rows: seq<Cells>, i: nat)
    requires i < |rows|
    ensures Qualifies(rows[i]) ==>
      PutAll(d, Entries(rows[..i + 1])) == Put(PutAll(d, Entries(rows[..i])), Entry(rows[i]).0, Entry(rows[i]).1)
    ensures !Qualifies(rows[i]) ==> PutAll(d, Entries(rows[..i + 1])) == PutAll(d, Entries(rows[..i]))
  {
    assert rows[..i + 1] == rows[..i] + [rows[i]];
    EntriesSnoc(rows[..i], rows[i]);
    if Qualifies(rows[i]) {
      PutAllSnoc(d, Entries(rows[..i]), Entry(rows[i]));
    } else {
      assert Entries(rows[..i + 1]) == Entries(rows[..i]) + [];
      assert Entries(rows[..i]) + [] == Entries(rows[..i]);
    }
  }

  /** `BeautifulSoupScraper`: its dictionary outlives a single `ReadFile` call. */
  class SoupScraper {
    var soupDict: Dict<String, String>

    ghost predicate Valid()
      reads this
    {
      WellFormed(soupDict)
    }

    constructor()
      ensures Valid() && soupDict == Empty()
    {
      soupDict := Empty();
    }

    /**
     Adds an entry for each qualifying data row of `table` to `soupDict`,
     later rows overwriting earlier ones, and returns the dictionary.
     */
    method ReadFile(table: seq<Cells>) returns (result: Dict<String, String>)
      requires Valid()
      modifies this
      ensures Valid()
      ensures soupDict == Extract(old(soupDict), table)
      ensures result == soupDict
    {
      var rows := DataRows(table);
      ghost var d0 := soupDict;
      var i := 0;
      while i < |rows|
        invariant 0 <= i <= |rows|
        invariant soupDict == PutAll(d0, Entries(rows[..i]))
      {
        var cells := rows[i];
        ReadRowStep(d0, rows, i);
        if |cells| == CellsPerRow {
          var cols := seq(|cells|, j requires 0 <= j < |cells| => Strip(cells[j]));
          soupDict := Put(soupDict, cols[CountryCell], DropLast(cols[ShareCell]));
        }
        i := i + 1;
      }
      assert rows[..i] == rows;
      result := soupDict;
    }
  }
}
