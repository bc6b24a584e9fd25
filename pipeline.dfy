/**
 `main`: scrape the table into a dictionary, store each entry under a
 fresh numeric ID, read the records back, keep the ten largest shares and
 split them into pie labels and sizes.
 */
module Pipeline {
  import opened Text
  import opened PyDict
  import opened Scraper
  import opened Store
  import opened Ranking
  import opened Graph

  /** The rows `main` inserts for `items`: the i-th item (from 0) under ID i + 1. */
  function Numbered(items: seq<(String, String)>): (rows: seq<Row>)
    ensures |rows| == |items|
    ensures forall i :: 0 <= i < |rows| ==> rows[i] == Row(i + 1, items[i].0, items[i].1)
  {
    seq(|items|, i requires 0 <= i < |items| => Row(i + 1, items[i].0, items[i].1))
  }

  /** The IDs `main` assigns are pairwise distinct. */
  lemma NumberedIdsDistinct(items: seq<(String, String)>)
    ensures forall i, j :: 0 <= i < j < |items| ==> Numbered(items)[i].id != Numbered(items)[j].id
  {
  }

  /** The IDs of the first `n` numbered rows are at most `n`. */
  lemma NumberedIdsBelow(items: seq<(String, String)>, n: nat)
    requires n <= |items|
    ensures forall id :: id in Ids(Numbered(items)[..n]) ==> id <= n
  {
    var head := Numbered(items)[..n];
    forall id | id in Ids(head)
      ensures id <= n
    {
      var i :| 0 <= i < |head| && head[i].id == id;
    }
  }

  /** On a fresh table every insert `main` issues succeeds: IDs 1, 2, ..., n never collide. */
  lemma {:induction false} FreshTableAcceptsAll(items: seq<(String, String)>)
    ensures InsertAll([], Numbered(items)) == Numbered(items)
  {
    var rows := Numbered(items);
    var n := 0;
    while n < |rows|
      invariant 0 <= n <= |rows|
      invariant InsertAll([], rows[..n]) == rows[..n]
    {
      NumberedIdsBelow(items, n);
      assert rows[..n + 1] == rows[..n] + [rows[n]];
      InsertAllSnoc([], rows[..n], rows[n]);
      n := n + 1;
    }
    assert rows[..n] == rows;
  }

  /** What the table returns for the rows `main` inserts is the dictionary's items, in order. */
  lemma SelectNumbered(items: seq<(String, String)>)
    ensures Select(Numbered(items)) == items
  {
  }

  /**
   The ID loop of `main`: one insert per dictionary entry, in iteration
   order, the n-th under ID n.
   */
  method InsertEntries(db: Database, soupDict: Dict<String, String>)
    requires WellFormed(soupDict)
    modifies db
    ensures db.rows == InsertAll(old(db.rows), Numbered(Items(soupDict)))
  {
    var items := Items(soupDict);
    ghost var rows := Numbered(items);
    var id := 0;
    var n := 0;
    while n < |items|
      invariant 0 <= n <= |items|
      invariant id == n
      invariant db.rows == InsertAll(old(db.rows), rows[..n])
    {
      id := id + 1;
      var country := items[n].0;
      var co2emissions := items[n].1;
      assert Row(id, country, co2emissions) == rows[n];
      var _ := db.Insert(id, country, co2emissions);
      assert rows[..n + 1] == rows[..n] + [rows[n]];
      InsertAllSnoc(old(db.rows), rows[..n], rows[n]);
      n := n + 1;
    }
    assert rows[..n] == rows;
  }

  /** Storing a dictionary with `main`'s IDs and reading it back gives the same dictionary. */
  lemma StoreRoundTrip(d: Dict<String, String>)
    requires WellFormed(d)
    ensures PutAll(Empty(), Select(InsertAll([], Numbered(Items(d))))) == d
  {
    FreshTableAcceptsAll(Items(d));
    SelectNumbered(Items(d));
    RoundTrip(d);
  }

  lemma FirstsUnique<K, V>(ks: seq<K>, pairs: seq<(K, V)>)
    requires |ks| == |pairs| && forall i :: 0 <= i < |pairs| ==> ks[i] == pairs[i].0
    ensures ks == Firsts(pairs)
  {
  }

  lemma SecondsUnique<K, V>(vs: seq<V>, pairs: seq<(K, V)>)
    requires |vs| == |pairs| && forall i :: 0 <= i < |pairs| ==> vs[i] == pairs[i].1
    ensures vs == Seconds(pairs)
  {
  }

  /**
   `main` without the I/O: the chart shows the ten largest shares of the
   scraped dictionary, as if the store were not there. `rank` orders the
   shares as the values read back from the table compare.
   */
  method RunPipeline(table: seq<Cells>, rank: String -> int) returns (graph: MatPlotLibGraph<String>)
    ensures var top := TopTen(Items(Extract(Empty(), table)), rank);
      graph.labels == Firsts(top) && graph.sizes == Seconds(top)
    ensures graph.ExplodeFits() <==> |Extract(Empty(), table).keys| >= TopCount
  {
    var myData := new SoupScraper();
    var scraped := myData.ReadFile(table);
    var dbEmissions := new Database();
    InsertEntries(dbEmissions, scraped);
    var country := dbEmissions.ReadData4MatPlotLib();
    StoreRoundTrip(scraped);
    assert country == scraped;
    var sortedCountry := TopTen(Items(country), rank);
    graph := new MatPlotLibGraph(sortedCountry);
    FirstsUnique(graph.labels, sortedCountry);
    SecondsUnique(graph.sizes, sortedCountry);
  }
}
