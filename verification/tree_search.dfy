/** Walking over the results of a search in a tree widget, column by column. */
module TreeSearch {
  import opened Options

  /** The rows of a column that match. */
  datatype Column = Column(col: int, rows: seq<int>)

  /** A result: its column, and its index among the results of that column. */
  datatype Place = Place(col: int, item: int)

  // ---------------------------------------------------------------------------------------------
  // Results
  // ---------------------------------------------------------------------------------------------

  function Places(col: int, n: nat): (r: seq<Place>)
    ensures |r| == n && forall i | 0 <= i < n :: r[i] == Place(col, i)
  {
    seq(n, i requires 0 <= i < n => Place(col, i))
  }

  /** All results, ordered by column. */
  function Flattened(results: seq<Column>): seq<Place> {
    if results == [] then [] else Places(results[0].col, |results[0].rows|) + Flattened(results[1..])
  }

  /** How many results the columns before number `k` have. */
  function Before(results: seq<Column>, k: nat): nat
    requires k <= |results|
  {
    if k == 0 then 0 else |results[0].rows| + Before(results[1..], k - 1)
  }

  lemma {:induction false} FlattenedSize(results: seq<Column>)
    ensures |Flattened(results)| == Before(results, |results|)
  {
    if results != [] {
      FlattenedSize(results[1..]);
    }
  }

  lemma {:induction false} FlattenedAt(results: seq<Column>, k: nat, item: nat)
    requires k < |results| && item < |results[k].rows|
    ensures Before(results, k) + item < |Flattened(results)|
    ensures Flattened(results)[Before(results, k) + item] == Place(results[k].col, item)
  {
    if k > 0 {
      FlattenedAt(results[1..], k - 1, item);
    }
  }

  lemma {:induction false} BeforeStep(results: seq<Column>, k: nat)
    requires k < |results|
    ensures Before(results, k + 1) == Before(results, k) + |results[k].rows|
  {
    if k > 0 {
      BeforeStep(results[1..], k - 1);
    }
  }

  /** The columns that have matches, as a map orders them. */
  ghost predicate IsResult(results: seq<Column>) {
    && (forall i | 0 <= i < |results| :: results[i].rows != [])
    && (forall i, j | 0 <= i < j < |results| :: results[i].col < results[j].col)
  }

  /** The columns with matches among the first `n`. */
  function Matching(found: seq<seq<int>>, n: nat): (r: seq<Column>)
    requires n <= |found|
  {
    if n == 0 then []
    else Matching(found, n - 1) + if found[n - 1] == [] then [] else [Column(n - 1, found[n - 1])]
  }

  lemma {:induction false} MatchingIsResult(found: seq<seq<int>>, n: nat)
    requires n <= |found|
    ensures IsResult(Matching(found, n))
    ensures forall i | 0 <= i < |Matching(found, n)| :: 0 <= Matching(found, n)[i].col < n
  {
    if n > 0 {
      MatchingIsResult(found, n - 1);
    }
  }

  /** Every match is a result. */
  lemma {:induction false} MatchingHasAll(found: seq<seq<int>>, n: nat, col: nat)
    requires col < n <= |found| && found[col] != []
    ensures Column(col, found[col]) in Matching(found, n)
  {
    if col < n - 1 {
      MatchingHasAll(found, n - 1, col);
    }
  }

  lemma {:induction false} BeforeAppend(results: seq<Column>, c: Column)
    ensures Before(results + [c], |results| + 1) == Before(results, |results|) + |c.rows|
  {
    if results == [] {
      assert ([] + [c])[0] == c;
    } else {
      BeforeAppend(results[1..], c);
      assert (results + [c])[1..] == results[1..] + [c];
    }
  }

  /** The index of a column, or -1. */
  function IndexOf(results: seq<Column>, col: int): (r: int)
    ensures -1 <= r < |results|
    ensures r >= 0 ==> results[r].col == col
    ensures r == -1 <==> forall i | 0 <= i < |results| :: results[i].col != col
  {
    if results == [] then -1
    else if results[0].col == col then 0
    else
      var r := IndexOf(results[1..], col);
      if r == -1 then -1 else r + 1
  }

  lemma ColumnIndex(results: seq<Column>, k: nat)
    requires IsResult(results) && k < |results|
    ensures IndexOf(results, results[k].col) == k
  {
  }

  // ---------------------------------------------------------------------------------------------
  // Steps
  // ---------------------------------------------------------------------------------------------

  /** The column and index of the current result, and its rank among all results. */
  datatype Cursor = Cursor(col: int, item: int, cur: int)

  /** The cursor is at a result, and says its rank. */
  ghost predicate At(results: seq<Column>, c: Cursor) {
    0 <= c.cur < |Flattened(results)| && Flattened(results)[c.cur] == Place(c.col, c.item)
  }

  /** The same, by the column. */
  ghost predicate AtColumn(results: seq<Column>, c: Cursor, k: nat) {
    && k < |results| && c.col == results[k].col
    && 0 <= c.item < |results[k].rows| && c.cur == Before(results, k) + c.item
  }

  lemma AtIsColumn(results: seq<Column>, c: Cursor) returns (k: nat)
    requires IsResult(results) && At(results, c)
    ensures AtColumn(results, c, k) && IndexOf(results, c.col) == k
  {
    k := ColumnOf(results, c.cur);
    FlattenedAt(results, k, c.cur - Before(results, k));
    ColumnIndex(results, k);
  }

  lemma {:induction false} ColumnOf(results: seq<Column>, rank: nat) returns (k: nat)
    requires rank < |Flattened(results)|
    ensures k < |results| && Before(results, k) <= rank < Before(results, k) + |results[k].rows|
  {
    if rank < |results[0].rows| {
      k := 0;
    } else {
      var j := ColumnOf(results[1..], rank - |results[0].rows|);
      k := j + 1;
    }
  }

  lemma ColumnIsAt(results: seq<Column>, c: Cursor, k: nat)
    requires AtColumn(results, c, k)
    ensures At(results, c)
  {
    FlattenedAt(results, k, c.item);
  }

  /** The rows that a column has; none when it is no result. */
  function RowsOf(results: seq<Column>, col: int): seq<int> {
    var k := IndexOf(results, col);
    if k >= 0 then results[k].rows else []
  }

  function NextOf(results: seq<Column>, total: int, c: Cursor): Cursor
    requires results != []
  {
    var k := IndexOf(results, c.col);
    var cur := if c.cur + 1 > total - 1 then 0 else c.cur + 1;
    if c.item + 1 > |RowsOf(results, c.col)| - 1
    then Cursor(results[if k + 1 > |results| - 1 then 0 else k + 1].col, 0, cur)
    else Cursor(c.col, c.item + 1, cur)
  }

  function PrevOf(results: seq<Column>, total: int, c: Cursor): Cursor
    requires results != [] || c.item > 0
  {
    var cur := if c.cur - 1 < 0 then total - 1 else c.cur - 1;
    if c.item - 1 < 0 then
      var k := IndexOf(results, c.col);
      var col := results[if k - 1 < 0 then |results| - 1 else k - 1].col;
      Cursor(col, |RowsOf(results, col)| - 1, cur)
    else Cursor(c.col, c.item - 1, cur)
  }

  /** The rank `n` steps on, where the first rank follows the last; at most once around. */
  function Plus(rank: int, n: nat, total: int): int {
    if rank + n < total then rank + n else rank + n - total
  }

  /** The rank one step back. */
  function Minus(rank: int, total: int): int {
    if rank == 0 then total - 1 else rank - 1
  }

  /** The next result is the one with the next rank, and the first after the last. */
  lemma NextHasNextRank(results: seq<Column>, c: Cursor)
    requires IsResult(results) && At(results, c)
    ensures results != []
    ensures var next := NextOf(results, |Flattened(results)|, c);
      At(results, next) && next.cur == Plus(c.cur, 1, |Flattened(results)|)
  {
    hide IsResult, Flattened, Before, IndexOf;
    var k := AtIsColumn(results, c);
    var next := NextOf(results, |Flattened(results)|, c);
    BeforeStep(results, k);
    FlattenedSize(results);
    var after := if c.item + 1 < |results[k].rows| then k else if k + 1 < |results| then k + 1 else 0;
    ColumnIsFull(results, after);
    if k + 1 < |results| { BeforeFits(results, k + 1); }
    NothingBefore(results);
    ColumnIsAt(results, next, after);
  }

  /** The previous result is the one with the rank before, and the last before the first. */
  lemma PrevHasRankBefore(results: seq<Column>, c: Cursor)
    requires IsResult(results) && At(results, c)
    ensures results != []
    ensures var prev := PrevOf(results, |Flattened(results)|, c);
      At(results, prev) && prev.cur == Minus(c.cur, |Flattened(results)|)
  {
    hide IsResult, Flattened, Before, IndexOf;
    var k := AtIsColumn(results, c);
    var prev := PrevOf(results, |Flattened(results)|, c);
    FlattenedSize(results);
    var last: nat := |results| - 1;
    BeforeStep(results, last);
    if k > 0 { BeforeStep(results, k - 1); }
    var before: nat := if c.item > 0 then k else if k > 0 then k - 1 else last;
    ColumnIsFull(results, before);
    NothingBefore(results);
    if k > 0 { BeforePositive(results, k); }
    ColumnIsAt(results, prev, before);
  }

  lemma ColumnIsFull(results: seq<Column>, k: nat)
    requires IsResult(results) && k < |results|
    ensures results[k].rows != [] && IndexOf(results, results[k].col) == k
  {
  }

  lemma NothingBefore(results: seq<Column>)
    ensures Before(results, 0) == 0
  {
  }

  lemma {:induction false} BeforeFits(results: seq<Column>, k: nat)
    requires IsResult(results) && k < |results|
    ensures Before(results, k) < |Flattened(results)|
  {
    FlattenedAt(results, k, 0);
  }

  lemma BeforePositive(results: seq<Column>, k: nat)
    requires IsResult(results) && 0 < k < |results|
    ensures Before(results, k) > 0
  {
  }

  /** The rank determines the place. */
  lemma SameRankIsSamePlace(results: seq<Column>, c: Cursor, d: Cursor)
    requires At(results, c) && At(results, d) && c.cur == d.cur
    ensures c == d
  {
  }

  /** Going on and going back undo each other. */
  lemma NextAndPrevAreInverse(results: seq<Column>, c: Cursor)
    requires IsResult(results) && At(results, c)
    ensures results != []
    ensures var n := |Flattened(results)|;
      PrevOf(results, n, NextOf(results, n, c)) == c && NextOf(results, n, PrevOf(results, n, c)) == c
  {
    AtIsRanked(results, c);
    hide IsResult, Flattened, NextOf, PrevOf, At;
    var n := |Flattened(results)|;
    NextHasNextRank(results, c);
    PrevHasRankBefore(results, c);
    NextHasNextRank(results, PrevOf(results, n, c));
    PrevHasRankBefore(results, NextOf(results, n, c));
    SameRankIsSamePlace(results, c, PrevOf(results, n, NextOf(results, n, c)));
    SameRankIsSamePlace(results, c, NextOf(results, n, PrevOf(results, n, c)));
  }

  function NextTimes(results: seq<Column>, c: Cursor, n: nat): Cursor
    requires results != []
    decreases n
  {
    if n == 0 then c else NextTimes(results, NextOf(results, |Flattened(results)|, c), n - 1)
  }

  lemma {:induction false} NextTimesRank(results: seq<Column>, c: Cursor, n: nat)
    requires IsResult(results) && At(results, c) && results != [] && n <= |Flattened(results)|
    ensures At(results, NextTimes(results, c, n))
    ensures NextTimes(results, c, n).cur == Plus(c.cur, n, |Flattened(results)|)
    decreases n
  {
    AtIsRanked(results, c);
    hide At, NextOf, Flattened, IsResult;
    if n > 0 {
      NextHasNextRank(results, c);
      NextTimesRank(results, NextOf(results, |Flattened(results)|, c), n - 1);
      AtIsRanked(results, NextTimes(results, c, n));
    }
  }

  lemma AtIsRanked(results: seq<Column>, c: Cursor)
    requires At(results, c)
    ensures 0 <= c.cur < |Flattened(results)|
  {
  }

  /** As many steps as there are results lead back to the same result. */
  lemma OnceAround(results: seq<Column>, c: Cursor)
    requires IsResult(results) && At(results, c) && results != []
    ensures NextTimes(results, c, |Flattened(results)|) == c
  {
    AtIsRanked(results, c);
    hide NextTimes, IsResult, Flattened, At;
    var total := |Flattened(results)|;
    NextTimesRank(results, c, total);
    SameRankIsSamePlace(results, c, NextTimes(results, c, total));
  }

  // ---------------------------------------------------------------------------------------------
  // The widget
  // ---------------------------------------------------------------------------------------------

  class SearchCursor {
    var results: seq<Column>
    var curCol: int
    var curItem: int
    var cur: int
    var total: int
    var lastQuery: string
    /** The column and the row that were selected last. */
    var selected: Option<(int, int)>

    function Value(): Cursor
      reads this
    {
      Cursor(curCol, curItem, cur)
    }

    /** Something has been found, and the cursor is at one of the results. */
    ghost predicate Valid()
      reads this
    {
      IsResult(results) && results != [] && total == |Flattened(results)| && At(results, Value())
    }

    /** The first result is the current one, and is selected. */
    ghost predicate AtFirst()
      reads this
    {
      Valid() && cur == 0 && selected == Some((results[0].col, results[0].rows[0]))
    }

    /** Nothing has been found. */
    ghost predicate Idle()
      reads this
    {
      total == 0 && |results| <= 1 && (results != [] ==> results[0] == Column(curCol, []))
    }

    constructor ()
      ensures Idle() && results == [] && lastQuery == "" && selected == None
    {
      results, curCol, curItem, cur, total, lastQuery, selected := [], 0, 0, 0, 0, "", None;
    }

    method ResetSearch()
      modifies this
      ensures Idle() && results == [] && lastQuery == "" && Value() == Cursor(0, 0, 0) && selected == old(selected)
    {
      results, lastQuery := [], "";
      curCol, curItem, cur, total := 0, 0, 0, 0;
    }

    /** Selects the result, if there is one at that place. */
    method SelectSearchResult(col: int, item: int)
      modifies this`selected
      ensures var rows := RowsOf(results, col);
        selected == if 0 <= item < |rows| then Some((col, rows[item])) else old(selected)
    {
      var k := IndexOf(results, col);
      if k < 0 { return; }
      var list := results[k].rows;
      if item < 0 || item > |list| - 1 { return; }
      selected := Some((col, list[item]));
    }

    /** Looking up a column that is not there adds it, without rows. */
    method Lookup(col: int) returns (list: seq<int>)
      requires IndexOf(results, col) >= 0 || results == []
      modifies this`results
      ensures results == if old(results) == [] then [Column(col, [])] else old(results)
      ensures list == RowsOf(results, col)
    {
      if results == [] {
        results := [Column(col, [])];
      }
      list := results[IndexOf(results, col)].rows;
    }

    method NextSearchResult()
      requires IndexOf(results, curCol) >= 0 || results == []
      modifies this
      ensures results == if old(results) == [] then [Column(old(curCol), [])] else old(results)
      ensures Value() == NextOf(results, total, old(Value()))
      ensures total == old(total) && lastQuery == old(lastQuery)
      ensures var rows := RowsOf(results, curCol);
        selected == if 0 <= curItem < |rows| then Some((curCol, rows[curItem])) else old(selected)
    {
      var list := Lookup(curCol);
      var pos := curItem;
      pos := pos + 1;
      if pos > |list| - 1 {
        curItem := 0;
        var pos2 := IndexOf(results, curCol);
        pos2 := pos2 + 1;
        if pos2 > |results| - 1 {
          curCol := results[0].col;
        } else {
          curCol := results[pos2].col;
        }
      } else {
        curItem := pos;
      }
      cur := cur + 1;
      if cur > total - 1 {
        cur := 0;
      }
      SelectSearchResult(curCol, curItem);
    }

    /** Without results, and before the first place, there is nothing to go back to. */
    method PrevSearchResult()
      requires results != [] || curItem > 0
      modifies this
      ensures results == old(results) && total == old(total) && lastQuery == old(lastQuery)
      ensures Value() == PrevOf(results, total, old(Value()))
      ensures var rows := RowsOf(results, curCol);
        selected == if 0 <= curItem < |rows| then Some((curCol, rows[curItem])) else old(selected)
    {
      hide IndexOf;
      var pos := curItem;
      pos := pos - 1;
      if pos < 0 {
        var pos2 := IndexOf(results, curCol);
        pos2 := pos2 - 1;
        if pos2 < 0 {
          curCol := results[|results| - 1].col;
        } else {
          curCol := results[pos2].col;
        }
        ColumnIsThere(results, if pos2 < 0 then |results| - 1 else pos2);
        var list := Lookup(curCol);
        curItem := |list| - 1;
      } else {
        curItem := pos;
      }
      cur := cur - 1;
      if cur < 0 {
        cur := total - 1;
      }
      SelectSearchResult(curCol, curItem);
    }

    /** The query is trimmed; `found` are the rows of each column that contain it. */
    method OnSearchReturnPressed(query: string, found: seq<seq<int>>)
      requires Valid() || Idle()
      modifies this
      ensures Valid() || Idle()
      ensures query == "" ==> results == [] && lastQuery == ""
      ensures query != "" && query == old(lastQuery) && old(Valid()) ==>
        Valid() && results == old(results) && cur == Plus(old(cur), 1, total)
      ensures query != "" && query == old(lastQuery) && old(Idle()) ==> Idle() && selected == old(selected)
      ensures query != "" && query != old(lastQuery) ==> results == Matching(found, |found|)
      ensures query != "" && query != old(lastQuery) ==>
        forall col | 0 <= col < |found| && found[col] != [] :: Column(col, found[col]) in results
      ensures query != "" && query != old(lastQuery) && results != [] ==> lastQuery == query && AtFirst()
      ensures query != "" && query != old(lastQuery) && results == [] ==> lastQuery == old(lastQuery) && Idle()
    {
      if query == "" {
        ResetSearch();
        return;
      }
      if query == lastQuery {
        Again();
        return;
      }
      Search(query, found);
      forall col | 0 <= col < |found| && found[col] != [] ensures Column(col, found[col]) in results {
        MatchingHasAll(found, |found|, col);
      }
    }

    /** A step to the next result, when there are any. */
    method Again()
      requires Valid() || Idle()
      modifies this
      ensures lastQuery == old(lastQuery)
      ensures old(Valid()) ==> Valid() && results == old(results) && cur == Plus(old(cur), 1, total)
      ensures old(Idle()) ==> Idle() && selected == old(selected)
    {
      hide Flattened, At;
      if Valid() {
        AtHasColumn(results, Value());
        NextHasNextRank(results, Value());
      } else {
        NoneAt(results, Value());
        if results != [] { ColumnIsThere(results, 0); }
      }
      NextSearchResult();
    }

    method Search(query: string, found: seq<seq<int>>)
      requires query != ""
      modifies this
      ensures results == Matching(found, |found|)
      ensures results != [] ==> lastQuery == query && AtFirst()
      ensures results == [] ==> lastQuery == old(lastQuery) && Idle() && selected == old(selected)
    {
      var cols := |found|;
      results := [];
      total := 0;
      for col := 0 to cols
        invariant results == Matching(found, col) && total == Before(results, |results|)
        invariant lastQuery == old(lastQuery) && selected == old(selected)
      {
        var res := found[col];
        if res != [] {
          BeforeAppend(results, Column(col, res));
          results := results + [Column(col, res)];
          total := total + |res|;
        }
      }
      if results == [] { return; }
      MatchingIsResult(found, |found|);
      FlattenedSize(results);
      FlattenedAt(results, 0, 0);
      lastQuery := query;
      cur := 0;
      curCol := results[0].col;
      curItem := 0;
      SelectSearchResult(curCol, curItem);
    }
  }

  lemma ColumnIsThere(results: seq<Column>, k: nat)
    requires k < |results|
    ensures IndexOf(results, results[k].col) >= 0
  {
  }

  lemma AtHasColumn(results: seq<Column>, c: Cursor)
    requires IsResult(results) && At(results, c)
    ensures IndexOf(results, c.col) >= 0
  {
    var k := AtIsColumn(results, c);
  }

  lemma NoneAt(results: seq<Column>, c: Cursor)
    requires results == [] || results == [Column(c.col, [])]
    ensures |Flattened(results)| == 0 && !At(results, c)
  {
    if results != [] {
      assert results[1..] == [];
    }
  }

  /**
   A query for which there are matches is found, unless it was found last and another search has found
   nothing since: that is the case exactly when there are no results but the last query is this one.
   */
  method SearchFindsExactlyWhen(cursor: SearchCursor, query: string, found: seq<seq<int>>)
    requires cursor.Valid() || cursor.Idle()
    requires query != "" && Matching(found, |found|) != []
    modifies cursor
    ensures cursor.Valid() || cursor.Idle()
    ensures cursor.Valid() <==> !(old(cursor.Idle()) && query == old(cursor.lastQuery))
  {
    hide Matching, Flattened, IsResult, At;
    AtIsNotNothing(cursor);
    cursor.OnSearchReturnPressed(query, found);
    AtIsNotNothing(cursor);
  }

  lemma AtIsNotNothing(cursor: SearchCursor)
    ensures !(cursor.Valid() && cursor.Idle())
  {
  }

  lemma {:induction false} NothingMatches(found: seq<seq<int>>, n: nat)
    requires n <= |found| && forall i | 0 <= i < n :: found[i] == []
    ensures Matching(found, n) == []
  {
    if n > 0 { NothingMatches(found, n - 1); }
  }

  /**
   A search that finds nothing keeps the last query, so that searching again for what was found before
   finds nothing either, although there are matches.
   */
  method SearchAgainAfterMiss(cursor: SearchCursor, query: string, miss: string, found: seq<seq<int>>)
    requires cursor.Idle() && cursor.lastQuery == ""
    requires query != "" && miss != "" && miss != query && Matching(found, |found|) != []
    modifies cursor
    ensures cursor.Idle() && cursor.total == 0
  {
    hide Matching, Flattened, IsResult, At;
    var none: seq<seq<int>> := seq(|found|, _ => []);
    NothingMatches(none, |none|);
    cursor.OnSearchReturnPressed(query, found);
    cursor.OnSearchReturnPressed(miss, none);
    SearchFindsExactlyWhen(cursor, query, found);
    AtIsNotNothing(cursor);
  }
}
