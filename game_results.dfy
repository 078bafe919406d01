/**
 * The dashboard's `GameResults` component: the query it sends (documents of
 * the flat `game_results` collection whose `userId` equals the signed-in
 * user, newest `timestamp` first, at most ten), the field-by-field projection
 * of each returned document, the loading / error / results state it keeps,
 * and the table and chart it renders from that state.
 *
 * The store's evaluation of the query is written out as `Query`; whether the
 * store can be reached at all is a parameter.
 */
module GameResults {
  import opened Wrappers
  import opened Firestore

  /** `limit(10)` */
  const PageSize: nat := 10
  /** `Array(5)` placeholder rows shown when there are no results. */
  const PlaceholderCount: nat := 5
  const FetchErrorText: string := "Failed to fetch game results. Please try again later."

  // ---------------------------------------------------------------- the query

  function TimestampOf(d: Doc): Value {
    if "timestamp" in d.fields then d.fields["timestamp"] else Null
  }

  /**
   * `where('userId', '==', userId)`; `orderBy('timestamp', ...)` also leaves
   * out every document that has no `timestamp` field.
   */
  predicate Matches(d: Doc, userId: string) {
    "userId" in d.fields && d.fields["userId"] == Str(userId) && "timestamp" in d.fields
  }

  function Filter(c: Collection, userId: string): seq<Doc> {
    if c == [] then []
    else (if Matches(c[0], userId) then [c[0]] else []) + Filter(c[1..], userId)
  }

  /** The filter keeps exactly the matching documents of the collection. */
  lemma {:induction false} FilterMatches(c: Collection, userId: string)
    ensures forall d :: d in Filter(c, userId) <==> d in c && Matches(d, userId)
  {
    if c != [] {
      FilterMatches(c[1..], userId);
      assert c == [c[0]] + c[1..];
    }
  }

  /** `a` may come before `b` under `orderBy('timestamp', 'desc')`. */
  predicate NewerOrSame(a: Doc, b: Doc) {
    SortsBefore(TimestampOf(b), TimestampOf(a))
  }

  predicate SortedDesc(s: seq<Doc>) {
    forall i, j :: 0 <= i < j < |s| ==> NewerOrSame(s[i], s[j])
  }

  /** A document at least as new as every document of a newest-first list can go in front of it. */
  lemma ConsSorted(x: Doc, s: seq<Doc>)
    requires SortedDesc(s) && forall e :: e in s ==> NewerOrSame(x, e)
    ensures SortedDesc([x] + s)
  {
    var r := [x] + s;
    forall i, j | 0 <= i < j < |r|
      ensures NewerOrSame(r[i], r[j])
    {
      assert r[j] == s[j - 1];
      if i > 0 {
        assert r[i] == s[i - 1];
      }
    }
  }

  /** The head of a newest-first list is at least as new as every member of its tail. */
  lemma HeadNewest(s: seq<Doc>, e: Doc)
    requires SortedDesc(s) && |s| > 0 && e in multiset(s[1..])
    ensures NewerOrSame(s[0], e)
  {
    var k :| 0 <= k < |s[1..]| && s[1..][k] == e;
    assert s[k + 1] == e;
  }

  function Insert(d: Doc, s: seq<Doc>): (r: seq<Doc>)
    requires SortedDesc(s)
    ensures SortedDesc(r)
    ensures multiset(r) == multiset(s) + multiset{d}
    ensures |r| == |s| + 1
  {
    if s == [] then [d]
    else if NewerOrSame(d, s[0]) then
      ConsSorted(d, s);
      [d] + s
    else
      var rest := Insert(d, s[1..]);
      assert s == [s[0]] + s[1..];
      forall e | e in rest
        ensures NewerOrSame(s[0], e)
      {
        assert e in multiset(rest);
        if e != d {
          HeadNewest(s, e);
        }
      }
      ConsSorted(s[0], rest);
      [s[0]] + rest
  }

  /** The store's descending sort of the matching documents. */
  function SortDesc(s: seq<Doc>): (r: seq<Doc>)
    ensures SortedDesc(r)
    ensures multiset(r) == multiset(s)
    ensures |r| == |s|
  {
    if s == [] then []
    else
      assert s == [s[0]] + s[1..];
      Insert(s[0], SortDesc(s[1..]))
  }

  /** The documents `getDocs(q)` returns, in order. */
  function Query(c: Collection, userId: string): seq<Doc> {
    var sorted := SortDesc(Filter(c, userId));
    if |sorted| <= PageSize then sorted else sorted[..PageSize]
  }

  /** `limit(10)` on a newest-first list keeps its order and drops only documents no newer than the ones kept. */
  lemma TakeSorted(s: seq<Doc>, q: seq<Doc>)
    requires SortedDesc(s) && q == if |s| <= PageSize then s else s[..PageSize]
    ensures |q| <= PageSize && SortedDesc(q) && forall d :: d in q ==> d in s
    ensures forall d :: d in s && d !in q ==> |q| == PageSize && forall e :: e in q ==> NewerOrSame(e, d)
  {
    forall d | d in s && d !in q
      ensures |q| == PageSize && forall e :: e in q ==> NewerOrSame(e, d)
    {
      var j :| 0 <= j < |s| && s[j] == d;
      assert j >= PageSize;
      forall e | e in q
        ensures NewerOrSame(e, d)
      {
        var i :| 0 <= i < |q| && q[i] == e;
        assert s[i] == e;
      }
    }
  }

  /**
   * The query returns at most ten documents, each a document of the
   * collection whose `userId` is the user's and none more often than the
   * collection holds it, newest first; and a matching document is left out
   * only when ten documents at least as new are returned.
   */
  lemma QueryContract(c: Collection, userId: string)
    ensures var q := Query(c, userId);
      && |q| <= PageSize
      && (forall d :: d in q ==> d in c && Matches(d, userId))
      && multiset(q) <= multiset(Filter(c, userId))
      && SortedDesc(q)
      && (forall d :: d in c && Matches(d, userId) && d !in q ==>
            |q| == PageSize && forall e :: e in q ==> NewerOrSame(e, d))
  {
    var f := Filter(c, userId);
    var sorted := SortDesc(f);
    var q := Query(c, userId);
    FilterMatches(c, userId);
    TakeSorted(sorted, q);
    forall d | d in sorted
      ensures d in f
    {
      assert d in multiset(sorted);
    }
    forall d | d in f
      ensures d in sorted
    {
      assert d in multiset(f);
    }
    if |sorted| > PageSize {
      assert sorted == q + sorted[PageSize..];
    }
  }

  // ---------------------------------------------------------------- projection

  /** A row of the component's state: the timestamp as an instant and the four fields as read. */
  datatype GameResult = GameResult(
    timestamp: int,
    minResponseTime: Option<Value>,
    maxResponseTime: Option<Value>,
    avgResponseTime: Option<Value>,
    score: Option<Value>)

  /** `data.k`: `None` when the fields have no such key. */
  function FieldOf(fields: Fields, k: string): Option<Value> {
    if k in fields then Some(fields[k]) else None
  }

  /** The object pushed for one document; `None` when `timestamp.toDate()` throws (not a timestamp). */
  function Project(d: Doc): (r: Option<GameResult>)
    ensures r.Some? <==> TimestampOf(d).Time?
    ensures r.Some? ==> && r.value.timestamp == TimestampOf(d).instant
                        && r.value.minResponseTime == FieldOf(d.fields, "min_response_time")
                        && r.value.maxResponseTime == FieldOf(d.fields, "max_response_time")
                        && r.value.avgResponseTime == FieldOf(d.fields, "avg_response_time")
                        && r.value.score == FieldOf(d.fields, "score")
  {
    match TimestampOf(d)
    case Time(t) =>
      Some(GameResult(t, FieldOf(d.fields, "min_response_time"), FieldOf(d.fields, "max_response_time"),
                      FieldOf(d.fields, "avg_response_time"), FieldOf(d.fields, "score")))
    case _ => None
  }

  /** The `results` array after `forEach` over the snapshot; `None` when a projection throws. */
  function ProjectAll(s: seq<Doc>): (r: Option<seq<GameResult>>)
    ensures r.Some? <==> forall i :: 0 <= i < |s| ==> Project(s[i]).Some?
    ensures r.Some? ==> |r.value| == |s| && forall i :: 0 <= i < |s| ==> Some(r.value[i]) == Project(s[i])
  {
    if s == [] then Some([])
    else
      match ProjectAll(s[..|s| - 1])
      case None => None
      case Some(front) =>
        match Project(s[|s| - 1])
        case None => None
        case Some(g) => Some(front + [g])
  }

  /** Projected rows keep the snapshot's newest-first order. */
  lemma ProjectionKeepsOrder(s: seq<Doc>)
    requires SortedDesc(s) && ProjectAll(s).Some?
    ensures var rows := ProjectAll(s).value;
      forall i, j :: 0 <= i < j < |rows| ==> rows[i].timestamp >= rows[j].timestamp
  {
    var rows := ProjectAll(s).value;
    forall i, j | 0 <= i < j < |rows|
      ensures rows[i].timestamp >= rows[j].timestamp
    {
      assert NewerOrSame(s[i], s[j]);
      assert Project(s[i]).Some? && Project(s[j]).Some?;
    }
  }

  /** One more document of the snapshot: its projection is appended, or the whole projection fails. */
  lemma ProjectAllStep(s: seq<Doc>, i: nat)
    requires i < |s|
    ensures ProjectAll(s[..i]).Some? && Project(s[i]).Some? ==>
      ProjectAll(s[..i + 1]) == Some(ProjectAll(s[..i]).value + [Project(s[i]).value])
    ensures Project(s[i]).None? ==> ProjectAll(s).None?
  {
    assert s[..i + 1][..i] == s[..i];
  }

  // ---------------------------------------------------------------- component state

  class GameResultsView {
    const userId: string
    var gameResults: seq<GameResult>
    var loading: bool
    var error: Option<string>

    /** The three `useState` hooks. */
    constructor (userId: string)
      ensures this.userId == userId && gameResults == [] && loading && error == None
    {
      this.userId := userId;
      gameResults := [];
      loading := true;
      error := None;
    }

    /**
     * `fetchGameResults`: on success the state holds the projected query
     * result; when the store cannot be reached or a projection throws, the
     * error message is set and `gameResults` keeps its old value; loading
     * always ends.
     */
    method FetchGameResults(store: Collection, reachable: bool)
      modifies this
      ensures !loading
      ensures var rows := ProjectAll(Query(store, userId));
        if reachable && rows.Some? then error == None && gameResults == rows.value
        else error == Some(FetchErrorText) && gameResults == old(gameResults)
    {
      loading := true;
      error := None;
      if !reachable {
        error := Some(FetchErrorText);
        loading := false;
        return;
      }
      var snapshot := Query(store, userId);
      var results: seq<GameResult> := [];
      var i := 0;
      var failed := false;
      while i < |snapshot|
        invariant 0 <= i <= |snapshot| && !failed
        invariant ProjectAll(snapshot[..i]) == Some(results)
        invariant error == None && gameResults == old(gameResults)
      {
        ProjectAllStep(snapshot, i);
        match Project(snapshot[i])
        case None =>
          failed := true;
          break;
        case Some(g) =>
          results := results + [g];
          i := i + 1;
      }
      if failed {
        assert ProjectAll(snapshot).None?;
        error := Some(FetchErrorText);
      } else {
        assert snapshot[..i] == snapshot;
        gameResults := results;
      }
      loading := false;
    }
  }

  // ---------------------------------------------------------------- rendering

  datatype View =
    | LoadingView
    | ErrorView(message: string)
    | Dashboard(overlay: bool, rows: seq<GameResult>, chart: seq<GameResult>)

  /** One zero-valued placeholder row, stamped with the render time. */
  function Placeholder(now: int): GameResult {
    GameResult(now, Some(Int(0)), Some(Int(0)), Some(Int(0)), Some(Int(0)))
  }

  function Reverse(s: seq<GameResult>): (r: seq<GameResult>)
    ensures |r| == |s| && forall i :: 0 <= i < |s| ==> r[i] == s[|s| - 1 - i]
  {
    if s == [] then [] else Reverse(s[1..]) + [s[0]]
  }

  /** What the component renders for its state at time `now`. */
  function Render(loading: bool, error: Option<string>, results: seq<GameResult>, now: int): View {
    if loading then LoadingView
    else if error.Some? then ErrorView(error.value)
    else
      var placeholders := seq(PlaceholderCount, _ => Placeholder(now));
      Dashboard(results == [],
                if |results| > 0 then results else placeholders,
                if |results| > 0 then Reverse(results) else placeholders)
  }

  /**
   * Loading and error screens come first; otherwise an empty result shows
   * the "no data" overlay over five zero rows, and a non-empty one shows its
   * rows as they are in the table and oldest first in the chart.
   */
  lemma RenderBranches(loading: bool, error: Option<string>, results: seq<GameResult>, now: int)
    ensures var v := Render(loading, error, results, now);
      && (loading <==> v.LoadingView?)
      && (!loading && error.Some? <==> v.ErrorView?)
      && (v.ErrorView? ==> v.message == error.value)
      && (v.Dashboard? ==> (v.overlay <==> results == []))
      && (v.Dashboard? && results == [] ==>
            |v.rows| == PlaceholderCount && v.chart == v.rows &&
            forall i :: 0 <= i < |v.rows| ==> v.rows[i] == Placeholder(now))
      && (v.Dashboard? && results != [] ==>
            v.rows == results && |v.chart| == |results| &&
            forall i :: 0 <= i < |results| ==> v.chart[i] == results[|results| - 1 - i])
  {
    if !loading && error.None? && results != [] {
      var v := Render(loading, error, results, now);
      assert v.rows == results && v.chart == Reverse(results);
    }
  }

  /** Rows that come newest first are drawn in the chart oldest first. */
  lemma ChartAscending(results: seq<GameResult>)
    requires forall i, j :: 0 <= i < j < |results| ==> results[i].timestamp >= results[j].timestamp
    ensures var chart := Reverse(results);
      forall i, j :: 0 <= i < j < |chart| ==> chart[i].timestamp <= chart[j].timestamp
  {
  }
}
