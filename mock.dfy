/**
 * The mock-data script: it draws random game results within fixed bounds and
 * writes, for each listed user, one document keyed by the user's email whose
 * fields are `game_1` .. `game_n`, replacing whatever that document held.
 *
 * Every `random` call is modelled by a draw, an arbitrary natural number
 * mapped onto the call's range; the clock is a parameter.
 */
module Mock {
  import opened Decimal
  import opened Firestore

  /** `random.randint(lo, hi)`: the draw picks one value of the inclusive range. */
  function RandInt(lo: int, hi: int, draw: nat): (r: int)
    requires lo <= hi
    ensures lo <= r <= hi
  {
    lo + draw % (hi - lo + 1)
  }

  /** Every value of the range is the outcome of some draw, so the draws lose no outcome of `randint`. */
  lemma RandIntCovers(lo: int, hi: int, v: int)
    requires lo <= v <= hi
    ensures RandInt(lo, hi, v - lo) == v
  {
  }

  /** The draws one game consumes, in the script's order. */
  datatype GameDraws = GameDraws(hours: nat, minDraw: nat, maxDraw: nat, avgDraw: nat, scoreDraw: nat)

  /** The dict `generate_game_result` returns; `score` in hundredths, as `round(..., 2)` leaves it. */
  datatype GameRecord = GameRecord(userEmail: string, timestamp: int, minTime: int, maxTime: int, avgTime: int, score: real)

  /** `generate_game_result(email, timestamp)` */
  function GenerateGameResult(email: string, timestamp: int, g: GameDraws): (r: GameRecord)
    ensures r.userEmail == email && r.timestamp == timestamp
    ensures 100 <= r.minTime <= 200
    ensures r.minTime <= r.maxTime <= r.minTime + 300
    ensures r.minTime <= r.avgTime <= r.maxTime
    ensures 0.6 <= r.score <= 1.0
  {
    var lo := RandInt(100, 200, g.minDraw);
    var hi := RandInt(lo, lo + 300, g.maxDraw);
    var avg := RandInt(lo, hi, g.avgDraw);
    GameRecord(email, timestamp, lo, hi, avg, RandInt(60, 100, g.scoreDraw) as real / 100.0)
  }

  /**
   * Conversely, every record inside those bounds (with a score in whole
   * hundredths) is one the script can produce.
   */
  lemma GenerateCoversBounds(email: string, timestamp: int, lo: int, hi: int, avg: int, hundredths: int)
    requires 100 <= lo <= 200 && lo <= hi <= lo + 300 && lo <= avg <= hi && 60 <= hundredths <= 100
    ensures exists g :: (GenerateGameResult(email, timestamp, g) ==
      GameRecord(email, timestamp, lo, hi, avg, hundredths as real / 100.0))
  {
    var g := GameDraws(0, lo - 100, hi - lo, avg - lo, hundredths - 60);
    RandIntCovers(100, 200, lo);
    RandIntCovers(lo, lo + 300, hi);
    RandIntCovers(lo, hi, avg);
    RandIntCovers(60, 100, hundredths);
    assert GenerateGameResult(email, timestamp, g) ==
      GameRecord(email, timestamp, lo, hi, avg, hundredths as real / 100.0);
  }

  /** How the store holds the dict: integers, a float, a string and a timestamp. */
  function ToFields(r: GameRecord): Fields {
    map[
      "userEmail" := Str(r.userEmail),
      "timestamp" := Time(r.timestamp),
      "min_response_time" := Int(r.minTime),
      "max_response_time" := Int(r.maxTime),
      "avg_response_time" := Int(r.avgTime),
      "score" := Double(r.score)]
  }

  const SecondsPerHour: int := 3600
  /** `timedelta(days=30)` */
  const LookBack: int := 30 * 24 * 3600
  /** `24 * 30`: the latest hour offset a game can get. */
  const MaxHours: int := 24 * 30

  /** `f"game_{i+1}"` for the `i`-th game. */
  function GameKey(n: nat): string {
    "game_" + NatToDec(n)
  }

  lemma GameKeyInjective(a: nat, b: nat)
    requires GameKey(a) == GameKey(b)
    ensures a == b
  {
    assert NatToDec(a) == GameKey(a)[5..];
    assert NatToDec(b) == GameKey(b)[5..];
    NatToDecInjective(a, b);
  }

  /** The time of the game drawn with `g`, for a script run at `now`. */
  function GameTime(now: int, g: GameDraws): (t: int)
    ensures now - LookBack + SecondsPerHour <= t <= now - LookBack + MaxHours * SecondsPerHour
  {
    now - LookBack + SecondsPerHour * RandInt(1, MaxHours, g.hours)
  }

  /** The value stored under `game_{i+1}`. */
  function GameEntry(email: string, now: int, g: GameDraws): Value {
    Map(ToFields(GenerateGameResult(email, GameTime(now, g), g)))
  }

  /** `game_data` after `count` iterations of the script's loop. */
  function Games(email: string, now: int, draw: nat -> GameDraws, count: nat): Fields {
    if count == 0 then map[]
    else Games(email, now, draw, count - 1)[GameKey(count) := GameEntry(email, now, draw(count - 1))]
  }

  /** After `count` iterations the keys of `game_data` are exactly `game_1` .. `game_count`. */
  lemma {:induction false} GamesKeySet(email: string, now: int, draw: nat -> GameDraws, count: nat)
    ensures forall k :: k in Games(email, now, draw, count) <==> exists n :: 1 <= n <= count && k == GameKey(n)
  {
    if count > 0 {
      GamesKeySet(email, now, draw, count - 1);
      forall k | k in Games(email, now, draw, count) && k != GameKey(count)
        ensures exists n :: 1 <= n <= count && k == GameKey(n)
      {
        assert k in Games(email, now, draw, count - 1);
      }
      forall k | (exists n :: 1 <= n <= count && k == GameKey(n)) && k != GameKey(count)
        ensures k in Games(email, now, draw, count)
      {
        var n :| 1 <= n <= count && k == GameKey(n);
        assert n < count;
      }
    }
  }

  /** A later game's key is not among the first `count` keys. */
  lemma {:induction false} GamesKeyFresh(email: string, now: int, draw: nat -> GameDraws, count: nat, m: nat)
    requires m > count
    ensures GameKey(m) !in Games(email, now, draw, count)
  {
    if count > 0 {
      GamesKeyFresh(email, now, draw, count - 1, m);
      if GameKey(m) == GameKey(count) {
        GameKeyInjective(m, count);
      }
    }
  }

  /** Each iteration adds a key that was not there yet. */
  lemma {:induction false} GamesSize(email: string, now: int, draw: nat -> GameDraws, count: nat)
    ensures |Games(email, now, draw, count)| == count
  {
    if count > 0 {
      GamesSize(email, now, draw, count - 1);
      GamesKeyFresh(email, now, draw, count - 1, count);
      var before := Games(email, now, draw, count - 1);
      var entry := GameEntry(email, now, draw(count - 1));
      assert Games(email, now, draw, count) == before[GameKey(count) := entry];
    }
  }

  /** After `count` iterations `game_data` has exactly the keys `game_1` .. `game_count`. */
  lemma GamesKeys(email: string, now: int, draw: nat -> GameDraws, count: nat)
    ensures var games := Games(email, now, draw, count);
      && |games| == count
      && (forall n :: 1 <= n <= count ==> GameKey(n) in games)
      && (forall k :: k in games ==> exists n :: 1 <= n <= count && k == GameKey(n))
  {
    GamesKeySet(email, now, draw, count);
    GamesSize(email, now, draw, count);
  }

  /** Each key `game_n` holds the game generated in iteration `n - 1`. */
  lemma {:induction false} GamesValues(email: string, now: int, draw: nat -> GameDraws, count: nat, n: nat)
    requires 1 <= n <= count
    ensures var games := Games(email, now, draw, count);
      GameKey(n) in games && games[GameKey(n)] == GameEntry(email, now, draw(n - 1))
  {
    if n < count {
      GamesValues(email, now, draw, count - 1, n);
      if GameKey(n) == GameKey(count) {
        GameKeyInjective(n, count);
      }
    }
  }

  /**
   * `upload_data_for_user(email, num_games)`: builds `game_data` in a loop
   * and `set`s it as the whole document `email`. `draw(i)` are the draws of
   * the game built in iteration `i`.
   */
  method UploadDataForUser(store: Collection, email: string, numGames: nat, now: int, draw: nat -> GameDraws)
    returns (gameData: Fields, after: Collection)
    ensures gameData == Games(email, now, draw, numGames)
    ensures after == Set(store, email, gameData)
  {
    gameData := map[];
    for i := 0 to numGames
      invariant gameData == Games(email, now, draw, i)
    {
      gameData := gameData[GameKey(i + 1) := GameEntry(email, now, draw(i))];
    }
    after := Set(store, email, gameData);
  }

  /** The script's user list. */
  const Users: seq<string> := ["2003kshah@gmail.com", "kshah26@bu.edu"]

  /** No game key is `userId`: the per-email document carries no top-level `userId`. */
  lemma GameKeyIsNotUserId(n: nat)
    ensures GameKey(n) != "userId"
  {
    assert GameKey(n)[0] == 'g';
  }

  /** The games map holds `count` games and no `userId` key. */
  lemma GamesHaveNoUserId(email: string, now: int, draw: nat -> GameDraws, count: nat)
    ensures |Games(email, now, draw, count)| == count
    ensures "userId" !in Games(email, now, draw, count)
  {
    GamesKeys(email, now, draw, count);
    if "userId" in Games(email, now, draw, count) {
      var n :| 1 <= n <= count && "userId" == GameKey(n);
      GameKeyIsNotUserId(n);
    }
  }

  /** Every one of the users `ids` has a document. */
  ghost predicate Present(c: Collection, ids: seq<string>) {
    forall id :: id in ids ==> exists d :: d in c && d.id == id
  }

  /** Every document of the users `ids` holds 5 to 10 games and no `userId`. */
  predicate Filled(c: Collection, ids: seq<string>) {
    forall d :: d in c && d.id in ids ==> 5 <= |d.fields| <= 10 && "userId" !in d.fields
  }

  /**
   * Setting the document of a user `id` not yet handled keeps the loop's
   * invariants, with `id` now among the users handled.
   */
  lemma UploadStep(store: Collection, before: Collection, done: seq<string>, id: string, fields: Fields)
    requires UniqueIds(before) && Present(before, done) && Filled(before, done)
    requires forall d :: d in store && d.id !in Users ==> d in before
    requires forall d :: d in before && d.id !in done ==> d in store
    requires id in Users && 5 <= |fields| <= 10 && "userId" !in fields
    ensures var after := Set(before, id, fields);
      && UniqueIds(after) && Present(after, done + [id]) && Filled(after, done + [id])
      && (forall d :: d in store && d.id !in Users ==> d in after)
      && (forall d :: d in after && d.id !in done + [id] ==> d in store)
  {
    var after := Set(before, id, fields);
    forall e | e in done + [id]
      ensures exists d :: d in after && d.id == e
    {
      if e != id {
        assert e in done;
        var d :| d in before && d.id == e;
        assert d in after;
      } else {
        assert Doc(id, fields) in after;
      }
    }
  }

  /** The document the script's main loop `set`s for user `u`. */
  function Built(u: nat, clock: nat -> int, countDraw: nat -> nat, draws: nat -> nat -> GameDraws): Doc
    requires u < |Users|
  {
    Doc(Users[u], Games(Users[u], clock(u), draws(u), RandInt(5, 10, countDraw(u))))
  }

  /** Setting user `u`'s document adds it and keeps the documents set for the users before. */
  lemma BuiltKept(before: Collection, u: nat, clock: nat -> int, countDraw: nat -> nat, draws: nat -> nat -> GameDraws)
    requires u < |Users|
    requires forall v :: 0 <= v < u ==> Built(v, clock, countDraw, draws) in before
    ensures var after := Set(before, Users[u], Built(u, clock, countDraw, draws).fields);
      forall v :: 0 <= v <= u ==> Built(v, clock, countDraw, draws) in after
  {
    assert Users[0] != Users[1];
  }

  /**
   * The script's main loop: user `u` gets `randint(5, 10)` games, drawn with
   * `countDraw(u)`, using the draws `draws(u)` and the clock reading `clock(u)`.
   * Afterwards each user's document is exactly the games map built for that
   * user, so it holds between 5 and 10 games and no `userId` field.
   */
  method UploadAll(store: Collection, clock: nat -> int, countDraw: nat -> nat, draws: nat -> nat -> GameDraws)
    returns (after: Collection)
    requires UniqueIds(store)
    ensures UniqueIds(after)
    ensures forall id :: id in Users ==> exists d :: d in after && d.id == id
    ensures forall d :: d in after && d.id in Users ==>
      5 <= |d.fields| <= 10 && "userId" !in d.fields
    ensures forall d :: d in store && d.id !in Users ==> d in after
    ensures forall d :: d in after && d.id !in Users ==> d in store
    ensures forall u :: 0 <= u < |Users| ==> Built(u, clock, countDraw, draws) in after
  {
    after := store;
    for u := 0 to |Users|
      invariant UniqueIds(after) && Present(after, Users[..u]) && Filled(after, Users[..u])
      invariant forall d :: d in store && d.id !in Users ==> d in after
      invariant forall d :: d in after && d.id !in Users[..u] ==> d in store
      invariant forall v :: 0 <= v < u ==> Built(v, clock, countDraw, draws) in after
    {
      var numGames := RandInt(5, 10, countDraw(u));
      var gameData, next := UploadDataForUser(after, Users[u], numGames, clock(u), draws(u));
      GamesHaveNoUserId(Users[u], clock(u), draws(u), numGames);
      UploadStep(store, after, Users[..u], Users[u], gameData);
      BuiltKept(after, u, clock, countDraw, draws);
      assert Users[..u + 1] == Users[..u] + [Users[u]];
      after := next;
    }
    assert Users[..|Users|] == Users;
  }
}
