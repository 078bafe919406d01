/**
 * Properties that span the writers and the reader of the `game_results`
 * collection: the two storage shapes are never reconciled (documents written
 * per email, by the device or the mock script, have no top-level `userId`
 * and so never reach the dashboard's query), and what the dashboard shows
 * after the ingestion endpoint stores a record.
 */
module EndToEnd {
  import opened Wrappers
  import opened Firestore
  import ExerciseGame
  import Mock
  import UploadRoute
  import GameResults

  /** The dashboard query never returns a document without a top-level `userId`. */
  lemma UserlessNeverQueried(c: Collection, userId: string, d: Doc)
    requires "userId" !in d.fields
    ensures d !in GameResults.Query(c, userId)
  {
    GameResults.QueryContract(c, userId);
  }

  /**
   * Replacing a document's fields with fields that have no `userId` takes it
   * out of every user's dashboard.
   */
  lemma ReplacedNeverQueried(store: Collection, id: string, fields: Fields, userId: string)
    requires UniqueIds(store)
    requires "userId" !in fields
    ensures forall doc :: doc in GameResults.Query(Set(store, id, fields), userId) ==> doc.id != id
  {
    var after := Set(store, id, fields);
    GameResults.QueryContract(after, userId);
    forall doc | doc in GameResults.Query(after, userId)
      ensures doc.id != id
    {
    }
  }

  /**
   * After the device uploads a run into a per-email document that had no
   * `userId`, no query of the dashboard, for any user, returns that document.
   */
  lemma DeviceDocumentNeverQueried(store: Collection, email: string, d: ExerciseGame.RunData,
                                   t: ExerciseGame.LocalTime, reply: ExerciseGame.GetReply,
                                   accepted: bool, userId: string)
    requires UniqueIds(store)
    requires forall doc :: doc in store && doc.id == email ==> "userId" !in doc.fields
    requires reply.GetReply?
    requires reply.fields.Some? ==> "userId" !in reply.fields.value
    ensures var body := ExerciseGame.UploadToFirebase(d, ExerciseGame.Filename(t), reply).value;
      var after := ExerciseGame.ApplyPatch(store, email, body, accepted);
      forall doc :: doc in GameResults.Query(after, userId) ==> doc.id != email
  {
    var body := ExerciseGame.UploadToFirebase(d, ExerciseGame.Filename(t), reply).value;
    ExerciseGame.MergeAddsNoUserId(d, t, reply);
    var after := ExerciseGame.ApplyPatch(store, email, body, accepted);
    var decoded := ExerciseGame.DecodeValue(ExerciseGame.MapValue(body));
    if accepted && decoded.Some? && decoded.value.Map? {
      ExerciseGame.DecodeFields(body);
      ReplacedNeverQueried(store, email, decoded.value.fields, userId);
    } else {
      GameResults.QueryContract(store, userId);
    }
  }

  /**
   * After the mock script replaces a user's document with its games, no
   * query of the dashboard, for any user, returns that document.
   */
  lemma MockDocumentNeverQueried(store: Collection, email: string, now: int, draw: nat -> Mock.GameDraws,
                                 numGames: nat, userId: string)
    requires UniqueIds(store)
    ensures var after := Set(store, email, Mock.Games(email, now, draw, numGames));
      forall doc :: doc in GameResults.Query(after, userId) ==> doc.id != email
  {
    Mock.GamesHaveNoUserId(email, now, draw, numGames);
    ReplacedNeverQueried(store, email, Mock.Games(email, now, draw, numGames), userId);
  }

  /** Every entry of the mock script's document is one the GET can render. */
  lemma MockGamesRenderable(email: string, now: int, draw: nat -> Mock.GameDraws, numGames: nat)
    ensures var games := Mock.Games(email, now, draw, numGames);
      forall k :: k in games ==> ExerciseGame.EncodeValue(games[k]).Some?
  {
    var games := Mock.Games(email, now, draw, numGames);
    Mock.GamesKeySet(email, now, draw, numGames);
    forall k | k in games
      ensures ExerciseGame.EncodeValue(games[k]).Some?
    {
      var n :| 1 <= n <= numGames && k == Mock.GameKey(n);
      Mock.GamesValues(email, now, draw, numGames, n);
    }
  }

  /** No `game_n` key is a run's file name. */
  lemma GameKeyIsNoFilename(n: nat, t: ExerciseGame.LocalTime)
    ensures Mock.GameKey(n) != ExerciseGame.Filename(t)
  {
    assert Mock.GameKey(n)[0] == 'g' && ExerciseGame.Filename(t)[0] == 's';
  }

  /**
   * The two writers of a per-email document meet: after the mock script
   * `set`s its games and the device then uploads a run, the document holds
   * every `game_n` entry exactly as the mock wrote it (timestamps included)
   * next to the run under its file name.
   */
  lemma DeviceUploadOntoMockDocument(store: Collection, email: string, now: int, draw: nat -> Mock.GameDraws,
                                     numGames: nat, d: ExerciseGame.RunData, t: ExerciseGame.LocalTime)
    requires UniqueIds(store)
    requires forall k :: k in Mock.Games(email, now, draw, numGames) ==>
      ExerciseGame.EncodeValue(Mock.Games(email, now, draw, numGames)[k]).Some?
    ensures var games := Mock.Games(email, now, draw, numGames);
      var reply := ExerciseGame.GetReply(200, Some(ExerciseGame.GetFields(games)));
      var body := ExerciseGame.UploadToFirebase(d, ExerciseGame.Filename(t), reply).value;
      var after := ExerciseGame.ApplyPatch(Set(store, email, games), email, body, true);
      && (exists doc :: doc in after && doc.id == email)
      && forall doc :: doc in after && doc.id == email ==>
           && doc.fields.Keys == games.Keys + {ExerciseGame.Filename(t)}
           && forall n :: 1 <= n <= numGames ==>
                Mock.GameKey(n) in doc.fields && doc.fields[Mock.GameKey(n)] == Mock.GameEntry(email, now, draw(n - 1))
  {
    var games := Mock.Games(email, now, draw, numGames);
    var f := ExerciseGame.Filename(t);
    ExerciseGame.UploadKeepsStoredEntries(Set(store, email, games), email, games, d, t);
    forall n | 1 <= n <= numGames
      ensures Mock.GameKey(n) in games && Mock.GameKey(n) != f
      ensures games[Mock.GameKey(n)] == Mock.GameEntry(email, now, draw(n - 1))
    {
      Mock.GamesValues(email, now, draw, numGames, n);
      GameKeyIsNoFilename(n, t);
    }
  }

  lemma {:induction false} FilterAppend(c: Collection, doc: Doc, userId: string)
    ensures GameResults.Filter(c + [doc], userId) ==
      GameResults.Filter(c, userId) + (if GameResults.Matches(doc, userId) then [doc] else [])
  {
    var tail := if GameResults.Matches(doc, userId) then [doc] else [];
    if c == [] {
      assert c + [doc] == [doc];
      assert GameResults.Filter([doc], userId) == tail + GameResults.Filter([], userId);
    } else {
      var head := if GameResults.Matches(c[0], userId) then [c[0]] else [];
      assert (c + [doc])[0] == c[0];
      assert (c + [doc])[1..] == c[1..] + [doc];
      FilterAppend(c[1..], doc, userId);
      var rest := GameResults.Filter(c[1..], userId);
      assert GameResults.Filter(c + [doc], userId) == head + (rest + tail);
      assert GameResults.Filter(c, userId) == head + rest;
      assert head + (rest + tail) == (head + rest) + tail;
    }
  }

  /** The outcome of a successful upload whose body is `b`, by a user whose token verifies as `uid`. */
  function Ingested(b: Fields, uid: string, now: int, newId: string, store: Collection): Collection
    requires UploadRoute.HasToken(b)
  {
    UploadRoute.Post(Some(b), _ => Some(uid), now, newId, true, store).store
  }

  /** The document a successful upload appends. */
  function IngestedDoc(b: Fields, uid: string, now: int, newId: string): Doc {
    Doc(newId, UploadRoute.BuildRecord(uid, now, UploadRoute.SplitToken(b).1))
  }

  lemma IngestedShape(b: Fields, uid: string, now: int, newId: string, store: Collection)
    requires UploadRoute.HasToken(b)
    ensures Ingested(b, uid, now, newId, store) == store + [IngestedDoc(b, uid, now, newId)]
  {
    var verify: UploadRoute.Verifier := _ => Some(uid);
    assert UploadRoute.VerifiedUid(b, verify) == Some(uid);
  }

  /** With no earlier records of `userId`, the query after the upload returns at most the new record. */
  lemma OnlyNewRecordQueried(b: Fields, uid: string, now: int, newId: string, store: Collection, userId: string)
    requires UploadRoute.HasToken(b)
    requires GameResults.Filter(store, userId) == []
    ensures var doc := IngestedDoc(b, uid, now, newId);
      GameResults.Query(Ingested(b, uid, now, newId, store), userId) ==
        if GameResults.Matches(doc, userId) then [doc] else []
  {
    IngestedShape(b, uid, now, newId, store);
    FilterAppend(store, IngestedDoc(b, uid, now, newId), userId);
  }

  /** The record stored for a body without `userId` or `timestamp` is its sender's, and projects to the body's fields. */
  lemma IngestedRow(b: Fields, uid: string, now: int, newId: string)
    requires "userId" !in b && "timestamp" !in b
    ensures var doc := IngestedDoc(b, uid, now, newId);
      && GameResults.Matches(doc, uid)
      && GameResults.Project(doc) == Some(GameResults.GameResult(now,
           GameResults.FieldOf(b, "min_response_time"), GameResults.FieldOf(b, "max_response_time"),
           GameResults.FieldOf(b, "avg_response_time"), GameResults.FieldOf(b, "score")))
  {
    var data := UploadRoute.SplitToken(b).1;
    var doc := IngestedDoc(b, uid, now, newId);
    assert doc.fields == UploadRoute.BuildRecord(uid, now, data);
    assert GameResults.FieldOf(doc.fields, "min_response_time") == GameResults.FieldOf(b, "min_response_time");
    assert GameResults.FieldOf(doc.fields, "max_response_time") == GameResults.FieldOf(b, "max_response_time");
    assert GameResults.FieldOf(doc.fields, "avg_response_time") == GameResults.FieldOf(b, "avg_response_time");
    assert GameResults.FieldOf(doc.fields, "score") == GameResults.FieldOf(b, "score");
  }

  /**
   * A body carrying only the run's fields (and the token) is shown back to
   * its user exactly: the server time as timestamp, the fields as sent.
   */
  lemma IngestThenDisplay(b: Fields, uid: string, now: int, newId: string, store: Collection)
    requires UploadRoute.HasToken(b)
    requires GameResults.Filter(store, uid) == []
    requires "userId" !in b && "timestamp" !in b
    ensures GameResults.ProjectAll(GameResults.Query(Ingested(b, uid, now, newId, store), uid)) ==
      Some([GameResults.GameResult(now,
              GameResults.FieldOf(b, "min_response_time"), GameResults.FieldOf(b, "max_response_time"),
              GameResults.FieldOf(b, "avg_response_time"), GameResults.FieldOf(b, "score"))])
  {
    var doc := IngestedDoc(b, uid, now, newId);
    IngestedRow(b, uid, now, newId);
    OnlyNewRecordQueried(b, uid, now, newId, store, uid);
    assert GameResults.Query(Ingested(b, uid, now, newId, store), uid) == [doc];
    var rows := GameResults.ProjectAll([doc]);
    assert GameResults.Project([doc][0]).Some?;
    assert |rows.value| == 1 && Some(rows.value[0]) == GameResults.Project(doc);
    assert rows.value == [rows.value[0]];
  }

  /**
   * A body that names another user in `userId` files the record under that
   * user: it appears in their query and not in the sender's.
   */
  lemma ClientUserIdRedirects(b: Fields, uid: string, other: string, now: int, newId: string, store: Collection)
    requires UploadRoute.HasToken(b)
    requires GameResults.Filter(store, other) == [] && GameResults.Filter(store, uid) == []
    requires "userId" in b && b["userId"] == Str(other) && other != uid
    ensures GameResults.Query(Ingested(b, uid, now, newId, store), other) == [IngestedDoc(b, uid, now, newId)]
    ensures GameResults.Query(Ingested(b, uid, now, newId, store), uid) == []
  {
    OnlyNewRecordQueried(b, uid, now, newId, store, other);
    OnlyNewRecordQueried(b, uid, now, newId, store, uid);
  }

  /**
   * A body whose `timestamp` is not a timestamp (a string, say) makes
   * `toDate()` throw for every query that returns the record: the dashboard
   * of that user shows the fetch error instead of any results.
   */
  lemma ClientTimestampBreaksDashboard(b: Fields, uid: string, now: int, newId: string, store: Collection,
                                       userId: string)
    requires UploadRoute.HasToken(b)
    requires "timestamp" in b && !b["timestamp"].Time?
    ensures var q := GameResults.Query(Ingested(b, uid, now, newId, store), userId);
      IngestedDoc(b, uid, now, newId) in q ==> GameResults.ProjectAll(q).None?
  {
    var doc := IngestedDoc(b, uid, now, newId);
    var q := GameResults.Query(Ingested(b, uid, now, newId, store), userId);
    if doc in q {
      var i :| 0 <= i < |q| && q[i] == doc;
      assert GameResults.Project(q[i]).None?;
    }
  }
}
