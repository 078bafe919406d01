/**
 * The ingestion endpoint `POST /api/upload-data`: it takes the identity
 * token out of the JSON body, has it verified, and appends one document to
 * the flat `game_results` collection holding the verified user id, the
 * server time and, spread last, every other body field. Every failure is
 * answered with the same 401.
 *
 * The token verifier, the clock, the generated document id and whether the
 * store accepts the write are parameters.
 */
module UploadRoute {
  import opened Wrappers
  import opened Firestore

  datatype Response = Response(status: int, body: Fields)

  /** The one answer to every failure. */
  const Unauthorized: Response := Response(401, map["error" := Str("Unauthorized")])

  function Uploaded(id: string): Response {
    Response(200, map["message" := Str("Data uploaded successfully"), "id" := Str(id)])
  }

  /** Verifies a token's text, yielding the user id or rejecting it. */
  type Verifier = string -> Option<string>

  /** `const { idToken, ...data } = body`: the token, if present, and every other field. */
  function SplitToken(body: Fields): (r: (Option<Value>, Fields))
    ensures r.0 == if "idToken" in body then Some(body["idToken"]) else None
    ensures r.1.Keys == body.Keys - {"idToken"}
    ensures forall k :: k in r.1 ==> r.1[k] == body[k]
  {
    (if "idToken" in body then Some(body["idToken"]) else None, body - {"idToken"})
  }

  /** The body carries a token the verifier can be handed: an `idToken` that is a string. */
  predicate HasToken(body: Fields) {
    "idToken" in body && body["idToken"].Str?
  }

  /**
   * The user id the token verifies as. `verifyIdToken` throws, and so the
   * route answers 401, when `idToken` is missing or is not a string.
   */
  function VerifiedUid(body: Fields, verify: Verifier): (uid: Option<string>)
    ensures uid.Some? <==> HasToken(body) && verify(body["idToken"].s).Some?
    ensures uid.Some? ==> uid == verify(body["idToken"].s)
  {
    match SplitToken(body).0
    case Some(Str(token)) => verify(token)
    case _ => None
  }

  /**
   * The uid and the server time, then the body's own fields spread last,
   * so a key of `data` replaces the server's value of the same name.
   */
  function BuildRecord(uid: string, now: int, data: Fields): (rec: Fields)
    ensures rec.Keys == data.Keys + {"userId", "timestamp"}
    ensures rec["userId"] == if "userId" in data then data["userId"] else Str(uid)
    ensures rec["timestamp"] == if "timestamp" in data then data["timestamp"] else Time(now)
    ensures forall k :: k in data ==> rec[k] == data[k]
  {
    map["userId" := Str(uid), "timestamp" := Time(now)] + data
  }

  datatype PostResult = PostResult(response: Response, store: Collection)

  /**
   * `POST`. `body` is `None` when the request body is not a JSON object;
   * `addOk` says whether the store accepted the `add`, which would create
   * document `newId`.
   */
  function Post(body: Option<Fields>, verify: Verifier, now: int, newId: string, addOk: bool,
                store: Collection): (r: PostResult)
    ensures r.response == Unauthorized || r.response == Uploaded(newId)
    ensures r.response.status == 200 <==> body.Some? && VerifiedUid(body.value, verify).Some? && addOk
    ensures r.response.status != 200 ==> r.store == store
    ensures r.response.status == 200 ==>
      r.store == store + [Doc(newId, BuildRecord(VerifiedUid(body.value, verify).value, now, SplitToken(body.value).1))]
  {
    match body
    case None => PostResult(Unauthorized, store)
    case Some(b) =>
      var data := SplitToken(b).1;
      match VerifiedUid(b, verify)
      case None => PostResult(Unauthorized, store)
      case Some(uid) =>
        if addOk then PostResult(Uploaded(newId), Add(store, newId, BuildRecord(uid, now, data)))
        else PostResult(Unauthorized, store)
  }

  /** The document a successful `Post` appends. */
  function Stored(r: PostResult): Doc
    requires |r.store| > 0
  {
    r.store[|r.store| - 1]
  }

  /**
   * What lands in the store: never the token; the verified id and the
   * server time unless the body has keys of those names, whose values then
   * win; every other body field verbatim, with no validation.
   */
  lemma StoredRecord(b: Fields, verify: Verifier, now: int, newId: string, store: Collection)
    requires VerifiedUid(b, verify).Some?
    ensures var r := Post(Some(b), verify, now, newId, true, store);
      var uid := VerifiedUid(b, verify).value;
      var doc := Stored(r);
      && r.response == Uploaded(newId)
      && |r.store| == |store| + 1 && r.store[..|store|] == store
      && doc.id == newId
      && "idToken" !in doc.fields
      && doc.fields.Keys == b.Keys - {"idToken"} + {"userId", "timestamp"}
      && doc.fields["userId"] == (if "userId" in b then b["userId"] else Str(uid))
      && doc.fields["timestamp"] == (if "timestamp" in b then b["timestamp"] else Time(now))
      && forall k :: k in b && k != "idToken" ==> doc.fields[k] == b[k]
  {
    var r := Post(Some(b), verify, now, newId, true, store);
    assert r.store[..|store|] == store;
  }

  /** A client that sends `userId` gets the record filed under that value, whatever its token says. */
  lemma ClientUserIdWins(b: Fields, verify: Verifier, now: int, newId: string, store: Collection, claimed: string)
    requires VerifiedUid(b, verify).Some?
    requires "userId" in b && b["userId"] == Str(claimed)
    ensures var r := Post(Some(b), verify, now, newId, true, store);
      Stored(r).fields["userId"] == Str(claimed)
  {
    StoredRecord(b, verify, now, newId, store);
  }

  /**
   * An unreadable body, a missing or non-string token, a rejected token and
   * a failed write all produce the same response and leave the store as it was.
   */
  lemma FailuresLookAlike(body: Option<Fields>, verify: Verifier, now: int, newId: string, addOk: bool, store: Collection)
    requires || body.None?
             || !HasToken(body.value)
             || verify(body.value["idToken"].s).None?
             || !addOk
    ensures Post(body, verify, now, newId, addOk, store) == PostResult(Unauthorized, store)
  {
  }

  /** A body without a string `idToken` is refused whatever the verifier would say. */
  lemma MissingTokenRejected(b: Fields, verify: Verifier, now: int, newId: string, addOk: bool, store: Collection)
    requires !HasToken(b)
    ensures Post(Some(b), verify, now, newId, addOk, store) == PostResult(Unauthorized, store)
  {
  }

  /** The response never depends on what the store already holds: no document is read. */
  lemma PostReadsNothing(body: Option<Fields>, verify: Verifier, now: int, newId: string, addOk: bool,
                         s1: Collection, s2: Collection)
    ensures Post(body, verify, now, newId, addOk, s1).response == Post(body, verify, now, newId, addOk, s2).response
    ensures var r1 := Post(body, verify, now, newId, addOk, s1);
      var r2 := Post(body, verify, now, newId, addOk, s2);
      r1.store[|s1|..] == r2.store[|s2|..] && r1.store[..|s1|] == s1 && r2.store[..|s2|] == s2
  {
  }
}
