/**
 * The reaction-time device program: the measurement loop that records one
 * optional reaction time per round, `scorer`'s statistics, the timestamp and
 * file name it derives from the local clock, and `upload_to_firebase`, which
 * merges one run into the per-email document through the store's REST API.
 * Hardware (LED, button, clock), Wi-Fi, the JSON file write and the HTTP
 * calls are replaced by their results, passed in as parameters.
 */
module ExerciseGame {
  import opened Wrappers
  import opened Decimal
  import Firestore

  /** Number of measurement rounds. */
  const N: nat := 10
  /** How long the LED stays on, in milliseconds: a press after that is a miss. */
  const OnMs: int := 500

  /** One round: `None` when the light was missed, else the reaction time in ms. */
  type Sample = Option<int>

  // ---------------------------------------------------------------- measuring

  /**
   * One pass of the polling loop: `elapsed` is the clock difference the loop
   * test reads, `pressed` whether the button read low, and `reread` the clock
   * difference read again when the press is recorded.
   */
  datatype Poll = Poll(elapsed: int, pressed: bool, reread: int)

  /** The clock eventually passes the LED-on time, so the polling loop ends. */
  predicate Expires(polls: seq<Poll>) {
    exists k :: 0 <= k < |polls| && polls[k].elapsed >= OnMs
  }

  /** What one round records, given the readings of its polling loop. */
  function RoundOutcome(polls: seq<Poll>): Sample {
    if polls == [] || polls[0].elapsed >= OnMs then None
    else if polls[0].pressed then Some(polls[0].reread)
    else RoundOutcome(polls[1..])
  }

  /** The inner `while` loop of one round. */
  method MeasureRound(polls: seq<Poll>) returns (t0: Sample)
    requires Expires(polls)
    ensures t0 == RoundOutcome(polls)
  {
    t0 := None;
    var k := 0;
    while polls[k].elapsed < OnMs
      invariant 0 <= k < |polls|
      invariant exists j :: k <= j < |polls| && polls[j].elapsed >= OnMs
      invariant RoundOutcome(polls[k..]) == RoundOutcome(polls)
      decreases |polls| - k
    {
      if polls[k].pressed {
        t0 := Some(polls[k].reread);
        break;
      }
      assert polls[k..][1..] == polls[k + 1..];
      k := k + 1;
    }
  }

  /** The outer `for` loop: exactly one entry per round, in round order. */
  method Measure(rounds: seq<seq<Poll>>) returns (t: seq<Sample>)
    requires |rounds| == N
    requires forall i :: 0 <= i < |rounds| ==> Expires(rounds[i])
    ensures |t| == N
    ensures forall i :: 0 <= i < N ==> t[i] == RoundOutcome(rounds[i])
  {
    t := [];
    for i := 0 to N
      invariant |t| == i
      invariant forall j :: 0 <= j < i ==> t[j] == RoundOutcome(rounds[j])
    {
      var t0 := MeasureRound(rounds[i]);
      t := t + [t0];
    }
  }

  /** The clock never runs backwards: both reads of a pass are non-negative and in order. */
  predicate MonotoneClock(polls: seq<Poll>) {
    forall k :: 0 <= k < |polls| ==> 0 <= polls[k].elapsed <= polls[k].reread
  }

  /** The clock does not advance between the loop test and the second read. */
  predicate SameTick(polls: seq<Poll>) {
    forall k :: 0 <= k < |polls| ==> polls[k].reread == polls[k].elapsed
  }

  /**
   * A recorded time is the second clock read of a pass whose loop test saw
   * less than `OnMs` and whose button read pressed; so it is never negative,
   * and it is below `OnMs` when the clock did not tick between the two reads.
   */
  lemma {:induction false} RoundOutcomeBounds(polls: seq<Poll>)
    requires MonotoneClock(polls)
    ensures RoundOutcome(polls).Some? ==>
      exists k :: 0 <= k < |polls| && polls[k].pressed && polls[k].elapsed < OnMs &&
        RoundOutcome(polls).value == polls[k].reread
    ensures RoundOutcome(polls).Some? ==> RoundOutcome(polls).value >= 0
    ensures RoundOutcome(polls).Some? && SameTick(polls) ==> RoundOutcome(polls).value < OnMs
  {
    if polls != [] && polls[0].elapsed < OnMs && !polls[0].pressed {
      RoundOutcomeBounds(polls[1..]);
      var r := RoundOutcome(polls);
      if r.Some? {
        var k :| 0 <= k < |polls[1..]| && polls[1..][k].pressed && polls[1..][k].elapsed < OnMs &&
          r.value == polls[1..][k].reread;
        assert polls[k + 1] == polls[1..][k];
      }
    } else if RoundOutcome(polls).Some? {
      assert polls[0].pressed && polls[0].elapsed < OnMs;
    }
  }

  /**
   * The second read can pass the window: a press seen by a loop test at
   * `OnMs - 1` and recorded one tick later is recorded as `OnMs`, on a clock
   * that runs forwards.
   */
  lemma RecordsOnMs()
    ensures MonotoneClock([Poll(OnMs - 1, true, OnMs)])
    ensures RoundOutcome([Poll(OnMs - 1, true, OnMs)]) == Some(OnMs)
  {
  }

  /** The round's outcome when the press records the reading the loop test made. */
  function SingleReadOutcome(polls: seq<Poll>): Sample {
    if polls == [] || polls[0].elapsed >= OnMs then None
    else if polls[0].pressed then Some(polls[0].elapsed)
    else SingleReadOutcome(polls[1..])
  }

  /** With one read per pass a recorded time is always inside the window. */
  lemma {:induction false} SingleReadBound(polls: seq<Poll>)
    requires MonotoneClock(polls)
    ensures SingleReadOutcome(polls).Some? ==> 0 <= SingleReadOutcome(polls).value < OnMs
  {
    if polls != [] && polls[0].elapsed < OnMs && !polls[0].pressed {
      assert MonotoneClock(polls[1..]) by {
        forall k | 0 <= k < |polls[1..]|
          ensures 0 <= polls[1..][k].elapsed <= polls[1..][k].reread
        {
          assert polls[1..][k] == polls[k + 1];
        }
      }
      SingleReadBound(polls[1..]);
    }
  }

  /** When the clock does not tick between the two reads, both outcomes agree. */
  lemma {:induction false} SameTickAgrees(polls: seq<Poll>)
    requires SameTick(polls)
    ensures RoundOutcome(polls) == SingleReadOutcome(polls)
  {
    if polls != [] && polls[0].elapsed < OnMs && !polls[0].pressed {
      assert SameTick(polls[1..]) by {
        forall k | 0 <= k < |polls[1..]|
          ensures polls[1..][k].reread == polls[1..][k].elapsed
        {
          assert polls[1..][k] == polls[k + 1];
        }
      }
      SameTickAgrees(polls[1..]);
    }
  }

  // ---------------------------------------------------------------- scorer

  /** The number of missed rounds. */
  function Misses(t: seq<Sample>): nat {
    if t == [] then 0 else (if t[0].None? then 1 else 0) + Misses(t[1..])
  }

  /** The hits of `t`: its samples without the misses, in order. */
  function Good(t: seq<Sample>): seq<int> {
    if t == [] then [] else (if t[0].Some? then [t[0].value] else []) + Good(t[1..])
  }

  /** Every round is either a miss or a kept reaction time. */
  lemma {:induction false} MissesPlusGood(t: seq<Sample>)
    ensures Misses(t) + |Good(t)| == |t|
  {
    if t != [] {
      MissesPlusGood(t[1..]);
    }
  }

  /** Filtering distributes over concatenation: the kept times stay in round order. */
  lemma {:induction false} GoodAppend(a: seq<Sample>, b: seq<Sample>)
    ensures Good(a + b) == Good(a) + Good(b)
  {
    if a == [] {
      assert a + b == b;
    } else {
      var head := if a[0].Some? then [a[0].value] else [];
      assert (a + b)[0] == a[0];
      assert (a + b)[1..] == a[1..] + b;
      GoodAppend(a[1..], b);
      var rest, tail := Good(a[1..]), Good(b);
      assert Good(a + b) == head + (rest + tail);
      assert Good(a) == head + rest;
      assert head + (rest + tail) == (head + rest) + tail;
    }
  }

  /** The kept times are exactly the values of the rounds that were not missed. */
  lemma {:induction false} GoodMembers(t: seq<Sample>)
    ensures forall x :: x in Good(t) <==> Some(x) in t
  {
    if t != [] {
      GoodMembers(t[1..]);
      assert t == [t[0]] + t[1..];
    }
  }

  /** `min(s)` */
  function MinOf(s: seq<int>): (m: int)
    requires |s| > 0
    ensures m in s && forall x :: x in s ==> m <= x
  {
    if |s| == 1 then s[0]
    else
      var rest := MinOf(s[1..]);
      assert s == [s[0]] + s[1..];
      if s[0] <= rest then s[0] else rest
  }

  /** `max(s)` */
  function MaxOf(s: seq<int>): (m: int)
    requires |s| > 0
    ensures m in s && forall x :: x in s ==> x <= m
  {
    if |s| == 1 then s[0]
    else
      var rest := MaxOf(s[1..]);
      assert s == [s[0]] + s[1..];
      if s[0] >= rest then s[0] else rest
  }

  /** `sum(s)` */
  function Sum(s: seq<int>): int {
    if s == [] then 0 else s[0] + Sum(s[1..])
  }

  /** A lower bound of every element bounds the sum from below. */
  lemma {:induction false} SumAtLeast(s: seq<int>, lo: int)
    requires forall i :: 0 <= i < |s| ==> lo <= s[i]
    ensures |s| * lo <= Sum(s)
  {
    if s != [] {
      SumAtLeast(s[1..], lo);
      assert |s| * lo == lo + |s[1..]| * lo;
    }
  }

  /** An upper bound of every element bounds the sum from above. */
  lemma {:induction false} SumAtMost(s: seq<int>, hi: int)
    requires forall i :: 0 <= i < |s| ==> s[i] <= hi
    ensures Sum(s) <= |s| * hi
  {
    if s != [] {
      SumAtMost(s[1..], hi);
      assert |s| * hi == hi + |s[1..]| * hi;
    }
  }

  lemma DivideBounds(a: real, n: real, lo: real, hi: real)
    requires n > 0.0 && lo * n <= a <= hi * n
    ensures lo <= a / n <= hi
  {
  }

  /** A part `k` of a whole `n`, as a fraction. */
  lemma Fraction(k: nat, n: nat)
    requires 0 < n && k <= n
    ensures 0.0 <= k as real / n as real <= 1.0
    ensures (k as real / n as real) * n as real == k as real
  {
    DivideBounds(k as real, n as real, 0.0, 1.0);
  }

  lemma ProductAsReal(k: nat, x: int)
    ensures (k * x) as real == k as real * x as real
  {
  }

  /** The run summary `scorer` writes and uploads. */
  datatype RunData = RunData(timestamp: string, minTime: int, maxTime: int, avgTime: real, score: real)

  function Average(s: seq<int>): real
    requires |s| > 0
  {
    Sum(s) as real / |s| as real
  }

  /** `score`: the fraction of rounds that were hit, 0 for no rounds at all. */
  function Score(t: seq<Sample>): real {
    if |t| > 0 then |Good(t)| as real / |t| as real else 0.0
  }

  /** `scorer`'s `data`, for the samples `t` and the local time `now`. */
  function Scorer(t: seq<Sample>, now: LocalTime): RunData {
    var good := Good(t);
    if |good| > 0 then RunData(NowStr(now), MinOf(good), MaxOf(good), Average(good), Score(t))
    else RunData(NowStr(now), 0, 0, 0.0, Score(t))
  }

  /** A total of `n` values within bounds, divided by `n`, stays within the bounds. */
  lemma QuotientBetween(total: int, n: nat, lo: int, hi: int)
    requires n > 0 && n * lo <= total <= n * hi
    ensures lo as real <= total as real / n as real <= hi as real
  {
    ProductAsReal(n, lo);
    ProductAsReal(n, hi);
    DivideBounds(total as real, n as real, lo as real, hi as real);
  }

  /** Bounds on every element bound the average. */
  lemma MeanBetween(s: seq<int>, lo: int, hi: int)
    requires |s| > 0
    requires forall i :: 0 <= i < |s| ==> lo <= s[i] <= hi
    ensures lo as real <= Average(s) <= hi as real
  {
    SumAtLeast(s, lo);
    SumAtMost(s, hi);
    QuotientBetween(Sum(s), |s|, lo, hi);
  }

  /** The average lies between the smallest and the largest element. */
  lemma AverageBetween(s: seq<int>)
    requires |s| > 0
    ensures MinOf(s) as real <= Average(s) <= MaxOf(s) as real
  {
    var lo, hi := MinOf(s), MaxOf(s);
    forall i | 0 <= i < |s|
      ensures lo <= s[i] <= hi
    {
      assert s[i] in s;
    }
    MeanBetween(s, lo, hi);
  }

  /** The fraction of rounds hit lies in [0, 1]. */
  lemma ScoreInUnitRange(t: seq<Sample>)
    ensures 0.0 <= Score(t) <= 1.0
    ensures t == [] ==> Score(t) == 0.0
    ensures Score(t) * |t| as real == |Good(t)| as real
  {
    MissesPlusGood(t);
    var k, n := |Good(t)|, |t|;
    if n > 0 {
      assert Score(t) == k as real / n as real;
      Fraction(k, n);
    } else {
      assert k == 0;
    }
  }

  /** What `scorer` promises about the statistics it derives. */
  lemma ScorerStatistics(t: seq<Sample>, now: LocalTime)
    ensures var r := Scorer(t, now);
      && r.timestamp == NowStr(now)
      && r.score == Score(t)
      && (Good(t) != [] ==>
            && r.minTime in Good(t) && r.maxTime in Good(t)
            && (forall x :: x in Good(t) ==> r.minTime <= x <= r.maxTime)
            && r.minTime as real <= r.avgTime <= r.maxTime as real
            && r.avgTime == Sum(Good(t)) as real / |Good(t)| as real)
      && (Good(t) == [] ==> r.minTime == 0 && r.maxTime == 0 && r.avgTime == 0.0)
  {
    var g := Good(t);
    if g != [] {
      AverageBetween(g);
    }
  }

  // ---------------------------------------------------------------- timestamp and file name

  /** The first six fields of `time.localtime()`. */
  datatype LocalTime = LocalTime(year: nat, month: nat, mday: nat, hour: nat, minute: nat, second: nat)

  /** Date fields joined by dashes, a `T`, then time fields joined by underscores, all unpadded. */
  function NowStr(t: LocalTime): string {
    NatToDec(t.year) + ("-" + (NatToDec(t.month) + ("-" + (NatToDec(t.mday) + ("T" +
    (NatToDec(t.hour) + ("_" + (NatToDec(t.minute) + ("_" + NatToDec(t.second))))))))))
  }

  /** `f"score-{now_str}.json"` */
  function Filename(t: LocalTime): string {
    "score-" + NowStr(t) + ".json"
  }

  /** Reads a number and the separator after it. */
  function ReadNatThen(s: string, sep: char): Option<(nat, string)> {
    match ReadNat(s)
    case None => None
    case Some((n, rest)) => if |rest| > 0 && rest[0] == sep then Some((n, rest[1..])) else None
  }

  lemma ReadNatThenExact(n: nat, sep: char, rest: string)
    requires !IsDigit(sep)
    ensures ReadNatThen(NatToDec(n) + ([sep] + rest), sep) == Some((n, rest))
  {
    ReadNatExact(n, [sep] + rest);
    assert ([sep] + rest)[1..] == rest;
  }

  /** Reads the time-of-day part, `h_m_s`, back into its three fields. */
  function ParseClock(s: string): Option<(nat, nat, nat)> {
    match ReadNatThen(s, '_')
    case None => None
    case Some((h, s1)) =>
      match ReadNatThen(s1, '_')
      case None => None
      case Some((mi, s2)) =>
        match ReadNat(s2)
        case None => None
        case Some((sec, rest)) => if rest == [] then Some((h, mi, sec)) else None
  }

  /** Reads a timestamp text back into its six fields. */
  function ParseNowStr(s: string): Option<LocalTime> {
    match ReadNatThen(s, '-')
    case None => None
    case Some((y, s1)) =>
      match ReadNatThen(s1, '-')
      case None => None
      case Some((mo, s2)) =>
        match ReadNatThen(s2, 'T')
        case None => None
        case Some((d, s3)) =>
          match ParseClock(s3)
          case None => None
          case Some((h, mi, sec)) => Some(LocalTime(y, mo, d, h, mi, sec))
  }

  lemma ClockRoundTrip(h: nat, mi: nat, sec: nat)
    ensures ParseClock(NatToDec(h) + ("_" + (NatToDec(mi) + ("_" + NatToDec(sec))))) == Some((h, mi, sec))
  {
    var s2 := NatToDec(sec);
    var s1 := NatToDec(mi) + ("_" + s2);
    ReadNatThenExact(h, '_', s1);
    ReadNatThenExact(mi, '_', s2);
    ReadNatExact(sec, []);
    assert s2 + [] == s2;
  }

  /** The unpadded fields and the non-digit separators make the timestamp text readable back. */
  lemma NowStrRoundTrip(t: LocalTime)
    ensures ParseNowStr(NowStr(t)) == Some(t)
  {
    var s3 := NatToDec(t.hour) + ("_" + (NatToDec(t.minute) + ("_" + NatToDec(t.second))));
    var s2 := NatToDec(t.mday) + ("T" + s3);
    var s1 := NatToDec(t.month) + ("-" + s2);
    ReadNatThenExact(t.year, '-', s1);
    ReadNatThenExact(t.month, '-', s2);
    ReadNatThenExact(t.mday, 'T', s3);
    ClockRoundTrip(t.hour, t.minute, t.second);
  }

  /** Reads a file name of the form `score-<now_str>.json` back into its local time. */
  function ParseFilename(s: string): Option<LocalTime> {
    if |s| >= 11 && s[..6] == "score-" && s[|s| - 5..] == ".json" then ParseNowStr(s[6..|s| - 5])
    else None
  }

  lemma FilenameRoundTrip(t: LocalTime)
    ensures ParseFilename(Filename(t)) == Some(t)
  {
    var f := Filename(t);
    var n := NowStr(t);
    assert |f| == 6 + |n| + 5;
    assert f[..6] == "score-" && f[|f| - 5..] == ".json" && f[6..|f| - 5] == n;
    NowStrRoundTrip(t);
  }

  /**
   * Two runs get the same file name, and so the same key in the per-email
   * document, exactly when they were scored in the same second.
   */
  lemma FilenameInjective(a: LocalTime, b: LocalTime)
    ensures Filename(a) == Filename(b) <==> a == b
  {
    FilenameRoundTrip(a);
    FilenameRoundTrip(b);
  }

  // ---------------------------------------------------------------- upload

  /**
   * A field value in the store's REST JSON encoding. The device writes the
   * first four kinds; `TimestampValue` is what the GET returns for the
   * timestamps another writer (the mock script) stored in the same document,
   * as the instant the RFC 3339 text denotes.
   */
  datatype RestValue =
    | IntegerValue(text: string)
    | DoubleValue(number: real)
    | StringValue(text: string)
    | TimestampValue(instant: int)
    | MapValue(fields: map<string, RestValue>)

  /** `new_game_data`: the REST encoding of one run. */
  function EncodeRun(d: RunData): map<string, RestValue> {
    map[
      "avg_response_time" := DoubleValue(d.avgTime),
      "score" := DoubleValue(d.score),
      "min_response_time" := IntegerValue(IntToDec(d.minTime)),
      "max_response_time" := IntegerValue(IntToDec(d.maxTime)),
      "timestamp" := StringValue(d.timestamp)]
  }

  /** Reads one run back from its REST encoding. */
  function DecodeRun(f: map<string, RestValue>): Option<RunData> {
    if && "avg_response_time" in f && f["avg_response_time"].DoubleValue?
       && "score" in f && f["score"].DoubleValue?
       && "min_response_time" in f && f["min_response_time"].IntegerValue?
       && "max_response_time" in f && f["max_response_time"].IntegerValue?
       && "timestamp" in f && f["timestamp"].StringValue?
    then
      match (ParseInt(f["min_response_time"].text), ParseInt(f["max_response_time"].text))
      case (Some(lo), Some(hi)) =>
        Some(RunData(f["timestamp"].text, lo, hi, f["avg_response_time"].number, f["score"].number))
      case _ => None
    else None
  }

  /** The encoding loses nothing: min and max survive the trip through decimal strings. */
  lemma RunEncodingRoundTrip(d: RunData)
    ensures DecodeRun(EncodeRun(d)) == Some(d)
  {
    IntRoundTrip(d.minTime);
    IntRoundTrip(d.maxTime);
  }

  /**
   * The outcome of the GET of the per-email document: `GetRaised` when the
   * request or its JSON decoding raised (the `except` branch), otherwise the
   * status code and the document's `fields`, if it has any.
   */
  datatype GetReply = GetRaised | GetReply(status: int, fields: Option<map<string, RestValue>>)

  /** `existing_games` after the GET. */
  function ExistingGames(status: int, fields: Option<map<string, RestValue>>): map<string, RestValue> {
    if status == 200 && fields.Some? then fields.value else map[]
  }

  /** The existing games with the run stored, as a nested map value, under the file name. */
  function MergeRun(existing: map<string, RestValue>, filename: string, d: RunData): (m: map<string, RestValue>)
    ensures m.Keys == existing.Keys + {filename}
    ensures m[filename] == MapValue(EncodeRun(d))
    ensures forall k :: k in existing && k != filename ==> m[k] == existing[k]
  {
    existing[filename := MapValue(EncodeRun(d))]
  }

  /**
   * `upload_to_firebase`: the `fields` of the PATCH body it sends, or `None`
   * when the GET raised and nothing is sent.
   */
  function UploadToFirebase(d: RunData, filename: string, reply: GetReply): (patch: Option<map<string, RestValue>>)
    ensures reply.GetRaised? <==> patch.None?
    ensures reply.GetReply? && (reply.status != 200 || reply.fields.None?) ==>
      patch == Some(map[filename := MapValue(EncodeRun(d))])
    ensures reply.GetReply? && reply.status == 200 && reply.fields.Some? ==>
      && patch.Some?
      && patch.value.Keys == reply.fields.value.Keys + {filename}
      && patch.value[filename] == MapValue(EncodeRun(d))
      && forall k :: k in reply.fields.value && k != filename ==> patch.value[k] == reply.fields.value[k]
  {
    match reply
    case GetRaised => None
    case GetReply(status, fields) => Some(MergeRun(ExistingGames(status, fields), filename, d))
  }

  /** How the store reads a REST-encoded value; a malformed `integerValue` is refused. */
  function DecodeValue(v: RestValue): Option<Firestore.Value> {
    match v
    case IntegerValue(text) => (match ParseInt(text) case Some(i) => Some(Firestore.Int(i)) case None => None)
    case DoubleValue(x) => Some(Firestore.Double(x))
    case StringValue(text) => Some(Firestore.Str(text))
    case TimestampValue(t) => Some(Firestore.Time(t))
    case MapValue(f) =>
      var decoded := map k | k in f :: DecodeValue(f[k]);
      if forall k :: k in decoded ==> decoded[k].Some? then Some(Firestore.Map(map k | k in decoded :: decoded[k].value))
      else None
  }

  /**
   * How the GET renders a stored value in the REST encoding, for the kinds
   * the two writers of the per-email document store; `None` for the others.
   */
  function EncodeValue(v: Firestore.Value): Option<RestValue>
    decreases v
  {
    match v
    case Int(i) => Some(IntegerValue(IntToDec(i)))
    case Double(x) => Some(DoubleValue(x))
    case Str(text) => Some(StringValue(text))
    case Time(t) => Some(TimestampValue(t))
    case Map(f) =>
      if forall k :: k in f ==> EncodeValue(f[k]).Some? then Some(MapValue(map k | k in f :: EncodeValue(f[k]).value))
      else None
    case _ => None
  }

  /** A value the GET renders is read back by the PATCH as the very same value. */
  lemma {:induction false} EncodeValueRoundTrip(v: Firestore.Value)
    requires EncodeValue(v).Some?
    ensures DecodeValue(EncodeValue(v).value) == Some(v)
    decreases v
  {
    match v
    case Int(i) => IntRoundTrip(i);
    case Double(_) =>
    case Str(_) =>
    case Time(_) =>
    case Map(f) =>
      var enc := map k | k in f :: EncodeValue(f[k]).value;
      assert EncodeValue(v).value == MapValue(enc);
      forall k | k in f
        ensures DecodeValue(enc[k]) == Some(f[k])
      {
        EncodeValueRoundTrip(f[k]);
      }
      var decoded := map k | k in enc :: DecodeValue(enc[k]);
      assert forall k :: k in decoded ==> decoded[k].Some?;
      assert (map k | k in decoded :: decoded[k].value) == f;
  }

  /** The `fields` of the GET reply for a stored document whose values it can render. */
  function GetFields(stored: Firestore.Fields): (r: map<string, RestValue>)
    requires forall k :: k in stored ==> EncodeValue(stored[k]).Some?
    ensures r.Keys == stored.Keys
  {
    map k | k in stored :: EncodeValue(stored[k]).value
  }

  /** The store can read the run's encoding. */
  lemma EncodeRunDecodes(d: RunData)
    ensures DecodeValue(MapValue(EncodeRun(d))).Some?
  {
    IntRoundTrip(d.minTime);
    IntRoundTrip(d.maxTime);
  }

  /**
   * The per-email document after the PATCH: its fields become the body's
   * wholesale when the store accepts it (`accepted` abstracts the HTTP
   * status), and nothing changes otherwise.
   */
  function ApplyPatch(store: Firestore.Collection, email: string, body: map<string, RestValue>, accepted: bool): Firestore.Collection {
    var decoded := DecodeValue(MapValue(body));
    if accepted && decoded.Some? && decoded.value.Map? then Firestore.Set(store, email, decoded.value.fields)
    else store
  }

  /**
   * The merged document never gains a top-level `userId` field: file-name
   * keys all start with "score-". So a per-email document that had none
   * still has none after an upload.
   */
  lemma MergeAddsNoUserId(d: RunData, t: LocalTime, reply: GetReply)
    requires reply.GetReply? && reply.fields.Some? ==> "userId" !in reply.fields.value
    ensures var patch := UploadToFirebase(d, Filename(t), reply);
      patch.Some? ==> "userId" !in patch.value
  {
    var f := Filename(t);
    assert f[0] == 's';
  }

  /** A map value the store can read holds exactly the body's keys, each read as its own value. */
  lemma DecodeFields(body: map<string, RestValue>)
    requires DecodeValue(MapValue(body)).Some?
    ensures DecodeValue(MapValue(body)).value.Map?
    ensures var fields := DecodeValue(MapValue(body)).value.fields;
      && fields.Keys == body.Keys
      && forall k :: k in body ==> DecodeValue(body[k]) == Some(fields[k])
  {
  }

  /**
   * An accepted PATCH leaves exactly one document under the email, holding
   * exactly the body's keys with the body's values, and keeps every other
   * document; a refused one changes nothing.
   */
  lemma ApplyPatchKeys(store: Firestore.Collection, email: string, body: map<string, RestValue>, accepted: bool)
    requires Firestore.UniqueIds(store)
    ensures var after := ApplyPatch(store, email, body, accepted);
      !accepted || DecodeValue(MapValue(body)).None? ==> after == store
    ensures var after := ApplyPatch(store, email, body, accepted);
      accepted && DecodeValue(MapValue(body)).Some? ==>
        && Firestore.UniqueIds(after)
        && (exists doc :: doc in after && doc.id == email)
        && (forall doc :: doc in after && doc.id == email ==>
              && doc.fields.Keys == body.Keys
              && forall k :: k in body ==> DecodeValue(body[k]) == Some(doc.fields[k]))
        && (forall doc :: doc in store && doc.id != email ==> doc in after)
        && (forall doc :: doc in after && doc.id != email ==> doc in store)
  {
    if accepted && DecodeValue(MapValue(body)).Some? {
      DecodeFields(body);
      var fields := DecodeValue(MapValue(body)).value.fields;
      assert Firestore.Doc(email, fields) in ApplyPatch(store, email, body, accepted);
    }
  }

  /**
   * An upload onto a document holding entries of any writer: after the GET,
   * the merge and an accepted PATCH the document has the old keys plus the
   * run's file name, and every old entry under another key is stored again
   * unchanged.
   */
  lemma UploadKeepsStoredEntries(store: Firestore.Collection, email: string, stored: Firestore.Fields,
                                 d: RunData, t: LocalTime)
    requires Firestore.UniqueIds(store)
    requires forall k :: k in stored ==> EncodeValue(stored[k]).Some?
    ensures var body := UploadToFirebase(d, Filename(t), GetReply(200, Some(GetFields(stored)))).value;
      var after := ApplyPatch(store, email, body, true);
      && (exists doc :: doc in after && doc.id == email)
      && forall doc :: doc in after && doc.id == email ==>
           && doc.fields.Keys == stored.Keys + {Filename(t)}
           && DecodeValue(MapValue(EncodeRun(d))) == Some(doc.fields[Filename(t)])
           && forall k :: k in stored && k != Filename(t) ==> doc.fields[k] == stored[k]
  {
    var f := Filename(t);
    var got := GetFields(stored);
    var body := UploadToFirebase(d, f, GetReply(200, Some(got))).value;
    forall k | k in body
      ensures DecodeValue(body[k]).Some?
    {
      if k == f {
        EncodeRunDecodes(d);
      } else {
        EncodeValueRoundTrip(stored[k]);
      }
    }
    assert DecodeValue(MapValue(body)).Some?;
    ApplyPatchKeys(store, email, body, true);
    forall k | k in stored && k != f
      ensures DecodeValue(body[k]) == Some(stored[k])
    {
      EncodeValueRoundTrip(stored[k]);
    }
  }
}
