/** The collector loop of `main`: one iteration (fresh jar, fetch, scrape,
    build, put) and the trace of the whole run over `count + 1` iterations. */
module Collector {
  import opened Wrappers
  import opened CookieJar
  import opened RecordBuilder
  import opened Scanner

  /** The table every record is put into. */
  const TableName: string := "2kcookies"

  /** A successful response: the values of its `Date` header and its body as tokens. */
  datatype Response = Response(dateHeader: seq<string>, body: seq<Token>)

  /** What one `GetCookie` call did: the transport's `SetCookies` calls on the
      jar, and the response, or `None` when the request failed. */
  datatype Exchange = Exchange(writes: seq<Write>, response: Option<Response>)

  /** Run-time panics that end the process. */
  datatype Panic = NoDateHeader | ScrapePanic(cause: ScrapeError)

  /** What an iteration amounts to: a failure notice, a put of the built
      parameters (`None` is the nil input the store rejects), or a panic. */
  datatype Outcome = FetchFailed | Fetched(params: Option<Record>) | Panicked(cause: Panic)

  /** One loop iteration. `order` is the order Go's `range` visits the jar in,
      `stamp` stands for parsing the `Date` text and formatting its Unix
      seconds, `decode` for `url.Parse` followed by `Query`. */
  function CollectOnce(ex: Exchange, order: seq<Host>, stamp: string -> string,
                       decode: string -> Option<Query>): (r: Outcome)
    requires IsEnumeration(order, ApplyWrites(NewJar(), ex.writes))
    ensures r == FetchFailed <==> ex.response.None?
    ensures r == Panicked(NoDateHeader) <==> ex.response.Some? && ex.response.value.dateHeader == []
    ensures r.Fetched? ==>
              && ex.response.Some? && ex.response.value.dateHeader != []
              && ScrapePage(ex.response.value.body, decode).Ok?
    ensures r.Fetched? && r.params.Some? ==>
              && (exists c :: InJar(ApplyWrites(NewJar(), ex.writes), c) && IsSession(c) &&
                                c.value == r.params.value.cookieValue)
              && IsLastSessionValue(Encounter(ApplyWrites(NewJar(), ex.writes), order), r.params.value.cookieValue)
    ensures r.Fetched? && r.params.Some? ==>
              && r.params.value.tableName == TableName
              && r.params.value.timestamp == stamp(ex.response.value.dateHeader[0])
              && r.params.value.cookieName == SessionCookieName
              && exists k :: 0 <= k < |ex.writes| &&
                   Cookie(SessionCookieName, r.params.value.cookieValue) in ex.writes[k].1
    ensures ex.response.Some? && ex.response.value.dateHeader != [] ==>
              match ScrapePage(ex.response.value.body, decode)
              case Err(e) => r == Panicked(ScrapePanic(e))
              case Ok(href) =>
                && r.Fetched?
                && (r.params.Some? ==>
                      r.params.value.state == Lookup(href, "state") &&
                      r.params.value.clientId == Lookup(href, "client_id"))
    ensures r.Fetched? && r.params.Some? && Emissions(ex.response.value.body) == [] ==>
              r.params.value.state == "" && r.params.value.clientId == ""
    ensures r.Fetched? ==> (r.params.None? <==> !HasSessionCookie(ApplyWrites(NewJar(), ex.writes)))
  {
    var jar := ApplyWrites(NewJar(), ex.writes);
    match ex.response
    case None => FetchFailed
    case Some(resp) =>
      if resp.dateHeader == [] then Panicked(NoDateHeader)
      else
        match ScrapePage(resp.body, decode)
        case Err(e) => Panicked(ScrapePanic(e))
        case Ok(href) =>
          var params := ProcessCookies(InputItem(jar, stamp(resp.dateHeader[0]), TableName, href), order);
          RecordCookieFromWrites(ex.writes, params);
          Fetched(params)
  }

  /** A record built over a fresh jar carries a "2K" cookie that one of this
      iteration's writes handed over. */
  lemma {:induction false} RecordCookieFromWrites(ws: seq<Write>, params: Option<Record>)
    requires params.Some? ==> exists c :: InJar(ApplyWrites(NewJar(), ws), c) && IsSession(c) &&
                                          c.value == params.value.cookieValue
    ensures params.Some? ==> exists k :: 0 <= k < |ws| &&
                                         Cookie(SessionCookieName, params.value.cookieValue) in ws[k].1
  {
    if params.Some? {
      var c :| InJar(ApplyWrites(NewJar(), ws), c) && IsSession(c) && c.value == params.value.cookieValue;
      FreshJarHoldsOnlyWrites(ws, c);
      assert c == Cookie(SessionCookieName, params.value.cookieValue);
    }
  }

  /** What `main` visibly does, each event tagged with its loop index. */
  datatype Event =
    | Attempt(i: nat)
    | FailureNotice(i: nat)
    | Put(i: nat, params: Option<Record>)
    | Crash(i: nat, cause: Panic)
    | ProgressNotice(i: nat)
    | Sleep(i: nat)

  /** The progress test of the loop: a nonzero multiple of five. */
  predicate Reports(i: int)
  {
    i % 5 == 0 && i != 0
  }

  /** The events of iterations `i`, `i + 1`, ... of the loop `for i <= count`,
      where `outcome(i)` is what iteration `i` amounts to. A panic ends the
      process: no notice, no sleep, no further iteration. */
  function RunFrom(i: nat, count: int, outcome: nat -> Outcome): seq<Event>
    decreases if i <= count then count + 1 - i else 0
  {
    if i > count then []
    else if outcome(i).Panicked? then [Attempt(i), Crash(i, outcome(i).cause)]
    else [Attempt(i), Done(i, outcome(i))] + Rest(i, count, outcome)
  }

  /** The event for an iteration that did not panic: the failure notice or the put. */
  function Done(i: nat, o: Outcome): Event
    requires !o.Panicked?
  {
    if o.FetchFailed? then FailureNotice(i) else Put(i, o.params)
  }

  /** The notice event of iteration `i`, if it reports. */
  function NoticeEvent(i: nat): seq<Event>
  {
    if Reports(i) then [ProgressNotice(i)] else []
  }

  /** The tail of an iteration that did not panic: the notice, the sleep, the next iteration. */
  function Rest(i: nat, count: int, outcome: nat -> Outcome): seq<Event>
    requires i <= count
    decreases count + 1 - i, 0
  {
    NoticeEvent(i) + [Sleep(i)] + RunFrom(i + 1, count, outcome)
  }

  /** The whole run of `main` with the `count` flag. */
  function Run(count: int, outcome: nat -> Outcome): seq<Event>
  {
    RunFrom(0, count, outcome)
  }

  /** The three kinds of event the loop's counting promises are about. */
  datatype Kind = Attempts | Sleeps | Notices

  predicate IsKind(e: Event, kind: Kind)
  {
    match kind
    case Attempts => e.Attempt?
    case Sleeps => e.Sleep?
    case Notices => e.ProgressNotice?
  }

  /** The indices of the events of one kind, in trace order. */
  function Indices(trace: seq<Event>, kind: Kind): seq<nat>
  {
    if trace == [] then [] else (if IsKind(trace[0], kind) then [trace[0].i] else []) + Indices(trace[1..], kind)
  }

  lemma {:induction false} IndicesAppend(a: seq<Event>, b: seq<Event>, kind: Kind)
    ensures Indices(a + b, kind) == Indices(a, kind) + Indices(b, kind)
  {
    if a == [] {
      assert a + b == b;
    } else {
      assert (a + b)[0] == a[0];
      assert (a + b)[1..] == a[1..] + b;
      IndicesAppend(a[1..], b, kind);
      var head := if IsKind(a[0], kind) then [a[0].i] else [];
      assert Indices(a + b, kind) == head + (Indices(a[1..], kind) + Indices(b, kind));
      assert Indices(a, kind) == head + Indices(a[1..], kind);
    }
  }

  /** `lo, lo + 1, ..., hi`. */
  function Span(lo: nat, hi: int): seq<nat>
    decreases if lo <= hi then hi + 1 - lo else 0
  {
    if lo > hi then [] else [lo] + Span(lo + 1, hi)
  }

  /** The elements of `s` at which the progress test holds. */
  function ReportingIndices(s: seq<nat>): seq<nat>
  {
    if s == [] then [] else (if Reports(s[0]) then [s[0]] else []) + ReportingIndices(s[1..])
  }

  /** The loop indices `main` runs: `0` to `count` inclusive. */
  function LoopIndices(count: int): seq<nat>
  {
    Span(0, count)
  }

  /** The indices at which the progress notice fires. */
  function ProgressIndices(count: int): seq<nat>
  {
    ReportingIndices(LoopIndices(count))
  }

  /** No iteration up to `count` panics. */
  ghost predicate NoPanic(count: int, outcome: nat -> Outcome)
  {
    forall i: nat :: i <= count ==> !outcome(i).Panicked?
  }

  lemma IndicesSingle(e: Event, kind: Kind)
    ensures Indices([e], kind) == if IsKind(e, kind) then [e.i] else []
  {
  }

  /** What iteration `i` shows of one kind of event when it does not panic. */
  function Head(i: nat, kind: Kind): seq<nat>
  {
    if kind == Notices then (if Reports(i) then [i] else []) else [i]
  }

  /** The events of an iteration that does not panic, in order. */
  lemma IterationTrace(i: nat, count: int, outcome: nat -> Outcome)
    requires i <= count && !outcome(i).Panicked?
    ensures RunFrom(i, count, outcome) ==
              [Attempt(i)] + ([Done(i, outcome(i))] + (NoticeEvent(i) + ([Sleep(i)] + RunFrom(i + 1, count, outcome))))
  {
  }

  lemma IndicesCons(e: Event, rest: seq<Event>, kind: Kind)
    ensures Indices([e] + rest, kind) == (if IsKind(e, kind) then [e.i] else []) + Indices(rest, kind)
  {
  }

  /** The events of one panic-free iteration, followed by `tail`, show of one
      kind exactly that iteration's index (if it belongs) and then the tail's. */
  lemma PiecesOf(i: nat, done: Event, tail: seq<Event>, kind: Kind)
    requires done.FailureNotice? || done.Put?
    ensures Indices([Attempt(i)] + ([done] + (NoticeEvent(i) + ([Sleep(i)] + tail))), kind) ==
            Head(i, kind) + Indices(tail, kind)
  {
    var s3 := [Sleep(i)] + tail;
    IndicesCons(Sleep(i), tail, kind);
    if Reports(i) {
      assert NoticeEvent(i) + s3 == [ProgressNotice(i)] + s3;
      IndicesCons(ProgressNotice(i), s3, kind);
    } else {
      assert NoticeEvent(i) + s3 == s3;
    }
    IndicesCons(done, NoticeEvent(i) + s3, kind);
    IndicesCons(Attempt(i), [done] + (NoticeEvent(i) + s3), kind);
  }

  /** The trace of iteration `i` split into its pieces, when it does not panic. */
  lemma IterationPieces(i: nat, count: int, outcome: nat -> Outcome, kind: Kind)
    requires i <= count && !outcome(i).Panicked?
    ensures Indices(RunFrom(i, count, outcome), kind) == Head(i, kind) + Indices(RunFrom(i + 1, count, outcome), kind)
  {
    IterationTrace(i, count, outcome);
    PiecesOf(i, Done(i, outcome(i)), RunFrom(i + 1, count, outcome), kind);
  }

  /** A panic-free iteration does not end the trace: its last event is the
      last event of the iterations after it. */
  lemma IterationKeepsLast(i: nat, count: int, outcome: nat -> Outcome)
    requires i <= count && !outcome(i).Panicked?
    requires RunFrom(i + 1, count, outcome) != []
    ensures RunFrom(i, count, outcome) != []
    ensures RunFrom(i, count, outcome)[|RunFrom(i, count, outcome)| - 1] ==
            RunFrom(i + 1, count, outcome)[|RunFrom(i + 1, count, outcome)| - 1]
  {
  }

  /** A panic-free iteration reports its own outcome right after the attempt:
      the failure notice exactly when the fetch failed, the put of its
      parameters otherwise. */
  lemma IterationReportsOutcome(i: nat, count: int, outcome: nat -> Outcome)
    requires i <= count && !outcome(i).Panicked?
    ensures |RunFrom(i, count, outcome)| >= 2 && RunFrom(i, count, outcome)[0] == Attempt(i)
    ensures RunFrom(i, count, outcome)[1] == FailureNotice(i) <==> outcome(i).FetchFailed?
    ensures outcome(i).Fetched? ==> RunFrom(i, count, outcome)[1] == Put(i, outcome(i).params)
  {
  }

  /** What a panic-free run from `i` shows of one kind of event. */
  function Expected(i: nat, count: int, kind: Kind): seq<nat>
  {
    if kind == Notices then ReportingIndices(Span(i, count)) else Span(i, count)
  }

  lemma ExpectedCons(i: nat, count: int, kind: Kind)
    requires i <= count
    ensures Expected(i, count, kind) == Head(i, kind) + Expected(i + 1, count, kind)
  {
  }

  lemma {:induction false} RunFromWithoutPanic(i: nat, count: int, outcome: nat -> Outcome, kind: Kind)
    requires NoPanic(count, outcome)
    ensures Indices(RunFrom(i, count, outcome), kind) == Expected(i, count, kind)
    decreases if i <= count then count + 1 - i else 0
  {
    if i <= count {
      assert !outcome(i).Panicked?;
      RunFromWithoutPanic(i + 1, count, outcome, kind);
      IterationPieces(i, count, outcome, kind);
      ExpectedCons(i, count, kind);
    }
  }

  /** Whatever each iteration's fetch does, short of a panic: one attempt and
      one sleep for every index `0..count`, and a progress notice exactly at
      the reporting indices. */
  lemma RunWithoutPanic(count: int, outcome: nat -> Outcome)
    requires NoPanic(count, outcome)
    ensures Indices(Run(count, outcome), Attempts) == LoopIndices(count)
    ensures Indices(Run(count, outcome), Sleeps) == LoopIndices(count)
    ensures Indices(Run(count, outcome), Notices) == ProgressIndices(count)
  {
    RunFromWithoutPanic(0, count, outcome, Attempts);
    RunFromWithoutPanic(0, count, outcome, Sleeps);
    RunFromWithoutPanic(0, count, outcome, Notices);
  }

  lemma {:induction false} SpanSpec(lo: nat, hi: int)
    ensures |Span(lo, hi)| == if lo <= hi then hi + 1 - lo else 0
    ensures forall k :: 0 <= k < |Span(lo, hi)| ==> Span(lo, hi)[k] == lo + k
    decreases if lo <= hi then hi + 1 - lo else 0
  {
    if lo <= hi {
      SpanSpec(lo + 1, hi);
    }
  }

  /** The loop body runs `count + 1` times, at indices `0..count` in order (none for a negative count). */
  lemma LoopIndicesSpec(count: int)
    ensures |LoopIndices(count)| == if count < 0 then 0 else count + 1
    ensures forall k :: 0 <= k < |LoopIndices(count)| ==> LoopIndices(count)[k] == k
  {
    SpanSpec(0, count);
  }

  lemma {:induction false} SpanSnoc(lo: nat, hi: nat)
    requires lo <= hi
    ensures Span(lo, hi) == Span(lo, hi - 1) + [hi]
    decreases hi - lo
  {
    if lo < hi {
      SpanSnoc(lo + 1, hi);
    }
  }

  lemma {:induction false} ReportingIndicesAppend(a: seq<nat>, b: seq<nat>)
    ensures ReportingIndices(a + b) == ReportingIndices(a) + ReportingIndices(b)
  {
    if a == [] {
      assert a + b == b;
    } else {
      assert (a + b)[0] == a[0];
      assert (a + b)[1..] == a[1..] + b;
      ReportingIndicesAppend(a[1..], b);
      var head := if Reports(a[0]) then [a[0]] else [];
      assert ReportingIndices(a + b) == head + (ReportingIndices(a[1..]) + ReportingIndices(b));
      assert ReportingIndices(a) == head + ReportingIndices(a[1..]);
    }
  }

  lemma DivFiveStep(count: nat)
    requires count > 0
    ensures count % 5 == 0 ==> (count - 1) / 5 + 1 == count / 5 && count == 5 * (count / 5)
    ensures count % 5 != 0 ==> (count - 1) / 5 == count / 5
  {
  }

  lemma MultiplesSnoc(n: nat)
    ensures seq(n + 1, k => 5 * (k + 1)) == seq(n, k => 5 * (k + 1)) + [5 * (n + 1)]
  {
  }

  /** The progress notice fires at 5, 10, 15, ... up to `count`, and never at 0. */
  lemma {:induction false} ProgressAtMultiplesOfFive(count: int)
    ensures ProgressIndices(count) == seq(if count < 0 then 0 else count / 5, k => 5 * (k + 1))
    decreases if count < 0 then 0 else count
  {
    if count == 0 {
      assert Span(0, 0) == [0];
    } else if count > 0 {
      ProgressAtMultiplesOfFive(count - 1);
      SpanSnoc(0, count);
      ReportingIndicesAppend(Span(0, count - 1), [count]);
      assert ReportingIndices([count]) == if count % 5 == 0 then [count] else [] by {
        assert [count][1..] == [];
      }
      DivFiveStep(count);
      if count % 5 == 0 {
        MultiplesSnoc((count - 1) / 5);
      }
    }
  }

  /** The inclusive bound: `count = 3` gives four fetch attempts and four
      sleeps, even when some fetches fail. */
  lemma CountThreeRunsFourTimes(outcome: nat -> Outcome)
    requires NoPanic(3, outcome)
    ensures |Indices(Run(3, outcome), Attempts)| == 4
    ensures |Indices(Run(3, outcome), Sleeps)| == 4
  {
    RunWithoutPanic(3, outcome);
    LoopIndicesSpec(3);
  }

  /** A panic at iteration `k` ends the run there: attempts `i..k`, sleeps
      `i..k-1`, and the crash is the last event. */
  lemma {:induction false} RunFromStopsAtPanic(i: nat, count: int, outcome: nat -> Outcome, k: nat)
    requires i <= k <= count && outcome(k).Panicked?
    requires forall m: nat :: i <= m < k ==> !outcome(m).Panicked?
    ensures Indices(RunFrom(i, count, outcome), Attempts) == Span(i, k)
    ensures Indices(RunFrom(i, count, outcome), Sleeps) == Span(i, k - 1)
    ensures RunFrom(i, count, outcome) != [] &&
            RunFrom(i, count, outcome)[|RunFrom(i, count, outcome)| - 1] == Crash(k, outcome(k).cause)
    decreases k - i
  {
    if i == k {
      var run := RunFrom(i, count, outcome);
      assert run == [Attempt(k)] + [Crash(k, outcome(k).cause)];
      IndicesAppend([Attempt(k)], [Crash(k, outcome(k).cause)], Attempts);
      IndicesAppend([Attempt(k)], [Crash(k, outcome(k).cause)], Sleeps);
      IndicesSingle(Attempt(k), Attempts);
      IndicesSingle(Attempt(k), Sleeps);
      IndicesSingle(Crash(k, outcome(k).cause), Attempts);
      IndicesSingle(Crash(k, outcome(k).cause), Sleeps);
      assert Span(k, k) == [k];
    } else {
      RunFromStopsAtPanic(i + 1, count, outcome, k);
      IterationPieces(i, count, outcome, Attempts);
      IterationPieces(i, count, outcome, Sleeps);
      IterationKeepsLast(i, count, outcome);
      assert Span(i, k) == [i] + Span(i + 1, k);
      assert Span(i, k - 1) == [i] + Span(i + 1, k - 1);
    }
  }

  /** In the whole run, a first panic at iteration `k` leaves attempts `0..k`,
      sleeps `0..k-1`, and the crash as the last event. */
  lemma RunStopsAtPanic(count: int, outcome: nat -> Outcome, k: nat)
    requires k <= count && outcome(k).Panicked?
    requires forall m: nat :: m < k ==> !outcome(m).Panicked?
    ensures Indices(Run(count, outcome), Attempts) == LoopIndices(k)
    ensures Indices(Run(count, outcome), Sleeps) == LoopIndices(k - 1)
    ensures Run(count, outcome)[|Run(count, outcome)| - 1] == Crash(k, outcome(k).cause)
  {
    RunFromStopsAtPanic(0, count, outcome, k);
  }
}
