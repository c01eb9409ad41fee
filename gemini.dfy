/**
 * The manuscript generation pipeline of geminiService.ts: the retry wrapper
 * around one remote call (callGeminiWithRetry) and the three-stage
 * orchestrator (generateBookManuscript).
 *
 * The remote client is an oracle: `client(n)` is the outcome of the n-th call
 * made through a `Host`, so the outcomes are consumed in order. `sleep` and the
 * progress callback do not wait or render anything; they append to the host's
 * event log, which therefore records calls, waits and progress reports in the
 * order they happen.
 */
module Gemini {
  import opened Wrappers
  import opened Text
  import opened Types

  /**
   * What one remote call does: respond (its text, "" when the response has no
   * text) or raise an error (its message, "" when it has none).
   */
  datatype Outcome = Responded(text: string) | Raised(message: string)

  /** A thrown value: an error, or `undefined` when the wrapper made no attempt at all. */
  datatype Thrown = Undefined | Error(message: string)

  /** What the retry wrapper produces: the response text, or what it throws. */
  datatype CallResult = Returned(text: string) | Threw(thrown: Thrown)

  /** One observable step: a remote call, a wait, or a progress report. */
  datatype Event = Called | Slept(ms: nat) | Reported(status: string)

  const DefaultMaxRetries: nat := 3
  const BackoffStepMs: nat := 5000
  const PacingMs: nat := 2000

  const OutlineStatus: string := "Menyusun kerangka buku dan kata pengantar..."
  const BibliographyStatus: string := "Menyusun daftar pustaka..."
  const OutlineFailure: string := "Gagal membuat kerangka buku."
  const QuotaExceeded: string := "Batas kecepatan API terlampaui. Sistem telah mencoba mengulang namun server Google masih membatasi akses. Silakan tunggu 1-2 menit lalu coba lagi."

  // ---------------------------------------------------------------------------
  // Failure classification
  // ---------------------------------------------------------------------------

  /** A message marks a rate-limit failure when it holds "429" or, lower-cased, "quota". */
  predicate IsQuotaMessage(message: string)
  {
    Contains(message, "429") || Contains(Lower(message), "quota")
  }

  predicate IsQuotaFailure(o: Outcome)
  {
    o.Raised? && IsQuotaMessage(o.message)
  }

  /** A message without the characters '4', 'q' and 'Q' carries no quota marker. */
  lemma {:induction false} NoMarkerWithout4OrQ(message: string)
    requires '4' !in message && 'q' !in message && 'Q' !in message
    ensures !IsQuotaMessage(message)
  {
    MissingCharRulesOut(message, "429", '4');
    LowerIntroducesOnly(message, 'q', 'Q');
    MissingCharRulesOut(Lower(message), "quota", 'q');
  }

  // ---------------------------------------------------------------------------
  // The retry wrapper, specified
  // ---------------------------------------------------------------------------

  /** How many of the calls next, next + 1, ... fail on quota in a row, counting at most `bound`. */
  function LeadingQuota(client: nat -> Outcome, next: nat, bound: nat): (k: nat)
    ensures k <= bound
    ensures forall n :: next <= n < next + k ==> IsQuotaFailure(client(n))
    ensures k < bound ==> !IsQuotaFailure(client(next + k))
    decreases bound
  {
    if bound == 0 || !IsQuotaFailure(client(next)) then 0
    else 1 + LeadingQuota(client, next + 1, bound - 1)
  }

  /**
   * The events of a wrapped call whose first k attempts failed on quota: a
   * call, then for each retry j = 1 .. k a wait of j * 5000 ms and a call.
   */
  function Attempts(k: nat): (e: seq<Event>)
    ensures |e| == 2 * k + 1
    ensures forall i :: 0 <= i < |e| ==>
      e[i] == if i % 2 == 0 then Called else Slept((i / 2 + 1) * BackoffStepMs)
  {
    if k == 0 then [Called] else Attempts(k - 1) + [Slept(k * BackoffStepMs), Called]
  }

  /** The result of one wrapped call, the number of client calls it made and its events. */
  datatype RetryRun = RetryRun(result: CallResult, calls: nat, events: seq<Event>)

  function Settle(o: Outcome): CallResult
  {
    match o
    case Responded(text) => Returned(text)
    case Raised(message) => Threw(Error(message))
  }

  /**
   * What callGeminiWithRetry does when the client's outcomes start at `next`:
   * with k the number of leading quota failures that still leave an attempt,
   * it makes k + 1 calls, waits 5000 ms, 10000 ms, ... between them and
   * settles with the outcome of the last call made. With no attempt allowed
   * it throws `undefined`.
   */
  function Retry(client: nat -> Outcome, next: nat, maxRetries: nat): (run: RetryRun)
    ensures run.calls <= maxRetries
    ensures maxRetries == 0 ==> run == RetryRun(Threw(Undefined), 0, [])
    ensures maxRetries >= 1 ==> run.calls >= 1 && run.result != Threw(Undefined)
  {
    if maxRetries == 0 then RetryRun(Threw(Undefined), 0, [])
    else
      var k := LeadingQuota(client, next, maxRetries - 1);
      RetryRun(Settle(client(next + k)), k + 1, Attempts(k))
  }

  /** Attempt a is made, responds, and every attempt before it failed on quota. */
  ghost predicate RespondsAfterQuota(client: nat -> Outcome, next: nat, maxRetries: nat, a: nat)
  {
    a < maxRetries
    && client(next + a).Responded?
    && forall n :: next <= n < next + a ==> IsQuotaFailure(client(n))
  }

  /**
   * The wrapper returns a response exactly when one arrives within maxRetries
   * attempts after nothing but quota failures, and it returns that first
   * response unchanged, after a + 1 calls and the waits 5000 .. a * 5000 ms.
   */
  lemma RetryReturnsFirstResponse(client: nat -> Outcome, next: nat, maxRetries: nat)
    ensures Retry(client, next, maxRetries).result.Returned?
        <==> exists a :: RespondsAfterQuota(client, next, maxRetries, a)
    ensures forall a: nat :: RespondsAfterQuota(client, next, maxRetries, a) ==>
      Retry(client, next, maxRetries) == RetryRun(Returned(client(next + a).text), a + 1, Attempts(a))
  {
    if maxRetries >= 1 {
      var k := LeadingQuota(client, next, maxRetries - 1);
      if client(next + k).Responded? {
        assert RespondsAfterQuota(client, next, maxRetries, k);
      }
      assert k < maxRetries - 1 ==> !IsQuotaFailure(client(next + k));
      forall a: nat | RespondsAfterQuota(client, next, maxRetries, a)
        ensures a == k
      {
        assert !IsQuotaFailure(client(next + a));
      }
    }
  }

  /**
   * A failure without the quota marker is thrown right after the attempt that
   * raised it: no wait follows it and no further call is made.
   */
  lemma RetryStopsOnOtherFailure(client: nat -> Outcome, next: nat, maxRetries: nat, a: nat)
    requires a < maxRetries
    requires forall n :: next <= n < next + a ==> IsQuotaFailure(client(n))
    requires client(next + a).Raised? && !IsQuotaMessage(client(next + a).message)
    ensures Retry(client, next, maxRetries)
         == RetryRun(Threw(Error(client(next + a).message)), a + 1, Attempts(a))
  {
    var k := LeadingQuota(client, next, maxRetries - 1);
    assert !IsQuotaFailure(client(next + a));
    assert k < maxRetries - 1 ==> !IsQuotaFailure(client(next + k));
  }

  /**
   * When every allowed attempt fails on quota, the wrapper makes exactly
   * maxRetries calls with maxRetries - 1 waits between them and throws the
   * last error.
   */
  lemma RetryExhausted(client: nat -> Outcome, next: nat, maxRetries: nat)
    requires maxRetries >= 1
    requires forall n :: next <= n < next + maxRetries ==> IsQuotaFailure(client(n))
    ensures IsQuotaFailure(client(next + maxRetries - 1))
    ensures Retry(client, next, maxRetries)
         == RetryRun(Threw(Error(client(next + maxRetries - 1).message)), maxRetries, Attempts(maxRetries - 1))
  {
    var k := LeadingQuota(client, next, maxRetries - 1);
    assert IsQuotaFailure(client(next + k));
    assert IsQuotaFailure(client(next + maxRetries - 1));
  }

  /** With the default of three attempts the waits are 5000 ms and then 10000 ms. */
  lemma DefaultSchedule()
    ensures Attempts(DefaultMaxRetries - 1) == [Called, Slept(5000), Called, Slept(10000), Called]
  {
  }

  // ---------------------------------------------------------------------------
  // Projections of an event log
  // ---------------------------------------------------------------------------

  /** The number of remote calls in a log. */
  function CallCount(events: seq<Event>): nat
  {
    if events == [] then 0
    else CallCount(events[..|events| - 1]) + (if events[|events| - 1] == Called then 1 else 0)
  }

  /** The progress reports of a log, in order. */
  function Statuses(events: seq<Event>): seq<string>
  {
    if events == [] then []
    else Statuses(events[..|events| - 1]) + (if events[|events| - 1].Reported? then [events[|events| - 1].status] else [])
  }

  /** The number of pacing waits (2000 ms) in a log. */
  function PacingCount(events: seq<Event>): nat
  {
    if events == [] then 0
    else PacingCount(events[..|events| - 1]) + (if events[|events| - 1] == Slept(PacingMs) then 1 else 0)
  }

  lemma {:induction false} ProjectionsDistribute(a: seq<Event>, b: seq<Event>)
    ensures CallCount(a + b) == CallCount(a) + CallCount(b)
    ensures Statuses(a + b) == Statuses(a) + Statuses(b)
    ensures PacingCount(a + b) == PacingCount(a) + PacingCount(b)
    decreases |b|
  {
    if b == [] {
      assert a + b == a;
    } else {
      var b' := b[..|b| - 1];
      assert (a + b)[..|a + b| - 1] == a + b';
      assert (a + b)[|a + b| - 1] == b[|b| - 1];
      ProjectionsDistribute(a, b');
    }
  }

  /** A wrapped call whose first k attempts failed on quota logs k + 1 calls, no report and no pacing wait. */
  lemma {:induction false} AttemptsProjections(k: nat)
    ensures CallCount(Attempts(k)) == k + 1
    ensures Statuses(Attempts(k)) == []
    ensures PacingCount(Attempts(k)) == 0
  {
    if k > 0 {
      AttemptsProjections(k - 1);
      ProjectionsDistribute(Attempts(k - 1), [Slept(k * BackoffStepMs), Called]);
      BackoffLogged(k * BackoffStepMs);
    }
  }

  /** A backoff wait (never the 2000 ms pacing wait) and the next attempt's call. */
  lemma BackoffLogged(ms: nat)
    requires ms != PacingMs
    ensures CallCount([Slept(ms), Called]) == 1
    ensures Statuses([Slept(ms), Called]) == []
    ensures PacingCount([Slept(ms), Called]) == 0
  {
    var tail := [Slept(ms), Called];
    var wait := [Slept(ms)];
    assert tail[..1] == wait;
    assert wait[..0] == [];
    assert CallCount(wait) == 0;
    assert Statuses(wait) == [];
    assert PacingCount(wait) == 0;
  }

  /** Every wrapped call logs exactly the calls it counts. */
  lemma RetryCallsLogged(client: nat -> Outcome, next: nat, maxRetries: nat)
    ensures CallCount(Retry(client, next, maxRetries).events) == Retry(client, next, maxRetries).calls
    ensures Statuses(Retry(client, next, maxRetries).events) == []
    ensures PacingCount(Retry(client, next, maxRetries).events) == 0
  {
    if maxRetries >= 1 {
      AttemptsProjections(LeadingQuota(client, next, maxRetries - 1));
    }
  }

  // ---------------------------------------------------------------------------
  // The environment the wrapper and the pipeline run in
  // ---------------------------------------------------------------------------

  /**
   * The remote client, `sleep` and the progress callback. `calls` counts the
   * client calls made so far, so the next call gets `client(calls)`.
   */
  class Host {
    const client: nat -> Outcome
    var calls: nat
    var trace: seq<Event>

    constructor (client: nat -> Outcome)
      ensures this.client == client && calls == 0 && trace == []
    {
      this.client := client;
      calls := 0;
      trace := [];
    }

    /** One `generateContent` call. */
    method Call() returns (o: Outcome)
      modifies this
      ensures o == client(old(calls))
      ensures calls == old(calls) + 1 && trace == old(trace) + [Called]
    {
      o := client(calls);
      calls := calls + 1;
      trace := trace + [Called];
    }

    /** `await sleep(ms)` */
    method Sleep(ms: nat)
      modifies this
      ensures calls == old(calls) && trace == old(trace) + [Slept(ms)]
    {
      trace := trace + [Slept(ms)];
    }

    /** `onProgress(status)` */
    method Report(status: string)
      modifies this
      ensures calls == old(calls) && trace == old(trace) + [Reported(status)]
    {
      trace := trace + [Reported(status)];
    }
  }

  /** Attempt a is the last one made when it is the last allowed or does not fail on quota. */
  lemma RetryEndsAt(client: nat -> Outcome, next: nat, maxRetries: nat, a: nat)
    requires 1 <= a <= maxRetries
    requires forall n :: next <= n < next + a - 1 ==> IsQuotaFailure(client(n))
    requires a == maxRetries || !IsQuotaFailure(client(next + a - 1))
    ensures Retry(client, next, maxRetries) == RetryRun(Settle(client(next + a - 1)), a, Attempts(a - 1))
  {
    var k := LeadingQuota(client, next, maxRetries - 1);
    if k != a - 1 {
      assert false;
    }
  }

  /** The log before attempt a, then its call: the events of a - 1 quota failures and the attempt. */
  lemma TraceAfterAttempt(before: seq<Event>, t: seq<Event>, a: nat)
    requires a >= 1
    requires a == 1 ==> t == before
    requires a > 1 ==> t == before + Attempts(a - 2) + [Slept((a - 1) * BackoffStepMs)]
    ensures t + [Called] == before + Attempts(a - 1)
  {
    if a > 1 {
      assert Attempts(a - 1) == Attempts(a - 2) + [Slept((a - 1) * BackoffStepMs), Called];
      assert [Slept((a - 1) * BackoffStepMs)] + [Called] == [Slept((a - 1) * BackoffStepMs), Called];
    }
  }

  /**
   * callGeminiWithRetry: attempts 1 .. maxRetries; a quota failure on an
   * attempt that is not the last waits attempt * 5000 ms and tries again,
   * any other failure (or a quota failure on the last attempt) is thrown.
   */
  method CallGeminiWithRetry(host: Host, maxRetries: nat) returns (r: CallResult)
    modifies host
    ensures var run := Retry(host.client, old(host.calls), maxRetries);
      r == run.result && host.calls == old(host.calls) + run.calls && host.trace == old(host.trace) + run.events
  {
    ghost var start := host.calls;
    ghost var before := host.trace;
    var lastError: Thrown := Undefined;
    var attempt: nat := 1;
    while attempt <= maxRetries
      invariant 1 <= attempt && (attempt <= maxRetries || maxRetries == 0)
      invariant host.calls == start + attempt - 1
      invariant attempt == 1 ==> host.trace == before
      invariant attempt > 1 ==> host.trace == before + Attempts(attempt - 2) + [Slept((attempt - 1) * BackoffStepMs)]
      invariant forall n :: start <= n < start + attempt - 1 ==> IsQuotaFailure(host.client(n))
      invariant maxRetries == 0 ==> attempt == 1 && lastError == Undefined
    {
      ghost var t0 := host.trace;
      var o := host.Call();
      TraceAfterAttempt(before, t0, attempt);
      if o.Responded? {
        RetryEndsAt(host.client, start, maxRetries, attempt);
        return Returned(o.text);
      }
      lastError := Error(o.message);
      if IsQuotaMessage(o.message) && attempt < maxRetries {
        var waitTime := attempt * BackoffStepMs;
        host.Sleep(waitTime);
        attempt := attempt + 1;
        continue;
      }
      RetryEndsAt(host.client, start, maxRetries, attempt);
      return Threw(lastError);
    }
    return Threw(lastError);
  }

  // ---------------------------------------------------------------------------
  // One wrapped call, as the pipeline sees it
  // ---------------------------------------------------------------------------

  /** One wrapped call with the default three attempts: its outcome, its client calls and its events. */
  datatype CallRun = CallRun(outcome: Outcome, calls: nat, events: seq<Event>)

  /**
   * The wrapped call started at the client's call number `next`. With three
   * attempts allowed it never throws `undefined`, so what it throws is
   * reduced to the error's message.
   */
  function Wrap(client: nat -> Outcome, next: nat): (c: CallRun)
    ensures 1 <= c.calls <= DefaultMaxRetries
  {
    var run := Retry(client, next, DefaultMaxRetries);
    CallRun(if run.result.Returned? then Responded(run.result.text) else Raised(run.result.thrown.message),
            run.calls, run.events)
  }

  /** The wrapped calls of a client, by the call number they start at. */
  function Wrapper(client: nat -> Outcome): nat -> CallRun
  {
    (n: nat) => Wrap(client, n)
  }

  /** `wrapped` describes the wrapped calls of `client`. */
  ghost predicate Wraps(wrapped: nat -> CallRun, client: nat -> Outcome)
  {
    forall n {:trigger Wrap(client, n)} :: wrapped(n) == Wrap(client, n)
  }

  /** `callGeminiWithRetry(ai, params)` with the default number of attempts. */
  method CallWithDefaultRetries(host: Host, ghost wrapped: nat -> CallRun) returns (o: Outcome)
    requires Wraps(wrapped, host.client)
    modifies host
    ensures var call := wrapped(old(host.calls));
      o == call.outcome && host.calls == old(host.calls) + call.calls && host.trace == old(host.trace) + call.events
  {
    ghost var call := Wrap(host.client, host.calls);
    var r := CallGeminiWithRetry(host, DefaultMaxRetries);
    if r.Returned? {
      o := Responded(r.text);
    } else {
      o := Raised(r.thrown.message);
    }
  }

  // ---------------------------------------------------------------------------
  // The pipeline, specified
  // ---------------------------------------------------------------------------

  /**
   * What `JSON.parse` makes of the outline text, reduced to the fields the
   * pipeline reads: the foreword, the introduction and the `toc` field if it
   * is present, or the message of the SyntaxError it throws.
   */
  datatype Parsed = Parsed(foreword: string, introduction: string, toc: Option<seq<string>>) | Unparsable(message: string)

  /** An outline that passed the `toc` check. */
  datatype Outline = Outline(foreword: string, introduction: string, toc: seq<string>)

  /** The result of a stage, the number of client calls it made and its events. */
  datatype Run<T> = Run(result: Result<T, string>, calls: nat, events: seq<Event>)

  /** The text handed to `JSON.parse`: a response without text reads as "{}". */
  function OutlineText(text: string): string
  {
    if text == "" then "{}" else text
  }

  /** The progress report before chapter i (0-based). */
  function ChapterStatus(i: nat, chapterTitle: string): string
  {
    "Menulis Bab " + Decimal(i + 1) + ": " + chapterTitle + "..."
  }

  /** Stage 1: report, one wrapped call, parse, and reject an outline without `toc`. */
  function OutlineStage(wrapped: nat -> CallRun, next: nat, parse: string -> Parsed): Run<Outline>
  {
    var call := wrapped(next);
    var events := [Reported(OutlineStatus)] + call.events;
    match call.outcome
    case Raised(message) => Run(Err(message), call.calls, events)
    case Responded(text) =>
      match parse(OutlineText(text))
      case Unparsable(message) => Run(Err(message), call.calls, events)
      case Parsed(foreword, introduction, toc) =>
        if toc.None? then Run(Err(OutlineFailure), call.calls, events)
        else Run(Ok(Outline(foreword, introduction, toc.value)), call.calls, events)
  }

  /**
   * Stage 2 for the first n chapters: for each, report, wait 2000 ms, one
   * wrapped call, and keep its text; the first failure ends the stage.
   */
  function ChaptersUpTo(wrapped: nat -> CallRun, next: nat, toc: seq<string>, n: nat): Run<seq<string>>
    requires n <= |toc|
  {
    if n == 0 then Run(Ok([]), 0, [])
    else
      var prev := ChaptersUpTo(wrapped, next, toc, n - 1);
      if prev.result.Err? then prev
      else
        var call := wrapped(next + prev.calls);
        var events := prev.events + ([Reported(ChapterStatus(n - 1, toc[n - 1])), Slept(PacingMs)] + call.events);
        match call.outcome
        case Responded(text) => Run(Ok(prev.result.value + [text]), prev.calls + call.calls, events)
        case Raised(message) => Run(Err(message), prev.calls + call.calls, events)
  }

  /** Once a chapter call has failed, later chapters add nothing: no call, no event. */
  lemma {:induction false} ChapterFailureIsFinal(wrapped: nat -> CallRun, next: nat, toc: seq<string>, m: nat, n: nat)
    requires m <= n <= |toc|
    requires ChaptersUpTo(wrapped, next, toc, m).result.Err?
    ensures ChaptersUpTo(wrapped, next, toc, n) == ChaptersUpTo(wrapped, next, toc, m)
    decreases n
  {
    if n > m {
      ChapterFailureIsFinal(wrapped, next, toc, m, n - 1);
    }
  }

  /** Stage 3: report, wait 2000 ms, one wrapped call. */
  function BibliographyStage(wrapped: nat -> CallRun, next: nat): Run<string>
  {
    var call := wrapped(next);
    var events := [Reported(BibliographyStatus), Slept(PacingMs)] + call.events;
    match call.outcome
    case Responded(text) => Run(Ok(text), call.calls, events)
    case Raised(message) => Run(Err(message), call.calls, events)
  }

  /** Stages 2 and 3 after a good outline, then assembly of the book. */
  function AfterOutline(wrapped: nat -> CallRun, next: nat, title: string, author: string, o: Outline): Run<BookContent>
  {
    var chapters := ChaptersUpTo(wrapped, next, o.toc, |o.toc|);
    if chapters.result.Err? then Run(Err(chapters.result.error), chapters.calls, chapters.events)
    else
      var bibliography := BibliographyStage(wrapped, next + chapters.calls);
      var calls := chapters.calls + bibliography.calls;
      var events := chapters.events + bibliography.events;
      if bibliography.result.Err? then Run(Err(bibliography.result.error), calls, events)
      else
        Run(Ok(BookContent(title, author, o.foreword, o.toc, o.introduction, chapters.result.value, bibliography.result.value)),
            calls, events)
  }

  /** The body of the `try` block: the three stages in order, then assembly. */
  function Stages(wrapped: nat -> CallRun, next: nat, title: string, author: string, parse: string -> Parsed): Run<BookContent>
  {
    var outline := OutlineStage(wrapped, next, parse);
    if outline.result.Err? then Run(Err(outline.result.error), outline.calls, outline.events)
    else
      var rest := AfterOutline(wrapped, next + outline.calls, title, author, outline.result.value);
      Run(rest.result, outline.calls + rest.calls, outline.events + rest.events)
  }

  /** The `catch` block: a message with the quota marker becomes the fixed advisory. */
  function AtBoundary(message: string): string
  {
    if IsQuotaMessage(message) then QuotaExceeded else message
  }

  /** The stages followed by the `catch` block. */
  function Finish(run: Run<BookContent>): Run<BookContent>
  {
    match run.result
    case Ok(_) => run
    case Err(message) => Run(Err(AtBoundary(message)), run.calls, run.events)
  }

  /** generateBookManuscript as a whole, over the wrapped calls starting at call number `next`. */
  function Generate(wrapped: nat -> CallRun, next: nat, title: string, author: string, parse: string -> Parsed): Run<BookContent>
  {
    Finish(Stages(wrapped, next, title, author, parse))
  }

  // ---------------------------------------------------------------------------
  // The pipeline, its properties
  // ---------------------------------------------------------------------------

  /** Every wrapped call logs exactly the client calls it counts, and no report or pacing wait. */
  ghost predicate WellLogged(wrapped: nat -> CallRun)
  {
    forall n :: CallCount(wrapped(n).events) == wrapped(n).calls
      && Statuses(wrapped(n).events) == [] && PacingCount(wrapped(n).events) == 0
  }

  /** The wrapped calls of a client are well logged. */
  lemma WrapsWellLogged(wrapped: nat -> CallRun, client: nat -> Outcome)
    requires Wraps(wrapped, client)
    ensures WellLogged(wrapped)
  {
    forall n: nat
      ensures CallCount(wrapped(n).events) == wrapped(n).calls
      ensures Statuses(wrapped(n).events) == [] && PacingCount(wrapped(n).events) == 0
    {
      assert wrapped(n) == Wrap(client, n);
      RetryCallsLogged(client, n, DefaultMaxRetries);
    }
  }

  /** The progress reports of the chapter loop over the first n titles of `toc`, in order. */
  function ChapterStatuses(toc: seq<string>, n: nat): (s: seq<string>)
    requires n <= |toc|
    ensures |s| == n
    ensures forall i :: 0 <= i < n ==> s[i] == ChapterStatus(i, toc[i])
  {
    if n == 0 then [] else ChapterStatuses(toc, n - 1) + [ChapterStatus(n - 1, toc[n - 1])]
  }

  /** The call number at which chapter i's wrapped call starts, once chapters 0 .. i-1 succeeded. */
  function ChapterCallAt(wrapped: nat -> CallRun, next: nat, toc: seq<string>, i: nat): nat
    requires i <= |toc|
  {
    next + ChaptersUpTo(wrapped, next, toc, i).calls
  }

  /** A progress report and a pacing wait, then the events e. */
  lemma PacedStep(status: string, e: seq<Event>)
    ensures CallCount([Reported(status), Slept(PacingMs)] + e) == CallCount(e)
    ensures Statuses([Reported(status), Slept(PacingMs)] + e) == [status] + Statuses(e)
    ensures PacingCount([Reported(status), Slept(PacingMs)] + e) == 1 + PacingCount(e)
  {
    var step := [Reported(status), Slept(PacingMs)];
    var report := [Reported(status)];
    ProjectionsDistribute(step, e);
    assert step[..1] == report;
    assert report[..0] == [];
    assert CallCount(report) == 0;
    assert Statuses(report) == [status];
    assert PacingCount(report) == 0;
  }

  /** A log, then a report, a pacing wait and the events of one well-logged wrapped call. */
  lemma PacedAfter(prefix: seq<Event>, status: string, call: CallRun)
    requires CallCount(call.events) == call.calls && Statuses(call.events) == [] && PacingCount(call.events) == 0
    ensures var e := prefix + ([Reported(status), Slept(PacingMs)] + call.events);
      && CallCount(e) == CallCount(prefix) + call.calls
      && Statuses(e) == Statuses(prefix) + [status]
      && PacingCount(e) == PacingCount(prefix) + 1
  {
    PacedStep(status, call.events);
    ProjectionsDistribute(prefix, [Reported(status), Slept(PacingMs)] + call.events);
  }

  /** A report and the events of one well-logged wrapped call, then a log. */
  lemma HeadedBy(status: string, call: CallRun, rest: seq<Event>)
    requires CallCount(call.events) == call.calls && Statuses(call.events) == [] && PacingCount(call.events) == 0
    ensures var e := [Reported(status)] + call.events + rest;
      && CallCount(e) == call.calls + CallCount(rest)
      && Statuses(e) == [status] + Statuses(rest)
      && PacingCount(e) == PacingCount(rest)
  {
    ProjectionsDistribute([Reported(status)], call.events);
    assert [Reported(status)][..0] == [];
    ProjectionsDistribute([Reported(status)] + call.events, rest);
  }

  /**
   * A chapter loop that succeeded produced one text per title, each the
   * response of that chapter's wrapped call.
   */
  lemma {:induction false} ChaptersSucceeded(wrapped: nat -> CallRun, next: nat, toc: seq<string>, n: nat)
    requires n <= |toc|
    requires ChaptersUpTo(wrapped, next, toc, n).result.Ok?
    ensures var run := ChaptersUpTo(wrapped, next, toc, n);
      && |run.result.value| == n
      && forall i :: 0 <= i < n ==> wrapped(ChapterCallAt(wrapped, next, toc, i)).outcome == Responded(run.result.value[i])
  {
    if n > 0 {
      ChaptersSucceeded(wrapped, next, toc, n - 1);
    }
  }

  /**
   * A chapter loop that succeeded logged one report and one pacing wait per
   * chapter, in order, besides the calls it counts.
   */
  lemma {:induction false} ChaptersLogged(wrapped: nat -> CallRun, next: nat, toc: seq<string>, n: nat)
    requires n <= |toc| && WellLogged(wrapped)
    requires ChaptersUpTo(wrapped, next, toc, n).result.Ok?
    ensures var run := ChaptersUpTo(wrapped, next, toc, n);
      && CallCount(run.events) == run.calls
      && Statuses(run.events) == ChapterStatuses(toc, n)
      && PacingCount(run.events) == n
  {
    if n > 0 {
      var prev := ChaptersUpTo(wrapped, next, toc, n - 1);
      var call := wrapped(next + prev.calls);
      var status := ChapterStatus(n - 1, toc[n - 1]);
      var run := ChaptersUpTo(wrapped, next, toc, n);
      assert run.events == prev.events + ([Reported(status), Slept(PacingMs)] + call.events);
      assert run.calls == prev.calls + call.calls;
      ChaptersLogged(wrapped, next, toc, n - 1);
      PacedAfter(prev.events, status, call);
      assert ChapterStatuses(toc, n) == ChapterStatuses(toc, n - 1) + [status];
    }
  }

  /**
   * The chapter loop fails exactly when some chapter's wrapped call raises
   * after all chapters before it succeeded; it then fails with that message,
   * and no later chapter is reported or called.
   */
  lemma {:induction false} ChapterFailure(wrapped: nat -> CallRun, next: nat, toc: seq<string>, i: nat)
    requires i < |toc|
    requires ChaptersUpTo(wrapped, next, toc, i).result.Ok?
    requires wrapped(ChapterCallAt(wrapped, next, toc, i)).outcome.Raised?
    ensures ChaptersUpTo(wrapped, next, toc, |toc|) == ChaptersUpTo(wrapped, next, toc, i + 1)
    ensures var call := wrapped(ChapterCallAt(wrapped, next, toc, i));
      ChaptersUpTo(wrapped, next, toc, |toc|)
      == Run(Err(call.outcome.message), ChaptersUpTo(wrapped, next, toc, i).calls + call.calls,
             ChaptersUpTo(wrapped, next, toc, i).events + ([Reported(ChapterStatus(i, toc[i])), Slept(PacingMs)] + call.events))
  {
    ChapterFailureIsFinal(wrapped, next, toc, i + 1, |toc|);
  }

  /** A good outline comes from a response whose parse has a `toc`, after one report. */
  lemma OutlineSucceeded(wrapped: nat -> CallRun, next: nat, parse: string -> Parsed)
    requires OutlineStage(wrapped, next, parse).result.Ok?
    ensures var run := OutlineStage(wrapped, next, parse);
      var o := run.result.value;
      && wrapped(next).outcome.Responded?
      && parse(OutlineText(wrapped(next).outcome.text)) == Parsed(o.foreword, o.introduction, Some(o.toc))
      && run.calls == wrapped(next).calls
      && run.events == [Reported(OutlineStatus)] + wrapped(next).events
  {
  }

  /**
   * After a good outline, success means one chapter per `toc` entry, each
   * the response of its wrapped call, and the bibliography response after
   * them, assembled with the outline's fields.
   */
  lemma AfterOutlineSucceeded(wrapped: nat -> CallRun, next: nat, title: string, author: string, o: Outline)
    requires AfterOutline(wrapped, next, title, author, o).result.Ok?
    ensures var book := AfterOutline(wrapped, next, title, author, o).result.value;
      && book == BookContent(title, author, o.foreword, o.toc, o.introduction, book.chapters, book.bibliography)
      && |book.chapters| == |o.toc|
      && (forall i :: 0 <= i < |o.toc| ==> wrapped(ChapterCallAt(wrapped, next, o.toc, i)).outcome == Responded(book.chapters[i]))
      && wrapped(ChapterCallAt(wrapped, next, o.toc, |o.toc|)).outcome == Responded(book.bibliography)
  {
    ChaptersSucceeded(wrapped, next, o.toc, |o.toc|);
  }

  /**
   * After a good outline, a success keeps the outline's `toc` and logs the
   * chapter loop, then the bibliography report, a pacing wait and its call.
   */
  lemma AfterOutlineSplit(wrapped: nat -> CallRun, next: nat, title: string, author: string, o: Outline)
    requires AfterOutline(wrapped, next, title, author, o).result.Ok?
    ensures var run := AfterOutline(wrapped, next, title, author, o);
      var chapters := ChaptersUpTo(wrapped, next, o.toc, |o.toc|);
      var call := wrapped(next + chapters.calls);
      && chapters.result.Ok? && run.result.value.toc == o.toc
      && run.events == chapters.events + ([Reported(BibliographyStatus), Slept(PacingMs)] + call.events)
      && run.calls == chapters.calls + call.calls
  {
  }

  /**
   * After a good outline, a success logs one report and one 2000 ms pacing
   * wait before each chapter and before the bibliography.
   */
  lemma AfterOutlineLogged(wrapped: nat -> CallRun, next: nat, title: string, author: string, o: Outline)
    requires WellLogged(wrapped)
    requires AfterOutline(wrapped, next, title, author, o).result.Ok?
    ensures var run := AfterOutline(wrapped, next, title, author, o);
      && Statuses(run.events) == ChapterStatuses(o.toc, |o.toc|) + [BibliographyStatus]
      && PacingCount(run.events) == |o.toc| + 1
      && CallCount(run.events) == run.calls
  {
    AfterOutlineSplit(wrapped, next, title, author, o);
    ChaptersLogged(wrapped, next, o.toc, |o.toc|);
    BibliographyAfterChapters(AfterOutline(wrapped, next, title, author, o), ChaptersUpTo(wrapped, next, o.toc, |o.toc|), wrapped, next, o.toc);
  }

  /** A successful chapter loop's log, then the bibliography report, a pacing wait and the bibliography call. */
  lemma BibliographyAfterChapters(run: Run<BookContent>, chapters: Run<seq<string>>, wrapped: nat -> CallRun, start: nat,
                                  toc: seq<string>)
    requires var call := wrapped(start + chapters.calls);
      && run.events == chapters.events + ([Reported(BibliographyStatus), Slept(PacingMs)] + call.events)
      && run.calls == chapters.calls + call.calls
      && CallCount(call.events) == call.calls && Statuses(call.events) == [] && PacingCount(call.events) == 0
    requires CallCount(chapters.events) == chapters.calls && Statuses(chapters.events) == ChapterStatuses(toc, |toc|)
    requires PacingCount(chapters.events) == |toc|
    ensures Statuses(run.events) == ChapterStatuses(toc, |toc|) + [BibliographyStatus]
    ensures PacingCount(run.events) == |toc| + 1
    ensures CallCount(run.events) == run.calls
  {
    PacedAfter(chapters.events, BibliographyStatus, wrapped(start + chapters.calls));
  }

  /** The stages succeed exactly when the outline and then the later stages succeed. */
  lemma StagesSplit(wrapped: nat -> CallRun, next: nat, title: string, author: string, parse: string -> Parsed)
    ensures var run := Stages(wrapped, next, title, author, parse);
      var outline := OutlineStage(wrapped, next, parse);
      run.result.Ok? <==>
        outline.result.Ok? && AfterOutline(wrapped, next + outline.calls, title, author, outline.result.value).result.Ok?
  {
  }

  /**
   * When the stages succeed, the book copies the title, the author and the
   * outline's fields through, and holds one chapter per `toc` entry, each the
   * response of its wrapped call, and the bibliography response.
   */
  lemma StagesSucceeded(wrapped: nat -> CallRun, next: nat, title: string, author: string, parse: string -> Parsed)
    requires Stages(wrapped, next, title, author, parse).result.Ok?
    ensures var book := Stages(wrapped, next, title, author, parse).result.value;
      var outlineCall := wrapped(next);
      && outlineCall.outcome.Responded?
      && parse(OutlineText(outlineCall.outcome.text)) == Parsed(book.foreword, book.introduction, Some(book.toc))
      && book.title == title && book.author == author
      && |book.chapters| == |book.toc|
      && (forall i :: 0 <= i < |book.toc| ==>
            wrapped(ChapterCallAt(wrapped, next + outlineCall.calls, book.toc, i)).outcome == Responded(book.chapters[i]))
      && wrapped(ChapterCallAt(wrapped, next + outlineCall.calls, book.toc, |book.toc|)).outcome == Responded(book.bibliography)
  {
    var outline := OutlineStage(wrapped, next, parse);
    OutlineSucceeded(wrapped, next, parse);
    AfterOutlineSucceeded(wrapped, next + outline.calls, title, author, outline.result.value);
  }

  /**
   * When the stages succeed, the reports are the outline status, one per
   * chapter in order and the bibliography status, one pacing wait precedes
   * each chapter and the bibliography, and the log holds every call counted.
   */
  lemma StagesLogged(wrapped: nat -> CallRun, next: nat, title: string, author: string, parse: string -> Parsed)
    requires WellLogged(wrapped)
    requires Stages(wrapped, next, title, author, parse).result.Ok?
    ensures var run := Stages(wrapped, next, title, author, parse);
      var toc := run.result.value.toc;
      && Statuses(run.events) == [OutlineStatus] + ChapterStatuses(toc, |toc|) + [BibliographyStatus]
      && PacingCount(run.events) == |toc| + 1
      && CallCount(run.events) == run.calls
  {
    StagesOutlineFirst(wrapped, next, title, author, parse);
    var o := OutlineStage(wrapped, next, parse).result.value;
    var start := next + wrapped(next).calls;
    AfterOutlineSplit(wrapped, start, title, author, o);
    AfterOutlineLogged(wrapped, start, title, author, o);
    OutlineThenRest(Stages(wrapped, next, title, author, parse), wrapped(next), AfterOutline(wrapped, start, title, author, o), o.toc);
  }

  /** A success logs the outline's report and wrapped call, then the later stages, whose result it returns. */
  lemma StagesOutlineFirst(wrapped: nat -> CallRun, next: nat, title: string, author: string, parse: string -> Parsed)
    requires Stages(wrapped, next, title, author, parse).result.Ok?
    ensures var outline := OutlineStage(wrapped, next, parse);
      && outline.result.Ok?
      && var run := Stages(wrapped, next, title, author, parse);
        var rest := AfterOutline(wrapped, next + wrapped(next).calls, title, author, outline.result.value);
        && run.result == rest.result
        && run.events == [Reported(OutlineStatus)] + wrapped(next).events + rest.events
        && run.calls == wrapped(next).calls + rest.calls
  {
    OutlineSucceeded(wrapped, next, parse);
  }

  /** The outline's report and wrapped call, then the log of the later stages of a success. */
  lemma OutlineThenRest(run: Run<BookContent>, call: CallRun, rest: Run<BookContent>, toc: seq<string>)
    requires run.events == [Reported(OutlineStatus)] + call.events + rest.events
    requires run.calls == call.calls + rest.calls
    requires run.result == rest.result && rest.result.Ok? && rest.result.value.toc == toc
    requires CallCount(call.events) == call.calls && Statuses(call.events) == [] && PacingCount(call.events) == 0
    requires Statuses(rest.events) == ChapterStatuses(toc, |toc|) + [BibliographyStatus]
    requires PacingCount(rest.events) == |toc| + 1 && CallCount(rest.events) == rest.calls
    ensures var toc := run.result.value.toc;
      && Statuses(run.events) == [OutlineStatus] + ChapterStatuses(toc, |toc|) + [BibliographyStatus]
      && PacingCount(run.events) == |toc| + 1
      && CallCount(run.events) == run.calls
  {
    HeadedBy(OutlineStatus, call, rest.events);
    Associate([OutlineStatus], ChapterStatuses(toc, |toc|), [BibliographyStatus]);
  }

  /** Concatenation is associative. */
  lemma Associate<T>(a: seq<T>, b: seq<T>, c: seq<T>)
    ensures a + (b + c) == a + b + c
  {
  }

  /**
   * On a chapter whose wrapped call raises, the whole generation fails with
   * that message: no bibliography is reported or requested and no book is
   * assembled.
   */
  lemma ChapterFailureFailsStages(wrapped: nat -> CallRun, next: nat, title: string, author: string, parse: string -> Parsed, i: nat)
    requires OutlineStage(wrapped, next, parse).result.Ok?
    requires var outline := OutlineStage(wrapped, next, parse);
      var toc := outline.result.value.toc;
      && i < |toc|
      && ChaptersUpTo(wrapped, next + outline.calls, toc, i).result.Ok?
      && wrapped(ChapterCallAt(wrapped, next + outline.calls, toc, i)).outcome.Raised?
    ensures var outline := OutlineStage(wrapped, next, parse);
      var toc := outline.result.value.toc;
      var chapters := ChaptersUpTo(wrapped, next + outline.calls, toc, i + 1);
      Stages(wrapped, next, title, author, parse)
      == Run(Err(wrapped(ChapterCallAt(wrapped, next + outline.calls, toc, i)).outcome.message),
             outline.calls + chapters.calls, outline.events + chapters.events)
  {
    var outline := OutlineStage(wrapped, next, parse);
    ChapterFailure(wrapped, next + outline.calls, outline.result.value.toc, i);
  }

  /** An outline whose `toc` is an empty list is accepted and the book has no chapters. */
  lemma EmptyTocNoChapters(wrapped: nat -> CallRun, next: nat, title: string, author: string, o: Outline)
    requires o.toc == []
    ensures var run := AfterOutline(wrapped, next, title, author, o);
      && run.calls == wrapped(next).calls
      && run.events == [Reported(BibliographyStatus), Slept(PacingMs)] + wrapped(next).events
      && (run.result.Ok? ==> run.result.value.chapters == [])
  {
  }

  /**
   * The boundary changes nothing but the error: the caller sees the book
   * exactly when the stages built one, after the very calls and events of
   * the stages; an error the stages raised with the quota marker reaches the
   * caller only as the fixed advisory, any other error unchanged.
   */
  lemma BoundaryHidesQuotaMarker(wrapped: nat -> CallRun, next: nat, title: string, author: string, parse: string -> Parsed)
    ensures var stages := Stages(wrapped, next, title, author, parse);
      var run := Generate(wrapped, next, title, author, parse);
      && run.calls == stages.calls && run.events == stages.events
      && (run.result.Ok? <==> stages.result.Ok?)
      && (run.result.Ok? ==> run.result == stages.result)
      && (run.result.Err? ==> run.result.error == QuotaExceeded || !IsQuotaMessage(run.result.error))
      && (run.result.Err? && IsQuotaMessage(stages.result.error) ==> run.result.error == QuotaExceeded)
      && (run.result.Err? && run.result.error != QuotaExceeded ==> run.result.error == stages.result.error)
  {
  }

  /**
   * A successful generation: the book carries the title, the author and the
   * parsed outline, one chapter per `toc` entry (each the response its
   * wrapped call returned) and the bibliography; the reports come in
   * pipeline order, one pacing wait precedes each chapter and the
   * bibliography, and the log holds every call counted.
   */
  lemma GenerateSucceeded(wrapped: nat -> CallRun, next: nat, title: string, author: string, parse: string -> Parsed)
    requires WellLogged(wrapped)
    requires Generate(wrapped, next, title, author, parse).result.Ok?
    ensures var run := Generate(wrapped, next, title, author, parse);
      var book := run.result.value;
      && wrapped(next).outcome.Responded?
      && parse(OutlineText(wrapped(next).outcome.text)) == Parsed(book.foreword, book.introduction, Some(book.toc))
      && book.title == title && book.author == author
      && |book.chapters| == |book.toc|
      && (forall i :: 0 <= i < |book.toc| ==>
            wrapped(ChapterCallAt(wrapped, next + wrapped(next).calls, book.toc, i)).outcome == Responded(book.chapters[i]))
      && Statuses(run.events) == [OutlineStatus] + ChapterStatuses(book.toc, |book.toc|) + [BibliographyStatus]
      && PacingCount(run.events) == |book.toc| + 1
      && CallCount(run.events) == run.calls
  {
    StagesSucceeded(wrapped, next, title, author, parse);
    StagesLogged(wrapped, next, title, author, parse);
  }

  /** "Gagal membuat kerangka buku." carries no quota marker. */
  lemma OutlineFailureUnmarked()
    ensures !IsQuotaMessage(OutlineFailure)
  {
    assert '4' !in OutlineFailure && 'q' !in OutlineFailure && 'Q' !in OutlineFailure;
    NoMarkerWithout4OrQ(OutlineFailure);
  }

  /**
   * An outline response whose parse has no `toc` fails the generation with
   * "Gagal membuat kerangka buku." after the outline call alone.
   */
  lemma MissingTocStopsBeforeChapters(wrapped: nat -> CallRun, next: nat, title: string, author: string, parse: string -> Parsed)
    requires wrapped(next).outcome.Responded?
    requires parse(OutlineText(wrapped(next).outcome.text)).Parsed?
    requires parse(OutlineText(wrapped(next).outcome.text)).toc.None?
    ensures Generate(wrapped, next, title, author, parse)
         == Run(Err(OutlineFailure), wrapped(next).calls, [Reported(OutlineStatus)] + wrapped(next).events)
  {
    OutlineFailureUnmarked();
  }

  // ---------------------------------------------------------------------------
  // The pipeline over the client
  // ---------------------------------------------------------------------------

  /** The client's own wrapped calls satisfy `Wraps`. */
  lemma WrapperWraps(client: nat -> Outcome)
    ensures Wraps(Wrapper(client), client)
  {
  }

  /** A wrapped call whose first attempt responds makes one call and passes the response on. */
  lemma WrappedFirstResponse(client: nat -> Outcome, wrapped: nat -> CallRun, n: nat)
    requires Wraps(wrapped, client)
    requires client(n).Responded?
    ensures wrapped(n) == CallRun(client(n), 1, [Called])
  {
    assert RespondsAfterQuota(client, n, DefaultMaxRetries, 0);
    RetryReturnsFirstResponse(client, n, DefaultMaxRetries);
    assert wrapped(n) == Wrap(client, n);
  }

  /**
   * A wrapped call responds with text t exactly when some attempt a within
   * the default three responds with t after a quota failures.
   */
  lemma WrapResponds(client: nat -> Outcome, n: nat, t: string)
    ensures Wrap(client, n).outcome == Responded(t)
        <==> exists a :: RespondsAfterQuota(client, n, DefaultMaxRetries, a) && client(n + a).text == t
  {
    RetryReturnsFirstResponse(client, n, DefaultMaxRetries);
  }

  /** An outline call that responds without text on its first attempt, when "{}" has no `toc`. */
  lemma EmptyOutline(wrapped: nat -> CallRun, next: nat, title: string, author: string, parse: string -> Parsed)
    requires wrapped(next) == CallRun(Responded(""), 1, [Called])
    requires parse("{}").Parsed? && parse("{}").toc.None?
    ensures Generate(wrapped, next, title, author, parse) == Run(Err(OutlineFailure), 1, [Reported(OutlineStatus), Called])
  {
    var outline := OutlineStage(wrapped, next, parse);
    assert outline == Run(Err(OutlineFailure), 1, [Reported(OutlineStatus)] + [Called]);
    assert [Reported(OutlineStatus)] + [Called] == [Reported(OutlineStatus), Called];
    OutlineFailureUnmarked();
  }

  /** A first outline response without text is parsed as "{}"; if that has no `toc`, one call is made and the generation fails. */
  lemma EmptyOutlineResponse(client: nat -> Outcome, wrapped: nat -> CallRun, next: nat, title: string, author: string,
                             parse: string -> Parsed)
    requires Wraps(wrapped, client)
    requires client(next) == Responded("")
    requires parse("{}").Parsed? && parse("{}").toc.None?
    ensures Generate(wrapped, next, title, author, parse) == Run(Err(OutlineFailure), 1, [Reported(OutlineStatus), Called])
  {
    WrappedFirstResponse(client, wrapped, next);
    EmptyOutline(wrapped, next, title, author, parse);
  }

  /** The texts of the responses to calls start .. start + n - 1. */
  function ResponseTexts(client: nat -> Outcome, start: nat, n: nat): (texts: seq<string>)
    requires forall m :: start <= m < start + n ==> client(m).Responded?
    ensures |texts| == n
    ensures forall i :: 0 <= i < n ==> texts[i] == client(start + i).text
  {
    if n == 0 then [] else ResponseTexts(client, start, n - 1) + [client(start + n - 1).text]
  }

  /** The log of n chapters that each got a response on the first attempt. */
  function PacedCalls(toc: seq<string>, n: nat): (e: seq<Event>)
    requires n <= |toc|
    ensures |e| == 3 * n
    ensures forall i :: 0 <= i < n ==>
      e[3 * i] == Reported(ChapterStatus(i, toc[i])) && e[3 * i + 1] == Slept(PacingMs) && e[3 * i + 2] == Called
  {
    if n == 0 then [] else PacedCalls(toc, n - 1) + [Reported(ChapterStatus(n - 1, toc[n - 1])), Slept(PacingMs), Called]
  }

  /** One more chapter whose wrapped call responds at once: one more text, one more call, three more events. */
  lemma ChapterResponds(wrapped: nat -> CallRun, start: nat, toc: seq<string>, n: nat)
    requires 0 < n <= |toc|
    requires ChaptersUpTo(wrapped, start, toc, n - 1).result.Ok?
    requires ChaptersUpTo(wrapped, start, toc, n - 1).calls == n - 1
    requires wrapped(start + n - 1).outcome.Responded? && wrapped(start + n - 1).calls == 1
    requires wrapped(start + n - 1).events == [Called]
    ensures var prev := ChaptersUpTo(wrapped, start, toc, n - 1);
      ChaptersUpTo(wrapped, start, toc, n)
      == Run(Ok(prev.result.value + [wrapped(start + n - 1).outcome.text]), n,
             prev.events + [Reported(ChapterStatus(n - 1, toc[n - 1])), Slept(PacingMs), Called])
  {
    var step := [Reported(ChapterStatus(n - 1, toc[n - 1])), Slept(PacingMs)];
    assert step + [Called] == [Reported(ChapterStatus(n - 1, toc[n - 1])), Slept(PacingMs), Called];
  }

  /** When every chapter call responds at once, chapter i is the i-th response and each chapter costs one call. */
  lemma {:induction false} ChaptersAllRespond(client: nat -> Outcome, wrapped: nat -> CallRun, start: nat, toc: seq<string>, n: nat)
    requires Wraps(wrapped, client)
    requires n <= |toc|
    requires forall m :: start <= m < start + n ==> client(m).Responded?
    ensures ChaptersUpTo(wrapped, start, toc, n) == Run(Ok(ResponseTexts(client, start, n)), n, PacedCalls(toc, n))
  {
    if n > 0 {
      ChaptersAllRespond(client, wrapped, start, toc, n - 1);
      WrappedFirstResponse(client, wrapped, start + n - 1);
      ChapterResponds(wrapped, start, toc, n);
      assert ResponseTexts(client, start, n) == ResponseTexts(client, start, n - 1) + [client(start + n - 1).text];
      assert PacedCalls(toc, n) == PacedCalls(toc, n - 1) + [Reported(ChapterStatus(n - 1, toc[n - 1])), Slept(PacingMs), Called];
    }
  }

  /** The generation in terms of its three wrapped calls and the chapter loop, when each succeeds. */
  lemma AllStagesSucceed(wrapped: nat -> CallRun, next: nat, title: string, author: string, parse: string -> Parsed,
                         foreword: string, introduction: string, toc: seq<string>, chapters: seq<string>, bibliography: string)
    requires wrapped(next).outcome.Responded?
    requires parse(OutlineText(wrapped(next).outcome.text)) == Parsed(foreword, introduction, Some(toc))
    requires ChaptersUpTo(wrapped, next + wrapped(next).calls, toc, |toc|).result == Ok(chapters)
    requires wrapped(ChapterCallAt(wrapped, next + wrapped(next).calls, toc, |toc|)).outcome == Responded(bibliography)
    ensures var loop := ChaptersUpTo(wrapped, next + wrapped(next).calls, toc, |toc|);
      var bibCall := wrapped(ChapterCallAt(wrapped, next + wrapped(next).calls, toc, |toc|));
      Generate(wrapped, next, title, author, parse)
      == Run(Ok(BookContent(title, author, foreword, toc, introduction, chapters, bibliography)),
             wrapped(next).calls + (loop.calls + bibCall.calls),
             [Reported(OutlineStatus)] + wrapped(next).events
             + (loop.events + ([Reported(BibliographyStatus), Slept(PacingMs)] + bibCall.events)))
  {
  }

  lemma HappyLog(chapterLog: seq<Event>)
    ensures [Reported(OutlineStatus)] + [Called] + (chapterLog + ([Reported(BibliographyStatus), Slept(PacingMs)] + [Called]))
         == [Reported(OutlineStatus), Called] + chapterLog + [Reported(BibliographyStatus), Slept(PacingMs), Called]
  {
  }

  /** A generation whose outline, chapter loop and bibliography each succeed with one call per wrapped call. */
  lemma HappyRun(wrapped: nat -> CallRun, next: nat, title: string, author: string, parse: string -> Parsed,
                 foreword: string, introduction: string, toc: seq<string>, chapters: seq<string>, chapterLog: seq<Event>,
                 bibliography: string)
    requires wrapped(next).outcome.Responded? && wrapped(next).calls == 1 && wrapped(next).events == [Called]
    requires parse(OutlineText(wrapped(next).outcome.text)) == Parsed(foreword, introduction, Some(toc))
    requires ChaptersUpTo(wrapped, next + 1, toc, |toc|) == Run(Ok(chapters), |toc|, chapterLog)
    requires wrapped(next + 1 + |toc|) == CallRun(Responded(bibliography), 1, [Called])
    ensures Generate(wrapped, next, title, author, parse)
         == Run(Ok(BookContent(title, author, foreword, toc, introduction, chapters, bibliography)),
                |toc| + 2,
                [Reported(OutlineStatus), Called] + chapterLog + [Reported(BibliographyStatus), Slept(PacingMs), Called])
  {
    assert ChapterCallAt(wrapped, next + wrapped(next).calls, toc, |toc|) == next + 1 + |toc|;
    AllStagesSucceed(wrapped, next, title, author, parse, foreword, introduction, toc, chapters, bibliography);
    HappyLog(chapterLog);
  }

  /**
   * When every call responds on its first attempt, the book holds the parsed
   * outline, the chapter responses in `toc` order and the bibliography
   * response, after |toc| + 2 calls, each preceded by its report and every
   * call after the outline by a 2000 ms pacing wait.
   */
  lemma HappyPath(client: nat -> Outcome, wrapped: nat -> CallRun, next: nat, title: string, author: string,
                  parse: string -> Parsed, foreword: string, introduction: string, toc: seq<string>)
    requires Wraps(wrapped, client)
    requires forall m :: next <= m < next + |toc| + 2 ==> client(m).Responded?
    requires parse(OutlineText(client(next).text)) == Parsed(foreword, introduction, Some(toc))
    ensures Generate(wrapped, next, title, author, parse)
         == Run(Ok(BookContent(title, author, foreword, toc, introduction,
                               ResponseTexts(client, next + 1, |toc|), client(next + 1 + |toc|).text)),
                |toc| + 2,
                [Reported(OutlineStatus), Called] + PacedCalls(toc, |toc|) + [Reported(BibliographyStatus), Slept(PacingMs), Called])
  {
    WrappedFirstResponse(client, wrapped, next);
    ChaptersAllRespond(client, wrapped, next + 1, toc, |toc|);
    WrappedFirstResponse(client, wrapped, next + 1 + |toc|);
    HappyRun(wrapped, next, title, author, parse, foreword, introduction, toc,
             ResponseTexts(client, next + 1, |toc|), PacedCalls(toc, |toc|), client(next + 1 + |toc|).text);
  }

  /** The report before the first chapter of a book whose first title is "Dasar". */
  lemma FirstChapterStatus()
    ensures ChapterStatus(0, "Dasar") == "Menulis Bab 1: Dasar..."
  {
    assert Decimal(1) == "1";
  }

  /**
   * The two-chapter book "Menulis Efektif" by "Budi": outline F, I, toc
   * ["Dasar", "Lanjutan"], chapters "C1" and "C2", bibliography "B", after
   * four calls.
   */
  lemma MenulisEfektif(client: nat -> Outcome, wrapped: nat -> CallRun, parse: string -> Parsed, outline: string)
    requires Wraps(wrapped, client)
    requires client(0) == Responded(outline) && outline != ""
    requires parse(outline) == Parsed("F", "I", Some(["Dasar", "Lanjutan"]))
    requires client(1) == Responded("C1") && client(2) == Responded("C2") && client(3) == Responded("B")
    ensures var run := Generate(wrapped, 0, "Menulis Efektif", "Budi", parse);
      && run.result == Ok(BookContent("Menulis Efektif", "Budi", "F", ["Dasar", "Lanjutan"], "I", ["C1", "C2"], "B"))
      && run.calls == 4
  {
    HappyPath(client, wrapped, 0, "Menulis Efektif", "Budi", parse, "F", "I", ["Dasar", "Lanjutan"]);
    assert ResponseTexts(client, 1, 2) == ["C1", "C2"];
  }

  /** For a two-chapter book the reports are the outline, chapter 1, chapter 2 and the bibliography, in that order. */
  lemma TwoChapterReports(wrapped: nat -> CallRun, next: nat, title: string, author: string, parse: string -> Parsed)
    requires WellLogged(wrapped)
    requires Generate(wrapped, next, title, author, parse).result.Ok?
    requires |Generate(wrapped, next, title, author, parse).result.value.toc| == 2
    ensures var run := Generate(wrapped, next, title, author, parse);
      var toc := run.result.value.toc;
      Statuses(run.events) == [OutlineStatus, ChapterStatus(0, toc[0]), ChapterStatus(1, toc[1]), BibliographyStatus]
  {
    GenerateSucceeded(wrapped, next, title, author, parse);
  }

  /**
   * A first chapter whose wrapped call raises ends the generation right
   * there: the caller gets the message as the boundary leaves it.
   */
  lemma FirstChapterFails(wrapped: nat -> CallRun, next: nat, title: string, author: string, parse: string -> Parsed,
                          foreword: string, introduction: string, toc: seq<string>)
    requires wrapped(next).outcome.Responded?
    requires parse(OutlineText(wrapped(next).outcome.text)) == Parsed(foreword, introduction, Some(toc)) && |toc| >= 1
    requires wrapped(next + wrapped(next).calls).outcome.Raised?
    ensures var chapterCall := wrapped(next + wrapped(next).calls);
      Generate(wrapped, next, title, author, parse)
      == Run(Err(AtBoundary(chapterCall.outcome.message)), wrapped(next).calls + chapterCall.calls,
             [Reported(OutlineStatus)] + wrapped(next).events
             + ([Reported(ChapterStatus(0, toc[0])), Slept(PacingMs)] + chapterCall.events))
  {
    var outline := OutlineStage(wrapped, next, parse);
    assert ChaptersUpTo(wrapped, next + outline.calls, toc, 0).result.Ok?;
    ChapterFailure(wrapped, next + outline.calls, toc, 0);
  }

  lemma LogOfFirstChapterFailure(report: Event)
    ensures [Reported(OutlineStatus)] + [Called] + ([report, Slept(PacingMs)] + [Called, Slept(5000), Called, Slept(10000), Called])
         == [Reported(OutlineStatus), Called, report, Slept(PacingMs), Called, Slept(5000), Called, Slept(10000), Called]
  {
  }

  /**
   * When the three attempts of the first chapter all fail with "429", the
   * caller gets the fixed advisory after four calls and the waits 2000,
   * 5000 and 10000 ms; no book is returned.
   */
  lemma ChapterQuotaExhausted(client: nat -> Outcome, wrapped: nat -> CallRun, next: nat, title: string, author: string,
                              parse: string -> Parsed, foreword: string, introduction: string, toc: seq<string>)
    requires Wraps(wrapped, client)
    requires client(next).Responded?
    requires parse(OutlineText(client(next).text)) == Parsed(foreword, introduction, Some(toc)) && |toc| >= 1
    requires forall m :: next + 1 <= m <= next + 3 ==> client(m).Raised? && Contains(client(m).message, "429")
    ensures Generate(wrapped, next, title, author, parse)
         == Run(Err(QuotaExceeded), 4,
                [Reported(OutlineStatus), Called, Reported(ChapterStatus(0, toc[0])), Slept(PacingMs),
                 Called, Slept(5000), Called, Slept(10000), Called])
  {
    WrappedFirstResponse(client, wrapped, next);
    RetryExhausted(client, next + 1, DefaultMaxRetries);
    DefaultSchedule();
    var chapterCall := Wrap(client, next + 1);
    assert chapterCall == CallRun(Raised(client(next + 3).message), 3, [Called, Slept(5000), Called, Slept(10000), Called]);
    assert IsQuotaMessage(chapterCall.outcome.message);
    FirstChapterFails(wrapped, next, title, author, parse, foreword, introduction, toc);
    LogOfFirstChapterFailure(Reported(ChapterStatus(0, toc[0])));
  }

  // ---------------------------------------------------------------------------
  // The pipeline, implemented
  // ---------------------------------------------------------------------------

  /** Stage 1 of the `try` block: the outline call, the parse and the `toc` check. */
  method WriteOutline(host: Host, parse: string -> Parsed, ghost wrapped: nat -> CallRun) returns (r: Result<Outline, string>)
    requires Wraps(wrapped, host.client)
    modifies host
    ensures var run := OutlineStage(wrapped, old(host.calls), parse);
      r == run.result && host.calls == old(host.calls) + run.calls && host.trace == old(host.trace) + run.events
  {
    host.Report(OutlineStatus);
    var initialResponse := CallWithDefaultRetries(host, wrapped);
    if initialResponse.Raised? {
      return Err(initialResponse.message);
    }
    var baseData := parse(OutlineText(initialResponse.text));
    if baseData.Unparsable? {
      return Err(baseData.message);
    }
    if baseData.toc.None? {
      return Err(OutlineFailure);
    }
    return Ok(Outline(baseData.foreword, baseData.introduction, baseData.toc.value));
  }

  /** Stage 2 of the `try` block: the chapter loop. */
  method WriteChapters(host: Host, toc: seq<string>, ghost wrapped: nat -> CallRun) returns (r: Result<seq<string>, string>)
    requires Wraps(wrapped, host.client)
    modifies host
    ensures var run := ChaptersUpTo(wrapped, old(host.calls), toc, |toc|);
      r == run.result && host.calls == old(host.calls) + run.calls && host.trace == old(host.trace) + run.events
  {
    ghost var start := host.calls;
    ghost var before := host.trace;
    var chapters: seq<string> := [];
    var i := 0;
    while i < |toc|
      invariant 0 <= i <= |toc|
      invariant ChaptersUpTo(wrapped, start, toc, i).result == Ok(chapters)
      invariant host.calls == start + ChaptersUpTo(wrapped, start, toc, i).calls
      invariant host.trace == before + ChaptersUpTo(wrapped, start, toc, i).events
    {
      ghost var prev := ChaptersUpTo(wrapped, start, toc, i);
      var chapterTitle := toc[i];
      host.Report(ChapterStatus(i, chapterTitle));
      host.Sleep(PacingMs);
      var chapterResponse := CallWithDefaultRetries(host, wrapped);
      ChapterLogged(wrapped, start, toc, i, before, host.trace, host.calls, chapterResponse);
      if chapterResponse.Raised? {
        ChapterFailureIsFinal(wrapped, start, toc, i + 1, |toc|);
        return Err(chapterResponse.message);
      }
      chapters := chapters + [chapterResponse.text];
      i := i + 1;
    }
    return Ok(chapters);
  }

  /** Chapter i after chapters 0 .. i-1 succeeded: its report, wait and wrapped call, and their result. */
  lemma ChapterStep(wrapped: nat -> CallRun, start: nat, toc: seq<string>, i: nat)
    requires i < |toc| && ChaptersUpTo(wrapped, start, toc, i).result.Ok?
    ensures var prev := ChaptersUpTo(wrapped, start, toc, i);
      var call := wrapped(start + prev.calls);
      var run := ChaptersUpTo(wrapped, start, toc, i + 1);
      && run.calls == prev.calls + call.calls
      && run.events == prev.events + ([Reported(ChapterStatus(i, toc[i])), Slept(PacingMs)] + call.events)
      && run.result == (if call.outcome.Responded? then Ok(prev.result.value + [call.outcome.text]) else Err(call.outcome.message))
  {
  }

  /** The host's log, call count and chapters after chapter i, given those before it and the call's outcome o. */
  lemma ChapterLogged(wrapped: nat -> CallRun, start: nat, toc: seq<string>, i: nat, before: seq<Event>, trace: seq<Event>, calls: nat,
                      o: Outcome)
    requires i < |toc| && ChaptersUpTo(wrapped, start, toc, i).result.Ok?
    requires var prev := ChaptersUpTo(wrapped, start, toc, i);
      var call := wrapped(start + prev.calls);
      && trace == before + prev.events + [Reported(ChapterStatus(i, toc[i]))] + [Slept(PacingMs)] + call.events
      && calls == start + prev.calls + call.calls
      && o == call.outcome
    ensures var run := ChaptersUpTo(wrapped, start, toc, i + 1);
      && trace == before + run.events && calls == start + run.calls
      && (o.Raised? ==> run.result == Err(o.message))
      && (o.Responded? ==> run.result == Ok(ChaptersUpTo(wrapped, start, toc, i).result.value + [o.text]))
  {
    var prev := ChaptersUpTo(wrapped, start, toc, i);
    ChapterStep(wrapped, start, toc, i);
    AppendSteps(before, prev.events, Reported(ChapterStatus(i, toc[i])), Slept(PacingMs), wrapped(start + prev.calls).events);
  }

  lemma AppendSteps(a: seq<Event>, b: seq<Event>, x: Event, y: Event, c: seq<Event>)
    ensures a + b + [x] + [y] + c == a + (b + ([x, y] + c))
  {
  }

  /** Stage 3 of the `try` block: the bibliography call. */
  method WriteBibliography(host: Host, ghost wrapped: nat -> CallRun) returns (r: Result<string, string>)
    requires Wraps(wrapped, host.client)
    modifies host
    ensures var run := BibliographyStage(wrapped, old(host.calls));
      r == run.result && host.calls == old(host.calls) + run.calls && host.trace == old(host.trace) + run.events
  {
    host.Report(BibliographyStatus);
    host.Sleep(PacingMs);
    var biblioResponse := CallWithDefaultRetries(host, wrapped);
    if biblioResponse.Raised? {
      return Err(biblioResponse.message);
    }
    return Ok(biblioResponse.text);
  }

  /** Stages 2 and 3 of the `try` block and the assembly of the book. */
  method WriteAfterOutline(host: Host, title: string, author: string, o: Outline, ghost wrapped: nat -> CallRun)
    returns (r: Result<BookContent, string>)
    requires Wraps(wrapped, host.client)
    modifies host
    ensures var run := AfterOutline(wrapped, old(host.calls), title, author, o);
      r == run.result && host.calls == old(host.calls) + run.calls && host.trace == old(host.trace) + run.events
  {
    ghost var start := host.calls;
    ghost var before := host.trace;
    ghost var loop := ChaptersUpTo(wrapped, start, o.toc, |o.toc|);
    var chapters := WriteChapters(host, o.toc, wrapped);
    if chapters.Err? {
      return Err(chapters.error);
    }
    ghost var bib := BibliographyStage(wrapped, start + loop.calls);
    var bibliography := WriteBibliography(host, wrapped);
    Associate(before, loop.events, bib.events);
    if bibliography.Err? {
      return Err(bibliography.error);
    }
    return Ok(BookContent(title, author, o.foreword, o.toc, o.introduction, chapters.value, bibliography.value));
  }

  /** The `try` block of generateBookManuscript: the stages in order, then assembly. */
  method RunStages(host: Host, title: string, author: string, parse: string -> Parsed, ghost wrapped: nat -> CallRun)
    returns (r: Result<BookContent, string>)
    requires Wraps(wrapped, host.client)
    modifies host
    ensures var run := Stages(wrapped, old(host.calls), title, author, parse);
      r == run.result && host.calls == old(host.calls) + run.calls && host.trace == old(host.trace) + run.events
  {
    ghost var start := host.calls;
    ghost var before := host.trace;
    ghost var stage := OutlineStage(wrapped, start, parse);
    var outline := WriteOutline(host, parse, wrapped);
    if outline.Err? {
      assert Stages(wrapped, start, title, author, parse) == Run(Err(outline.error), stage.calls, stage.events);
      return Err(outline.error);
    }
    ghost var rest := AfterOutline(wrapped, start + stage.calls, title, author, outline.value);
    assert Stages(wrapped, start, title, author, parse) == Run(rest.result, stage.calls + rest.calls, stage.events + rest.events);
    r := WriteAfterOutline(host, title, author, outline.value, wrapped);
    Associate(before, stage.events, rest.events);
  }

  /**
   * generateBookManuscript: the stages, with a quota-marked error rewritten
   * into the fixed advisory and every other error passed on unchanged.
   */
  method GenerateBookManuscript(host: Host, title: string, author: string, parse: string -> Parsed, ghost wrapped: nat -> CallRun)
    returns (r: Result<BookContent, string>)
    requires Wraps(wrapped, host.client)
    modifies host
    ensures var run := Generate(wrapped, old(host.calls), title, author, parse);
      r == run.result && host.calls == old(host.calls) + run.calls && host.trace == old(host.trace) + run.events
  {
    var stages := RunStages(host, title, author, parse, wrapped);
    match stages
    case Ok(book) => r := Ok(book);
    case Err(message) =>
      if IsQuotaMessage(message) {
        r := Err(QuotaExceeded);
      } else {
        r := Err(message);
      }
  }
}
