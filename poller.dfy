/**
 * The import poller of wdata_import.py (`_block_on_import`): at most 90
 * polls, each classifying the reported file status case-insensitively.
 * The source sleeps two seconds before each poll; only the number of polls is
 * modelled.  The k-th poll's response is `respond(k)`, supplied by the caller.
 */
module Poller {

  /** The number of polls before the poller gives up (`xrange(90)`). */
  const MaxPolls: nat := 90

  /** The response to one poll: the parsed `body.id` and `body.status`, and the printed form of the whole parsed JSON object (`res`), or a failed request. */
  datatype PollResponse =
    | Received(fileId: string, status: string, raw: string)
    | TransportFailure(detail: string)

  /** How the poller ends. */
  datatype PollOutcome =
    | Succeeded
    | Failed(detail: string)
    | TimedOut
    | TransportError(detail: string)

  /** What one response tells the poller: poll again, or stop with an outcome. */
  datatype Step = Continue | Stop(outcome: PollOutcome)

  /**
   * Python's `unicode.upper()` on one character, restricted to what can matter
   * when the result is compared with an ASCII word: the ASCII letters, and the
   * two non-ASCII letters whose upper case is an ASCII letter (dotless i and
   * long s).  Every other character is kept.
   */
  function UpperChar(c: char): (u: char)
    ensures 'a' <= c <= 'z' ==> u as int == c as int - 32
    ensures u != c ==> ('a' <= c <= 'z' || c == '\U{131}' || c == '\U{17F}')
  {
    if 'a' <= c <= 'z' then (c as int - 32) as char
    else if c == '\U{131}' then 'I'
    else if c == '\U{17F}' then 'S'
    else c
  }

  /** `s.upper()`, character by character. */
  function Upper(s: string): (r: string)
    ensures |r| == |s|
    ensures forall i :: 0 <= i < |s| ==> r[i] == UpperChar(s[i])
  {
    seq(|s|, i requires 0 <= i < |s| => UpperChar(s[i]))
  }

  /** The classification of one poll response (the body of the loop). */
  function StepOf(r: PollResponse): (s: Step)
    ensures s == Continue <==> r.Received? && Upper(r.status) == "IMPORTING"
    ensures r.Received? && Upper(r.status) == "IMPORTED" ==> s == Stop(Succeeded)
    ensures r.Received? && Upper(r.status) != "IMPORTING" && Upper(r.status) != "IMPORTED" ==> s == Stop(Failed(r.raw))
    ensures r.TransportFailure? ==> s == Stop(TransportError(r.detail))
    ensures s.Stop? ==> !s.outcome.TimedOut?
  {
    match r
    case TransportFailure(detail) => Stop(TransportError(detail))
    case Received(_, status, raw) =>
      if Upper(status) == "IMPORTING" then Continue
      else if Upper(status) == "IMPORTED" then Stop(Succeeded)
      else Stop(Failed(raw))
  }

  /**
   * The reference semantics of the loop from poll `tick` on: the outcome and
   * the number of polls issued in all.
   */
  function PollRun(respond: nat -> PollResponse, tick: nat): (r: (PollOutcome, nat))
    requires tick <= MaxPolls
    ensures tick <= r.1 <= MaxPolls && (tick < MaxPolls ==> tick < r.1)
    ensures r.0 == TimedOut ==> r.1 == MaxPolls
    decreases MaxPolls - tick
  {
    if tick == MaxPolls then (TimedOut, MaxPolls)
    else match StepOf(respond(tick))
      case Continue => PollRun(respond, tick + 1)
      case Stop(outcome) => (outcome, tick + 1)
  }

  /**
   * `_block_on_import`: polls until a status other than IMPORTING, a failed
   * request, or the 90th poll.  Returns the outcome and the number of polls.
   */
  method BlockOnImport(respond: nat -> PollResponse) returns (outcome: PollOutcome, polls: nat)
    ensures (outcome, polls) == PollRun(respond, 0)
  {
    for tick := 0 to MaxPolls
      invariant PollRun(respond, tick) == PollRun(respond, 0)
    {
      match respond(tick)
      case TransportFailure(detail) =>
        return TransportError(detail), tick + 1;
      case Received(_, status, raw) =>
        if Upper(status) == "IMPORTING" {
          continue;
        }
        if Upper(status) == "IMPORTED" {
          return Succeeded, tick + 1;
        }
        return Failed(raw), tick + 1;
    }
    return TimedOut, MaxPolls;
  }

  // ---------------------------------------------------------------------------
  // Properties of the poll loop

  /**
   * From poll `tick` on, the run issues between one more poll and the 90th;
   * every poll but the last says IMPORTING; the outcome is what the last one
   * decides, or a timeout exactly when the 90th poll still says IMPORTING.
   */
  lemma {:induction false} PollRunDecidedByLastPoll(respond: nat -> PollResponse, tick: nat)
    requires tick < MaxPolls
    ensures var (outcome, polls) := PollRun(respond, tick);
      && tick < polls <= MaxPolls
      && (forall j :: tick <= j < polls - 1 ==> StepOf(respond(j)) == Continue)
      && (if StepOf(respond(polls - 1)) == Continue
          then outcome == TimedOut && polls == MaxPolls
          else StepOf(respond(polls - 1)) == Stop(outcome))
    decreases MaxPolls - tick
  {
    if StepOf(respond(tick)) == Continue && tick + 1 < MaxPolls {
      PollRunDecidedByLastPoll(respond, tick + 1);
    }
  }

  /**
   * A corollary of `StepOf`'s contract: classifying one response never gives a
   * timeout, so a timeout can only come from `PollRun` running out of polls.
   */
  lemma StopIsNeverTimeout(r: PollResponse)
    ensures StepOf(r) != Stop(TimedOut)
  {
  }

  /**
   * Conversely: if the first k responses say IMPORTING and response k stops,
   * the run ends at poll k + 1 with the outcome response k decides.
   */
  lemma {:induction false} PollRunStopsAtFirstStop(respond: nat -> PollResponse, tick: nat, k: nat)
    requires tick <= k < MaxPolls
    requires forall j :: tick <= j < k ==> StepOf(respond(j)) == Continue
    requires StepOf(respond(k)).Stop?
    ensures PollRun(respond, tick) == (StepOf(respond(k)).outcome, k + 1)
    decreases k - tick
  {
    if tick < k {
      PollRunStopsAtFirstStop(respond, tick + 1, k);
    }
  }

  /** Ninety IMPORTING statuses in a row time the import out after exactly ninety polls. */
  lemma {:induction false} PollRunTimesOut(respond: nat -> PollResponse, tick: nat)
    requires tick <= MaxPolls
    requires forall j :: tick <= j < MaxPolls ==> StepOf(respond(j)) == Continue
    ensures PollRun(respond, tick) == (TimedOut, MaxPolls)
    decreases MaxPolls - tick
  {
    if tick < MaxPolls {
      PollRunTimesOut(respond, tick + 1);
    }
  }

  /**
   * No poll happens after the run ends: two response sources that agree on the
   * polls the run issued give the same run.
   */
  lemma {:induction false} PollRunIgnoresLaterResponses(respond: nat -> PollResponse, other: nat -> PollResponse, tick: nat)
    requires tick <= MaxPolls
    requires forall j :: tick <= j < PollRun(respond, tick).1 ==> other(j) == respond(j)
    ensures PollRun(other, tick) == PollRun(respond, tick)
    decreases MaxPolls - tick
  {
    if tick < MaxPolls {
      PollRunDecidedByLastPoll(respond, tick);
      assert other(tick) == respond(tick);
      if StepOf(respond(tick)) == Continue {
        PollRunIgnoresLaterResponses(respond, other, tick + 1);
      }
    }
  }

  // ---------------------------------------------------------------------------
  // The status comparison

  /** Upper case leaves a word of ASCII capitals unchanged. */
  lemma UpperOfCapitals(s: string)
    requires forall i :: 0 <= i < |s| ==> 'A' <= s[i] <= 'Z'
    ensures Upper(s) == s
  {
  }

  lemma UpperIdempotent(s: string)
    ensures Upper(Upper(s)) == Upper(s)
  {
  }

  /** The comparison ignores case: a status and its upper-case form are classified alike. */
  lemma StatusCaseInsensitive(fileId: string, status: string, raw: string)
    ensures StepOf(Received(fileId, Upper(status), raw)) == StepOf(Received(fileId, status, raw))
  {
    UpperIdempotent(status);
  }

  /** Examples of the classification, including the dotless i that Python upper-cases to I. */
  lemma ClassificationExamples(fileId: string, raw: string)
    ensures StepOf(Received(fileId, "importing", raw)) == Continue
    ensures StepOf(Received(fileId, "Imported", raw)) == Stop(Succeeded)
    ensures StepOf(Received(fileId, "\U{131}mported", raw)) == Stop(Succeeded)
    ensures StepOf(Received(fileId, "ERROR", raw)) == Stop(Failed(raw))
    ensures StepOf(Received(fileId, "QUEUED", raw)) == Stop(Failed(raw))
  {
  }

  // ---------------------------------------------------------------------------
  // The three scenarios of the poller's documented behaviour

  /** IMPORTING, IMPORTING, IMPORTED: success after exactly three polls. */
  lemma SucceedsOnThirdPoll(respond: nat -> PollResponse)
    requires forall j :: 0 <= j < 2 ==> respond(j).Received? && respond(j).status == "IMPORTING"
    requires respond(2).Received? && respond(2).status == "IMPORTED"
    ensures PollRun(respond, 0) == (Succeeded, 3)
  {
    UpperOfCapitals("IMPORTING");
    UpperOfCapitals("IMPORTED");
    PollRunStopsAtFirstStop(respond, 0, 2);
  }

  /** IMPORTING, ERROR: failure after two polls, carrying the second response's printed form. */
  lemma FailsOnSecondPoll(respond: nat -> PollResponse)
    requires respond(0).Received? && respond(0).status == "IMPORTING"
    requires respond(1).Received? && respond(1).status == "ERROR"
    ensures PollRun(respond, 0) == (Failed(respond(1).raw), 2)
  {
    UpperOfCapitals("IMPORTING");
    UpperOfCapitals("ERROR");
    PollRunStopsAtFirstStop(respond, 0, 1);
  }

  /** Ninety IMPORTING statuses: a timeout, and no 91st poll. */
  lemma TimesOutAfterNinetyPolls(respond: nat -> PollResponse)
    requires forall j :: 0 <= j < MaxPolls ==> respond(j).Received? && respond(j).status == "IMPORTING"
    ensures PollRun(respond, 0) == (TimedOut, MaxPolls)
  {
    UpperOfCapitals("IMPORTING");
    PollRunTimesOut(respond, 0);
  }
}
