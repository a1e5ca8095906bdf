/**
  One historical-data request: the callback state of the client, the three
  callbacks that change it, the reset that precedes every request, and the
  classification of the state the wait ends in.

  The transport is abstracted to the sequence of callback events it
  delivers before the wait returns. A bar's six values are opaque cells of
  type `V`; nothing here computes with them.
 */
module HistoricalRequest {
  import opened Text

  /** One bar as the callback receives it, and as the client records it. */
  datatype Bar<V> = Bar(date: V, open: V, high: V, low: V, close: V, volume: V)

  /** The callbacks that reach the client during a request. */
  datatype Event<V> =
    | HistoricalData(reqId: int, bar: Bar<V>)
    | HistoricalDataEnd(reqId: int, start: string, end: string)
    | Error(reqId: int, code: int, message: string)

  /** The client's mutable request state, as an immutable value. */
  datatype State<V> = State(data: seq<Bar<V>>, dataReady: bool, errorOccurred: bool, errorMessage: string)

  /** The code the first error branch singles out. */
  const NoDataCode: int := 162
  const NoDataText: string := "HMDS query returned no data"
  /** The error codes that end a request; every other code is only logged. */
  const HistoricalErrorCodes: seq<int> := [162, 200, 354, 2106]

  /** The state of a fresh client, and the state every request resets to. */
  function Fresh<V>(): State<V>
  {
    State([], false, false, "")
  }

  /** `historicalData`: record one bar at the end of the buffer. */
  function OnHistoricalData<V>(s: State<V>, bar: Bar<V>): (t: State<V>)
    ensures |t.data| == |s.data| + 1
    ensures t.data[..|s.data|] == s.data && t.data[|s.data|] == bar
    ensures t.dataReady == s.dataReady && t.errorOccurred == s.errorOccurred
    ensures t.errorMessage == s.errorMessage
  {
    s.(data := s.data + [bar])
  }

  /** `historicalDataEnd`: the request completed; only the ready flag changes. */
  function OnHistoricalDataEnd<V>(s: State<V>): (t: State<V>)
    ensures t.dataReady
    ensures t.data == s.data && t.errorOccurred == s.errorOccurred
    ensures t.errorMessage == s.errorMessage
  {
    s.(dataReady := true)
  }

  /**
    `error`: a code from the fixed list marks the request failed, keeps the
    message and releases the wait; any other code changes nothing. The
    special case for code 162 with the no-data text has the same effect as
    the general branch, so the message text never matters.
   */
  function OnError<V>(s: State<V>, code: int, message: string): (t: State<V>)
    ensures code in HistoricalErrorCodes ==>
      t == State(s.data, true, true, message)
    ensures code !in HistoricalErrorCodes ==> t == s
  {
    if code == NoDataCode && Contains(message, NoDataText) then
      s.(errorOccurred := true, errorMessage := message, dataReady := true)
    else if code in HistoricalErrorCodes then
      s.(errorOccurred := true, errorMessage := message, dataReady := true)
    else
      s
  }

  /** Dispatch of one callback. The request id is not looked at. */
  function Step<V>(s: State<V>, e: Event<V>): State<V>
  {
    match e
    case HistoricalData(_, bar) => OnHistoricalData(s, bar)
    case HistoricalDataEnd(_, _, _) => OnHistoricalDataEnd(s)
    case Error(_, code, message) => OnError(s, code, message)
  }

  /** The state after the events, applied in delivery order (the last one last). */
  function Run<V>(s: State<V>, events: seq<Event<V>>): State<V>
    decreases |events|
  {
    if |events| == 0 then s
    else Step(Run(s, events[..|events| - 1]), events[|events| - 1])
  }

  /** An event that fails the request: an error whose code is in the list. */
  predicate IsHistoricalError<V>(e: Event<V>)
  {
    e.Error? && e.code in HistoricalErrorCodes
  }

  /** An event that releases the wait: completion, or a failing error. */
  predicate Releases<V>(e: Event<V>)
  {
    e.HistoricalDataEnd? || IsHistoricalError(e)
  }

  /** The bars carried by the events, in delivery order. */
  function Bars<V>(events: seq<Event<V>>): seq<Bar<V>>
    decreases |events|
  {
    if |events| == 0 then []
    else
      var last := events[|events| - 1];
      Bars(events[..|events| - 1]) + (if last.HistoricalData? then [last.bar] else [])
  }

  /** The request invariant: a failed request has always released the wait. */
  predicate Consistent<V>(s: State<V>)
  {
    s.errorOccurred ==> s.dataReady
  }

  /** Every callback preserves the invariant. */
  lemma StepConsistent<V>(s: State<V>, e: Event<V>)
    requires Consistent(s)
    ensures Consistent(Step(s, e))
  {
  }

  /** From the reset state, every sequence of callbacks keeps the invariant. */
  lemma {:induction false} RunConsistent<V>(s: State<V>, events: seq<Event<V>>)
    requires Consistent(s)
    ensures Consistent(Run(s, events))
    decreases |events|
  {
    if |events| > 0 {
      RunConsistent(s, events[..|events| - 1]);
      StepConsistent(Run(s, events[..|events| - 1]), events[|events| - 1]);
    }
  }

  /** The buffer gains exactly the delivered bars, in delivery order. */
  lemma {:induction false} RunAppendsBars<V>(s: State<V>, events: seq<Event<V>>)
    ensures Run(s, events).data == s.data + Bars(events)
    decreases |events|
  {
    if |events| > 0 {
      RunAppendsBars(s, events[..|events| - 1]);
    }
  }

  /**
    The flags and the message after a sequence of callbacks: the wait is
    released iff it already was or some event releases it; the request has
    failed iff it already had or some listed error arrived, and then the
    message is that of the last such error.
   */
  lemma {:induction false} RunFlags<V>(s: State<V>, events: seq<Event<V>>)
    ensures Run(s, events).dataReady <==>
      s.dataReady || exists k :: 0 <= k < |events| && Releases(events[k])
    ensures Run(s, events).errorOccurred <==>
      s.errorOccurred || exists k :: 0 <= k < |events| && IsHistoricalError(events[k])
    ensures (forall k :: 0 <= k < |events| ==> !IsHistoricalError(events[k])) ==>
      Run(s, events).errorMessage == s.errorMessage
    ensures forall k :: 0 <= k < |events| && IsHistoricalError(events[k]) ==>
      (forall j :: k < j < |events| ==> !IsHistoricalError(events[j])) ==>
      Run(s, events).errorMessage == events[k].message
    decreases |events|
  {
    if |events| > 0 {
      var n := |events| - 1;
      var prefix := events[..n];
      RunFlags(s, prefix);
      assert forall k :: 0 <= k < n ==> prefix[k] == events[k];
      var last := events[n];
      var before := Run(s, prefix);
      if IsHistoricalError(last) {
        assert Run(s, events) == State(before.data, true, true, last.message);
      } else {
        assert Run(s, events).errorMessage == before.errorMessage;
        assert Run(s, events).errorOccurred == before.errorOccurred;
      }
    }
  }

  /** How a request ended. */
  datatype Outcome = Completed | Errored(reason: string) | TimedOut

  /**
    The checks after the wait: an error wins even when completion also
    arrived; otherwise a request that never became ready timed out.
   */
  function Classify<V>(s: State<V>): (o: Outcome)
    ensures o.Completed? <==> s.dataReady && !s.errorOccurred
    ensures o.Errored? <==> s.errorOccurred
    ensures o.Errored? ==> o.reason == s.errorMessage
    ensures o.TimedOut? <==> !s.dataReady && !s.errorOccurred
  {
    if s.errorOccurred then Errored(s.errorMessage)
    else if !s.dataReady then TimedOut
    else Completed
  }

  /** What `request_historical_data` leaves behind: its verdict and the client state. */
  datatype Reply<V> = Reply(success: bool, app: State<V>)

  /**
    `request_historical_data`: reset the client, let the delivered
    callbacks act on it, and report success iff the request completed
    without a listed error. The earlier state of the client has no
    influence on the reply.
   */
  function RequestHistoricalData<V>(app: State<V>, delivered: seq<Event<V>>): (r: Reply<V>)
    ensures r.app.data == Bars(delivered)
    ensures r.success <==>
      (exists k :: 0 <= k < |delivered| && delivered[k].HistoricalDataEnd?)
      && (forall k :: 0 <= k < |delivered| ==> !IsHistoricalError(delivered[k]))
    ensures Consistent(r.app)
  {
    var s := Run(Fresh(), delivered);
    RunAppendsBars(Fresh(), delivered);
    RunFlags(Fresh(), delivered);
    RunConsistent(Fresh(), delivered);
    Reply(Classify(s).Completed?, s)
  }

  /**
    The reset: with no callbacks at all the client is left empty, with both
    flags clear and no message, and the request has timed out.
   */
  lemma ResetClearsState<V>(app: State<V>)
    ensures RequestHistoricalData(app, []).app == State([], false, false, "")
    ensures !RequestHistoricalData(app, []).success
  {
  }

  /**
    The reset discards the client's earlier state: the reply depends only
    on the callbacks delivered during this request's wait.
   */
  lemma RequestIgnoresPriorState<V>(a: State<V>, b: State<V>, delivered: seq<Event<V>>)
    ensures RequestHistoricalData(a, delivered) == RequestHistoricalData(b, delivered)
  {
  }

  /** A listed error fails the request even when completion was also delivered. */
  lemma ErrorOverridesCompletion<V>(app: State<V>, delivered: seq<Event<V>>, k: int)
    requires 0 <= k < |delivered| && IsHistoricalError(delivered[k])
    ensures !RequestHistoricalData(app, delivered).success
    ensures Classify(RequestHistoricalData(app, delivered).app).Errored?
  {
    RunFlags(Fresh(), delivered);
  }

  /** A wait that nothing released is a timeout, and a failure. */
  lemma TimeoutFails<V>(app: State<V>, delivered: seq<Event<V>>)
    requires forall k :: 0 <= k < |delivered| ==> !Releases(delivered[k])
    ensures !RequestHistoricalData(app, delivered).success
    ensures Classify(RequestHistoricalData(app, delivered).app) == TimedOut
  {
    RunFlags(Fresh(), delivered);
  }
}
