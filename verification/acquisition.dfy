/**
  The acquisition loop: hourly windows over `[start, end)`, one
  historical-data request per window, the buffer handed to the writer only
  when the request succeeded, and an unconditional advance by one hour.

  Instants are integer seconds. What the transport delivers for the window
  starting at instant `w` is `deliver(w)`: the sequence of callbacks that
  reach the client before its wait returns.
 */
module Acquisition {
  import opened HistoricalRequest
  import opened ParquetSink

  /** The window size, one hour, which is also each request's duration. */
  const WindowSeconds: int := 3600
  const RequestId: int := 101
  const BarSize: string := "5 secs"
  const WhatToShow: string := "TRADES"

  /** The parameters of one historical-data request that vary or matter here. */
  datatype Query = Query(reqId: int, endInstant: int, durationSeconds: int, barSize: string, whatToShow: string)

  /**
    The request for the window starting at `current`: it ends one hour
    later and looks back one hour, so it covers exactly that window.
   */
  function QueryFor(current: int): (q: Query)
    ensures q.endInstant == current + WindowSeconds
    ensures q.endInstant - q.durationSeconds == current
    ensures q.reqId == RequestId && q.barSize == BarSize && q.whatToShow == WhatToShow
  {
    Query(RequestId, current + WindowSeconds, WindowSeconds, BarSize, WhatToShow)
  }

  /**
    The window starts the loop visits: `start`, `start + 3600`, ... for as
    long as they lie before `end`. There are as many as it takes for the
    windows to cover the range, and no more.
   */
  function WindowStarts(start: int, end: int): (ws: seq<int>)
    ensures start >= end ==> ws == []
    ensures start < end ==> WindowSeconds * (|ws| - 1) < end - start <= WindowSeconds * |ws|
    ensures forall k :: 0 <= k < |ws| ==> ws[k] == start + WindowSeconds * k
    decreases end - start
  {
    if start < end then [start] + WindowStarts(start + WindowSeconds, end) else []
  }

  /** The number of windows is the ceiling of the range length over one hour. */
  lemma WindowCountIsCeiling(start: int, end: int)
    requires start < end
    ensures |WindowStarts(start, end)| == (end - start + WindowSeconds - 1) / WindowSeconds
  {
    var n := |WindowStarts(start, end)|;
    var d := end - start + WindowSeconds - 1;
    assert WindowSeconds * n <= d < WindowSeconds * n + WindowSeconds;
    DivisionByBounds(d, n);
  }

  lemma DivisionByBounds(d: int, n: int)
    requires WindowSeconds * n <= d < WindowSeconds * n + WindowSeconds
    ensures d / WindowSeconds == n
  {
    var q := d / WindowSeconds;
    assert d == WindowSeconds * q + d % WindowSeconds;
  }

  /** Two hours from midnight gives exactly two windows, one hour apart. */
  lemma TwoHourRangeHasTwoWindows()
    ensures WindowStarts(0, 7200) == [0, 3600]
    ensures QueryFor(0).endInstant == 3600 && QueryFor(3600).endInstant == 7200
  {
    assert |WindowStarts(0, 7200)| == 2;
  }

  /**
    The buffers the loop hands to the writer: those of the windows whose
    request succeeded, in window order.
   */
  function Persisted<V>(ws: seq<int>, deliver: int -> seq<Event<V>>): seq<seq<Bar<V>>>
    decreases |ws|
  {
    if |ws| == 0 then []
    else
      var reply := RequestHistoricalData(Fresh(), deliver(ws[|ws| - 1]));
      Persisted(ws[..|ws| - 1], deliver) + (if reply.success then [reply.app.data] else [])
  }

  /** The tables that reach the sink: one per non-empty handed buffer, in order. */
  function NonEmptyTables<V>(handed: seq<seq<Bar<V>>>): seq<Table<V>>
    decreases |handed|
  {
    if |handed| == 0 then []
    else
      var last := handed[|handed| - 1];
      NonEmptyTables(handed[..|handed| - 1]) + (if |last| > 0 then [ToTable(last)] else [])
  }

  /** The request for the window starting at `w` succeeds. */
  predicate Succeeds<V>(w: int, deliver: int -> seq<Event<V>>)
  {
    RequestHistoricalData(Fresh(), deliver(w)).success
  }

  /**
    The positions of the windows whose request succeeded: strictly
    increasing, each a successful window, and every successful window listed.
   */
  function SuccessfulWindows<V>(ws: seq<int>, deliver: int -> seq<Event<V>>): (idx: seq<int>)
    ensures forall j :: 0 <= j < |idx| ==> 0 <= idx[j] < |ws| && Succeeds(ws[idx[j]], deliver)
    ensures forall j, j' :: 0 <= j < j' < |idx| ==> idx[j] < idx[j']
    ensures forall k :: 0 <= k < |ws| && Succeeds(ws[k], deliver) ==> k in idx
    decreases |ws|
  {
    if |ws| == 0 then []
    else
      var n := |ws| - 1;
      assert forall k :: 0 <= k < n ==> ws[..n][k] == ws[k];
      SuccessfulWindows(ws[..n], deliver) + (if Succeeds(ws[n], deliver) then [n] else [])
  }

  /**
    The handed buffers, in order and with multiplicity: buffer `j` holds
    exactly the bars delivered during the wait of the `j`-th successful
    window, and there are as many buffers as successful windows.
   */
  lemma {:induction false} PersistedAreSuccessfulBuffers<V>(ws: seq<int>, deliver: int -> seq<Event<V>>)
    ensures |Persisted(ws, deliver)| == |SuccessfulWindows(ws, deliver)|
    ensures forall j :: 0 <= j < |Persisted(ws, deliver)| ==>
      Persisted(ws, deliver)[j] == Bars(deliver(ws[SuccessfulWindows(ws, deliver)[j]]))
    decreases |ws|
  {
    if |ws| > 0 {
      var n := |ws| - 1;
      PersistedAreSuccessfulBuffers(ws[..n], deliver);
      var prior := SuccessfulWindows(ws[..n], deliver);
      forall j | 0 <= j < |prior|
        ensures ws[..n][prior[j]] == ws[prior[j]]
      {
      }
    }
  }

  /**
    One turn of the loop: the request for window `k` extends the handed
    buffers when it succeeded, and the writer then extends the sink to match.
   */
  lemma AdvanceWindow<V>(ws: seq<int>, k: int, deliver: int -> seq<Event<V>>,
                         handed: seq<seq<Bar<V>>>, reply: Reply<V>)
    requires 0 <= k < |ws|
    requires handed == Persisted(ws[..k], deliver)
    requires reply == RequestHistoricalData(Fresh(), deliver(ws[k]))
    ensures reply.success ==> handed + [reply.app.data] == Persisted(ws[..k + 1], deliver)
    ensures reply.success ==>
      NonEmptyTables(handed + [reply.app.data]) == WriteDataToParquet(NonEmptyTables(handed), reply.app.data)
    ensures !reply.success ==> handed == Persisted(ws[..k + 1], deliver)
  {
    assert ws[..k + 1][..k] == ws[..k];
    var extended := handed + [reply.app.data];
    assert extended[..|handed|] == handed;
  }

  /** Consecutive windows start one hour apart, and the last one is the last before `end`. */
  lemma NextWindow(start: int, end: int, k: int)
    requires 0 <= k < |WindowStarts(start, end)|
    ensures k + 1 < |WindowStarts(start, end)| <==> WindowStarts(start, end)[k] + WindowSeconds < end
  {
  }

  /**
    The requests for the windows end one hour apart, each window starts
    before `end`, and together they reach `end`.
   */
  lemma QueriesCoverRange(start: int, end: int, queries: seq<Query>)
    requires |queries| == |WindowStarts(start, end)|
    requires forall k :: 0 <= k < |queries| ==> queries[k] == QueryFor(WindowStarts(start, end)[k])
    ensures forall k :: 0 < k < |queries| ==> queries[k].endInstant == queries[k - 1].endInstant + WindowSeconds
    ensures forall k :: 0 <= k < |queries| ==> queries[k].endInstant - WindowSeconds < end
    ensures start < end ==> end <= start + WindowSeconds * |queries|
  {
    var ws := WindowStarts(start, end);
    forall k | 0 <= k < |queries|
      ensures ws[k] < end
    {
      assert ws[k] == start + WindowSeconds * k;
    }
  }

  /**
    `main`'s loop. Every window in the range gets exactly one request, in
    order, each ending one hour after the previous one whatever the earlier
    outcomes were; the writer receives exactly the buffers of the successful
    windows, and the sink gains a table for each non-empty one.
   */
  method AcquireRange<V>(start: int, end: int, deliver: int -> seq<Event<V>>)
    returns (queries: seq<Query>, handed: seq<seq<Bar<V>>>, sink: seq<Table<V>>)
    ensures |queries| == |WindowStarts(start, end)|
    ensures forall k :: 0 <= k < |queries| ==> queries[k] == QueryFor(WindowStarts(start, end)[k])
    ensures forall k :: 0 < k < |queries| ==> queries[k].endInstant == queries[k - 1].endInstant + WindowSeconds
    ensures forall k :: 0 <= k < |queries| ==> queries[k].endInstant - WindowSeconds < end
    ensures start < end ==> end <= start + WindowSeconds * |queries|
    ensures handed == Persisted(WindowStarts(start, end), deliver)
    ensures sink == NonEmptyTables(handed)
  {
    ghost var ws := WindowStarts(start, end);
    var app: State<V> := Fresh();
    queries, handed, sink := [], [], [];
    var current := start;
    ghost var k := 0;
    while current < end
      invariant 0 <= k <= |ws|
      invariant k < |ws| <==> current < end
      invariant k < |ws| ==> current == ws[k]
      invariant |queries| == k
      invariant forall j :: 0 <= j < k ==> queries[j] == QueryFor(ws[j])
      invariant handed == Persisted(ws[..k], deliver)
      invariant sink == NonEmptyTables(handed)
      decreases end - current
    {
      NextWindow(start, end, k);
      queries := queries + [QueryFor(current)];
      var reply := RequestHistoricalData(app, deliver(current));
      RequestIgnoresPriorState(app, Fresh(), deliver(current));
      AdvanceWindow(ws, k, deliver, handed, reply);
      app := reply.app;
      if reply.success {
        sink := WriteDataToParquet(sink, app.data);
        handed := handed + [app.data];
      }
      current := current + WindowSeconds;
      k := k + 1;
    }
    assert ws[..k] == ws;
    QueriesCoverRange(start, end, queries);
  }
}
