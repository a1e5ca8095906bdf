# Historical-bar acquisition and trading-hours report, modelled in Dafny

This project models two small pieces of logic from a set of scripts that
talk to a brokerage's market-data gateway.

- **Historical-data acquisition** (`looping_data_req.py`). The client keeps a
  request state: a buffer of received bars, a `data_ready` flag, an
  `error_occurred` flag and an error message. Three callbacks change that
  state:
  - `historicalData` appends one bar.
  - `historicalDataEnd` marks the request ready.
  - `error` fails the request, but only for codes 162, 200, 354 and 2106.

  `request_historical_data` resets the state and issues the request. It
  waits, then reports success only when the request became ready without a
  listed error. `main` walks hourly windows over `[start, end)`. It hands a
  window's buffer to the Parquet writer only when the request succeeded, and
  it always advances by one hour. The writer ignores an empty buffer and
  arranges every row as `timestamp, open, high, low, close, volume`.
- **Contract trading hours** (`ticker_lookup.py`). The contract-details
  callback splits the trading-hours and liquid-hours strings on `;` into
  periods. It splits each period at its first `:` into a date and hours. A
  period with no `:` is reported as `CLOSED`.

Modules:

- `Text` (text.dfy): Python's `str.split(sep)`, `str.split(sep, 1)` and
  `sub in s` on `seq<char>`, with `Join` as the inverse of `Split`.
- `TradingHours` (trading_hours.dfy): period and schedule parsing.
- `HistoricalRequest` (historical_request.dfy): the request state, its
  callbacks as pure transitions, the fold `Run` over delivered callbacks,
  the outcome classification and `RequestHistoricalData`.
- `ParquetSink` (parquet_sink.dfy): the column projection and the
  empty-buffer guard. The sink is only "the tables it received, in order".
- `Acquisition` (acquisition.dfy): the hourly windows, the request
  parameters and the loop of `main`, written as the method `AcquireRange`.

Abstractions:

- Instants are integer seconds.
- A bar's six values are opaque cells of one type parameter `V`.
- The transport is a parameter. `deliver(w)` is the sequence of callbacks
  that reach the client during the wait of the window starting at `w`,
  after that window's reset. It may include late callbacks of an earlier
  request, because every request uses the same id and callbacks do not look
  at it. A timeout is a delivered sequence in which nothing releases the
  wait.

Two behaviours of the code are worth stating plainly:

- An error with a code outside the fixed list does **not** release the
  wait: `error` leaves the state unchanged for it (looping_data_req.py:95-104).
  Only a later completion or listed error can end the wait early.
  `HistoricalRequest.OnError` states this.
- The comment at looping_data_req.py:81 says the writer appends to an
  existing file. The code opens a new `ParquetWriter` on that path, which
  does not keep the earlier content (looping_data_req.py:80-83). The model
  therefore claims nothing about the file. It only records which tables the
  writer received.

## Model

| member | source | states |
|---|---|---|
| `Text.Split` | ticker_lookup.py:34 | `str.split(';')` yields one piece per separator plus one, and no piece contains the separator |
| `Text.JoinSplit` | ticker_lookup.py:34 | joining the pieces of a split with the separator restores the input exactly |
| `Text.SplitJoin` | ticker_lookup.py:43 | pieces without the separator come back unchanged, in order, from splitting their join |
| `Text.SplitOnce` | ticker_lookup.py:36 | `str.split(':', 1)` gives two parts iff the text has a `:`; the first part has no `:`; the parts joined by `:` restore the text |
| `Text.SplitOnceIsFirstPiece` | ticker_lookup.py:45 | splitting once keeps the first piece of a full split, and the second part is all later pieces joined back, with their colons |
| `TradingHours.ParsePeriod` | ticker_lookup.py:36-38 | the date has no `:`; with a `:` present, `date + ":" + hours` is the period; without one, the date is the whole period and the hours are `CLOSED` |
| `TradingHours.ParsePeriodOfJoined` | ticker_lookup.py:45-47 | a colon-free date joined by `:` to any hours text parses back to exactly that date and those hours |
| `TradingHours.ClosedIsAmbiguous` | ticker_lookup.py:38 | a period written `date:CLOSED` gets the same report as a bare closed `date` |
| `TradingHours.ParseSchedule` | ticker_lookup.py:34-39 | a schedule gives one entry per `;` plus one, and entry `k` is the parse of the `k`-th period |
| `TradingHours.EmptyScheduleIsOneClosedPeriod` | ticker_lookup.py:34-38 | the empty schedule gives exactly one entry, an empty date with hours `CLOSED` |
| `TradingHours.ParseScheduleOfJoined` | ticker_lookup.py:35-39 | for periods joined with `;`, the report has one entry per period, in input order, each the parse of its period |
| `TradingHours.ScheduleRoundTrip` | ticker_lookup.py:44-47 | when every period has a `:`, writing the entries back as `date:hours` joined by `;` restores the schedule |
| `TradingHours.ReportContractHours` | ticker_lookup.py:33-48 | each report has one entry per period of its own schedule, and entry `k` is the date and hours parsed from period `k` |
| `TradingHours.ReportRoundTrip` | ticker_lookup.py:34-48 | when every period has a `:`, each report written back as `date:hours` joined by `;` restores its own schedule |
| `TradingHours.LiquidHoursLikeTradingHours` | ticker_lookup.py:42-48 | liquid hours are reported by the identical procedure as trading hours |
| `HistoricalRequest.OnHistoricalData` | looping_data_req.py:27-46 | one bar is appended at the end; earlier bars, both flags and the message are unchanged |
| `HistoricalRequest.OnHistoricalDataEnd` | looping_data_req.py:48-53 | the ready flag is set; the buffer, the error flag and the message are unchanged |
| `Text.ContainsIsSlice` | looping_data_req.py:95 | Python's `sub in s` holds exactly when `sub` is the slice of `s` at some position |
| `HistoricalRequest.OnError` | looping_data_req.py:90-104 | codes 162, 200, 354 and 2106 set the error flag, store the message and set the ready flag, whatever the message text; every other code leaves the state unchanged |
| `HistoricalRequest.StepConsistent` | looping_data_req.py:96-104 | no callback can set the error flag without also setting the ready flag |
| `HistoricalRequest.RunConsistent` | looping_data_req.py:126-129 | from the reset state, every callback sequence keeps "error implies ready" |
| `HistoricalRequest.RunAppendsBars` | looping_data_req.py:36-46 | after any callback sequence, the buffer is the earlier buffer followed by exactly the delivered bars, in delivery order |
| `HistoricalRequest.RunFlags` | looping_data_req.py:48-104 | ready iff already ready or some completion or listed error arrived; failed iff already failed or a listed error arrived; the message is that of the last listed error, and unchanged without one |
| `HistoricalRequest.Classify` | looping_data_req.py:150-158 | completed iff ready and not failed; errored iff failed, with the stored message; timed out iff neither flag is set |
| `HistoricalRequest.RequestHistoricalData` | looping_data_req.py:114-158 | after the reset the buffer holds exactly the delivered bars; success iff a completion arrived and no listed error did; the returned state keeps the invariant |
| `HistoricalRequest.ResetClearsState` | looping_data_req.py:126-129 | the reset leaves an empty buffer, both flags clear and an empty message, and with no callbacks the request fails |
| `HistoricalRequest.RequestIgnoresPriorState` | looping_data_req.py:126-129 | the reset discards the client's earlier state: the reply depends only on the callbacks delivered during this request's wait |
| `HistoricalRequest.ErrorOverridesCompletion` | looping_data_req.py:150-152 | a listed error fails the request and classifies it as errored even when completion also arrived |
| `HistoricalRequest.TimeoutFails` | looping_data_req.py:145-156 | when nothing releases the wait, the request fails and is classified as timed out |
| `ParquetSink.ToRow` | looping_data_req.py:74-75 | a row has one cell per column of `timestamp, open, high, low, close, volume`, each the bar's value for that column |
| `ParquetSink.RowRoundTrip` | looping_data_req.py:36-43 | reading a row back by position recovers the recorded bar, so the projection loses nothing |
| `ParquetSink.ToTable` | looping_data_req.py:64-75 | one row per buffered bar, in buffer order, each reading back to its bar |
| `ParquetSink.WriteDataToParquet` | looping_data_req.py:59-61 | an empty buffer leaves the sink unchanged; a non-empty one adds exactly one table of its rows, and earlier tables stay as they were |
| `Acquisition.QueryFor` | looping_data_req.py:196-210 | a window's request ends one hour after the window's start and looks back one hour, so it covers exactly the window; id 101, `5 secs` bars, `TRADES` |
| `Acquisition.WindowStarts` | looping_data_req.py:194-217 | the loop visits `start + 3600*k`, each one hour after the previous; there are no windows for an empty range, and otherwise just enough windows to reach `end` |
| `Acquisition.WindowCountIsCeiling` | looping_data_req.py:195-217 | the number of windows is the ceiling of `(end - start) / 3600` |
| `Acquisition.TwoHourRangeHasTwoWindows` | looping_data_req.py:194-197 | a two-hour range gives exactly two windows, with end instants one hour apart |
| `Acquisition.SuccessfulWindows` | looping_data_req.py:203-214 | the positions of the windows whose request succeeded, strictly increasing, with every successful window listed |
| `Acquisition.PersistedAreSuccessfulBuffers` | looping_data_req.py:212-214 | there are as many handed buffers as successful windows, and buffer `j` is exactly the bars delivered during the wait of the `j`-th successful window, in window order |
| `Acquisition.QueriesCoverRange` | looping_data_req.py:197-217 | consecutive requests end exactly one hour apart, every window starts before `end`, and together they reach `end` |
| `Acquisition.AcquireRange` | looping_data_req.py:194-217 | one request per window, in order, whatever the outcomes; end instants strictly increase by one hour; the writer gets the buffers of exactly the successful windows, in window order, each holding the bars delivered during that window's wait; the sink gains one table per non-empty handed buffer |

## Left out

- The socket connection, the `run_loop` message thread and `disconnect` (looping_data_req.py:107-111, 170-177, 223). They are transport and threading. Callbacks are a delivered sequence instead.
- Sleep-polling, the 60-second ceiling and the one-second pause between windows (looping_data_req.py:146-148, 220). These depend on the wall clock. A wait's result is the state its delivered callbacks produce, and a timeout is a sequence that releases nothing.
- The race between the message thread and the polling thread. Callbacks arriving after the wait returned, but before the buffer is written, are not modelled.
- Acquisition.AcquireRange: does not promise that a window's buffer holds only that window's bars. Every request uses id 101 (looping_data_req.py:133), callbacks ignore the id, and a timed-out request is never cancelled. So bars or a completion of an abandoned earlier request can arrive after the next reset, land in the next window's buffer, release its wait and be written as its data. In the model they are simply part of `deliver(w)`.
- `pandas`/`pyarrow` conversion and Parquet I/O (looping_data_req.py:64-86). This includes the `to_datetime` conversion and its `NaT` fallback.
- ParquetSink.Cell: the timestamp cell is the bar's raw date value, not the converted instant, because the conversion is left out.
- The file itself is not modelled. On an existing path the code opens a new writer, which does not keep the earlier rows. The model claims nothing about file content.
- Request parameters the loop never varies (`useRTH=0`, `formatDate=2`, `keepUpToDate=False`, empty chart options) are not in `Query`.
- Date formatting with `strftime` and calendar arithmetic (looping_data_req.py:191-192, 198). Instants are integer seconds.
- OHLC and volume values are floating point. They stay opaque and no arithmetic is done on them.
- The fixed contract construction in both scripts, and every `print`. The trading-hours report is modelled as the list of (date, hours) entries that would be printed.
- earliest_available_datapoint.py and read_paraquet.py are not part of this model. The first only polls until a callback sets a value and calls a library date parser. The second only reads and prints a file.
