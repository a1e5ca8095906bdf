/**
  The writer of a window's buffer. Only what decides the rows survives in
  the model: an empty buffer is not written, and every bar becomes a row in
  the fixed column order `timestamp, open, high, low, close, volume`. The
  sink itself is the sequence of tables it has received, oldest first.
 */
module ParquetSink {
  import opened HistoricalRequest

  /** The columns of a written table. */
  datatype Column = Timestamp | Open | High | Low | Close | Volume

  /** The order the writer arranges the columns in. */
  const ColumnOrder: seq<Column> := [Timestamp, Open, High, Low, Close, Volume]

  /** A written row: one cell per column of `ColumnOrder`. */
  type Row<V> = seq<V>
  type Table<V> = seq<Row<V>>

  /** The bar's value under a column name; the timestamp is taken from the bar's date. */
  function Cell<V>(b: Bar<V>, c: Column): V
  {
    match c
    case Timestamp => b.date
    case Open => b.open
    case High => b.high
    case Low => b.low
    case Close => b.close
    case Volume => b.volume
  }

  /** The bar's cells, projected onto the column order. */
  function ToRow<V>(b: Bar<V>): (row: Row<V>)
    ensures |row| == |ColumnOrder|
    ensures forall k :: 0 <= k < |ColumnOrder| ==> row[k] == Cell(b, ColumnOrder[k])
  {
    [b.date, b.open, b.high, b.low, b.close, b.volume]
  }

  /** Reading a row back by position recovers the bar: the projection loses nothing. */
  function FromRow<V>(row: Row<V>): Bar<V>
    requires |row| == |ColumnOrder|
  {
    Bar(row[0], row[1], row[2], row[3], row[4], row[5])
  }

  lemma RowRoundTrip<V>(b: Bar<V>)
    ensures FromRow(ToRow(b)) == b
  {
  }

  /** One row per bar, in buffer order. */
  function ToTable<V>(data: seq<Bar<V>>): (t: Table<V>)
    ensures |t| == |data|
    ensures forall k :: 0 <= k < |data| ==> |t[k]| == |ColumnOrder| && FromRow(t[k]) == data[k]
  {
    seq(|data|, k requires 0 <= k < |data| => ToRow(data[k]))
  }

  /**
    `write_data_to_parquet`: an empty buffer leaves the sink as it was; a
    non-empty one reaches the sink as one table holding exactly its bars,
    in order.
   */
  function WriteDataToParquet<V>(sink: seq<Table<V>>, data: seq<Bar<V>>): (out: seq<Table<V>>)
    ensures |data| == 0 ==> out == sink
    ensures |data| > 0 ==> |out| == |sink| + 1 && out[..|sink|] == sink
    ensures |data| > 0 ==> out[|sink|] == ToTable(data)
  {
    if |data| == 0 then sink
    else sink + [ToTable(data)]
  }
}
