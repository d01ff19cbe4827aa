/** The staleness rule and lookup of `GetBatch` (usvisa.go:234-250). Reading
    the cached table and refreshing it (memcache, the download, `time.Now`)
    are outside the model: their results are parameters. Times are
    nanoseconds on one integer scale. */
module Cache {
  import opened ByteStrings
  import opened Batches
  import opened Parser
  import opened Framing

  /** `time.ParseDuration("1h")`, in nanoseconds. */
  const Hour: int := 3_600_000_000_000

  /** The cached `Table` (usvisa.go:119-122), with its update time already
      parsed. A nil `Batches` map reads as the empty map. */
  datatype Snapshot = Snapshot(updateTime: int, batches: BatchTable)

  /** The result of `ReadTable(c, true)`: a table, or an error. */
  datatype TableRead = Read(table: Snapshot) | ReadFailed

  /** usvisa.go:239-242: refresh when `last + 1h` is strictly before `now`. */
  predicate IsStale(updateTime: int, now: int) {
    updateTime + Hour < now
  }

  /** usvisa.go:247-250: the stored list, or nil (`None`) for an absent id. */
  function Lookup(t: BatchTable, id: ByteString): (r: Option<seq<BatchUpdate>>)
    ensures r.None? <==> id !in t
    ensures r.Some? ==> r.value == t[id]
  {
    if id in t then Some(t[id]) else None
  }

  /** usvisa.go:234-251, with `refreshed` standing for what `RefreshTable`
      would return. */
  function GetBatch(read: TableRead, id: ByteString, now: int, refreshed: Snapshot): (r: Option<seq<BatchUpdate>>)
    ensures read.ReadFailed? ==> r.None?
    ensures read.Read? && !IsStale(read.table.updateTime, now) ==>
      (r.Some? <==> id in read.table.batches) && (r.Some? ==> r.value == read.table.batches[id])
    ensures read.Read? && IsStale(read.table.updateTime, now) ==>
      (r.Some? <==> id in refreshed.batches) && (r.Some? ==> r.value == refreshed.batches[id])
  {
    match read
    case ReadFailed => None
    case Read(table) =>
      var current := if IsStale(table.updateTime, now) then refreshed else table;
      Lookup(current.batches, id)
  }

  /** A table exactly one hour old is still fresh; any older one is stale. */
  lemma StalenessBoundary(updateTime: int)
    ensures !IsStale(updateTime, updateTime)
    ensures !IsStale(updateTime, updateTime + Hour / 2)
    ensures !IsStale(updateTime, updateTime + Hour)
    ensures IsStale(updateTime, updateTime + Hour + 1)
    ensures IsStale(updateTime, updateTime + Hour + Hour / 2)
    ensures forall now :: IsStale(updateTime, now) <==> now - updateTime > Hour
  {
  }

  /** A table produced by `parse` answers each case with its updates in
      document order, and never with an empty list. */
  lemma LookupParsed(pdf: ByteString, inflate: Inflater, id: ByteString)
    requires ParseSpec(pdf, inflate).Returned?
    ensures var rs := AllRecords(InflatedRun(Sections(pdf).sections, inflate));
      var r := Lookup(ParseSpec(pdf, inflate).table, id);
      && (r.None? <==> UpdatesFor(rs, id) == [])
      && (r.Some? ==> r.value == UpdatesFor(rs, id) && r.value != [])
  {
    ParsedTable(pdf, inflate, id);
  }
}
