/** `parse` (usvisa.go:70-117): cut the document into stream sections,
    inflate each, read the text strings of the inflated content and merge
    the records they spell into one table. */
module Parser {
  import opened ByteStrings
  import opened TextScan
  import opened Batches
  import opened Framing

  /** What the zlib reader (RFC 1950 around RFC 1951) makes of a section:
      `HeaderError` is an error from `zlib.NewReader` (usvisa.go:86-90),
      `DataError` one from `ioutil.ReadAll` (usvisa.go:91-95). */
  datatype Inflation = Inflated(data: ByteString) | HeaderError | DataError

  /** The decoder, given to the model rather than modelled. */
  type Inflater = ByteString -> Inflation

  /** The two errors `parse` returns. */
  datatype ParseError = UnzipInitFailed | UnzipFailed

  /** `parse` either returns a table and an error (`None` for nil), or
      panics at the out-of-range re-slice of usvisa.go:83. */
  datatype ParseResult = Returned(table: BatchTable, err: Option<ParseError>) | SlicePanic

  /** The records of one inflated content stream. */
  function StreamRecords(content: ByteString): seq<Record> {
    Assemble(TextRecords(content))
  }

  /** The records of several inflated streams, in document order. */
  function AllRecords(contents: seq<ByteString>): seq<Record> {
    if contents == [] then [] else StreamRecords(contents[0]) + AllRecords(contents[1..])
  }

  /** The loop body after the slicing, section by section from `table`:
      the first failing inflation returns the table built so far with its
      error; once the sections run out the loop breaks, or panics when the
      last cut was out of range. */
  function Build(sections: seq<ByteString>, outOfRange: bool, table: BatchTable, inflate: Inflater): ParseResult
    decreases |sections|
  {
    if sections == [] then
      if outOfRange then SlicePanic else Returned(table, None)
    else
      match inflate(sections[0])
      case HeaderError => Returned(table, Some(UnzipInitFailed))
      case DataError => Returned(table, Some(UnzipFailed))
      case Inflated(data) => Build(sections[1..], outOfRange, Merge(table, StreamRecords(data)), inflate)
  }

  /** What `parse(pdf)` yields, with `inflate` for the zlib reader. */
  function ParseSpec(pdf: ByteString, inflate: Inflater): ParseResult {
    var f := Sections(pdf);
    Build(f.sections, f.outOfRange, map[], inflate)
  }

  /** usvisa.go:70-117. */
  method Parse(pdf0: ByteString, inflate: Inflater) returns (outcome: ParseResult)
    ensures outcome == ParseSpec(pdf0, inflate)
  {
    var table: BatchTable := map[];
    var pdf := pdf0;
    while true
      invariant Build(Sections(pdf).sections, Sections(pdf).outOfRange, table, inflate) == ParseSpec(pdf0, inflate)
      decreases |pdf|
    {
      ghost var head := pdf;
      var begin := IndexOf(pdf, StreamStartMarker);
      if begin == -1 {
        return Returned(table, None);
      }
      pdf := pdf[begin + |StreamStartMarker|..];
      var end := IndexOf(pdf, StreamStartMarker);
      if end == -1 {
        return Returned(table, None);
      }
      var section := pdf[..end];
      if end + |StreamEndMarker| > |pdf| {
        return SlicePanic;
      }
      pdf := pdf[end + |StreamEndMarker|..];
      assert NextSection(head) == Section(section, pdf);
      match inflate(section)
      case HeaderError =>
        return Returned(table, Some(UnzipInitFailed));
      case DataError =>
        return Returned(table, Some(UnzipFailed));
      case Inflated(unzipped) =>
        var records := ExtractRecords(unzipped);
        table := MergeRecords(records, table);
    }
  }

  /** The contents of the leading sections that inflate, up to the first
      that does not. */
  function InflatedRun(sections: seq<ByteString>, inflate: Inflater): (run: seq<ByteString>)
    ensures |run| <= |sections|
    ensures forall i | 0 <= i < |run| :: inflate(sections[i]) == Inflated(run[i])
    ensures |run| < |sections| ==> !inflate(sections[|run|]).Inflated?
    decreases |sections|
  {
    if sections == [] then []
    else match inflate(sections[0])
      case Inflated(data) => [data] + InflatedRun(sections[1..], inflate)
      case _ => []
  }

  /** The error `parse` returns for a section that does not inflate. */
  function ErrorOf(i: Inflation): ParseError
    requires !i.Inflated?
  {
    if i.HeaderError? then UnzipInitFailed else UnzipFailed
  }

  /** Fail fast, but not all or nothing: the result holds the records of
      every section up to the first that fails to inflate, merged in order,
      with that section's error; only when all inflate does the loop reach
      its end, or the out-of-range re-slice. */
  lemma {:induction false} BuildOutcome(sections: seq<ByteString>, outOfRange: bool, table: BatchTable, inflate: Inflater)
    ensures var run := InflatedRun(sections, inflate);
      var merged := Merge(table, AllRecords(run));
      Build(sections, outOfRange, table, inflate) ==
        if |run| < |sections| then Returned(merged, Some(ErrorOf(inflate(sections[|run|]))))
        else if outOfRange then SlicePanic
        else Returned(merged, None)
    decreases |sections|
  {
    if sections != [] {
      match inflate(sections[0])
      case Inflated(data) =>
        var rest := InflatedRun(sections[1..], inflate);
        BuildOutcome(sections[1..], outOfRange, Merge(table, StreamRecords(data)), inflate);
        assert InflatedRun(sections, inflate) == [data] + rest;
        assert ([data] + rest)[1..] == rest;
        MergeConcat(table, StreamRecords(data), AllRecords(rest));
      case HeaderError =>
      case DataError =>
    }
  }

  /** A document in which the start marker occurs fewer than twice yields
      an empty table and no error. */
  lemma FewerThanTwoMarkers(pdf: ByteString, inflate: Inflater)
    requires !exists b: nat, e: nat | b < e :: OccursAt(pdf, b, StreamStartMarker) && OccursAt(pdf, e, StreamStartMarker)
    ensures ParseSpec(pdf, inflate) == Returned(map[], None)
  {
    NoSectionIffOneMarker(pdf);
  }

  /** Every table `parse` returns, with or without error, holds for each
      case exactly its updates in document order across all the sections
      read, and no key with an empty list. */
  lemma ParsedTable(pdf: ByteString, inflate: Inflater, id: ByteString)
    requires ParseSpec(pdf, inflate).Returned?
    ensures var f := Sections(pdf);
      var t := ParseSpec(pdf, inflate).table;
      var rs := AllRecords(InflatedRun(f.sections, inflate));
      && t == Merge(map[], rs)
      && Updates(t, id) == UpdatesFor(rs, id)
      && (id in t <==> UpdatesFor(rs, id) != [])
      && NonEmptyLists(t)
  {
    var f := Sections(pdf);
    var rs := AllRecords(InflatedRun(f.sections, inflate));
    BuildOutcome(f.sections, f.outOfRange, map[], inflate);
    MergeUpdates(map[], rs, id);
    MergeKeepsNonEmpty(map[], rs);
  }

  /** Reading two runs of sections gives their records one after the other. */
  lemma {:induction false} AllRecordsConcat(a: seq<ByteString>, b: seq<ByteString>)
    ensures AllRecords(a + b) == AllRecords(a) + AllRecords(b)
    decreases |a|
  {
    if a == [] {
      assert a + b == b;
    } else {
      assert (a + b)[1..] == a[1..] + b;
      AllRecordsConcat(a[1..], b);
    }
  }

  /** Updates read from a later section follow those read from earlier ones. */
  lemma LaterSectionsFollow(contents: seq<ByteString>, content: ByteString, id: ByteString)
    ensures UpdatesFor(AllRecords(contents + [content]), id)
         == UpdatesFor(AllRecords(contents), id) + UpdatesFor(StreamRecords(content), id)
  {
    AllRecordsConcat(contents, [content]);
    assert AllRecords([content]) == StreamRecords(content) + AllRecords([]);
    assert StreamRecords(content) + [] == StreamRecords(content);
    UpdatesForConcat(AllRecords(contents), StreamRecords(content), id);
  }
}
