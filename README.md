# usvisa document parser, in Dafny

A model of the parser at the heart of the usvisa service
(`usvisa/usvisa/usvisa.go`). The service downloads a PDF that lists visa
administrative-processing updates and turns it into a `BatchTable`. That table
maps each case id to the status updates printed for it. Lookups are served
from a cached copy that is refreshed once it is more than an hour old.

`parse` (usvisa.go:70-117) runs a loop with three steps:

1. **Section slicing.** Find the stream start marker `stream` CR LF, then
   find the *next start marker* after it. The bytes between them are the
   section. The cursor then moves on by the length of the end marker
   `endstream` CR LF (11 bytes). The end marker is "end" followed by the
   start marker, so the second search lands three bytes into an
   `endstream`. The section therefore ends with "end", and three bytes after
   the end marker are skipped. If fewer than three bytes follow, Go's
   re-slice panics (module `Framing`).
2. **Inflation and text extraction.** Each section goes through the zlib
   reader. The decoder is given as a parameter. Two regular-expression scans
   then read each text object `BT` CR LF … `ET` CR LF (`(?s)`, lazy). Inside
   each object they read the literal strings `(`…`)` (lazy; no newline
   inside). The strings of one text object are joined into ONE string with no
   separator (module `TextScan`).
3. **Record assembly and merge.** The loop walks the strings with an index
   `i` while `i < len - 2`. A string is a case id when Go's
   `strconv.ParseInt(s, 10, 64)` accepts it and its value is in
   [20000000000, 29000000000). A case id makes a record of itself and the next
   two strings, and `i` moves on by three; any other string moves `i` on by
   one. Each record's update is appended to the table entry for the id,
   spelled as in the document (modules `CaseIds` and `Batches`).

Module `Parser` strings these steps together. `Parse` is the loop itself.
It is proved equal to `ParseSpec`, a definition section by section. Module
`Cache` models the staleness rule and the lookup of `GetBatch`.

Two consequences of the code that a reader might not expect:

- The strings of each text object are joined into one record string
  (usvisa.go:97-103). So a case id, its status and its date have to stand in
  three separate text objects for a record to form.
- `parse` returns the table built so far together with the decompression
  error (usvisa.go:86-95), and `RefreshTable` stores whatever table comes
  back, so a refresh can store a partial table. `Parser.BuildOutcome` states
  exactly which partial table results.

The regular expressions at usvisa.go:36-37 are raw strings whose text shows
doubled backslashes. The model reads them as their authors evidently meant
them: CR LF after `BT` and `ET`, as in the markers at usvisa.go:41-42, and
literal parentheses. All delimiters are ASCII, so matching byte by byte
gives the same matches as Go's rune-by-rune engine.

## Model

| member | source | states |
|---|---|---|
| ByteStrings.IndexOf | usvisa/usvisa/usvisa.go:73 | `bytes.Index`: the result is -1 exactly when the separator does not occur; otherwise the separator occurs there and at no earlier index |
| ByteStrings.Concat | usvisa/usvisa/usvisa.go:102 | `bytes.Join` with an empty separator; no parts give the empty string |
| Framing.EndMarkerContainsStart | usvisa/usvisa/usvisa.go:40-43 | the markers are 8 and 11 bytes long, the end marker is "end" followed by the start marker, and the start marker occurs inside it at offset 3 |
| Framing.MarkersApart | usvisa/usvisa/usvisa.go:41 | two occurrences of the start marker never overlap: they are at least 8 bytes apart |
| Framing.NextSection | usvisa/usvisa/usvisa.go:73-83 | one loop iteration; when it yields a section, the remaining cursor is shorter by at least both markers' lengths |
| Framing.SectionBetweenMarkers | usvisa/usvisa/usvisa.go:77-83 | with the first start marker at b and the next at e, the section is exactly the bytes between them and the cursor resumes 11 bytes past e; with fewer than 11 bytes from e on, the re-slice is out of range |
| Framing.NoSectionIffOneMarker | usvisa/usvisa/usvisa.go:72-81 | the loop breaks without a section if and only if the start marker occurs fewer than twice |
| Framing.StreamObject | usvisa/usvisa/usvisa.go:77-83 | for a well-formed first stream object `stream CR LF D endstream CR LF T`, the section is D followed by "end" and the cursor resumes at T without its first three bytes; with fewer than three bytes in T the re-slice is out of range |
| Framing.Sections | usvisa/usvisa/usvisa.go:72-83 | the loop hands the inflater at most one section per 19 bytes of input, so it terminates |
| TextScan.MatchAt | usvisa/usvisa/usvisa.go:36-37 | `open (.+?) close` at one position: the shortest non-empty capture the pattern allows, or none exactly when no capture length matches |
| TextScan.Scan | usvisa/usvisa/usvisa.go:97-99 | `FindAllSubmatch`: every match is lazy, the matches are in order and do not overlap, and every position where the pattern could match lies inside one of them |
| TextScan.ScanIsUnique | usvisa/usvisa/usvisa.go:97-99 | those leftmost-first properties determine the match list: any list that has them is the one `Scan` returns |
| TextScan.LazyMatchUnique | usvisa/usvisa/usvisa.go:36-37 | the lazy capture at a position is unique |
| TextScan.LazyCaptureStopsAtClose | usvisa/usvisa/usvisa.go:36-37 | a lazy capture contains no closing delimiter after its first byte |
| TextScan.LiteralCapture | usvisa/usvisa/usvisa.go:37 | a literal string's capture has no newline and no `)` after its first byte |
| TextScan.FindAll | usvisa/usvisa/usvisa.go:97-99 | `FindAllSubmatch(.., -1)` with the capture group taken: the captures of the matches `Scan` returns, in order; `ScanIsUnique` pins these down as Go's leftmost-first matches |
| TextScan.TextRecords | usvisa/usvisa/usvisa.go:96-103 | one string per text object, the concatenation of its literal captures; `ExtractRecords` is proved to compute it and `LiteralFreeBlock` characterizes the empty case |
| TextScan.ExtractRecords | usvisa/usvisa/usvisa.go:96-103 | the loops return one string per text object, in document order, each the concatenation of the literal captures inside that object |
| TextScan.LiteralFreeBlock | usvisa/usvisa/usvisa.go:99-102 | a text object yields no literals if and only if no literal string matches anywhere in it, and it then contributes the empty string |
| CaseIds.ParseInt | usvisa/usvisa/usvisa.go:105 | `strconv.ParseInt(s, 10, 64)` succeeds only on an optional sign and one or more decimal digits, with a value in int64 range |
| CaseIds.ParseDecimal | usvisa/usvisa/usvisa.go:105 | every int64 value written in decimal reads back as itself, also after `+` or a leading zero, and as its negation after `-` |
| CaseIds.IsCaseId | usvisa/usvisa/usvisa.go:105-106 | the case-id test: `ParseInt` succeeds and the value is in [20000000000, 29000000000); `CaseIdSyntax` gives its if-and-only-if in terms of the string's characters |
| CaseIds.CaseIdOfDecimal | usvisa/usvisa/usvisa.go:106 | a canonically written number is a case id if and only if it lies in [20000000000, 29000000000) |
| CaseIds.CaseIdBoundaries | usvisa/usvisa/usvisa.go:106 | 19999999999 and 29000000000 are rejected; 20000000000 and 28999999999 are accepted |
| CaseIds.CaseIdSpellings | usvisa/usvisa/usvisa.go:105-107 | an in-range id with a leading zero or `+` also qualifies and is a different key; with `-` it never qualifies |
| CaseIds.CaseIdSyntax | usvisa/usvisa/usvisa.go:105-106 | a string is a case id if and only if it is an optional `+` and decimal digits whose value is in range; the int64 limit never decides |
| Batches.Append | usvisa/usvisa/usvisa.go:107-111 | one record adds its id as a key and appends its update at the end of that id's list; every other key is unchanged |
| Batches.Merge | usvisa/usvisa/usvisa.go:107-111 | the records appended one by one, in order; `MergeUpdates` states each id's resulting list and the key set, `MergeKeepsNonEmpty` and `MergeConcat` its other properties |
| Batches.MergeUpdates | usvisa/usvisa/usvisa.go:107-111 | after merging records, each id holds its earlier updates followed by its new ones in record order; it is a key if and only if it was one or has a new update |
| Batches.MergeKeepsNonEmpty | usvisa/usvisa/usvisa.go:108-111 | merging never leaves a key with an empty list |
| Batches.MergeConcat | usvisa/usvisa/usvisa.go:71-114 | merging two batches of records one after the other equals merging their concatenation |
| Batches.UpdatesForConcat | usvisa/usvisa/usvisa.go:107-111 | an id's updates from two runs of records are those of the first run followed by those of the second |
| Batches.Anchors | usvisa/usvisa/usvisa.go:104-112 | every index where a record is taken holds a case id and has two strings after it, so the loop never indexes past the end |
| Batches.AnchorsApart | usvisa/usvisa/usvisa.go:112 | a hit advances the index by three: record positions are at least three apart |
| Batches.AnchorsSkipOnlyNonIds | usvisa/usvisa/usvisa.go:104-106 | a miss advances the index by one: every index stepped over between records, or after the last one, holds no case id |
| Batches.RecordsAt | usvisa/usvisa/usvisa.go:107-111 | one record per anchor: the id with the next two strings as status and date |
| Batches.Assemble | usvisa/usvisa/usvisa.go:104-112 | the records the index loop takes from a string list; `AnchorsApart` and `AnchorsSkipOnlyNonIds` pin down where they are taken |
| Batches.MergeRecords | usvisa/usvisa/usvisa.go:104-114 | the assembly loop leaves the table equal to the old table merged with the records at the anchors, in order |
| Parser.Build | usvisa/usvisa/usvisa.go:85-116 | the loop body after the slicing, section by section; `BuildOutcome` states its outcome in closed form |
| Parser.ParseSpec | usvisa/usvisa/usvisa.go:70-117 | what `parse` yields; `BuildOutcome`, `FewerThanTwoMarkers` and `ParsedTable` state its error cases and its table |
| Parser.Parse | usvisa/usvisa/usvisa.go:70-117 | the loop's outcome is the section-by-section definition `ParseSpec` |
| Parser.InflatedRun | usvisa/usvisa/usvisa.go:85-95 | the leading sections that inflate, with their contents, up to the first that does not |
| Parser.BuildOutcome | usvisa/usvisa/usvisa.go:85-95 | fail fast but not all or nothing: the result holds every record of the sections before the first inflation failure, merged in order, with that failure's error; only when all sections inflate does the loop end normally or reach the out-of-range re-slice |
| Parser.FewerThanTwoMarkers | usvisa/usvisa/usvisa.go:72-116 | a document with fewer than two start markers yields an empty table and no error |
| Parser.ParsedTable | usvisa/usvisa/usvisa.go:104-116 | any returned table, with or without error, holds for each case exactly its updates in document order, and no key has an empty list |
| Parser.AllRecordsConcat | usvisa/usvisa/usvisa.go:72-114 | reading two runs of sections gives their records one after the other |
| Parser.LaterSectionsFollow | usvisa/usvisa/usvisa.go:72-114 | updates from a later section follow those from earlier sections |
| Cache.Lookup | usvisa/usvisa/usvisa.go:247-250 | the stored list for a present id, nil for an absent one |
| Cache.GetBatch | usvisa/usvisa/usvisa.go:228-251 | a failed table read gives nil; otherwise the lookup is answered from the cached table when it is fresh and from the refreshed table when it is stale |
| Cache.IsStale | usvisa/usvisa/usvisa.go:239-242 | refresh when the update time plus one hour is strictly before now; `StalenessBoundary` gives the exact boundary |
| Cache.StalenessBoundary | usvisa/usvisa/usvisa.go:234-242 | stale exactly when more than one hour old: zero, 30 and 60 minutes are fresh; one nanosecond past an hour and 90 minutes are stale |
| Cache.LookupParsed | usvisa/usvisa/usvisa.go:247-250 | a parsed table answers nil exactly for a case with no updates, and otherwise returns that case's non-empty updates in document order |

## Left out

- Downloading the document (`LoadBatchTable`, usvisa.go:45-68) is left out: it is network I/O.
- The memcache store (`ReadTable`, `StoreTable`, usvisa.go:124-149) is left out: it is an external store. `GetBatch` takes the read result and the refreshed table as parameters. `RefreshTable` (usvisa.go:218-226) drops the load error and stores whatever table comes back, possibly partial or nil. No "never partially commits" property is claimed.
- HTML templating in `Print` and the HTTP handlers `init`, `Refresh` and `Batch` are left out: they are presentation and routing.
- The zlib/DEFLATE decoder (RFC 1950, RFC 1951) is a parameter, not a model. It reports one of two errors, matching `zlib.NewReader` and `ioutil.ReadAll`.
- Time is an integer count of nanoseconds. RFC 3339 formatting and parsing and `time.Now` are left out. `time.Parse` failing would give the zero time, which reads as stale. The model takes the parsed update time as given.
- Logging calls and error message text are left out. Errors are the two constructors of `ParseError`.
- The general regular-expression engine is left out. Only the two fixed delimiter scans are modelled.
- The regular expressions at usvisa.go:36-37 are read as CR LF after `BT` and `ET` and as literal parentheses. Their raw-string text, taken literally, would instead ask for a backslash before each of these characters; the model does not capture that literal reading.
- CaseIds.ParseInt: only success or failure is modelled, not which of Go's two error kinds (syntax or range) is returned. `parse` only tests whether the error is nil.
- Go's panic at the out-of-range re-slice of usvisa.go:83 is not a crash in the model. It is the outcome `SlicePanic`.
- Concurrent requests sharing the cache are left out.
