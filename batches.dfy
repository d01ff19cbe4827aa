/** The batch table (usvisa.go:29-33) and the record assembly that fills it
    from the strings of one content stream (usvisa.go:104-114). */
module Batches {
  import opened ByteStrings
  import opened CaseIds

  /** `BatchUpdate`: one status line for a case. */
  datatype BatchUpdate = BatchUpdate(status: ByteString, date: ByteString)

  /** `BatchTable`: case id, as spelled in the document, to its updates in
      the order they were read. */
  type BatchTable = map<ByteString, seq<BatchUpdate>>

  /** One assembled (case id, status, date) triple. */
  datatype Record = Record(id: ByteString, update: BatchUpdate)

  /** The updates stored for `id`; a missing key reads as none. */
  function Updates(t: BatchTable, id: ByteString): seq<BatchUpdate> {
    if id in t then t[id] else []
  }

  /** Every key the parser creates holds at least one update. */
  ghost predicate NonEmptyLists(t: BatchTable) {
    forall id | id in t :: t[id] != []
  }

  /** usvisa.go:108-111 for one record: create the key if it is missing, then
      append the update at the end of its list; no other key changes. */
  function Append(t: BatchTable, r: Record): (t': BatchTable)
    ensures t'.Keys == t.Keys + {r.id}
    ensures t'[r.id] == Updates(t, r.id) + [r.update]
    ensures forall id | id in t && id != r.id :: t'[id] == t[id]
  {
    t[r.id := Updates(t, r.id) + [r.update]]
  }

  /** The records appended one after another. */
  function Merge(t: BatchTable, rs: seq<Record>): BatchTable
    decreases |rs|
  {
    if rs == [] then t else Merge(Append(t, rs[0]), rs[1..])
  }

  /** The updates of `rs` that belong to `id`, in order. */
  function UpdatesFor(rs: seq<Record>, id: ByteString): seq<BatchUpdate> {
    if rs == [] then []
    else (if rs[0].id == id then [rs[0].update] else []) + UpdatesFor(rs[1..], id)
  }

  /** After merging, each case holds its earlier updates followed by the new
      ones in record order, and the keys are the old ones plus the new ids. */
  lemma {:induction false} MergeUpdates(t: BatchTable, rs: seq<Record>, id: ByteString)
    ensures Updates(Merge(t, rs), id) == Updates(t, id) + UpdatesFor(rs, id)
    ensures id in Merge(t, rs) <==> id in t || UpdatesFor(rs, id) != []
    decreases |rs|
  {
    if rs != [] {
      MergeUpdates(Append(t, rs[0]), rs[1..], id);
    }
  }

  /** Merging never leaves a key with an empty list. */
  lemma {:induction false} MergeKeepsNonEmpty(t: BatchTable, rs: seq<Record>)
    requires NonEmptyLists(t)
    ensures NonEmptyLists(Merge(t, rs))
    decreases |rs|
  {
    if rs != [] {
      MergeKeepsNonEmpty(Append(t, rs[0]), rs[1..]);
    }
  }

  /** The updates of two runs of records for one case, one after the other. */
  lemma {:induction false} UpdatesForConcat(a: seq<Record>, b: seq<Record>, id: ByteString)
    ensures UpdatesFor(a + b, id) == UpdatesFor(a, id) + UpdatesFor(b, id)
    decreases |a|
  {
    if a == [] {
      assert a + b == b;
    } else {
      assert (a + b)[0] == a[0] && (a + b)[1..] == a[1..] + b;
      UpdatesForConcat(a[1..], b, id);
    }
  }

  /** Merging two batches of records is merging their concatenation. */
  lemma {:induction false} MergeConcat(t: BatchTable, a: seq<Record>, b: seq<Record>)
    ensures Merge(Merge(t, a), b) == Merge(t, a + b)
    decreases |a|
  {
    if a != [] {
      assert (a + b)[1..] == a[1..] + b;
      MergeConcat(Append(t, a[0]), a[1..], b);
    } else {
      assert a + b == b;
    }
  }

  /** Where the loop resumes after the `k`-th record taken among anchors `a`
      (or `i` before the first one). */
  function Resume(a: seq<nat>, k: nat, i: nat): nat
    requires k <= |a|
  {
    if k == 0 then i else a[k - 1] + 3
  }

  /** The indices at which the loop of usvisa.go:104-114, started at index
      `i`, takes a record, for a given case-id test `isId`: the loop runs while
      `i < len(records) - 2`; a case id at `i` makes a record from it and the
      next two strings and moves on by three, anything else moves on by one.
      So the anchors are case ids with two strings after them, at least three
      apart, and every index the loop steps over between records, or after
      the last one, holds no case id. */
  function Anchors(tokens: seq<ByteString>, i: nat, isId: ByteString -> bool): (a: seq<nat>)
    requires i <= |tokens|
    ensures forall k | 0 <= k < |a| :: i <= a[k] && a[k] + 2 < |tokens| && isId(tokens[a[k]])
    decreases |tokens| - i
  {
    if i + 2 >= |tokens| then []
    else if isId(tokens[i]) then [i] + Anchors(tokens, i + 3, isId)
    else Anchors(tokens, i + 1, isId)
  }

  /** Consecutive records never share a string: anchors are at least three apart. */
  predicate Apart(a: seq<nat>) {
    forall k, l | 0 <= k < l < |a| :: a[k] + 3 <= a[l]
  }

  /** Every index the loop steps over between records, or after the last
      one, holds no case id. */
  predicate SkipsOnlyNonIds(tokens: seq<ByteString>, i: nat, isId: ByteString -> bool, a: seq<nat>)
    requires forall k | 0 <= k < |a| :: a[k] < |tokens|
  {
    && (forall k, q | 0 <= k < |a| && Resume(a, k, i) <= q < a[k] :: !isId(tokens[q]))
    && (forall q | Resume(a, |a|, i) <= q < |tokens| - 2 :: !isId(tokens[q]))
  }

  /** A hit moves the loop on by three, so anchors are at least three apart. */
  lemma {:induction false} AnchorsApart(tokens: seq<ByteString>, i: nat, isId: ByteString -> bool)
    requires i <= |tokens|
    ensures Apart(Anchors(tokens, i, isId))
    decreases |tokens| - i
  {
    if i + 2 < |tokens| {
      if isId(tokens[i]) {
        AnchorsApart(tokens, i + 3, isId);
        var rest := Anchors(tokens, i + 3, isId);
        var a := [i] + rest;
        assert Anchors(tokens, i, isId) == a;
        forall k, l | 0 <= k < l < |a| ensures a[k] + 3 <= a[l] {
          assert a[l] == rest[l - 1];
          if k > 0 {
            assert a[k] == rest[k - 1];
          }
        }
      } else {
        AnchorsApart(tokens, i + 1, isId);
        assert Anchors(tokens, i, isId) == Anchors(tokens, i + 1, isId);
      }
    }
  }

  /** A miss moves the loop on by one, and only a non-id is missed. */
  lemma {:induction false} AnchorsSkipOnlyNonIds(tokens: seq<ByteString>, i: nat, isId: ByteString -> bool)
    requires i <= |tokens|
    ensures SkipsOnlyNonIds(tokens, i, isId, Anchors(tokens, i, isId))
    decreases |tokens| - i
  {
    if i + 2 < |tokens| {
      if isId(tokens[i]) {
        AnchorsSkipOnlyNonIds(tokens, i + 3, isId);
        var rest := Anchors(tokens, i + 3, isId);
        var a := [i] + rest;
        assert Anchors(tokens, i, isId) == a;
        ConsSkips(tokens, i, isId, rest);
      } else {
        AnchorsSkipOnlyNonIds(tokens, i + 1, isId);
        var a := Anchors(tokens, i + 1, isId);
        assert Anchors(tokens, i, isId) == a;
        MissSkips(tokens, i, isId, a);
      }
    }
  }

  lemma MissSkips(tokens: seq<ByteString>, i: nat, isId: ByteString -> bool, a: seq<nat>)
    requires i + 2 < |tokens| && !isId(tokens[i])
    requires forall k | 0 <= k < |a| :: i + 1 <= a[k] < |tokens|
    requires SkipsOnlyNonIds(tokens, i + 1, isId, a)
    ensures SkipsOnlyNonIds(tokens, i, isId, a)
  {
    forall k, q | 0 <= k < |a| && Resume(a, k, i) <= q < a[k] ensures !isId(tokens[q]) {
      if k > 0 || q > i {
        assert Resume(a, k, i + 1) <= q;
      }
    }
    forall q | Resume(a, |a|, i) <= q < |tokens| - 2 ensures !isId(tokens[q]) {
      if |a| > 0 || q > i {
        assert Resume(a, |a|, i + 1) <= q;
      }
    }
  }

  lemma ConsSkips(tokens: seq<ByteString>, i: nat, isId: ByteString -> bool, rest: seq<nat>)
    requires i + 2 < |tokens|
    requires forall k | 0 <= k < |rest| :: i + 3 <= rest[k] < |tokens|
    requires SkipsOnlyNonIds(tokens, i + 3, isId, rest)
    ensures SkipsOnlyNonIds(tokens, i, isId, [i] + rest)
  {
    var a := [i] + rest;
    forall k | 0 < k <= |a| ensures Resume(a, k, i) == Resume(rest, k - 1, i + 3) {
    }
    forall k | 0 < k < |a| ensures a[k] == rest[k - 1] {
    }
  }

  /** The records read at the anchors `a`. */
  function RecordsAt(tokens: seq<ByteString>, a: seq<nat>): (rs: seq<Record>)
    requires forall k | 0 <= k < |a| :: a[k] + 2 < |tokens|
    ensures |rs| == |a|
  {
    seq(|a|, k requires 0 <= k < |a| =>
      Record(tokens[a[k]], BatchUpdate(tokens[a[k] + 1], tokens[a[k] + 2])))
  }

  /** The records of one content stream, in document order. */
  function Assemble(tokens: seq<ByteString>): seq<Record> {
    RecordsAt(tokens, Anchors(tokens, 0, IsCaseId))
  }

  /** A case id at `i` with two strings after it is the first anchor, and
      the search resumes three further on. */
  lemma AnchorsHit(tokens: seq<ByteString>, i: nat, isId: ByteString -> bool)
    requires i + 2 < |tokens| && isId(tokens[i])
    ensures Anchors(tokens, i, isId) == [i] + Anchors(tokens, i + 3, isId)
  {
  }

  /** Anything else at `i` is stepped over. */
  lemma AnchorsMiss(tokens: seq<ByteString>, i: nat, isId: ByteString -> bool)
    requires i + 2 < |tokens| && !isId(tokens[i])
    ensures Anchors(tokens, i, isId) == Anchors(tokens, i + 1, isId)
  {
  }

  /** A record taken at `i` comes first, then those taken from `i + 3`. */
  lemma RecordsAtHit(tokens: seq<ByteString>, i: nat, isId: ByteString -> bool)
    requires i + 2 < |tokens| && isId(tokens[i])
    ensures RecordsAt(tokens, Anchors(tokens, i, isId))
      == [Record(tokens[i], BatchUpdate(tokens[i + 1], tokens[i + 2]))]
         + RecordsAt(tokens, Anchors(tokens, i + 3, isId))
  {
    AnchorsHit(tokens, i, isId);
    var rest := Anchors(tokens, i + 3, isId);
    var a := [i] + rest;
    var r := RecordsAt(tokens, a);
    var r' := [Record(tokens[i], BatchUpdate(tokens[i + 1], tokens[i + 2]))] + RecordsAt(tokens, rest);
    forall k | 0 <= k < |r| ensures r[k] == r'[k] {
      if k > 0 {
        assert a[k] == rest[k - 1];
      }
    }
  }

  /** usvisa.go:104-114: scan the strings of one content stream and append
      each record to the shared table. */
  method MergeRecords(records: seq<ByteString>, table0: BatchTable) returns (table: BatchTable)
    ensures table == Merge(table0, Assemble(records))
  {
    var isCaseId: ByteString -> bool := IsCaseId;  // the test of usvisa.go:105-106
    table := table0;
    var i := 0;
    while i < |records| - 2
      invariant 0 <= i <= |records|
      invariant Merge(table, RecordsAt(records, Anchors(records, i, isCaseId))) == Merge(table0, Assemble(records))
    {
      ghost var before := table;
      if isCaseId(records[i]) {
        var id := records[i];
        if id !in table {
          table := table[id := []];
        }
        table := table[id := table[id] + [BatchUpdate(records[i + 1], records[i + 2])]];
        assert table == Append(before, Record(id, BatchUpdate(records[i + 1], records[i + 2])));
        MergeHit(records, i, isCaseId, before);
        i := i + 2;
      } else {
        AnchorsMiss(records, i, isCaseId);
      }
      i := i + 1;
    }
  }

  /** Merging from a hit at `i` is appending its record, then merging from `i + 3`. */
  lemma MergeHit(tokens: seq<ByteString>, i: nat, isId: ByteString -> bool, t: BatchTable)
    requires i + 2 < |tokens| && isId(tokens[i])
    ensures Merge(Append(t, Record(tokens[i], BatchUpdate(tokens[i + 1], tokens[i + 2]))),
                  RecordsAt(tokens, Anchors(tokens, i + 3, isId)))
         == Merge(t, RecordsAt(tokens, Anchors(tokens, i, isId)))
  {
    RecordsAtHit(tokens, i, isId);
    MergeCons(t, Record(tokens[i], BatchUpdate(tokens[i + 1], tokens[i + 2])),
              RecordsAt(tokens, Anchors(tokens, i + 3, isId)));
  }

  lemma MergeCons(t: BatchTable, r: Record, rs: seq<Record>)
    ensures Merge(t, [r] + rs) == Merge(Append(t, r), rs)
  {
    assert ([r] + rs)[1..] == rs;
  }
}
