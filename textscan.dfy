/** The two fixed regular-expression scans of the parser (usvisa.go:36-37,
    97-103): text objects `BT CR LF (.+?) ET CR LF` with `(?s)`, and literal
    strings `\((.+?)\)` without flags. Both are instances of one pattern
    shape, `open (.+?) close`, searched for with Go's leftmost-first,
    non-overlapping `FindAllSubmatch`. Because every delimiter is ASCII, no
    delimiter byte can sit inside a multi-byte UTF-8 rune, so matching byte by
    byte gives the same matches as Go's rune-by-rune engine. */
module TextScan {
  import opened ByteStrings

  /** `open (.+?) close`; `dotAll` is the `(?s)` flag. */
  datatype Pattern = Pattern(open: ByteString, close: ByteString, dotAll: bool)

  const Newline: byte := 10

  /** A text object, ISO 32000-1 section 9.4: `(?ms)BT\r\n(.+?)ET\r\n`,
      that is "BT" CR LF, the capture, "ET" CR LF. */
  const TextObject := Pattern([0x42, 0x54, 0x0D, 0x0A], [0x45, 0x54, 0x0D, 0x0A], true)

  const LeftParen: byte := 0x28
  const RightParen: byte := 0x29

  /** A literal string, loosely ISO 32000-1 section 7.3.4.2 but without
      escapes or nesting: `\((.+?)\)`. */
  const Literal := Pattern([LeftParen], [RightParen], false)

  /** Whether `.` matches byte `b`: anything but a newline, or anything under `(?s)`. */
  predicate Dot(p: Pattern, b: byte) {
    p.dotAll || b != Newline
  }

  /** The pattern matches at `at` with a capture of `k` bytes. */
  predicate IsMatch(s: ByteString, at: nat, k: nat, p: Pattern) {
    && k >= 1
    && OccursAt(s, at, p.open)
    && OccursAt(s, at + |p.open| + k, p.close)
    && forall j | at + |p.open| <= j < at + |p.open| + k :: Dot(p, s[j])
  }

  /** The lazy `.+?` takes the shortest capture that lets the match succeed. */
  predicate IsLazyMatch(s: ByteString, at: nat, k: nat, p: Pattern) {
    IsMatch(s, at, k, p) && forall k' | 1 <= k' < k :: !IsMatch(s, at, k', p)
  }

  ghost predicate HasMatch(s: ByteString, at: nat, p: Pattern) {
    exists k :: IsMatch(s, at, k, p)
  }

  /** The capture length of the match at `at`, if the pattern matches there. */
  function MatchAt(s: ByteString, at: nat, p: Pattern): (r: Option<nat>)
    ensures r.Some? ==> IsLazyMatch(s, at, r.value, p)
    ensures r.None? ==> !HasMatch(s, at, p)
  {
    if !OccursAt(s, at, p.open) || at + |p.open| + 1 > |s| then None
    else CloseFrom(s, at, at + |p.open| + 1, p)
  }

  /** Tries the capture `s[at + |open|..q]`, then longer ones. */
  function CloseFrom(s: ByteString, at: nat, q: nat, p: Pattern): (r: Option<nat>)
    requires OccursAt(s, at, p.open)
    requires at + |p.open| < q <= |s|
    requires forall j | at + |p.open| <= j < q - 1 :: Dot(p, s[j])
    requires forall k | 1 <= k < q - at - |p.open| :: !IsMatch(s, at, k, p)
    ensures r.Some? ==> IsLazyMatch(s, at, r.value, p)
    ensures r.None? ==> forall k :: !IsMatch(s, at, k, p)
    decreases |s| - q
  {
    if q + |p.close| > |s| then None
    else if !Dot(p, s[q - 1]) then None
    else if OccursAt(s, q, p.close) then Some(q - at - |p.open|)
    else CloseFrom(s, at, q + 1, p)
  }

  /** A match: where it starts and how long its capture is. */
  datatype Span = Span(at: nat, len: nat)

  /** The index just past a match's closing delimiter, where the search resumes. */
  function End(p: Pattern, m: Span): nat {
    m.at + |p.open| + m.len + |p.close|
  }

  /** Position `at` lies inside one of the matches `ms` (from its opening
      delimiter up to, not including, its end). */
  ghost predicate Covered(p: Pattern, ms: seq<Span>, at: nat) {
    exists i | 0 <= i < |ms| :: ms[i].at <= at < End(p, ms[i])
  }

  /** What `FindAll` promises of the matches it returns when searching `s`
      from `from`: each is a lazy match starting at or after `from`, they come
      in order without overlapping, and every position where the pattern could
      match is inside one of them, so none was skipped. */
  ghost predicate LeftmostFirst(s: ByteString, p: Pattern, from: nat, ms: seq<Span>) {
    && (forall i | 0 <= i < |ms| :: from <= ms[i].at && IsLazyMatch(s, ms[i].at, ms[i].len, p))
    && (forall i, j | 0 <= i < j < |ms| :: End(p, ms[i]) <= ms[j].at)
    && (forall at: nat | from <= at && HasMatch(s, at, p) :: Covered(p, ms, at))
  }

  /** The matches of `p` in `s[from..]`, leftmost first. */
  function Scan(s: ByteString, p: Pattern, from: nat): (ms: seq<Span>)
    requires from <= |s|
    ensures LeftmostFirst(s, p, from, ms)
    decreases |s| - from
  {
    if from == |s| then
      assert forall at: nat | from <= at :: !HasMatch(s, at, p);
      []
    else
      match MatchAt(s, from, p)
      case Some(k) =>
        var m := Span(from, k);
        var rest := Scan(s, p, End(p, m));
        ConsMatch(s, p, m, rest);
        [m] + rest
      case None =>
        Scan(s, p, from + 1)
  }

  /** A lazy match at `m.at`, followed by the matches found from its end,
      is what the search finds from `m.at`. */
  lemma ConsMatch(s: ByteString, p: Pattern, m: Span, rest: seq<Span>)
    requires IsLazyMatch(s, m.at, m.len, p)
    requires LeftmostFirst(s, p, End(p, m), rest)
    ensures LeftmostFirst(s, p, m.at, [m] + rest)
  {
    var ms := [m] + rest;
    forall at: nat | m.at <= at && HasMatch(s, at, p)
      ensures Covered(p, ms, at)
    {
      if at < End(p, m) {
        assert ms[0] == m;
      } else {
        var i :| 0 <= i < |rest| && rest[i].at <= at < End(p, rest[i]);
        assert ms[i + 1] == rest[i];
      }
    }
  }

  /** The only sequence of matches with the `LeftmostFirst` properties is the
      one `Scan` returns: those properties determine Go's search result. */
  lemma {:induction false} ScanIsUnique(s: ByteString, p: Pattern, from: nat, ms: seq<Span>)
    requires from <= |s|
    requires LeftmostFirst(s, p, from, ms)
    ensures ms == Scan(s, p, from)
    decreases |s| - from
  {
    if from < |s| {
      if ms != [] && ms[0].at == from {
        var m := ms[0];
        LazyMatchUnique(s, from, MatchAt(s, from, p), m.len, p);
        DropFirstMatch(s, p, from, ms);
        ScanIsUnique(s, p, End(p, m), ms[1..]);
        ScanHit(s, p, m);
        assert ms == [m] + ms[1..];
      } else {
        NoMatchBeforeFirst(s, p, from, ms);
        ScanIsUnique(s, p, from + 1, ms);
        ScanMiss(s, p, from);
      }
    }
  }

  lemma ScanHit(s: ByteString, p: Pattern, m: Span)
    requires m.at < |s| && MatchAt(s, m.at, p) == Some(m.len)
    ensures Scan(s, p, m.at) == [m] + Scan(s, p, End(p, m))
  {
  }

  lemma ScanMiss(s: ByteString, p: Pattern, from: nat)
    requires from < |s| && !HasMatch(s, from, p)
    ensures Scan(s, p, from) == Scan(s, p, from + 1)
  {
  }

  /** The lazy capture at a position is unique. */
  lemma LazyMatchUnique(s: ByteString, at: nat, r: Option<nat>, k: nat, p: Pattern)
    requires r == MatchAt(s, at, p)
    requires IsLazyMatch(s, at, k, p)
    ensures r == Some(k)
  {
    assert HasMatch(s, at, p);
  }

  lemma DropFirstMatch(s: ByteString, p: Pattern, from: nat, ms: seq<Span>)
    requires LeftmostFirst(s, p, from, ms)
    requires ms != []
    ensures LeftmostFirst(s, p, End(p, ms[0]), ms[1..])
  {
    var rest := ms[1..];
    forall at: nat | End(p, ms[0]) <= at && HasMatch(s, at, p)
      ensures Covered(p, rest, at)
    {
      var i :| 0 <= i < |ms| && ms[i].at <= at < End(p, ms[i]);
      assert rest[i - 1] == ms[i];
    }
  }

  lemma NoMatchBeforeFirst(s: ByteString, p: Pattern, from: nat, ms: seq<Span>)
    requires LeftmostFirst(s, p, from, ms)
    requires ms == [] || ms[0].at != from
    ensures !HasMatch(s, from, p)
    ensures LeftmostFirst(s, p, from + 1, ms)
  {
  }

  /** A lazy capture holds no closing delimiter after its first byte: the
      search stops at the first one it can. */
  lemma LazyCaptureStopsAtClose(s: ByteString, at: nat, k: nat, p: Pattern)
    requires IsLazyMatch(s, at, k, p)
    ensures forall q | at + |p.open| + 1 <= q < at + |p.open| + k :: !OccursAt(s, q, p.close)
  {
    forall q | at + |p.open| + 1 <= q < at + |p.open| + k ensures !OccursAt(s, q, p.close) {
      var j := q - at - |p.open|;
      assert !IsMatch(s, at, j, p);
    }
  }

  /** A literal string's capture stays on one line and holds no `)` after its
      first byte (a `)` right after the `(` is captured, as in "())"). */
  lemma LiteralCapture(s: ByteString, at: nat, k: nat)
    requires IsLazyMatch(s, at, k, Literal)
    ensures forall q | at + 1 <= q < at + 1 + k :: s[q] != Newline
    ensures forall q | at + 2 <= q < at + 1 + k :: s[q] != RightParen
  {
    LazyCaptureStopsAtClose(s, at, k, Literal);
    forall q | at + 2 <= q < at + 1 + k ensures s[q] != RightParen {
      assert !OccursAt(s, q, Literal.close);
      assert s[q..q + 1] == [s[q]];
    }
  }

  /** The capture group of match `m`. */
  function Capture(s: ByteString, p: Pattern, m: Span): ByteString
    requires m.at + |p.open| + m.len <= |s|
  {
    s[m.at + |p.open|..m.at + |p.open| + m.len]
  }

  /** `p.FindAllSubmatch(s, -1)`, keeping the capture group of each match. */
  function FindAll(s: ByteString, p: Pattern): seq<ByteString> {
    var ms := Scan(s, p, 0);
    seq(|ms|, i requires 0 <= i < |ms| => Capture(s, p, ms[i]))
  }

  /** The strings the parser reads from one inflated content stream: one per
      text object, in document order, each the captures of the literal
      strings inside that object joined with no separator. */
  function TextRecords(content: ByteString): seq<ByteString> {
    var blocks := FindAll(content, TextObject);
    seq(|blocks|, g requires 0 <= g < |blocks| => Concat(FindAll(blocks[g], Literal)))
  }

  /** The loops of usvisa.go:96-103. */
  method ExtractRecords(unzipped: ByteString) returns (records: seq<ByteString>)
    ensures records == TextRecords(unzipped)
  {
    records := [];
    var blocks := FindAll(unzipped, TextObject);
    ghost var texts := TextRecords(unzipped);
    assert |texts| == |blocks|;
    for g := 0 to |blocks|
      invariant records == texts[..g]
    {
      var lines: seq<ByteString> := [];
      var literals := FindAll(blocks[g], Literal);
      for h := 0 to |literals|
        invariant lines == literals[..h]
      {
        lines := lines + [literals[h]];
      }
      assert lines == literals;
      assert texts[g] == Concat(literals);
      records := records + [Concat(lines)];
    }
    assert records == texts;
  }

  /** A text object contributes the empty string exactly when no literal
      string matches anywhere inside it. */
  lemma LiteralFreeBlock(block: ByteString)
    ensures FindAll(block, Literal) == [] <==> forall at: nat :: !HasMatch(block, at, Literal)
    ensures (forall at: nat :: !HasMatch(block, at, Literal)) ==> Concat(FindAll(block, Literal)) == []
  {
    var ms := Scan(block, Literal, 0);
    assert |FindAll(block, Literal)| == |ms|;
    if ms != [] {
      assert IsMatch(block, ms[0].at, ms[0].len, Literal);
      assert HasMatch(block, ms[0].at, Literal);
    }
  }
}
