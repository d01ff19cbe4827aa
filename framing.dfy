/** One step of the section slicing of usvisa.go:72-83: the cursor `pdf` is
    cut at the first stream start marker and at the next one after it. This
    follows the stream objects of ISO 32000-1 section 7.3.8 loosely, not as a
    conforming reader: the second search looks for the start marker again and
    so lands three bytes into the `endstream` keyword, which the code then
    skips by the length of the end marker. */
module Framing {
  import opened ByteStrings

  /** usvisa.go:41: "stream" CR LF. */
  const StreamStartMarker: ByteString := [0x73, 0x74, 0x72, 0x65, 0x61, 0x6D, 0x0D, 0x0A]

  /** usvisa.go:42: "endstream" CR LF. */
  const StreamEndMarker: ByteString := [0x65, 0x6E, 0x64, 0x73, 0x74, 0x72, 0x65, 0x61, 0x6D, 0x0D, 0x0A]

  /** "end": the three bytes by which the end marker is longer than the start marker. */
  const EndPrefix: ByteString := [0x65, 0x6E, 0x64]

  /** The end marker is "end" followed by the start marker, so a search for
      the start marker finds every end marker, three bytes in. */
  lemma EndMarkerContainsStart()
    ensures |StreamStartMarker| == 8 && |StreamEndMarker| == 11
    ensures StreamEndMarker == EndPrefix + StreamStartMarker
    ensures OccursAt(StreamEndMarker, 3, StreamStartMarker)
  {
    var s := StreamStartMarker;
    var e := StreamEndMarker;
    forall i | 0 <= i < 11 ensures e[i] == (EndPrefix + s)[i] {
      if i >= 3 {
        assert (EndPrefix + s)[i] == s[i - 3];
      }
    }
    assert e[3..11] == s;
  }

  /** Two start markers never overlap: the `s` it begins with occurs nowhere
      else in it. */
  lemma {:induction false} MarkersApart(pdf: ByteString, b: nat, e: nat)
    requires OccursAt(pdf, b, StreamStartMarker) && OccursAt(pdf, e, StreamStartMarker)
    requires b < e
    ensures b + |StreamStartMarker| <= e
  {
    var s := StreamStartMarker;
    assert pdf[e] == pdf[e..e + 8][0] == s[0];
    if e < b + 8 {
      assert false;
    }
  }

  /** `m` is at `i` and nowhere before: where `bytes.Index` finds it. */
  ghost predicate FirstAt(s: ByteString, i: nat, m: ByteString) {
    OccursAt(s, i, m) && forall j: nat | j < i :: !OccursAt(s, j, m)
  }

  /** An occurrence in a suffix is an occurrence in the whole, shifted. */
  lemma OccursInSuffix(s: ByteString, o: nat, i: nat, m: ByteString)
    requires o <= |s|
    ensures OccursAt(s[o..], i, m) <==> OccursAt(s, o + i, m)
  {
    if o + i + |m| <= |s| {
      assert s[o..][i..i + |m|] == s[o + i..o + i + |m|];
    }
  }

  /** The outcome of one iteration of the slicing loop. `NoSection` is
      either `break` (usvisa.go:74-76 and 79-81); `SliceOutOfRange` is the
      re-slice `pdf[end+11:]` of usvisa.go:83 with fewer than three bytes
      after the second marker, where Go panics. */
  datatype Cut = NoSection | SliceOutOfRange | Section(section: ByteString, rest: ByteString)

  /** usvisa.go:73-83. */
  function NextSection(pdf: ByteString): (c: Cut)
    ensures c.Section? ==> |c.rest| + |StreamStartMarker| + |StreamEndMarker| <= |pdf|
  {
    var begin := IndexOf(pdf, StreamStartMarker);
    if begin == -1 then NoSection
    else
      var after := pdf[begin + |StreamStartMarker|..];
      var end := IndexOf(after, StreamStartMarker);
      if end == -1 then NoSection
      else if end + |StreamEndMarker| > |after| then SliceOutOfRange
      else Section(after[..end], after[end + |StreamEndMarker|..])
  }

  /** With the first marker at `b` and the next one at `e`, the section is
      exactly the bytes between them and the cursor moves to 11 bytes past
      `e`, when the input is long enough for that re-slice. */
  lemma SectionBetweenMarkers(pdf: ByteString, b: nat, e: nat)
    requires FirstAt(pdf, b, StreamStartMarker)
    requires OccursAt(pdf, e, StreamStartMarker) && b + |StreamStartMarker| <= e
    requires forall j | b + |StreamStartMarker| <= j < e :: !OccursAt(pdf, j, StreamStartMarker)
    ensures NextSection(pdf) ==
      if e + |StreamEndMarker| <= |pdf| then Section(pdf[b + |StreamStartMarker|..e], pdf[e + |StreamEndMarker|..])
      else SliceOutOfRange
  {
    var s := StreamStartMarker;
    var begin := IndexOf(pdf, s);
    assert begin == b;
    var o := b + |s|;
    var after := pdf[o..];
    var end := IndexOf(after, s);
    OccursInSuffix(pdf, o, e - o, s);
    assert OccursAt(after, e - o, s);
    assert end != -1 && end <= e - o;
    if end < e - o {
      OccursInSuffix(pdf, o, end, s);
      assert false;
    }
    if e + |StreamEndMarker| <= |pdf| {
      assert after[..end] == pdf[o..e];
      assert after[end + |StreamEndMarker|..] == pdf[e + |StreamEndMarker|..];
    }
  }

  /** The loop stops without a section exactly when the start marker occurs
      fewer than twice. */
  lemma NoSectionIffOneMarker(pdf: ByteString)
    ensures NextSection(pdf) == NoSection <==>
      !exists b: nat, e: nat | b < e :: OccursAt(pdf, b, StreamStartMarker) && OccursAt(pdf, e, StreamStartMarker)
  {
    var s := StreamStartMarker;
    var begin := IndexOf(pdf, s);
    if begin != -1 {
      var o := begin + |s|;
      var after := pdf[o..];
      var end := IndexOf(after, s);
      if end == -1 {
        forall b: nat, e: nat | b < e && OccursAt(pdf, b, s) && OccursAt(pdf, e, s) ensures false {
          assert begin <= b;
          MarkersApart(pdf, begin, e);
          OccursInSuffix(pdf, o, e - o, s);
        }
      } else {
        OccursInSuffix(pdf, o, end, s);
        assert OccursAt(pdf, begin, s) && OccursAt(pdf, o + end, s) && begin < o + end;
      }
    }
  }

  /** A well-formed stream object `stream CR LF D endstream CR LF T`, first in
      the input and with no start marker inside `D`: the section handed to the
      inflater is `D` followed by the three bytes "end", and the first three
      bytes of `T` are skipped; with fewer than three bytes in `T` Go panics. */
  lemma StreamObject(pre: ByteString, d: ByteString, t: ByteString)
    requires forall j: nat | j < |pre| :: !OccursAt(pre + StreamStartMarker, j, StreamStartMarker)
    requires forall j: nat | j < |d| :: !OccursAt(d + StreamEndMarker, j, StreamStartMarker)
    ensures var pdf := pre + StreamStartMarker + d + StreamEndMarker + t;
      NextSection(pdf) ==
        if |t| >= 3 then Section(d + EndPrefix, t[3..]) else SliceOutOfRange
  {
    var pdf := pre + StreamStartMarker + d + StreamEndMarker + t;
    var e := |pre| + 8 + |d| + 3;
    StreamObjectLayout(pre, d, t);
    SectionBetweenMarkers(pdf, |pre|, e);
    if |t| >= 3 {
      assert NextSection(pdf) == Section(pdf[|pre| + 8..e], pdf[e + 11..]);
    } else {
      assert NextSection(pdf) == SliceOutOfRange;
    }
  }

  /** Where the markers of a well-formed first stream object lie. */
  lemma StreamObjectLayout(pre: ByteString, d: ByteString, t: ByteString)
    requires forall j: nat | j < |pre| :: !OccursAt(pre + StreamStartMarker, j, StreamStartMarker)
    requires forall j: nat | j < |d| :: !OccursAt(d + StreamEndMarker, j, StreamStartMarker)
    ensures var pdf := pre + StreamStartMarker + d + StreamEndMarker + t;
      var o := |pre| + 8;
      var e := o + |d| + 3;
      && FirstAt(pdf, |pre|, StreamStartMarker)
      && OccursAt(pdf, e, StreamStartMarker)
      && (forall j | o <= j < e :: !OccursAt(pdf, j, StreamStartMarker))
      && |pdf| == e + 8 + |t|
      && (|t| >= 3 ==> pdf[o..e] == d + EndPrefix && pdf[e + 11..] == t[3..])
  {
    EndMarkerContainsStart();
    var s := StreamStartMarker;
    var body := d + StreamEndMarker + t;
    var pdf := pre + s + body;
    assert pdf == pre + s + d + StreamEndMarker + t;
    var o := |pre| + 8;
    assert pdf[o..] == body;
    MarkerFirst(pre, body);
    NoMarkerBeforeEnd(d, t);
    ShiftNoMarker(pdf, o, |d| + 3);
    if |t| >= 3 {
      assert pdf[o..o + |d| + 3] == body[..|d| + 3] == d + EndPrefix;
      assert pdf[o + |d| + 3 + 11..] == body[|d| + 3 + 11..] == t[3..];
    }
  }

  /** Marker facts about a suffix carry over to the whole input. */
  lemma ShiftNoMarker(pdf: ByteString, o: nat, n: nat)
    requires o <= |pdf|
    requires OccursAt(pdf[o..], n, StreamStartMarker)
    requires forall j: nat | j < n :: !OccursAt(pdf[o..], j, StreamStartMarker)
    ensures OccursAt(pdf, o + n, StreamStartMarker)
    ensures forall j | o <= j < o + n :: !OccursAt(pdf, j, StreamStartMarker)
  {
    OccursInSuffix(pdf, o, n, StreamStartMarker);
    forall j | o <= j < o + n ensures !OccursAt(pdf, j, StreamStartMarker) {
      OccursInSuffix(pdf, o, j - o, StreamStartMarker);
    }
  }

  /** A start marker preceded by no other is where the search finds one. */
  lemma MarkerFirst(pre: ByteString, body: ByteString)
    requires forall j: nat | j < |pre| :: !OccursAt(pre + StreamStartMarker, j, StreamStartMarker)
    ensures FirstAt(pre + StreamStartMarker + body, |pre|, StreamStartMarker)
  {
    var s := StreamStartMarker;
    var pdf := pre + s + body;
    assert pdf[|pre|..|pre| + |s|] == s;
    forall j: nat | j < |pre| ensures !OccursAt(pdf, j, s) {
      assert pdf[j..j + |s|] == (pre + s)[j..j + |s|];
      assert !OccursAt(pre + s, j, s);
    }
  }

  /** Inside `D endstream CR LF T`, the first start marker is the one inside
      the end marker, when `D` holds none. */
  lemma NoMarkerBeforeEnd(d: ByteString, t: ByteString)
    requires forall j: nat | j < |d| :: !OccursAt(d + StreamEndMarker, j, StreamStartMarker)
    ensures var body := d + StreamEndMarker + t;
      && OccursAt(body, |d| + 3, StreamStartMarker)
      && forall j: nat | j < |d| + 3 :: !OccursAt(body, j, StreamStartMarker)
  {
    EndMarkerContainsStart();
    var s := StreamStartMarker;
    var u := d + StreamEndMarker;
    var body := u + t;
    assert body[|d|..|d| + 11] == StreamEndMarker;
    assert body[|d| + 3..|d| + 11] == s;
    forall j: nat | j < |d| + 3 ensures !OccursAt(body, j, s) {
      if j < |d| {
        if j + 8 <= |body| {
          assert body[j..j + 8] == u[j..j + 8];
        }
        assert !OccursAt(u, j, s);
      } else {
        assert body[j] == StreamEndMarker[j - |d|];
        assert StreamEndMarker[j - |d|] != s[0];
      }
    }
  }

  /** The sections the loop visits, in order, and whether it would then reach
      the out-of-range re-slice. */
  datatype Slices = Slices(sections: seq<ByteString>, outOfRange: bool)

  /** Every iteration of usvisa.go:72-83, the inflation aside. Each one
      consumes at least both markers' worth of input, so the loop ends and
      hands the inflater at most one section per 19 bytes. */
  function Sections(pdf: ByteString): (f: Slices)
    ensures 19 * |f.sections| <= |pdf|
    decreases |pdf|
  {
    match NextSection(pdf)
    case NoSection => Slices([], false)
    case SliceOutOfRange => Slices([], true)
    case Section(section, rest) =>
      EndMarkerContainsStart();
      var f := Sections(rest);
      Slices([section] + f.sections, f.outOfRange)
  }
}
