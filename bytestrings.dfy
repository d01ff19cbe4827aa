/** Byte strings as Go's `[]byte` and `string` hold them, with the search
    primitive the parser uses (`bytes.Index`). */
module ByteStrings {

  /** The conventional optional value. */
  datatype Option<+T> = None | Some(value: T)

  /** One octet. */
  newtype byte = b: int | 0 <= b < 256

  /** A Go `[]byte` or `string`: any sequence of octets, UTF-8 or not. */
  type ByteString = seq<byte>

  /** `m` occurs in `s` starting at index `i`. */
  predicate OccursAt(s: ByteString, i: nat, m: ByteString) {
    i + |m| <= |s| && s[i..i + |m|] == m
  }

  ghost predicate Contains(s: ByteString, m: ByteString) {
    exists i: nat :: OccursAt(s, i, m)
  }

  /** `bytes.Index(s, sep)`: the index of the first occurrence of `sep`
      in `s`, or -1 when there is none. */
  function IndexOf(s: ByteString, sep: ByteString): (r: int)
    ensures r == -1 || (0 <= r && OccursAt(s, r, sep))
    ensures forall i: nat | r == -1 || i < r :: !OccursAt(s, i, sep)
    ensures r == -1 <==> !Contains(s, sep)
  {
    IndexFrom(s, sep, 0)
  }

  function IndexFrom(s: ByteString, sep: ByteString, from: nat): (r: int)
    ensures r == -1 || (from <= r && OccursAt(s, r, sep))
    ensures forall i: nat | from <= i && (r == -1 || i < r) :: !OccursAt(s, i, sep)
    decreases |s| - from
  {
    if from + |sep| > |s| then -1
    else if OccursAt(s, from, sep) then from
    else IndexFrom(s, sep, from + 1)
  }

  /** `bytes.Join(parts, []byte{})`: the parts one after another. */
  function Concat(parts: seq<ByteString>): (r: ByteString)
    ensures parts == [] ==> r == []
  {
    if parts == [] then [] else parts[0] + Concat(parts[1..])
  }
}
