/** Bytes of a UTF-8 string slice, the few ASCII constants the validator looks
    for, and the `str::find` search it uses. Every delimiter is ASCII, so a
    byte index found here is also a char boundary of the original `&str`. */
module Bytes {

  newtype byte = x: int | 0 <= x < 256

  datatype Option<+T> = None | Some(value: T)

  const COLON: byte := 0x3A          // ':'
  const LBRACKET: byte := 0x5B       // '['
  const RBRACKET: byte := 0x5D       // ']'
  const DOT: byte := 0x2E            // '.'
  const HYPHEN: byte := 0x2D         // '-'
  const PLUS: byte := 0x2B           // '+'

  /** ASCII text as the bytes of its UTF-8 encoding, one byte per char; any
      other char becomes 0xFF, a byte that never occurs in UTF-8. */
  function Ascii(s: string): (r: seq<byte>)
    ensures |r| == |s|
  {
    seq(|s|, i requires 0 <= i < |s| => if s[i] as int < 128 then s[i] as int as byte else 0xFF)
  }

  /** `str::find(c)` for an ASCII `c`: the index of the first occurrence. */
  function FirstIndexOf(s: seq<byte>, c: byte): (r: Option<nat>)
    ensures r.Some? ==> r.value < |s| && s[r.value] == c
  {
    IndexFrom(s, c, 0)
  }

  /** The first occurrence of `c` at or after `from`. */
  function IndexFrom(s: seq<byte>, c: byte, from: nat): (r: Option<nat>)
    requires from <= |s|
    decreases |s| - from
    ensures r.Some? ==> from <= r.value < |s| && s[r.value] == c
  {
    if from == |s| then None
    else if s[from] == c then Some(from)
    else IndexFrom(s, c, from + 1)
  }

  /** `IndexFrom` finds the first `c` at or after `from`, and finds nothing
      exactly when there is none. */
  lemma {:induction false} IndexFromFirst(s: seq<byte>, c: byte, from: nat)
    requires from <= |s|
    decreases |s| - from
    ensures IndexFrom(s, c, from).None? <==> c !in s[from..]
    ensures IndexFrom(s, c, from).Some? ==>
              forall j :: from <= j < IndexFrom(s, c, from).value ==> s[j] != c
  {
    if from < |s| {
      assert s[from..] == [s[from]] + s[from + 1..];
      if s[from] != c {
        IndexFromFirst(s, c, from + 1);
      }
    }
  }

  /** `str::find` returns the first occurrence, and None exactly when `c` is absent. */
  lemma FindFirst(s: seq<byte>, c: byte)
    ensures FirstIndexOf(s, c).None? <==> c !in s
    ensures FirstIndexOf(s, c).Some? ==> forall j :: 0 <= j < FirstIndexOf(s, c).value ==> s[j] != c
  {
    IndexFromFirst(s, c, 0);
    assert s[0..] == s;
  }

  /** `split(c)`: the pieces between occurrences of `c`; never empty. */
  function Split(s: seq<byte>, c: byte): (r: seq<seq<byte>>)
    ensures |r| >= 1
    decreases |s|
  {
    match FirstIndexOf(s, c)
    case None => [s]
    case Some(i) => [s[..i]] + Split(s[i + 1..], c)
  }

  /** Text without the separator is a single piece. */
  lemma SplitNone(s: seq<byte>, c: byte)
    requires c !in s
    ensures Split(s, c) == [s]
  {
    FindFirst(s, c);
  }

  /** Text whose first separator sits at `i` splits there. */
  lemma SplitAt(s: seq<byte>, c: byte, i: nat)
    requires i < |s| && s[i] == c && c !in s[..i]
    ensures Split(s, c) == [s[..i]] + Split(s[i + 1..], c)
  {
    FindFirst(s, c);
  }

  /** The pieces glued back together with `c` between them. */
  function Join(parts: seq<seq<byte>>, c: byte): seq<byte>
    requires |parts| >= 1
  {
    if |parts| == 1 then parts[0] else parts[0] + [c] + Join(parts[1..], c)
  }

  /** Splitting loses nothing: joining the pieces gives back the input, and no
      piece contains the separator. */
  lemma {:induction false} SplitJoin(s: seq<byte>, c: byte)
    decreases |s|
    ensures Join(Split(s, c), c) == s
    ensures forall k :: 0 <= k < |Split(s, c)| ==> c !in Split(s, c)[k]
  {
    FindFirst(s, c);
    var parts := Split(s, c);
    match FirstIndexOf(s, c)
    case None =>
    case Some(i) =>
      var rest := s[i + 1..];
      SplitJoin(rest, c);
      assert parts[1..] == Split(rest, c);
      assert s == s[..i] + [c] + rest;
      assert c !in parts[0] by {
        forall j | 0 <= j < i ensures parts[0][j] != c {
          assert parts[0][j] == s[j];
        }
      }
      forall k | 1 <= k < |parts| ensures c !in parts[k] {
        assert parts[k] == Split(rest, c)[k - 1];
      }
  }

  /** Joining separator-free pieces and splitting again gives the pieces back. */
  lemma {:induction false} SplitOfJoin(parts: seq<seq<byte>>, c: byte)
    requires |parts| >= 1 && forall k :: 0 <= k < |parts| ==> c !in parts[k]
    decreases |parts|
    ensures Split(Join(parts, c), c) == parts
  {
    if |parts| == 1 {
      SplitNone(parts[0], c);
    } else {
      var rest := Join(parts[1..], c);
      var s := parts[0] + [c] + rest;
      var i := |parts[0]|;
      assert s[..i] == parts[0];
      assert s[i + 1..] == rest;
      SplitAt(s, c, i);
      SplitOfJoin(parts[1..], c);
      assert parts == [parts[0]] + parts[1..];
    }
  }

  /** Text that splits into three or more pieces holds two separators. */
  lemma TwoSeparators(s: seq<byte>, c: byte) returns (i: nat, j: nat)
    requires |Split(s, c)| >= 3
    ensures i < j < |s| && s[i] == c && s[j] == c
  {
    i := FirstIndexOf(s, c).value;
    var rest := s[i + 1..];
    assert |Split(rest, c)| >= 2;
    var j' := FirstIndexOf(rest, c).value;
    j := i + 1 + j';
    assert s[j] == rest[j'];
  }
}
