/** Rust's `str::parse::<u16>()`, the port check of the validator.

    The standard library's unsigned `from_str_radix(src, 10)` rejects empty
    input, strips one leading `+` (a lone `+` fails as well), and then
    folds the digits left to right with checked multiplication and addition,
    failing on any non-digit and on overflow. `-` is never stripped for an
    unsigned type, so it fails as a non-digit, and so does whitespace. */
module U16 {
  import opened Bytes

  const U16_MAX: nat := 65535

  predicate IsDigit(b: byte) {
    0x30 <= b <= 0x39
  }

  function DigitValue(b: byte): (d: nat)
    requires IsDigit(b)
    ensures d < 10
  {
    (b - 0x30) as nat
  }

  predicate AllDigits(s: seq<byte>) {
    forall i :: 0 <= i < |s| ==> IsDigit(s[i])
  }

  /** The mathematical value of a run of decimal digits read left to right
      after `acc`, leading zeros included, with no bound. */
  function DecimalFrom(acc: nat, s: seq<byte>): nat
    requires AllDigits(s)
    decreases |s|
  {
    if s == [] then acc else DecimalFrom(acc * 10 + DigitValue(s[0]), s[1..])
  }

  function DecimalValue(s: seq<byte>): nat
    requires AllDigits(s)
  {
    DecimalFrom(0, s)
  }

  /** The std digit loop: `acc = acc.checked_mul(10)?.checked_add(d)?` per byte.
      Both checked steps overflow exactly when `acc * 10 + d` exceeds `u16::MAX`. */
  function Accumulate(acc: nat, s: seq<byte>): Option<nat>
    requires acc <= U16_MAX
    decreases |s|
  {
    if s == [] then Some(acc)
    else if !IsDigit(s[0]) then None
    else
      var next := acc * 10 + DigitValue(s[0]);
      if next > U16_MAX then None else Accumulate(next, s[1..])
  }

  /** `u16::from_str`: the parsed value, or None for any parse error. */
  function ParseU16(s: seq<byte>): Option<nat> {
    if |s| == 0 then None
    else if s[0] == PLUS && |s| == 1 then None
    else
      var digits := if s[0] == PLUS then s[1..] else s;
      Accumulate(0, digits)
  }

  predicate ParsesAsU16(s: seq<byte>) {
    ParseU16(s).Some?
  }

  /** The digits `ParseU16` reads: everything after an optional leading `+`. */
  function DigitsOf(s: seq<byte>): (r: seq<byte>)
    ensures |r| <= |s|
    ensures r == s || (|s| > 0 && s[0] == PLUS && r == s[1..])
  {
    if |s| > 0 && s[0] == PLUS then s[1..] else s
  }

  /** The declarative reading: an optional `+`, one or more ASCII digits, and
      a value of at most 65535 (any number of leading zeros). */
  predicate IsU16Text(s: seq<byte>) {
    var ds := DigitsOf(s);
    |ds| > 0 && AllDigits(ds) && DecimalValue(ds) <= U16_MAX
  }

  lemma AllDigitsTail(s: seq<byte>)
    requires s != []
    ensures AllDigits(s) <==> IsDigit(s[0]) && AllDigits(s[1..])
  {
    if IsDigit(s[0]) && AllDigits(s[1..]) {
      forall i | 0 < i < |s| ensures IsDigit(s[i]) {
        assert s[i] == s[1..][i - 1];
      }
    }
  }

  /** Reading more digits never lowers the value. */
  lemma {:induction false} DecimalFromAtLeast(acc: nat, s: seq<byte>)
    requires AllDigits(s)
    decreases |s|
    ensures DecimalFrom(acc, s) >= acc
  {
    if s != [] {
      AllDigitsTail(s);
      DecimalFromAtLeast(acc * 10 + DigitValue(s[0]), s[1..]);
    }
  }

  /** The checked fold agrees with the unbounded one whenever the value fits in
      a `u16`, and fails exactly when a byte is not a digit or the value does not fit. */
  lemma {:induction false} AccumulateValue(acc: nat, s: seq<byte>)
    requires acc <= U16_MAX
    decreases |s|
    ensures Accumulate(acc, s).Some? <==> AllDigits(s) && DecimalFrom(acc, s) <= U16_MAX
    ensures Accumulate(acc, s).Some? ==> Accumulate(acc, s).value == DecimalFrom(acc, s)
  {
    if s != [] {
      AllDigitsTail(s);
      if IsDigit(s[0]) {
        var next := acc * 10 + DigitValue(s[0]);
        if next <= U16_MAX {
          AccumulateValue(next, s[1..]);
        } else if AllDigits(s) {
          DecimalFromAtLeast(next, s[1..]);
        }
      }
    }
  }

  /** The std fold accepts exactly the declarative `u16` texts, with their value. */
  lemma ParseU16Correct(s: seq<byte>)
    ensures ParsesAsU16(s) <==> IsU16Text(s)
    ensures ParsesAsU16(s) ==> ParseU16(s).value == DecimalValue(DigitsOf(s))
    ensures ParsesAsU16(s) ==> ParseU16(s).value <= U16_MAX
  {
    if |s| > 0 && !(s[0] == PLUS && |s| == 1) {
      AccumulateValue(0, DigitsOf(s));
    }
  }

  /** A port text containing a byte that is neither a digit nor a leading `+`
      (a second `:`, a `-`, a space) never parses. */
  lemma NonDigitRejected(s: seq<byte>, i: nat)
    requires i < |s| && !IsDigit(s[i]) && !(i == 0 && s[i] == PLUS)
    ensures !ParsesAsU16(s)
  {
    ParseU16Correct(s);
    var ds := DigitsOf(s);
    if ds == s {
      assert !IsDigit(ds[i]);
    } else {
      assert !IsDigit(ds[i - 1]);
    }
  }

  /** Leading zeros are read as part of the number: any count of them passes. */
  lemma {:induction false} LeadingZerosAccepted(z: nat, s: seq<byte>)
    requires AllDigits(s) && |s| > 0 && DecimalValue(s) <= U16_MAX
    ensures ParsesAsU16(seq(z, _ => 0x30 as byte) + s)
  {
    var t := seq(z, _ => 0x30 as byte) + s;
    assert AllDigits(t) by {
      forall i | 0 <= i < |t| ensures IsDigit(t[i]) {
        if i >= z { assert t[i] == s[i - z]; }
      }
    }
    ZerosPrefixValue(z, s);
    assert t[0] != PLUS;
    ParseU16Correct(t);
  }

  lemma {:induction false} ZerosPrefixValue(z: nat, s: seq<byte>)
    requires AllDigits(s)
    ensures AllDigits(seq(z, _ => 0x30 as byte) + s)
    ensures DecimalValue(seq(z, _ => 0x30 as byte) + s) == DecimalValue(s)
  {
    var t := seq(z, _ => 0x30 as byte) + s;
    assert AllDigits(t) by {
      forall i | 0 <= i < |t| ensures IsDigit(t[i]) {
        if i >= z { assert t[i] == s[i - z]; }
      }
    }
    if z == 0 {
      assert t == s;
    } else {
      ZerosPrefixValue(z - 1, s);
      assert t[1..] == seq(z - 1, _ => 0x30 as byte) + s;
      assert DigitValue(t[0]) == 0;
    }
  }

  /* Ports from the validator's tests and the edge cases of Rust's parser.
     Each proof first spells the ASCII text as bytes. */

  lemma AcceptedPorts()
    ensures ParseU16(Ascii("8080")) == Some(8080)
    ensures ParseU16(Ascii("+80")) == Some(80)
    ensures ParseU16(Ascii("65535")) == Some(65535)
  {
    assert Ascii("8080") == [0x38, 0x30, 0x38, 0x30];
    assert Ascii("+80") == [0x2B, 0x38, 0x30];
    assert Ascii("65535") == [0x36, 0x35, 0x35, 0x33, 0x35];
  }

  lemma AcceptedLeadingZeros()
    ensures ParseU16(Ascii("000008080")) == Some(8080)
  {
    assert Ascii("000008080") == [0x30, 0x30, 0x30, 0x30, 0x30, 0x38, 0x30, 0x38, 0x30];
  }

  lemma RejectedPortsOverflow()
    ensures !ParsesAsU16(Ascii("65536"))
    ensures !ParsesAsU16(Ascii("100000"))
  {
    assert Ascii("65536") == [0x36, 0x35, 0x35, 0x33, 0x36];
    assert Ascii("100000") == [0x31, 0x30, 0x30, 0x30, 0x30, 0x30];
  }

  lemma RejectedPortsSyntax()
    ensures !ParsesAsU16(Ascii(""))
    ensures !ParsesAsU16(Ascii("+"))
    ensures !ParsesAsU16(Ascii("-1"))
    ensures !ParsesAsU16(Ascii(" 80"))
    ensures !ParsesAsU16(Ascii("hello"))
  {
    assert Ascii("+") == [0x2B];
    assert Ascii("-1") == [0x2D, 0x31];
    assert Ascii(" 80") == [0x20, 0x38, 0x30];
    assert Ascii("hello")[0] == 0x68;
  }
}
