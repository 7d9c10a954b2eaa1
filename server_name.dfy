/** `is_valid_server_name`: whether a string is a Matrix server name, that is
    a host (a bracketed IPv6 literal, or a run of ASCII letters, digits, `-`
    and `.`) optionally followed by `:` and a port that parses as a `u16`.
    The input is the UTF-8 bytes of the Rust `&str`. */
module ServerName {
  import opened Bytes
  import opened U16
  import opened Ipv6

  /** `u8::is_ascii_alphanumeric`, `-` or `.`: the bytes of an unbracketed host. */
  predicate IsHostByte(b: byte) {
    0x30 <= b <= 0x39 || 0x41 <= b <= 0x5A || 0x61 <= b <= 0x7A || b == HYPHEN || b == DOT
  }

  /** The `end_of_host` binding: the index just past the host, or None where
      the source returns `false` while reading the host. A bracketed host
      ends just past the first `]`, and the text between the brackets must be
      an IPv6 address; an unbracketed host ends at the first `:` (or the end),
      and every byte before that must be a host byte. */
  function EndOfHost(s: seq<byte>): (r: Option<nat>)
    ensures r.Some? ==> r.value <= |s|
    ensures r.Some? && |s| > 0 && s[0] == LBRACKET ==> 2 <= r.value && s[r.value - 1] == RBRACKET
    ensures r.Some? && |s| > 0 && s[0] != LBRACKET && r.value < |s| ==> s[r.value] == COLON
  {
    if |s| > 0 && s[0] == LBRACKET then
      match FirstIndexOf(s, RBRACKET)
      case None => None
      case Some(close) => if IsIpv6Text(s[1..close]) then Some(close + 1) else None
    else
      var end := match FirstIndexOf(s, COLON) case None => |s| case Some(i) => i;
      if exists i :: 0 <= i < end && !IsHostByte(s[i]) then None else Some(end)
  }

  /** `is_valid_server_name(name)`. */
  predicate IsValidServerName(s: seq<byte>) {
    if |s| == 0 then false
    else match EndOfHost(s)
      case None => false
      case Some(end) =>
        if |s| == end then true
        else if s[end] != COLON then false
        else ParsesAsU16(s[end + 1..])
  }

  // ---------------------------------------------------------------------
  // The declarative reading: `host` or `host ":" port`.

  /** `[` IPv6-address `]`. */
  predicate IsBracketedHost(h: seq<byte>) {
    |h| >= 2 && h[0] == LBRACKET && h[|h| - 1] == RBRACKET && IsIpv6Text(h[1..|h| - 1])
  }

  /** A possibly empty run of host bytes (IPv4 dotted decimal, DNS names). */
  predicate IsNameHost(h: seq<byte>) {
    forall i :: 0 <= i < |h| ==> IsHostByte(h[i])
  }

  predicate IsHost(h: seq<byte>) {
    IsBracketedHost(h) || IsNameHost(h)
  }

  /** Non-empty, and either a host, or a host, a `:` at `k`, and a `u16` port. */
  predicate IsServerName(s: seq<byte>) {
    && |s| > 0
    && (|| IsHost(s)
        || exists k :: 0 <= k < |s| && s[k] == COLON && IsHost(s[..k]) && ParsesAsU16(s[k + 1..]))
  }

  /** In a bracketed host the closing bracket is the first `]`. */
  lemma BracketedHostCloses(s: seq<byte>, k: nat)
    requires k <= |s| && IsBracketedHost(s[..k])
    ensures FirstIndexOf(s, RBRACKET) == Some(k - 1)
  {
    var h := s[..k];
    Ipv6Alphabet(h[1..k - 1]);
    FindFirst(s, RBRACKET);
    assert forall j :: 1 <= j < k - 1 ==> s[j] == h[1..k - 1][j - 1];
  }

  /** In a host followed by `:` the `:` is the first one. */
  lemma NameHostStops(s: seq<byte>, k: nat)
    requires k <= |s| && IsNameHost(s[..k])
    ensures FirstIndexOf(s, COLON).Some? ==> FirstIndexOf(s, COLON).value >= k
    ensures k < |s| && s[k] == COLON ==> FirstIndexOf(s, COLON) == Some(k)
    ensures k == |s| ==> FirstIndexOf(s, COLON).None?
  {
    FindFirst(s, COLON);
    assert forall j :: 0 <= j < k ==> s[j] == s[..k][j];
  }

  lemma ValidIsServerName(s: seq<byte>)
    requires IsValidServerName(s)
    ensures IsServerName(s)
  {
    var end := EndOfHost(s).value;
    var h := s[..end];
    if s[0] == LBRACKET {
      var close := FirstIndexOf(s, RBRACKET).value;
      assert end == close + 1;
      assert h[1..|h| - 1] == s[1..close];
      assert IsBracketedHost(h);
    } else {
      assert IsNameHost(h) by {
        forall i | 0 <= i < |h| ensures IsHostByte(h[i]) {
          assert h[i] == s[i];
        }
      }
    }
    if end == |s| {
      assert h == s;
    } else {
      assert s[end] == COLON && IsHost(s[..end]) && ParsesAsU16(s[end + 1..]);
    }
  }

  /** A bracketed host at the start of the input is read up to its `]`. */
  lemma BracketedHostEnd(s: seq<byte>, k: nat)
    requires k <= |s| && IsBracketedHost(s[..k])
    ensures EndOfHost(s) == Some(k)
  {
    BracketedHostCloses(s, k);
    assert s[0] == s[..k][0];
    assert s[1..k - 1] == s[..k][1..k - 1];
  }

  /** A run of host bytes ending at the end or at a `:` is read as the host. */
  lemma NameHostEnd(s: seq<byte>, k: nat)
    requires k <= |s| && IsNameHost(s[..k]) && (k == |s| || s[k] == COLON)
    requires |s| > 0 && s[0] != LBRACKET
    ensures EndOfHost(s) == Some(k)
  {
    NameHostStops(s, k);
    assert forall i :: 0 <= i < k ==> s[i] == s[..k][i];
  }

  /** Either kind of host, followed by the end or a `:`, is read as the host. */
  lemma HostEnd(s: seq<byte>, k: nat)
    requires |s| > 0 && k <= |s| && IsHost(s[..k]) && (k == |s| || s[k] == COLON)
    ensures EndOfHost(s) == Some(k)
  {
    if s[0] == LBRACKET {
      assert !IsNameHost(s[..k]) by {
        if k > 0 { assert s[..k][0] == LBRACKET; }
      }
      BracketedHostEnd(s, k);
    } else {
      assert !IsBracketedHost(s[..k]) by {
        if k > 0 { assert s[..k][0] == s[0]; }
      }
      NameHostEnd(s, k);
    }
  }

  lemma ServerNameIsValid(s: seq<byte>)
    requires IsServerName(s)
    ensures IsValidServerName(s)
  {
    if IsHost(s) {
      assert s[..|s|] == s;
      HostEnd(s, |s|);
    } else {
      var k :| 0 <= k < |s| && s[k] == COLON && IsHost(s[..k]) && ParsesAsU16(s[k + 1..]);
      HostEnd(s, k);
    }
  }

  /** The validator accepts exactly the inputs of the form `host` or
      `host:port`, with the host and port forms above. */
  lemma ValidIffServerName(s: seq<byte>)
    ensures IsValidServerName(s) <==> IsServerName(s)
  {
    if IsValidServerName(s) { ValidIsServerName(s); }
    if IsServerName(s) { ServerNameIsValid(s); }
  }

  // ---------------------------------------------------------------------
  // The accept/reject rules one at a time.

  lemma EmptyRejected()
    ensures !IsValidServerName([])
  {
  }

  /** `[` without any `]` is rejected. */
  lemma UnclosedBracketRejected(s: seq<byte>)
    requires |s| > 0 && s[0] == LBRACKET && RBRACKET !in s
    ensures !IsValidServerName(s)
  {
    FindFirst(s, RBRACKET);
  }

  /** After `[`, the text up to the first `]` must be an IPv6 address. */
  lemma BracketedNeedsIpv6(s: seq<byte>, close: nat)
    requires |s| > 0 && s[0] == LBRACKET
    requires FirstIndexOf(s, RBRACKET) == Some(close)
    ensures IsValidServerName(s) ==> IsIpv6Text(s[1..close])
  {
  }

  /** Without `[`, any byte before the first `:` that is not a host byte rejects. */
  lemma NonHostByteRejected(s: seq<byte>, i: nat)
    requires |s| > 0 && s[0] != LBRACKET
    requires i < |s| && !IsHostByte(s[i]) && COLON !in s[..i + 1]
    ensures !IsValidServerName(s)
  {
    FindFirst(s, COLON);
    assert forall j :: 0 <= j <= i ==> s[j] == s[..i + 1][j];
  }

  /** The unbracketed host may be empty: `:port` is valid exactly when the port is. */
  lemma EmptyHostWithPort(p: seq<byte>)
    ensures IsValidServerName([COLON] + p) <==> ParsesAsU16(p)
  {
    var s := [COLON] + p;
    assert FirstIndexOf(s, COLON) == Some(0);
    assert s[1..] == p;
  }

  /** A host that covers the whole input is accepted, with no port. */
  lemma HostOnlyAccepted(s: seq<byte>)
    requires |s| > 0 && EndOfHost(s) == Some(|s|)
    ensures IsValidServerName(s)
  {
  }

  /** A host followed by anything other than `:` is rejected; only a
      bracketed host can be followed by such a byte. */
  lemma TrailingGarbageRejected(s: seq<byte>, end: nat)
    requires EndOfHost(s) == Some(end) && end < |s| && s[end] != COLON
    ensures !IsValidServerName(s)
    ensures s[0] == LBRACKET
  {
  }

  /** After the host and its `:`, the rest decides: it must parse as a `u16`. */
  lemma PortDecides(s: seq<byte>, end: nat)
    requires EndOfHost(s) == Some(end) && end < |s| && s[end] == COLON
    ensures IsValidServerName(s) <==> ParsesAsU16(s[end + 1..])
    ensures IsValidServerName(s) ==> |s| - end - 1 >= 1
  {
    ParseU16Correct(s[end + 1..]);
  }

  /** Without `[`, a second `:` anywhere is rejected: the port text after the
      first `:` would contain it. */
  lemma TwoColonsRejected(s: seq<byte>, i: nat, j: nat)
    requires |s| > 0 && s[0] != LBRACKET
    requires i < j < |s| && s[i] == COLON && s[j] == COLON
    ensures !IsValidServerName(s)
  {
    FindFirst(s, COLON);
    match EndOfHost(s)
    case None =>
    case Some(end) =>
      var first := FirstIndexOf(s, COLON).value;
      assert end == first && first <= i;
      var port := s[end + 1..];
      assert port[j - end - 1] == COLON;
      NonDigitRejected(port, j - end - 1);
  }

  /** So an IPv6 address written without brackets never passes. */
  lemma UnbracketedIpv6Rejected(s: seq<byte>)
    requires |s| > 0 && s[0] != LBRACKET && FirstDoubleColon(s).Some?
    ensures !IsValidServerName(s)
  {
    var d := FirstDoubleColon(s).value;
    TwoColonsRejected(s, d, d + 1);
  }

  /** No IPv6 address passes without its brackets: its text never starts with
      `[` and always holds two `:`, and the second one lands in the port. */
  lemma UnbracketedIpv6TextRejected(s: seq<byte>)
    requires |s| > 0 && IsIpv6Text(s)
    ensures !IsValidServerName(s)
  {
    Ipv6Alphabet(s);
    assert IsIpv6Byte(s[0]);
    if FirstDoubleColon(s).Some? {
      UnbracketedIpv6Rejected(s);
    } else {
      assert |Split(s, COLON)| >= 7;
      var i, j := TwoSeparators(s, COLON);
      TwoColonsRejected(s, i, j);
    }
  }
}
