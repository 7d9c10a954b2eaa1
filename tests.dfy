/** The validator's unit tests, and the IPv6 texts they bracket, as lemmas.
    Each test names its input as ASCII text; a `Spell` lemma gives its bytes,
    and the verdict is proved about those bytes. */
module ServerNameTests {
  import opened Bytes
  import opened U16
  import opened Ipv6
  import opened ServerName

  // ---------------------------------------------------------------------
  // IPv6 texts, as `Ipv6Addr::from_str` is expected to judge them

  lemma SpellLoopback()
    ensures Ascii("::1") == [0x3A, 0x3A, 0x31]
  {
  }

  lemma LoopbackBytes()
    ensures IsIpv6Text([0x3A, 0x3A, 0x31])
  {
    assert FirstDoubleColon([0x3A, 0x3A, 0x31]) == Some(0);
    assert GroupCount([0x31], true) == Some(1);
  }

  lemma Ipv6Loopback()
    ensures IsIpv6Text(Ascii("::1"))
  {
    SpellLoopback();
    LoopbackBytes();
  }

  lemma SpellExample()
    ensures Ascii("1234:5678::abcd")
         == [0x31, 0x32, 0x33, 0x34, 0x3A, 0x35, 0x36, 0x37, 0x38, 0x3A, 0x3A, 0x61, 0x62, 0x63, 0x64]
  {
  }

  lemma ExampleBytes()
    ensures IsIpv6Text([0x31, 0x32, 0x33, 0x34, 0x3A, 0x35, 0x36, 0x37, 0x38, 0x3A, 0x3A, 0x61, 0x62, 0x63, 0x64])
  {
    var s: seq<byte> := [0x31, 0x32, 0x33, 0x34, 0x3A, 0x35, 0x36, 0x37, 0x38, 0x3A, 0x3A, 0x61, 0x62, 0x63, 0x64];
    var head: seq<byte> := [0x31, 0x32, 0x33, 0x34, 0x3A, 0x35, 0x36, 0x37, 0x38];
    assert FirstDoubleColon([0x31, 0x32, 0x33, 0x34, 0x3A, 0x35, 0x36, 0x37, 0x38, 0x3A, 0x3A, 0x61, 0x62, 0x63, 0x64]) == Some(9);
    assert s[..9] == head;
    assert s[11..] == [0x61, 0x62, 0x63, 0x64];
    SplitAt(head, COLON, 4);
    assert head[..4] == [0x31, 0x32, 0x33, 0x34];
    assert head[5..] == [0x35, 0x36, 0x37, 0x38];
    SplitNone([0x35, 0x36, 0x37, 0x38], COLON);
    assert GroupCount([0x61, 0x62, 0x63, 0x64], true) == Some(1);
    CompressedForm(s, 9, 2, 1);
  }

  lemma Ipv6Example()
    ensures IsIpv6Text(Ascii("1234:5678::abcd"))
  {
    SpellExample();
    ExampleBytes();
  }

  lemma SpellLinkLocal()
    ensures Ascii("fe80::1") == [0x66, 0x65, 0x38, 0x30, 0x3A, 0x3A, 0x31]
  {
  }

  lemma LinkLocalBytes()
    ensures IsIpv6Text([0x66, 0x65, 0x38, 0x30, 0x3A, 0x3A, 0x31])
  {
    var s: seq<byte> := [0x66, 0x65, 0x38, 0x30, 0x3A, 0x3A, 0x31];
    assert FirstDoubleColon([0x66, 0x65, 0x38, 0x30, 0x3A, 0x3A, 0x31]) == Some(4);
    assert s[..4] == [0x66, 0x65, 0x38, 0x30];
    assert s[6..] == [0x31];
    assert GroupCount([0x66, 0x65, 0x38, 0x30], false) == Some(1);
    assert GroupCount([0x31], true) == Some(1);
    CompressedForm(s, 4, 1, 1);
  }

  lemma Ipv6LinkLocal()
    ensures IsIpv6Text(Ascii("fe80::1"))
  {
    SpellLinkLocal();
    LinkLocalBytes();
  }

  lemma SpellNotHex()
    ensures Ascii("test::1") == [0x74, 0x65, 0x73, 0x74, 0x3A, 0x3A, 0x31]
  {
  }

  /** `t` and `s` are not hex digits, so the head of `test::1` is no group. */
  lemma NotHexBytes()
    ensures !IsIpv6Text([0x74, 0x65, 0x73, 0x74, 0x3A, 0x3A, 0x31])
  {
    var s: seq<byte> := [0x74, 0x65, 0x73, 0x74, 0x3A, 0x3A, 0x31];
    assert FirstDoubleColon([0x74, 0x65, 0x73, 0x74, 0x3A, 0x3A, 0x31]) == Some(4);
    assert s[..4] == [0x74, 0x65, 0x73, 0x74];
    assert GroupCount([0x74, 0x65, 0x73, 0x74], false).None?;
  }

  lemma Ipv6NotHex()
    ensures !IsIpv6Text(Ascii("test::1"))
  {
    SpellNotHex();
    NotHexBytes();
  }

  // ---------------------------------------------------------------------
  // `is_valid_server_name` tests

  lemma SpellIpv4Host()
    ensures Ascii("127.0.0.1") == [0x31, 0x32, 0x37, 0x2E, 0x30, 0x2E, 0x30, 0x2E, 0x31]
  {
  }

  lemma Ipv4HostBytes(s: seq<byte>)
    requires s == [0x31, 0x32, 0x37, 0x2E, 0x30, 0x2E, 0x30, 0x2E, 0x31]
    ensures IsValidServerName(s)
  {
    assert IsNameHost([0x31, 0x32, 0x37, 0x2E, 0x30, 0x2E, 0x30, 0x2E, 0x31]);
    assert s[..|s|] == s;
    NameHostEnd(s, |s|);
    HostOnlyAccepted(s);
  }

  lemma Ipv4Host()
    ensures IsValidServerName(Ascii("127.0.0.1"))
  {
    SpellIpv4Host();
    Ipv4HostBytes(Ascii("127.0.0.1"));
  }

  lemma SpellIpv4HostAndPort()
    ensures Ascii("1.1.1.1:12000")
         == [0x31, 0x2E, 0x31, 0x2E, 0x31, 0x2E, 0x31, 0x3A, 0x31, 0x32, 0x30, 0x30, 0x30]
  {
  }

  lemma Ipv4HostAndPortBytes(s: seq<byte>)
    requires s == [0x31, 0x2E, 0x31, 0x2E, 0x31, 0x2E, 0x31, 0x3A, 0x31, 0x32, 0x30, 0x30, 0x30]
    ensures IsValidServerName(s)
  {
    var host: seq<byte> := [0x31, 0x2E, 0x31, 0x2E, 0x31, 0x2E, 0x31];
    var port: seq<byte> := [0x31, 0x32, 0x30, 0x30, 0x30];
    assert s == host + [COLON] + port;
    assert s[..7] == host && s[8..] == port;
    assert IsNameHost(host);
    NameHostEnd(s, 7);
    assert ParseU16(port) == Some(12000);
    PortDecides(s, 7);
  }

  lemma Ipv4HostAndPort()
    ensures IsValidServerName(Ascii("1.1.1.1:12000"))
  {
    SpellIpv4HostAndPort();
    Ipv4HostAndPortBytes(Ascii("1.1.1.1:12000"));
  }

  lemma Ipv6Host()
    ensures IsValidServerName(Ascii("[::1]"))
  {
    assert Ascii("[::1]") == [0x5B, 0x3A, 0x3A, 0x31, 0x5D];
    LoopbackBytes();
    var s: seq<byte> := [0x5B, 0x3A, 0x3A, 0x31, 0x5D];
    assert FirstIndexOf([0x5B, 0x3A, 0x3A, 0x31, 0x5D], RBRACKET) == Some(4);
    assert s[1..4] == [0x3A, 0x3A, 0x31];
  }

  lemma SpellIpv6WithPort()
    ensures Ascii("[1234:5678::abcd]:5678")
         == [0x5B, 0x31, 0x32, 0x33, 0x34, 0x3A, 0x35, 0x36, 0x37, 0x38, 0x3A, 0x3A,
             0x61, 0x62, 0x63, 0x64, 0x5D, 0x3A, 0x35, 0x36, 0x37, 0x38]
  {
  }

  lemma CloseBracketOfIpv6WithPort()
    ensures FirstIndexOf([0x5B, 0x31, 0x32, 0x33, 0x34, 0x3A, 0x35, 0x36, 0x37, 0x38, 0x3A, 0x3A,
                          0x61, 0x62, 0x63, 0x64, 0x5D, 0x3A, 0x35, 0x36, 0x37, 0x38], RBRACKET) == Some(16)
  {
    assert IndexFrom([0x5B, 0x31, 0x32, 0x33, 0x34, 0x3A, 0x35, 0x36, 0x37, 0x38, 0x3A, 0x3A,
                      0x61, 0x62, 0x63, 0x64, 0x5D, 0x3A, 0x35, 0x36, 0x37, 0x38], RBRACKET, 8) == Some(16);
  }

  lemma Ipv6WithPortHost(s: seq<byte>)
    requires s == [0x5B, 0x31, 0x32, 0x33, 0x34, 0x3A, 0x35, 0x36, 0x37, 0x38, 0x3A, 0x3A,
                   0x61, 0x62, 0x63, 0x64, 0x5D, 0x3A, 0x35, 0x36, 0x37, 0x38]
    ensures EndOfHost(s) == Some(17)
  {
    CloseBracketOfIpv6WithPort();
    var addr: seq<byte> := [0x31, 0x32, 0x33, 0x34, 0x3A, 0x35, 0x36, 0x37, 0x38, 0x3A, 0x3A, 0x61, 0x62, 0x63, 0x64];
    assert s == [LBRACKET] + addr + [0x5D, 0x3A, 0x35, 0x36, 0x37, 0x38];
    assert s[1..16] == addr;
    ExampleBytes();
  }

  lemma Ipv6WithPortBytes(s: seq<byte>)
    requires s == [0x5B, 0x31, 0x32, 0x33, 0x34, 0x3A, 0x35, 0x36, 0x37, 0x38, 0x3A, 0x3A,
                   0x61, 0x62, 0x63, 0x64, 0x5D, 0x3A, 0x35, 0x36, 0x37, 0x38]
    ensures IsValidServerName(s)
  {
    Ipv6WithPortHost(s);
    var port: seq<byte> := [0x35, 0x36, 0x37, 0x38];
    assert s == s[..18] + port;
    assert s[18..] == port;
    assert ParseU16(port) == Some(5678);
    PortDecides(s, 17);
  }

  lemma Ipv6WithPort()
    ensures IsValidServerName(Ascii("[1234:5678::abcd]:5678"))
  {
    SpellIpv6WithPort();
    Ipv6WithPortBytes(Ascii("[1234:5678::abcd]:5678"));
  }

  lemma SpellDnsName()
    ensures Ascii("example.com") == [0x65, 0x78, 0x61, 0x6D, 0x70, 0x6C, 0x65, 0x2E, 0x63, 0x6F, 0x6D]
  {
  }

  lemma DnsNameBytes(s: seq<byte>)
    requires s == [0x65, 0x78, 0x61, 0x6D, 0x70, 0x6C, 0x65, 0x2E, 0x63, 0x6F, 0x6D]
    ensures IsValidServerName(s)
  {
    assert IsNameHost([0x65, 0x78, 0x61, 0x6D, 0x70, 0x6C, 0x65, 0x2E, 0x63, 0x6F, 0x6D]);
    assert s[..|s|] == s;
    NameHostEnd(s, |s|);
    HostOnlyAccepted(s);
  }

  lemma DnsName()
    ensures IsValidServerName(Ascii("example.com"))
  {
    SpellDnsName();
    DnsNameBytes(Ascii("example.com"));
  }

  lemma SpellDnsNameWithPort()
    ensures Ascii("ruma.io:8080") == [0x72, 0x75, 0x6D, 0x61, 0x2E, 0x69, 0x6F, 0x3A, 0x38, 0x30, 0x38, 0x30]
  {
  }

  lemma DnsNameWithPortBytes(s: seq<byte>)
    requires s == [0x72, 0x75, 0x6D, 0x61, 0x2E, 0x69, 0x6F, 0x3A, 0x38, 0x30, 0x38, 0x30]
    ensures IsValidServerName(s)
  {
    var host: seq<byte> := [0x72, 0x75, 0x6D, 0x61, 0x2E, 0x69, 0x6F];
    var port: seq<byte> := [0x38, 0x30, 0x38, 0x30];
    assert s == host + [COLON] + port;
    assert s[..7] == host && s[8..] == port;
    assert IsNameHost(host);
    NameHostEnd(s, 7);
    assert ParseU16(port) == Some(8080);
    PortDecides(s, 7);
  }

  lemma DnsNameWithPort()
    ensures IsValidServerName(Ascii("ruma.io:8080"))
  {
    SpellDnsNameWithPort();
    DnsNameWithPortBytes(Ascii("ruma.io:8080"));
  }

  lemma EmptyString()
    ensures !IsValidServerName(Ascii(""))
  {
  }

  lemma InvalidIpv6()
    ensures !IsValidServerName(Ascii("[test::1]"))
  {
    assert Ascii("[test::1]") == [0x5B, 0x74, 0x65, 0x73, 0x74, 0x3A, 0x3A, 0x31, 0x5D];
    NotHexBytes();
    var s: seq<byte> := [0x5B, 0x74, 0x65, 0x73, 0x74, 0x3A, 0x3A, 0x31, 0x5D];
    assert FirstIndexOf([0x5B, 0x74, 0x65, 0x73, 0x74, 0x3A, 0x3A, 0x31, 0x5D], RBRACKET) == Some(8);
    assert s[1..8] == [0x74, 0x65, 0x73, 0x74, 0x3A, 0x3A, 0x31];
  }

  lemma SpellIpv4WithInvalidPort()
    ensures Ascii("127.0.0.1:") == [0x31, 0x32, 0x37, 0x2E, 0x30, 0x2E, 0x30, 0x2E, 0x31, 0x3A]
  {
  }

  /** The port after the `:` is empty, and an empty text is no `u16`. */
  lemma Ipv4WithInvalidPortBytes(s: seq<byte>)
    requires s == [0x31, 0x32, 0x37, 0x2E, 0x30, 0x2E, 0x30, 0x2E, 0x31, 0x3A]
    ensures !IsValidServerName(s)
  {
    var host: seq<byte> := [0x31, 0x32, 0x37, 0x2E, 0x30, 0x2E, 0x30, 0x2E, 0x31];
    assert s == host + [COLON];
    assert s[..9] == host && s[10..] == [];
    assert IsNameHost(host);
    NameHostEnd(s, 9);
    PortDecides(s, 9);
  }

  lemma Ipv4WithInvalidPort()
    ensures !IsValidServerName(Ascii("127.0.0.1:"))
  {
    SpellIpv4WithInvalidPort();
    Ipv4WithInvalidPortBytes(Ascii("127.0.0.1:"));
  }

  lemma SpellPortTooLarge()
    ensures Ascii("[fe80::1]:100000")
         == [0x5B, 0x66, 0x65, 0x38, 0x30, 0x3A, 0x3A, 0x31, 0x5D, 0x3A, 0x31, 0x30, 0x30, 0x30, 0x30, 0x30]
  {
  }

  lemma PortTooLargeBytes()
    ensures !IsValidServerName([0x5B, 0x66, 0x65, 0x38, 0x30, 0x3A, 0x3A, 0x31, 0x5D,
                                0x3A, 0x31, 0x30, 0x30, 0x30, 0x30, 0x30])
  {
    var s: seq<byte> := [0x5B, 0x66, 0x65, 0x38, 0x30, 0x3A, 0x3A, 0x31, 0x5D, 0x3A, 0x31, 0x30, 0x30, 0x30, 0x30, 0x30];
    match EndOfHost(s)
    case None =>
    case Some(end) =>
      assert FirstIndexOf([0x5B, 0x66, 0x65, 0x38, 0x30, 0x3A, 0x3A, 0x31, 0x5D,
                           0x3A, 0x31, 0x30, 0x30, 0x30, 0x30, 0x30], RBRACKET) == Some(8);
      assert end == 9;
      assert s[10..] == [0x31, 0x30, 0x30, 0x30, 0x30, 0x30];
      assert !ParsesAsU16([0x31, 0x30, 0x30, 0x30, 0x30, 0x30]);
  }

  lemma SpellTrailingBang()
    ensures Ascii("[fe80::1]!") == [0x5B, 0x66, 0x65, 0x38, 0x30, 0x3A, 0x3A, 0x31, 0x5D, 0x21]
  {
  }

  lemma TrailingBangBytes()
    ensures !IsValidServerName([0x5B, 0x66, 0x65, 0x38, 0x30, 0x3A, 0x3A, 0x31, 0x5D, 0x21])
  {
    var s: seq<byte> := [0x5B, 0x66, 0x65, 0x38, 0x30, 0x3A, 0x3A, 0x31, 0x5D, 0x21];
    match EndOfHost(s)
    case None =>
    case Some(end) =>
      assert FirstIndexOf([0x5B, 0x66, 0x65, 0x38, 0x30, 0x3A, 0x3A, 0x31, 0x5D, 0x21], RBRACKET) == Some(8);
      assert end == 9;
      TrailingGarbageRejected(s, 9);
  }

  lemma Ipv6WithInvalidPort()
    ensures !IsValidServerName(Ascii("[fe80::1]:100000"))
    ensures !IsValidServerName(Ascii("[fe80::1]!"))
  {
    SpellPortTooLarge();
    PortTooLargeBytes();
    SpellTrailingBang();
    TrailingBangBytes();
  }

  lemma SpellDnsNameWithInvalidPort()
    ensures Ascii("matrix.org:hello")
         == [0x6D, 0x61, 0x74, 0x72, 0x69, 0x78, 0x2E, 0x6F, 0x72, 0x67, 0x3A, 0x68, 0x65, 0x6C, 0x6C, 0x6F]
  {
  }

  lemma DnsNameWithInvalidPortBytes(s: seq<byte>)
    requires s == [0x6D, 0x61, 0x74, 0x72, 0x69, 0x78, 0x2E, 0x6F, 0x72, 0x67, 0x3A, 0x68, 0x65, 0x6C, 0x6C, 0x6F]
    ensures !IsValidServerName(s)
  {
    var host: seq<byte> := [0x6D, 0x61, 0x74, 0x72, 0x69, 0x78, 0x2E, 0x6F, 0x72, 0x67];
    var port: seq<byte> := [0x68, 0x65, 0x6C, 0x6C, 0x6F];
    assert s == host + [COLON] + port;
    assert s[..10] == host && s[11..] == port;
    assert IsNameHost(host);
    NameHostEnd(s, 10);
    NonDigitRejected(port, 0);
    PortDecides(s, 10);
  }

  lemma DnsNameWithInvalidPort()
    ensures !IsValidServerName(Ascii("matrix.org:hello"))
  {
    SpellDnsNameWithInvalidPort();
    DnsNameWithInvalidPortBytes(Ascii("matrix.org:hello"));
  }

  // ---------------------------------------------------------------------
  // Consequences of the code that the tests do not show

  /** The unbracketed host may be empty. */
  lemma EmptyHostAccepted()
    ensures IsValidServerName(Ascii(":8080"))
  {
    assert Ascii(":8080") == [COLON] + [0x38, 0x30, 0x38, 0x30];
    EmptyHostWithPort([0x38, 0x30, 0x38, 0x30]);
  }

  lemma SpellZeroPaddedPort()
    ensures Ascii("ruma.io:000008080")
         == [0x72, 0x75, 0x6D, 0x61, 0x2E, 0x69, 0x6F, 0x3A, 0x30, 0x30, 0x30, 0x30, 0x30, 0x38, 0x30, 0x38, 0x30]
  {
  }

  lemma ZeroPaddedPortBytes()
    ensures IsValidServerName([0x72, 0x75, 0x6D, 0x61, 0x2E, 0x69, 0x6F, 0x3A,
                               0x30, 0x30, 0x30, 0x30, 0x30, 0x38, 0x30, 0x38, 0x30])
  {
    var s: seq<byte> := [0x72, 0x75, 0x6D, 0x61, 0x2E, 0x69, 0x6F, 0x3A,
                         0x30, 0x30, 0x30, 0x30, 0x30, 0x38, 0x30, 0x38, 0x30];
    assert FirstIndexOf([0x72, 0x75, 0x6D, 0x61, 0x2E, 0x69, 0x6F, 0x3A,
                         0x30, 0x30, 0x30, 0x30, 0x30, 0x38, 0x30, 0x38, 0x30], COLON) == Some(7);
    assert EndOfHost(s) == Some(7);
    assert s[8..] == [0x30, 0x30, 0x30, 0x30, 0x30, 0x38, 0x30, 0x38, 0x30];
    assert DecimalValue([0x38, 0x30, 0x38, 0x30]) == 8080;
    assert seq(5, _ => 0x30 as byte) + [0x38, 0x30, 0x38, 0x30] == s[8..];
    LeadingZerosAccepted(5, [0x38, 0x30, 0x38, 0x30]);
    PortDecides(s, 7);
  }

  /** Leading zeros let a port have more than five digits. */
  lemma LongZeroPaddedPortAccepted()
    ensures IsValidServerName(Ascii("ruma.io:000008080"))
  {
    SpellZeroPaddedPort();
    ZeroPaddedPortBytes();
  }

  /** An IPv6 address without brackets is rejected. */
  lemma UnbracketedIpv6Host()
    ensures !IsValidServerName(Ascii("fe80::1"))
  {
    SpellLinkLocal();
    UnbracketedIpv6Rejected([0x66, 0x65, 0x38, 0x30, 0x3A, 0x3A, 0x31]);
  }
}
