# Matrix server-name validator

This project models `is_valid_server_name` from ruma-identifiers. It decides
whether a string is a Matrix server name. A server name is a host followed
by an optional `:` and a port. The host is either a bracketed IPv6 literal
such as `[::1]`, or a run of ASCII letters, digits, `-` and `.` such as an
IPv4 dotted quad or a DNS name. The port must parse as a Rust `u16`.

The model works on the UTF-8 bytes of the input (`seq<byte>`). Every
delimiter the validator looks for is ASCII, so a byte index is also a char
boundary of the Rust `&str`.

- `Bytes` holds the byte type and `str::find` (`FirstIndexOf`). It also
  holds `Split`, which the IPv6 grammar uses to cut text into groups, and
  its inverse `Join`, which builds addresses from their groups.
- `U16` holds `str::parse::<u16>()`, written as the standard library's
  checked digit-by-digit fold (`ParseU16`). It is proved equal to a
  declarative reading: an optional `+`, one or more digits, and a value of
  at most 65535.
- `Ipv6` holds the textual address forms of section 2.2 of RFC 4291
  (`IsIpv6Text`). They stand in for `Ipv6Addr::from_str`.
- `ServerName` holds the validator itself (`IsValidServerName`, with
  `EndOfHost` for the `end_of_host` binding), a declarative grammar
  (`IsServerName`), the proof that the two agree, and the accept/reject
  rules one at a time.
- `ServerNameTests` holds every unit test of the source file as a lemma
  about the model, plus a few consequences that the tests do not show.

The doc comment of `is_valid_server_name` links the server-name grammar of
the Matrix specification (its appendix on server names). Where that grammar
and the code disagree, the model follows the code. The code accepts these
inputs, which the grammar does not, and the model accepts them too:

- a port with a leading `+` (`ruma.io:+80`);
- a port with more than five digits when the extra digits are leading
  zeros (`ruma.io:000008080`);
- an empty unbracketed host followed by a port (`:8080`).

The lemmas `LeadingZerosAccepted`, `LongZeroPaddedPortAccepted`,
`EmptyHostWithPort` and `EmptyHostAccepted` state these behaviours.

## Model

| member | source | states |
|---|---|---|
| ServerName.IsValidServerName | ruma-identifiers/src/server_name.rs:4-44 | `is_valid_server_name` itself, branch for branch: empty input, the bracketed and unbracketed host, then the end, a non-`:` byte or the port |
| ServerName.IsHostByte | ruma-identifiers/src/server_name.rs:27 | the byte test of the unbracketed host: an ASCII letter or digit, `-` or `.` |
| ServerName.EndOfHost | ruma-identifiers/src/server_name.rs:11-33 | the host end lies within the input; a bracketed host ends just past a `]` and is at least `[]` long; an unbracketed host ends at the end or at a `:` |
| ServerName.ValidIsServerName | ruma-identifiers/src/server_name.rs:4-44 | every accepted input is non-empty and is either a host alone, or a host, a `:` and a `u16` port |
| ServerName.ServerNameIsValid | ruma-identifiers/src/server_name.rs:4-44 | every input of the form `host` or `host:port` is accepted |
| ServerName.ValidIffServerName | ruma-identifiers/src/server_name.rs:4-44 | the validator accepts exactly the non-empty inputs of the form `host` or `host:port` |
| ServerName.BracketedHostCloses | ruma-identifiers/src/server_name.rs:12-15 | for a bracketed IPv6 host, the first `]` in the input is the host's own closing bracket |
| ServerName.NameHostStops | ruma-identifiers/src/server_name.rs:23 | after a run of host bytes, the first `:` in the input is the one right after the host, or there is none |
| ServerName.BracketedHostEnd | ruma-identifiers/src/server_name.rs:11-21 | a bracketed IPv6 host at the start of the input is read up to and including its `]` |
| ServerName.NameHostEnd | ruma-identifiers/src/server_name.rs:22-33 | a run of host bytes followed by the end of the input or a `:` is read as the whole host |
| ServerName.HostEnd | ruma-identifiers/src/server_name.rs:11-33 | either kind of host followed by the end of the input or a `:` is read as the host |
| ServerName.EmptyRejected | ruma-identifiers/src/server_name.rs:7-9 | the empty string is rejected |
| ServerName.UnclosedBracketRejected | ruma-identifiers/src/server_name.rs:11-15 | input that starts with `[` and contains no `]` is rejected |
| ServerName.BracketedNeedsIpv6 | ruma-identifiers/src/server_name.rs:16-19 | after `[`, accepted input has IPv6 text between the `[` and the first `]` |
| ServerName.NonHostByteRejected | ruma-identifiers/src/server_name.rs:23-30 | without `[`, a byte before the first `:` that is not alphanumeric, `-` or `.` rejects the input |
| ServerName.EmptyHostWithPort | ruma-identifiers/src/server_name.rs:23-42 | `:` followed by `p` is accepted exactly when `p` parses as a `u16`, so the unbracketed host may be empty |
| ServerName.HostOnlyAccepted | ruma-identifiers/src/server_name.rs:35-36 | a host that covers the whole input is accepted |
| ServerName.TrailingGarbageRejected | ruma-identifiers/src/server_name.rs:37-39 | a host followed by a byte other than `:` is rejected, and only a bracketed host can be followed by such a byte |
| ServerName.PortDecides | ruma-identifiers/src/server_name.rs:40-43 | after the host and its `:`, the input is accepted exactly when the rest parses as a `u16`; an accepted port is non-empty |
| ServerName.TwoColonsRejected | ruma-identifiers/src/server_name.rs:22-43 | without `[`, an input holding two `:` anywhere is rejected |
| ServerName.UnbracketedIpv6Rejected | ruma-identifiers/src/server_name.rs:22-43 | without `[`, an input containing `::` is rejected |
| ServerName.UnbracketedIpv6TextRejected | ruma-identifiers/src/server_name.rs:11-43 | no IPv6 address text passes without brackets, in the compressed or the full eight-group form |
| Bytes.FirstIndexOf | ruma-identifiers/src/server_name.rs:12 | `str::find` returns an index inside the input that holds the sought byte |
| Bytes.IndexFromFirst | ruma-identifiers/src/server_name.rs:12 | the search from a position finds the first occurrence at or after it, and finds nothing exactly when there is none |
| Bytes.FindFirst | ruma-identifiers/src/server_name.rs:23 | `str::find` finds nothing exactly when the byte is absent, and otherwise returns its first occurrence |
| U16.Accumulate | ruma-identifiers/src/server_name.rs:42 | the std digit loop of `parse::<u16>`: a checked multiply by 10 and add per byte, failing on a non-digit or on overflow |
| U16.ParseU16 | ruma-identifiers/src/server_name.rs:42 | `parse::<u16>`: empty text and a lone `+` fail; one leading `+` is dropped; the rest goes through the digit loop |
| U16.ParsesAsU16 | ruma-identifiers/src/server_name.rs:42 | the `.is_ok()` of the port parse |
| U16.AccumulateValue | ruma-identifiers/src/server_name.rs:42 | the checked multiply-add fold succeeds exactly when every byte is a digit and the unbounded value fits in 65535, and then yields that value |
| U16.DecimalFromAtLeast | ruma-identifiers/src/server_name.rs:42 | reading more digits never lowers the value, so one overflow means the whole number overflows |
| U16.ParseU16Correct | ruma-identifiers/src/server_name.rs:42 | `parse::<u16>` accepts exactly an optional `+` followed by one or more digits whose value is at most 65535, and returns that value |
| U16.NonDigitRejected | ruma-identifiers/src/server_name.rs:42 | a port holding any byte other than a digit or a leading `+` (`-`, a space, a second `:`) does not parse |
| U16.LeadingZerosAccepted | ruma-identifiers/src/server_name.rs:42 | any number of leading zeros in front of an in-range number still parses |
| U16.ZerosPrefixValue | ruma-identifiers/src/server_name.rs:42 | leading zeros do not change the value of a digit run |
| U16.AcceptedPorts | ruma-identifiers/src/server_name.rs:42 | `8080`, `+80` and `65535` parse to 8080, 80 and 65535 |
| U16.AcceptedLeadingZeros | ruma-identifiers/src/server_name.rs:42 | `000008080` parses to 8080 |
| U16.RejectedPortsOverflow | ruma-identifiers/src/server_name.rs:42 | `65536` and `100000` overflow and are rejected |
| U16.RejectedPortsSyntax | ruma-identifiers/src/server_name.rs:42 | the empty text, a lone `+`, `-1`, ` 80` and `hello` are rejected |
| Ipv6.IsIpv6Text | ruma-identifiers/src/server_name.rs:17 | the `parse::<Ipv6Addr>()` test: eight groups without `::`, or at most seven groups around the first `::` |
| Ipv6.GroupCount | ruma-identifiers/src/server_name.rs:17 | a well-formed run of groups writes at least one group, and without an IPv4 tail it writes one group per colon-separated piece |
| Ipv6.FirstDoubleColon | ruma-identifiers/src/server_name.rs:17 | the index found holds a `::` inside the text |
| Ipv6.DoubleColonFromFirst | ruma-identifiers/src/server_name.rs:17 | the `::` search from a position finds the first `::` at or after it, and finds nothing exactly when there is none |
| Ipv6.FirstDoubleColonFirst | ruma-identifiers/src/server_name.rs:17 | the `::` search returns the first `::`, and None exactly when the text holds none |
| Ipv6.Ipv6Alphabet | ruma-identifiers/src/server_name.rs:12-17 | IPv6 text contains only hex digits, `:` and `.`, and never `]`, so the first `]` after `[` closes the literal |
| Ipv6.AtMostOneDoubleColon | ruma-identifiers/src/server_name.rs:17 | IPv6 text contains no `::` after its first one |
| Ipv6.EmptyPieceRejected | ruma-identifiers/src/server_name.rs:17 | a run of groups with an empty piece is malformed |
| Ipv6.LeadingColonRejected | ruma-identifiers/src/server_name.rs:17 | a run of groups that starts with `:` is malformed |
| Ipv6.DoubleColonRejected | ruma-identifiers/src/server_name.rs:17 | a run of groups containing `::` is malformed |
| Ipv6.JoinedGroups | ruma-identifiers/src/server_name.rs:17 | hex groups joined by single `:` neither start nor end with `:` and hold no `::` |
| Ipv6.JoinedGroupCount | ruma-identifiers/src/server_name.rs:17 | hex groups joined by `:` are read back as exactly that many groups |
| Ipv6.FullForm | ruma-identifiers/src/server_name.rs:17 | any eight hex groups joined by `:` are an address |
| Ipv6.CompressedJoin | ruma-identifiers/src/server_name.rs:17 | any hex groups, at most seven in all, written before and after a single `::` are an address |
| Bytes.SplitOfJoin | ruma-identifiers/src/server_name.rs:17 | splitting separator-free pieces joined by the separator gives the pieces back |
| ServerNameTests.Ipv6Loopback | ruma-identifiers/src/server_name.rs:62 | `::1` is IPv6 text |
| ServerNameTests.Ipv6Example | ruma-identifiers/src/server_name.rs:67 | `1234:5678::abcd` is IPv6 text |
| ServerNameTests.Ipv6LinkLocal | ruma-identifiers/src/server_name.rs:97 | `fe80::1` is IPv6 text |
| ServerNameTests.Ipv6NotHex | ruma-identifiers/src/server_name.rs:87 | `test::1` is not IPv6 text |
| ServerNameTests.Ipv4Host | ruma-identifiers/src/server_name.rs:50-53 | `127.0.0.1` is accepted |
| ServerNameTests.Ipv4HostAndPort | ruma-identifiers/src/server_name.rs:55-58 | `1.1.1.1:12000` is accepted |
| ServerNameTests.Ipv6Host | ruma-identifiers/src/server_name.rs:60-63 | `[::1]` is accepted |
| ServerNameTests.Ipv6WithPort | ruma-identifiers/src/server_name.rs:65-68 | `[1234:5678::abcd]:5678` is accepted |
| ServerNameTests.DnsName | ruma-identifiers/src/server_name.rs:70-73 | `example.com` is accepted |
| ServerNameTests.DnsNameWithPort | ruma-identifiers/src/server_name.rs:75-78 | `ruma.io:8080` is accepted |
| ServerNameTests.EmptyString | ruma-identifiers/src/server_name.rs:80-83 | the empty string is rejected |
| ServerNameTests.InvalidIpv6 | ruma-identifiers/src/server_name.rs:85-88 | `[test::1]` is rejected |
| ServerNameTests.Ipv4WithInvalidPort | ruma-identifiers/src/server_name.rs:90-93 | `127.0.0.1:`, with an empty port, is rejected |
| ServerNameTests.Ipv6WithInvalidPort | ruma-identifiers/src/server_name.rs:95-99 | `[fe80::1]:100000` and `[fe80::1]!` are rejected |
| ServerNameTests.DnsNameWithInvalidPort | ruma-identifiers/src/server_name.rs:101-104 | `matrix.org:hello` is rejected |
| ServerNameTests.EmptyHostAccepted | ruma-identifiers/src/server_name.rs:23-42 | `:8080` is accepted: an empty host followed by a port |
| ServerNameTests.LongZeroPaddedPortAccepted | ruma-identifiers/src/server_name.rs:42 | `ruma.io:000008080` is accepted: a nine-digit port passes when the extra digits are leading zeros |
| ServerNameTests.UnbracketedIpv6Host | ruma-identifiers/src/server_name.rs:22-43 | `fe80::1` without brackets is rejected |

## Left out

- The typed event envelope in ruma-events/src/util.rs and ruma-events/src/direct.rs is not part of this model. It rests on serde's JSON (de)serialisation, whose code is not available here.
- `Ipv6Addr::from_str`: its implementation is not part of this model. `Ipv6.IsIpv6Text` states the textual forms of section 2.2 of RFC 4291 that the parser accepts:
  - eight groups of one to four hex digits;
  - or a single `::` with at most seven explicit groups around it;
  - in either form, an optional dotted-quad tail in the last two groups, with octets of one to three digits and a value of at most 255.

  Leading zeros in an octet (`::1.2.3.01`) are accepted, as by the std parser of the source's time. Later std releases reject them, and that behaviour is not modelled. Zone indices are not accepted.
- The stricter Matrix grammar is not modelled because the code does not check it: DNS label lengths, IPv4 octet ranges in unbracketed hosts, and a total length limit.
- Non-ASCII input is handled at the byte level only. Every non-ASCII UTF-8 byte is at least 0x80, so it is not a host byte, a digit or a delimiter. `Bytes.Ascii`, which turns test strings into bytes, maps any non-ASCII char to the byte 0xFF.
