/** The textual IPv6 address forms of section 2.2 of RFC 4291, standing in
    for Rust's `Ipv6Addr::from_str` (the validator parses the text between the
    brackets with it). Accepted: eight colon-separated groups of one to four
    hex digits; or a single `::` standing for one or more zero groups, with
    the explicit groups before and after it; and in either form the last two
    groups may be written as a dotted-quad IPv4 address. Zone indices
    (`%eth0`) and prefix lengths (`/64`) are not part of an address. */
module Ipv6 {
  import opened Bytes
  import opened U16

  predicate IsHexDigit(b: byte) {
    IsDigit(b) || 0x41 <= b <= 0x46 || 0x61 <= b <= 0x66
  }

  /** One 16-bit piece: one to four hex digits, either case. */
  predicate IsHexGroup(g: seq<byte>) {
    1 <= |g| <= 4 && forall i :: 0 <= i < |g| ==> IsHexDigit(g[i])
  }

  /** One IPv4 octet: one to three decimal digits with a value below 256. */
  predicate IsOctet(o: seq<byte>) {
    1 <= |o| <= 3 && AllDigits(o) && DecimalValue(o) <= 255
  }

  /** A dotted-quad IPv4 address, used as the last 32 bits of an IPv6 address. */
  predicate IsIpv4Text(s: seq<byte>) {
    var parts := Split(s, DOT);
    |parts| == 4 && forall k :: 0 <= k < 4 ==> IsOctet(parts[k])
  }

  /** The number of 16-bit groups written by a colon-separated run of hex
      groups whose last element may, when `ipv4Tail` holds, be a dotted quad
      (two groups); None when the run is malformed. */
  function GroupCount(s: seq<byte>, ipv4Tail: bool): (r: Option<nat>)
    ensures r.Some? ==> r.value >= 1
    ensures r.Some? && !ipv4Tail ==> r.value == |Split(s, COLON)|
  {
    var parts := Split(s, COLON);
    var n := |parts|;
    if forall k :: 0 <= k < n - 1 ==> IsHexGroup(parts[k]) then
      if IsHexGroup(parts[n - 1]) then Some(n)
      else if ipv4Tail && IsIpv4Text(parts[n - 1]) then Some(n + 1)
      else None
    else None
  }

  /** The index of the first `::`, if any. */
  function FirstDoubleColon(s: seq<byte>): (r: Option<nat>)
    ensures r.Some? ==> r.value + 1 < |s| && s[r.value] == COLON && s[r.value + 1] == COLON
  {
    DoubleColonFrom(s, 0)
  }

  function DoubleColonFrom(s: seq<byte>, from: nat): (r: Option<nat>)
    requires from <= |s|
    decreases |s| - from
    ensures r.Some? ==> from <= r.value && r.value + 1 < |s| && s[r.value] == COLON && s[r.value + 1] == COLON
  {
    if |s| - from < 2 then None
    else if s[from] == COLON && s[from + 1] == COLON then Some(from)
    else DoubleColonFrom(s, from + 1)
  }

  /** `::` at index `j`. */
  predicate DoubleColonAt(s: seq<byte>, j: int) {
    0 <= j && j + 1 < |s| && s[j] == COLON && s[j + 1] == COLON
  }

  /** `DoubleColonFrom` finds the first `::` at or after `from`, and finds
      nothing exactly when there is none. */
  lemma {:induction false} DoubleColonFromFirst(s: seq<byte>, from: nat)
    requires from <= |s|
    decreases |s| - from
    ensures DoubleColonFrom(s, from).None? <==> forall j :: from <= j ==> !DoubleColonAt(s, j)
    ensures DoubleColonFrom(s, from).Some? ==>
              forall j :: from <= j < DoubleColonFrom(s, from).value ==> !DoubleColonAt(s, j)
  {
    if |s| - from >= 2 {
      if DoubleColonAt(s, from) {
        assert DoubleColonFrom(s, from) == Some(from);
      } else {
        DoubleColonFromFirst(s, from + 1);
      }
    }
  }

  /** The `::` search returns the first `::`, and None exactly when there is none. */
  lemma FirstDoubleColonFirst(s: seq<byte>)
    ensures FirstDoubleColon(s).None? <==> forall j :: !DoubleColonAt(s, j)
    ensures FirstDoubleColon(s).Some? ==> forall j :: 0 <= j < FirstDoubleColon(s).value ==> !DoubleColonAt(s, j)
  {
    DoubleColonFromFirst(s, 0);
  }

  /** The groups written on one side of `::` (zero when that side is empty). */
  function SideCount(s: seq<byte>, ipv4Tail: bool): Option<nat> {
    if s == [] then Some(0) else GroupCount(s, ipv4Tail)
  }

  predicate IsIpv6Text(s: seq<byte>) {
    match FirstDoubleColon(s)
    case None => GroupCount(s, true) == Some(8)
    case Some(i) =>
      var head := SideCount(s[..i], false);
      var tail := SideCount(s[i + 2..], true);
      head.Some? && tail.Some? && head.value + tail.value <= 7
  }

  /** Bytes that can occur in IPv6 text: hex digits, `:` and `.`. */
  predicate IsIpv6Byte(b: byte) {
    IsHexDigit(b) || b == COLON || b == DOT
  }

  /** The index of the piece of `Split(s, c)` holding the byte at `i`. */
  lemma {:induction false} SplitCovers(s: seq<byte>, c: byte, i: nat) returns (k: nat)
    requires i < |s| && s[i] != c
    decreases |s|
    ensures k < |Split(s, c)| && s[i] in Split(s, c)[k]
  {
    FindFirst(s, c);
    var parts := Split(s, c);
    match FirstIndexOf(s, c)
    case None =>
      k := 0;
    case Some(j) =>
      if i < j {
        assert parts[0][i] == s[i];
        k := 0;
      } else {
        var rest := s[j + 1..];
        assert rest[i - j - 1] == s[i];
        var k' := SplitCovers(rest, c, i - j - 1);
        assert parts[k' + 1] == Split(rest, c)[k'];
        k := k' + 1;
      }
  }

  lemma Ipv4Alphabet(s: seq<byte>)
    requires IsIpv4Text(s)
    ensures forall i :: 0 <= i < |s| ==> IsDigit(s[i]) || s[i] == DOT
  {
    var parts := Split(s, DOT);
    forall i | 0 <= i < |s| && s[i] != DOT ensures IsDigit(s[i]) {
      var k := SplitCovers(s, DOT, i);
      var j :| 0 <= j < |parts[k]| && parts[k][j] == s[i];
      assert IsOctet(parts[k]);
    }
  }

  lemma GroupsAlphabet(s: seq<byte>, ipv4Tail: bool)
    requires GroupCount(s, ipv4Tail).Some?
    ensures forall i :: 0 <= i < |s| ==> IsIpv6Byte(s[i])
  {
    var parts := Split(s, COLON);
    forall i | 0 <= i < |s| && s[i] != COLON ensures IsIpv6Byte(s[i]) {
      var k := SplitCovers(s, COLON, i);
      var j :| 0 <= j < |parts[k]| && parts[k][j] == s[i];
      if !IsHexGroup(parts[k]) {
        Ipv4Alphabet(parts[k]);
      }
    }
  }

  /** IPv6 text is made of hex digits, `:` and `.` only; in particular it
      never contains `]`, so the first `]` after `[` closes the literal. */
  lemma Ipv6Alphabet(s: seq<byte>)
    requires IsIpv6Text(s)
    ensures forall i :: 0 <= i < |s| ==> IsIpv6Byte(s[i])
    ensures RBRACKET !in s
  {
    match FirstDoubleColon(s)
    case None =>
      GroupsAlphabet(s, true);
    case Some(d) =>
      var head, tail := s[..d], s[d + 2..];
      if head != [] { GroupsAlphabet(head, false); }
      if tail != [] { GroupsAlphabet(tail, true); }
      forall i | 0 <= i < |s| ensures IsIpv6Byte(s[i]) {
        if i < d { assert s[i] == head[i]; }
        else if i >= d + 2 { assert s[i] == tail[i - d - 2]; }
      }
  }

  /** A run of groups with an empty piece (two adjacent `:`, or a `:` at
      either end) is malformed. */
  lemma EmptyPieceRejected(s: seq<byte>, ipv4Tail: bool, m: nat)
    requires m < |Split(s, COLON)| && Split(s, COLON)[m] == []
    ensures GroupCount(s, ipv4Tail).None?
  {
    var parts := Split(s, COLON);
    assert !IsHexGroup(parts[m]);
    assert Split(parts[m], DOT) == [[]];
  }

  /** An address never has more than one `::`. */
  lemma AtMostOneDoubleColon(s: seq<byte>, j: nat)
    requires IsIpv6Text(s)
    requires FirstDoubleColon(s).Some? && FirstDoubleColon(s).value < j
    requires j + 1 < |s|
    ensures !(s[j] == COLON && s[j + 1] == COLON)
  {
    var d := FirstDoubleColon(s).value;
    var tail := s[d + 2..];
    assert SideCount(tail, true).Some?;
    if s[j] == COLON && s[j + 1] == COLON {
      if j == d + 1 {
        // `:::` puts a separator at the start of the tail
        assert tail[0] == COLON;
        LeadingColonRejected(tail);
      } else {
        assert tail[j - d - 2] == COLON && tail[j - d - 1] == COLON;
        DoubleColonRejected(tail, j - d - 2);
      }
    }
  }

  lemma LeadingColonRejected(s: seq<byte>)
    requires s != [] && s[0] == COLON
    ensures GroupCount(s, true).None?
  {
    SplitAt(s, COLON, 0);
    EmptyPieceRejected(s, true, 0);
  }

  lemma DoubleColonRejected(s: seq<byte>, k: nat)
    requires k + 1 < |s| && s[k] == COLON && s[k + 1] == COLON
    ensures GroupCount(s, true).None?
  {
    var m := EmptyPieceBetween(s, COLON, k);
    EmptyPieceRejected(s, true, m);
  }

  /** Two adjacent separators leave an empty piece between them. */
  lemma {:induction false} EmptyPieceBetween(s: seq<byte>, c: byte, k: nat) returns (m: nat)
    requires k + 1 < |s| && s[k] == c && s[k + 1] == c
    decreases |s|
    ensures m < |Split(s, c)| && Split(s, c)[m] == []
  {
    FindFirst(s, c);
    var i := FirstIndexOf(s, c).value;
    var rest := s[i + 1..];
    var parts := Split(s, c);
    assert parts[1..] == Split(rest, c);
    if i == k {
      SplitAt(rest, c, 0);
      m := 1;
    } else {
      assert rest[k - i - 1] == c && rest[k - i] == c;
      var m' := EmptyPieceBetween(rest, c, k - i - 1);
      assert parts[m' + 1] == Split(rest, c)[m'];
      m := m' + 1;
    }
  }

  /** The `::` form: a first `::` with at most seven groups written around it. */
  lemma CompressedForm(s: seq<byte>, d: nat, h: nat, t: nat)
    requires FirstDoubleColon(s) == Some(d)
    requires SideCount(s[..d], false) == Some(h) && SideCount(s[d + 2..], true) == Some(t)
    requires h + t <= 7
    ensures IsIpv6Text(s)
  {
  }

  // ---------------------------------------------------------------------
  // The address forms built from their groups

  predicate AllHexGroups(gs: seq<seq<byte>>) {
    forall k :: 0 <= k < |gs| ==> IsHexGroup(gs[k])
  }

  /** Groups written with a single `:` between them; nothing for no groups. */
  function Joined(gs: seq<seq<byte>>): seq<byte> {
    if gs == [] then [] else Join(gs, COLON)
  }

  /** Hex groups joined by single colons are non-empty, neither start nor end
      with `:`, and hold no `::`. */
  lemma {:induction false} JoinedGroups(gs: seq<seq<byte>>)
    requires |gs| >= 1 && AllHexGroups(gs)
    decreases |gs|
    ensures |Join(gs, COLON)| > 0
    ensures Join(gs, COLON)[0] != COLON && Join(gs, COLON)[|Join(gs, COLON)| - 1] != COLON
    ensures forall j :: !DoubleColonAt(Join(gs, COLON), j)
  {
    var t := Join(gs, COLON);
    var g := gs[0];
    assert IsHexDigit(g[0]);
    if |gs| > 1 {
      var r := Join(gs[1..], COLON);
      JoinedGroups(gs[1..]);
      assert t == g + [COLON] + r;
      assert t[|t| - 1] == r[|r| - 1];
      forall j | 0 <= j ensures !DoubleColonAt(t, j) {
        if j < |g| {
          assert t[j] == g[j] && IsHexDigit(g[j]);
        } else if j == |g| {
          assert t[j + 1] == r[0];
        } else if j + 1 < |t| {
          assert t[j] == r[j - |g| - 1] && t[j + 1] == r[j - |g|];
          assert !DoubleColonAt(r, j - |g| - 1);
        }
      }
    } else {
      assert t == g;
      assert IsHexDigit(g[|g| - 1]);
      forall j | 0 <= j < |t| ensures t[j] != COLON {
        assert IsHexDigit(g[j]);
      }
    }
  }

  /** A colon-joined run of hex groups writes one group per element. */
  lemma JoinedGroupCount(gs: seq<seq<byte>>, ipv4Tail: bool)
    requires |gs| >= 1 && AllHexGroups(gs)
    ensures GroupCount(Join(gs, COLON), ipv4Tail) == Some(|gs|)
  {
    forall k | 0 <= k < |gs| ensures COLON !in gs[k] {
      assert forall i :: 0 <= i < |gs[k]| ==> IsHexDigit(gs[k][i]);
    }
    SplitOfJoin(gs, COLON);
  }

  /** Eight hex groups joined by colons are an address. */
  lemma FullForm(gs: seq<seq<byte>>)
    requires |gs| == 8 && AllHexGroups(gs)
    ensures IsIpv6Text(Join(gs, COLON))
  {
    JoinedGroups(gs);
    FirstDoubleColonFirst(Join(gs, COLON));
    JoinedGroupCount(gs, true);
  }

  /** At most seven hex groups, split around a single `::`, are an address. */
  lemma CompressedJoin(hs: seq<seq<byte>>, ts: seq<seq<byte>>)
    requires AllHexGroups(hs) && AllHexGroups(ts) && |hs| + |ts| <= 7
    ensures IsIpv6Text(Joined(hs) + [COLON, COLON] + Joined(ts))
  {
    var h, t := Joined(hs), Joined(ts);
    var s := h + [COLON, COLON] + t;
    var d := |h|;
    assert DoubleColonAt(s, d);
    if hs != [] {
      JoinedGroups(hs);
      forall j | 0 <= j < d ensures !DoubleColonAt(s, j) {
        if j < d - 1 {
          assert s[j] == h[j] && s[j + 1] == h[j + 1];
          assert !DoubleColonAt(h, j);
        } else {
          assert s[j] == h[|h| - 1];
        }
      }
    }
    FirstDoubleColonFirst(s);
    var v := FirstDoubleColon(s).value;
    assert DoubleColonAt(s, v);
    assert v == d;
    assert s[..d] == h;
    assert s[d + 2..] == t;
    if hs != [] { JoinedGroupCount(hs, false); }
    if ts != [] { JoinedGroupCount(ts, true); }
    CompressedForm(s, d, |hs|, |ts|);
  }
}
