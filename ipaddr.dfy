/**
 * Text acceptance of Python's `ipaddress.ip_address` for a string argument:
 * an IPv4 address in strict dotted-decimal form, else an IPv6 address in one
 * of the text forms of section 2.2 of RFC 4291 (full, `::`-compressed, or with
 * a dotted-decimal IPv4 tail), optionally followed by a `%scope` zone
 * identifier, as the standard library's parser (Python 3.9.5 and later)
 * checks them.
 */
module IpAddress {
  import opened Options
  import opened PyText

  // ---------------------------------------------------------------------------
  // IPv4

  /**
   * One dotted-decimal octet: one to three ASCII digits, no leading zero
   * except for "0" itself, value at most 255.
   */
  function ParseOctet(s: string): (r: Option<nat>)
    ensures r.Some? ==> r.value <= 255
  {
    if s == [] || !AllDigits(s) || |s| > 3 then None
    else if s != "0" && s[0] == '0' then None
    else
      var v := DigitsValue(s);
      if v > 255 then None else Some(v)
  }

  /** An accepted octet is written canonically: its text is the decimal text of its value. */
  lemma ParseOctetCanonical(s: string)
    requires ParseOctet(s).Some?
    ensures NatText(ParseOctet(s).value) == s
  {
    CanonicalDigits(s);
  }

  function ParseOctets(parts: seq<string>): (r: Option<seq<nat>>)
    ensures r.Some? ==> |r.value| == |parts|
  {
    if parts == [] then Some([])
    else
      var v :- ParseOctet(parts[0]);
      var rest :- ParseOctets(parts[1..]);
      Some([v] + rest)
  }

  /** The pieces parse as a whole exactly when each one is an octet, and then piece by piece. */
  lemma {:induction false} ParseOctetsMeaning(parts: seq<string>)
    ensures ParseOctets(parts).Some? ==>
      forall k :: 0 <= k < |parts| ==> ParseOctet(parts[k]) == Some(ParseOctets(parts).value[k])
    ensures ParseOctets(parts).None? <==> exists k :: 0 <= k < |parts| && ParseOctet(parts[k]).None?
    decreases |parts|
  {
    if parts != [] {
      ParseOctetsMeaning(parts[1..]);
      assert forall k :: 1 <= k < |parts| ==> parts[k] == parts[1..][k - 1];
      if ParseOctet(parts[0]).Some? && ParseOctets(parts[1..]).Some? {
        var rest := ParseOctets(parts[1..]).value;
        assert ParseOctets(parts).value == [ParseOctet(parts[0]).value] + rest;
      }
    }
  }

  /** `IPv4Address(s)`: no '/', exactly four '.'-separated octets. */
  function ParseIpv4(s: string): (r: Option<seq<nat>>)
  {
    if s == [] || '/' in s then None
    else
      var parts := Split(s, '.');
      if |parts| != 4 then None else ParseOctets(parts)
  }

  predicate ValidIpv4(s: string) {
    ParseIpv4(s).Some?
  }

  predicate IsOctets(o: seq<nat>) {
    |o| == 4 && forall k :: 0 <= k < 4 ==> o[k] <= 255
  }

  /** The dotted-decimal text of four octets. */
  function FormatIpv4(o: seq<nat>): string
    requires |o| == 4
  {
    Join([NatText(o[0]), NatText(o[1]), NatText(o[2]), NatText(o[3])], '.')
  }

  /** Every accepted IPv4 text is four octets, each at most 255, written canonically. */
  lemma Ipv4Canonical(s: string)
    requires ValidIpv4(s)
    ensures IsOctets(ParseIpv4(s).value) && FormatIpv4(ParseIpv4(s).value) == s
  {
    var parts := Split(s, '.');
    var o := ParseIpv4(s).value;
    ParseOctetsMeaning(parts);
    forall k | 0 <= k < 4 ensures NatText(o[k]) == parts[k] {
      ParseOctetCanonical(parts[k]);
    }
    assert parts == [NatText(o[0]), NatText(o[1]), NatText(o[2]), NatText(o[3])];
    JoinSplit(s, '.');
  }

  /** The decimal text of an octet is accepted as that octet and holds neither '.' nor '/'. */
  lemma OctetText(n: nat)
    requires n <= 255
    ensures '.' !in NatText(n) && '/' !in NatText(n) && ParseOctet(NatText(n)) == Some(n)
  {
    var t := NatText(n);
    assert AllDigits(t);
    CanonicalDigits(t);
  }

  /** Every four octets, written in dotted decimal, are accepted and give back the octets. */
  lemma Ipv4RoundTrip(o: seq<nat>)
    requires IsOctets(o)
    ensures ParseIpv4(FormatIpv4(o)) == Some(o)
  {
    var parts := [NatText(o[0]), NatText(o[1]), NatText(o[2]), NatText(o[3])];
    forall k | 0 <= k < 4
      ensures '.' !in parts[k] && '/' !in parts[k] && ParseOctet(parts[k]) == Some(o[k])
    {
      assert parts[k] == NatText(o[k]);
      OctetText(o[k]);
    }
    SplitJoin(parts, '.');
    JoinExcludes(parts, '.', '/');
    var s := FormatIpv4(o);
    assert s == parts[0] + ['.'] + Join(parts[1..], '.');
    ParseOctetsAll(parts, o);
  }

  /** Pieces that are each the text of an octet parse to those octets. */
  lemma ParseOctetsAll(parts: seq<string>, o: seq<nat>)
    requires |parts| == |o| && forall k :: 0 <= k < |parts| ==> ParseOctet(parts[k]) == Some(o[k])
    ensures ParseOctets(parts) == Some(o)
  {
    ParseOctetsMeaning(parts);
    assert forall k :: 0 <= k < |parts| ==> ParseOctet(parts[k]).Some?;
    var r := ParseOctets(parts).value;
    assert forall k :: 0 <= k < |o| ==> r[k] == o[k];
    assert r == o;
  }

  // ---------------------------------------------------------------------------
  // IPv6

  /** One hextet: one to four hexadecimal digits. */
  predicate ValidHextet(s: string) {
    1 <= |s| <= 4 && forall i :: 0 <= i < |s| ==> IsHexDigit(s[i])
  }

  /**
   * When the last part holds a '.', it must be an IPv4 address and stands for
   * two hextets (its high and low 16 bits).
   */
  function ExpandIpv4Tail(parts: seq<string>): (r: Option<seq<string>>)
    requires |parts| >= 1
    ensures r.Some? ==> |r.value| >= |parts|
  {
    var last := parts[|parts| - 1];
    if '.' !in last then Some(parts)
    else
      var o :- ParseIpv4(last);
      Some(parts[..|parts| - 1] + [HexText(o[0] * 256 + o[1]), HexText(o[2] * 256 + o[3])])
  }

  /** The positions of empty parts strictly between the two ends: each marks a `::`. */
  function InnerEmpties(parts: seq<string>, from: nat): (r: seq<nat>)
    requires 1 <= from <= |parts|
    ensures forall k :: 0 <= k < |r| ==> from <= r[k] < |parts| - 1 && parts[r[k]] == []
    ensures forall i :: from <= i < |parts| - 1 && parts[i] == [] ==> i in r
    decreases |parts| - from
  {
    if from >= |parts| - 1 then []
    else (if parts[from] == [] then [from] else []) + InnerEmpties(parts, from + 1)
  }

  lemma {:induction false} NoInnerEmpties(parts: seq<string>, from: nat)
    requires 1 <= from <= |parts|
    requires forall i :: from <= i < |parts| - 1 ==> parts[i] != []
    ensures InnerEmpties(parts, from) == []
    decreases |parts| - from
  {
    if from < |parts| - 1 {
      NoInnerEmpties(parts, from + 1);
    }
  }

  predicate AllHextets(parts: seq<string>) {
    forall k :: 0 <= k < |parts| ==> ValidHextet(parts[k])
  }

  /**
   * The layout rules once the parts are known: at most nine parts; at most
   * one `::`; with a `::`, a leading or trailing empty part only as part of
   * it, at least one hextet left for it to stand for, and the parts before
   * and after it valid hextets; without one, exactly eight valid hextets.
   */
  predicate ValidHextetLayout(parts: seq<string>)
    requires |parts| >= 2
  {
    var skips := InnerEmpties(parts, 1);
    |parts| <= 9 && |skips| <= 1 &&
    if |skips| == 1 then
      var skip := skips[0];
      var hi := if parts[0] == [] then skip - 1 else skip;
      var lo := if parts[|parts| - 1] == [] then |parts| - skip - 2 else |parts| - skip - 1;
      (parts[0] == [] ==> hi == 0) && (parts[|parts| - 1] == [] ==> lo == 0) &&
      hi + lo < 8 &&
      AllHextets(parts[..hi]) && AllHextets(parts[|parts| - lo..])
    else
      |parts| == 8 && AllHextets(parts)
  }

  /** `IPv6Address._ip_int_from_string` succeeds. */
  predicate ValidIpv6Body(s: string) {
    var parts := Split(s, ':');
    s != [] && |parts| >= 3 &&
    match ExpandIpv4Tail(parts)
    case None => false
    case Some(expanded) => ValidHextetLayout(expanded)
  }

  /** `IPv6Address(s)`: no '/', an optional `%zone` suffix, then the address proper. */
  predicate ValidIpv6(s: string) {
    '/' !in s &&
    if '%' in s then
      var i := IndexOf(s, '%');
      var zone := s[i + 1..];
      zone != [] && '%' !in zone && ValidIpv6Body(s[..i])
    else ValidIpv6Body(s)
  }

  /** `ipaddress.ip_address(s)` returns an address (IPv4 is tried first, then IPv6). */
  predicate ValidIp(s: string) {
    ValidIpv4(s) || ValidIpv6(s)
  }

  /** The full form of section 2.2 of RFC 4291: eight hextets separated by ':'. */
  lemma FullIpv6Accepted(h: seq<string>)
    requires |h| == 8 && AllHextets(h)
    ensures ValidIpv6(Join(h, ':'))
  {
    forall k | 0 <= k < 8 ensures ':' !in h[k] && '.' !in h[k] && '/' !in h[k] && '%' !in h[k] {
      assert forall i :: 0 <= i < |h[k]| ==> IsHexDigit(h[k][i]);
    }
    var s := Join(h, ':');
    SplitJoin(h, ':');
    JoinExcludes(h, ':', '/');
    JoinExcludes(h, ':', '%');
    assert s == h[0] + [':'] + Join(h[1..], ':');
    assert ExpandIpv4Tail(h) == Some(h);
    NoInnerEmpties(h, 1);
  }

  /** No accepted IPv4 text is also an IPv6 text: it has no ':'. */
  lemma Ipv4IsNotIpv6(s: string)
    requires ValidIpv4(s)
    ensures ':' !in s && !ValidIpv6(s)
  {
    var o := ParseIpv4(s).value;
    Ipv4Canonical(s);
    var parts := [NatText(o[0]), NatText(o[1]), NatText(o[2]), NatText(o[3])];
    forall k | 0 <= k < 4 ensures ':' !in parts[k] && '%' !in parts[k] {
      assert AllDigits(parts[k]);
    }
    JoinExcludes(parts, '.', ':');
    NoColonNotIpv6(s);
  }

  /** Text without a ':' is not an IPv6 address, whatever follows a '%'. */
  lemma NoColonNotIpv6(s: string)
    requires ':' !in s
    ensures !ValidIpv6(s)
  {
    if '%' in s {
      var t := s[..IndexOf(s, '%')];
      assert forall k :: 0 <= k < |t| ==> t[k] == s[k];
      assert Split(t, ':') == [t];
    } else {
      assert Split(s, ':') == [s];
    }
  }

  /** Text with neither a '.' nor a ':' is no address at all. */
  lemma NoSeparatorNotIp(s: string)
    requires '.' !in s && ':' !in s
    ensures !ValidIp(s)
  {
    NoColonNotIpv6(s);
    assert Split(s, '.') == [s];
  }

  // ---------------------------------------------------------------------------
  // Concrete texts

  lemma FormatIpv4Example()
    ensures FormatIpv4([192, 168, 1, 1]) == "192.168.1.1"
  {
    OctetTexts();
    assert Join(["1", "1"], '.') == "1.1";
    assert Join(["168", "1", "1"], '.') == "168.1.1";
  }

  lemma OctetTexts()
    ensures NatText(192) == "192" && NatText(168) == "168" && NatText(1) == "1"
  {
    assert NatText(19) == "19" && NatText(16) == "16";
  }

  lemma PrivateAddressAccepted()
    ensures ValidIp("192.168.1.1")
  {
    FormatIpv4Example();
    Ipv4RoundTrip([192, 168, 1, 1]);
  }

  lemma LoopbackAccepted()
    ensures ValidIp("::1")
  {
    var s := "::1";
    var parts := ["", "", "1"];
    assert '/' !in s && '%' !in s;
    assert Split(s, ':') == parts by {
      assert Join(parts, ':') == s;
      SplitJoin(parts, ':');
    }
    assert ExpandIpv4Tail(parts) == Some(parts);
    assert ValidHextetLayout(parts) by {
      assert InnerEmpties(parts, 1) == [1];
      assert AllHextets(parts[2..]) by { assert IsHexDigit('1'); }
    }
  }

  lemma SplitExample()
    ensures Split("999.999.999.999", '.') == ["999", "999", "999", "999"]
  {
    var parts := ["999", "999", "999", "999"];
    assert Join(parts[3..], '.') == "999";
    assert Join(parts[2..], '.') == "999.999";
    assert Join(parts[1..], '.') == "999.999.999";
    assert Join(parts, '.') == "999.999.999.999";
    assert forall k :: 0 <= k < |parts| ==> '.' !in parts[k];
    SplitJoin(parts, '.');
  }

  lemma OctetAbove255Rejected()
    ensures ParseOctet("999") == None
  {
    assert NatText(999) == "999";
  }

  lemma OutOfRangeOctetsNotIpv4()
    ensures !ValidIpv4("999.999.999.999")
  {
    SplitExample();
    OctetAbove255Rejected();
  }

  lemma OutOfRangeOctetsRejected()
    ensures !ValidIp("999.999.999.999")
  {
    var s := "999.999.999.999";
    OutOfRangeOctetsNotIpv4();
    assert ':' !in s;
    NoColonNotIpv6(s);
  }

  lemma WordRejected()
    ensures !ValidIp("not-an-ip")
  {
    var s := "not-an-ip";
    assert '.' !in s && ':' !in s;
    NoSeparatorNotIp(s);
  }
}
