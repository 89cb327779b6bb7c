/** The parts of Go's `net` package the service uses, on byte sequences:
    net.ParseIP (its dotted-quad rules; the IPv6 text parser is a table handed
    in), IP.To4, net.CIDRMask with IP.Mask, and net.SplitHostPort with its
    inverse net.JoinHostPort. */
module Net {
  import opened Wrappers
  import opened Text

  type Byte = b: int | 0 <= b < 256

  /** net.IP: 4 bytes, or 16 bytes (IPv4 addresses parse to the 16-byte
      IPv4-mapped form). */
  type IP = seq<Byte>

  /** One field of a dotted quad: decimal, no leading zero, at most 255. */
  predicate IsOctetText(f: string) {
    IsCanonicalDecimal(f) && DigitsValue(f) <= 255
  }

  /** Go's IPv4 parser: exactly four dot-separated octets. */
  function ParseIPv4(s: string): (r: Option<IP>)
    ensures r.Some? ==> |r.value| == 4
  {
    var f := Split(s, '.');
    if |f| == 4 && IsOctetText(f[0]) && IsOctetText(f[1]) && IsOctetText(f[2]) && IsOctetText(f[3])
    then Some([DigitsValue(f[0]), DigitsValue(f[1]), DigitsValue(f[2]), DigitsValue(f[3])])
    else None
  }

  /** IP.String of a 4-byte address: the dotted quad. */
  function FormatIPv4(b: IP): string
    requires |b| == 4
  {
    Join([DecimalString(b[0]), DecimalString(b[1]), DecimalString(b[2]), DecimalString(b[3])], '.')
  }

  lemma DecimalOctet(n: Byte)
    ensures IsOctetText(DecimalString(n)) && DigitsValue(DecimalString(n)) == n
    ensures '.' !in DecimalString(n)
  {
    DecimalStringValue(n);
    var d := DecimalString(n);
    assert forall k :: 0 <= k < |d| ==> IsDigit(d[k]);
  }

  /** Parsing the dotted quad of four bytes gives the bytes back. */
  lemma ParseFormatIPv4(b: IP)
    requires |b| == 4
    ensures ParseIPv4(FormatIPv4(b)) == Some(b)
  {
    var parts := [DecimalString(b[0]), DecimalString(b[1]), DecimalString(b[2]), DecimalString(b[3])];
    DecimalOctet(b[0]);
    DecimalOctet(b[1]);
    DecimalOctet(b[2]);
    DecimalOctet(b[3]);
    assert forall k :: 0 <= k < 4 ==> '.' !in parts[k];
    SplitJoin(parts, '.');
    assert Split(FormatIPv4(b), '.') == parts;
    assert b == [b[0], b[1], b[2], b[3]];
  }

  /** Every text the IPv4 parser accepts is the dotted quad of its result:
      with the ParseFormatIPv4 direction, parsing and formatting are inverse. */
  lemma FormatParseIPv4(s: string)
    requires ParseIPv4(s).Some?
    ensures FormatIPv4(ParseIPv4(s).value) == s
  {
    var f := Split(s, '.');
    CanonicalDecimalString(f[0]);
    CanonicalDecimalString(f[1]);
    CanonicalDecimalString(f[2]);
    CanonicalDecimalString(f[3]);
    JoinSplit(s, '.');
    assert f == [f[0], f[1], f[2], f[3]];
  }

  /** The 16-byte IPv4-mapped form ::ffff:a.b.c.d. */
  function V4InV6(b: IP): (r: IP)
    requires |b| == 4
    ensures |r| == 16
  {
    [0, 0, 0, 0, 0, 0, 0, 0, 0, 0, 255, 255] + b
  }

  /** IP.To4: the 4-byte form of an IPv4 address, None (nil) otherwise. */
  function To4(ip: IP): (r: Option<IP>)
    ensures r.Some? ==> |r.value| == 4
  {
    if |ip| == 4 then Some(ip)
    else if |ip| == 16 && (forall k :: 0 <= k < 10 ==> ip[k] == 0) && ip[10] == 255 && ip[11] == 255
    then Some(ip[12..])
    else None
  }

  lemma To4OfMapped(b: IP)
    requires |b| == 4
    ensures To4(V4InV6(b)) == Some(b)
  {
    assert V4InV6(b)[12..] == b;
  }

  /** The first character of `s` that decides how netip.ParseAddr reads it. */
  function AddressMark(s: string): (r: Option<char>)
    ensures r.Some? ==> r.value in s && (r.value == '.' || r.value == ':' || r.value == '%')
  {
    if |s| == 0 then None
    else if s[0] == '.' || s[0] == ':' || s[0] == '%' then Some(s[0])
    else AddressMark(s[1..])
  }

  /** net.ParseIP: a '.' before any ':' or '%' selects the IPv4 parser (whose
      result is returned in 16-byte form), a ':' the IPv6 parser, anything
      else fails. `ipv6` holds the IPv6 parser's verdicts: a text it accepts
      maps to its 16 bytes. */
  function ParseIP(s: string, ipv6: map<string, IP>): (r: Option<IP>)
    ensures r.Some? ==> |r.value| == 16
    ensures r.Some? ==> AddressMark(s).Some? && AddressMark(s).value != '%'
  {
    match AddressMark(s)
    case Some('.') => (match ParseIPv4(s) case Some(b) => Some(V4InV6(b)) case None => None)
    case Some(':') => if s in ipv6 && |ipv6[s]| == 16 then Some(ipv6[s]) else None
    case _ => None
  }

  /** An address written as a dotted quad parses to a value that To4 turns
      back into those four bytes. */
  lemma ParseIPDottedQuad(s: string, ipv6: map<string, IP>)
    requires AddressMark(s) == Some('.')
    ensures ParseIP(s, ipv6).Some? <==> ParseIPv4(s).Some?
    ensures ParseIPv4(s).Some? ==> To4(ParseIP(s, ipv6).value) == ParseIPv4(s)
  {
    if ParseIPv4(s).Some? {
      To4OfMapped(ParseIPv4(s).value);
    }
  }

  function Pow2(n: nat): nat {
    if n == 0 then 1 else 2 * Pow2(n - 1)
  }

  /** Byte `i` of a mask whose first `ones` bits are set. */
  function MaskByte(ones: nat, i: nat): Byte {
    if ones >= 8 * (i + 1) then 255
    else if ones <= 8 * i then 0
    else
      assert 1 <= Pow2(8 - (ones - 8 * i)) <= 128 by {
        PowMonotone(8 - (ones - 8 * i), 7);
        assert Pow2(7) == 128;
      }
      256 - Pow2(8 - (ones - 8 * i))
  }

  lemma {:induction false} PowMonotone(a: nat, b: nat)
    requires a <= b
    ensures 1 <= Pow2(a) <= Pow2(b)
    decreases b
  {
    if b > 0 {
      if a < b {
        PowMonotone(a, b - 1);
      } else {
        PowMonotone(a - 1, b - 1);
      }
    }
  }

  /** net.CIDRMask(ones, bits) for the two address widths. */
  function CIDRMask(ones: nat, bits: nat): (m: seq<Byte>)
    requires bits == 32 || bits == 128
    requires ones <= bits
    ensures |m| == bits / 8
  {
    seq(bits / 8, i requires 0 <= i => MaskByte(ones, i))
  }

  /** Go's `&` on bytes, bit by bit from the lowest. */
  function BitAnd(a: nat, b: nat): (r: nat)
    ensures r <= a && r <= b
    decreases a
  {
    if a == 0 || b == 0 then 0
    else 2 * BitAnd(a / 2, b / 2) + (if a % 2 == 1 && b % 2 == 1 then 1 else 0)
  }

  /** A mask of n one-bits keeps any value below 2^n. */
  lemma {:induction false} BitAndOnes(a: nat, n: nat)
    requires a < Pow2(n)
    ensures BitAnd(a, Pow2(n) - 1) == a
  {
    if a != 0 {
      assert n > 0;
      assert (Pow2(n) - 1) / 2 == Pow2(n - 1) - 1 && (Pow2(n) - 1) % 2 == 1;
      BitAndOnes(a / 2, n - 1);
    }
  }

  /** A byte is kept by the mask byte 255 and cleared by 0. */
  lemma BitAndFull(a: Byte)
    ensures BitAnd(a, 255) == a && BitAnd(a, 0) == 0
  {
    assert Pow2(8) == 256 by {
      assert Pow2(4) == 16;
    }
    BitAndOnes(a, 8);
  }

  /** IP.Mask: a 16-byte mask whose first 12 bytes are all ones applies to a
      4-byte address through its last 4 bytes, and a 4-byte mask applies to
      an IPv4-mapped 16-byte address through its last 4 bytes; any other
      length mismatch gives nil. */
  function Mask(ip: IP, mask: seq<Byte>): (r: Option<IP>)
  {
    var m := if |mask| == 16 && |ip| == 4 && (forall k :: 0 <= k < 12 ==> mask[k] == 255) then mask[12..] else mask;
    var a := if |m| == 4 && |ip| == 16 && ip[..12] == [0, 0, 0, 0, 0, 0, 0, 0, 0, 0, 255, 255] then ip[12..] else ip;
    if |a| != |m| then None else Some(seq(|a|, i requires 0 <= i < |a| => BitAnd(a[i], m[i])))
  }

  /** Masking with a whole-byte prefix keeps the prefix and zeroes the rest. */
  lemma MaskWholeBytes(a: IP, ones: nat)
    requires |a| == 4 || |a| == 16
    requires ones % 8 == 0 && ones <= 8 * |a|
    ensures Mask(a, CIDRMask(ones, 8 * |a|)) == Some(a[..ones / 8] + seq(|a| - ones / 8, _ => 0))
  {
    var m := CIDRMask(ones, 8 * |a|);
    var q := ones / 8;
    assert ones == 8 * q;
    var want := a[..q] + seq(|a| - q, _ => 0);
    var r := seq(|a|, i requires 0 <= i < |a| => BitAnd(a[i], m[i]));
    assert Mask(a, m) == Some(r);
    forall i | 0 <= i < |a|
      ensures r[i] == want[i]
    {
      BitAndFull(a[i]);
      if i < q {
        assert 8 * (i + 1) <= 8 * q;
        assert m[i] == 255;
      } else {
        assert 8 * q <= 8 * i;
        assert m[i] == 0;
      }
    }
    assert r == want;
  }

  /** net.SplitHostPort: the port follows the last ':'; a host holding ':'
      must be bracketed; stray brackets are errors. */
  function SplitHostPort(hostport: string): (r: Result<(string, string), string>)
    ensures ':' !in hostport ==> r.Err?
    ensures r.Ok? ==> ':' !in r.value.1 && '[' !in r.value.0 && ']' !in r.value.1
  {
    match LastIndexOf(hostport, ':')
    case None => Err("missing port in address")
    case Some(i) =>
      var bracketed := hostport[0] == '[';
      var hostAndBounds: Result<(string, nat, nat), string> :=
        if bracketed then
          match IndexOf(hostport, ']')
          case None => Err("missing ']' in address")
          case Some(end) =>
            if end + 1 == |hostport| then Err("missing port in address")
            else if end + 1 == i then Ok((hostport[1..end], 1, end + 1))
            else if hostport[end + 1] == ':' then Err("too many colons in address")
            else Err("missing port in address")
        else
          var host := hostport[..i];
          if ':' in host then Err("too many colons in address") else Ok((host, 0, 0));
      match hostAndBounds
      case Err(e) => Err(e)
      case Ok((host, j, k)) =>
        if '[' in hostport[j..] then Err("unexpected '[' in address")
        else if ']' in hostport[k..] then Err("unexpected ']' in address")
        else Ok((host, hostport[i + 1..]))
  }

  /** net.JoinHostPort: brackets a host that holds a ':'. */
  function JoinHostPort(host: string, port: string): string {
    if ':' in host then "[" + host + "]:" + port else host + ":" + port
  }

  /** Splitting a joined host and port gives them back, for hosts without
      brackets and ports without ':' or brackets. */
  lemma SplitJoinHostPort(host: string, port: string)
    requires '[' !in host && ']' !in host
    requires ':' !in port && '[' !in port && ']' !in port
    ensures SplitHostPort(JoinHostPort(host, port)) == Ok((host, port))
  {
    if ':' in host {
      SplitJoinBracketed(host, port);
    } else {
      SplitJoinPlain(host, port);
    }
  }

  lemma SplitJoinBracketed(host: string, port: string)
    requires ':' in host && '[' !in host && ']' !in host
    requires ':' !in port && '[' !in port && ']' !in port
    ensures SplitHostPort(JoinHostPort(host, port)) == Ok((host, port))
  {
    var hp := JoinHostPort(host, port);
    assert hp == "[" + host + "]:" + port;
    BracketedLayout(host, port);
    assert hp[1..|host| + 1] == host && hp[|host| + 3..] == port;
  }

  /** Where the separators of "[host]:port" sit. */
  lemma BracketedLayout(host: string, port: string)
    requires '[' !in host && ']' !in host && ':' !in port && '[' !in port && ']' !in port
    ensures var hp := "[" + host + "]:" + port;
      && LastIndexOf(hp, ':') == Some(|host| + 2) && IndexOf(hp, ']') == Some(|host| + 1)
      && hp[0] == '[' && hp[1..|host| + 1] == host && hp[|host| + 3..] == port
      && '[' !in hp[1..] && ']' !in hp[|host| + 2..]
  {
    var hp := "[" + host + "]:" + port;
    assert hp == ("[" + host + "]") + [':'] + port;
    LastIndexOfBeforeFree("[" + host + "]", ':', port);
    assert hp == ("[" + host) + [']'] + (":" + port);
    IndexOfAfterFree("[" + host, ']', ":" + port);
    assert hp[1..|host| + 1] == host;
    assert hp[1..] == host + "]:" + port;
    assert hp[|host| + 2..] == ":" + port;
  }

  lemma SplitJoinPlain(host: string, port: string)
    requires ':' !in host && '[' !in host && ']' !in host
    requires ':' !in port && '[' !in port && ']' !in port
    ensures SplitHostPort(JoinHostPort(host, port)) == Ok((host, port))
  {
    var hp := JoinHostPort(host, port);
    var i := |host|;
    assert hp[i] == ':';
    assert hp[i + 1..] == port;
    assert LastIndexOf(hp, ':') == Some(i);
    assert hp[..i] == host;
    assert hp[0..] == hp;
  }

  /** A text without ':' never splits. */
  lemma SplitHostPortNeedsColon(hostport: string)
    requires ':' !in hostport
    ensures SplitHostPort(hostport) == Err("missing port in address")
  {
  }
}
