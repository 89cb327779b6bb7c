/** getIPInfo of main.go: the three database lookups for one address and the
    record the service answers with, field by field. */
module Lookup {
  import opened Wrappers
  import opened Text
  import opened Net
  import opened GeoIP

  /** What getIPInfo consults besides the databases: the ISO 3166 alpha-3
      table (iso3Codes), the current UTC offset in seconds of each time zone
      time.LoadLocation knows (a zone missing here fails to load), and the
      textual form net.IP.String gives an address that is not IPv4. */
  datatype Env = Env(iso3Codes: map<string, string>, zoneOffsets: map<string, int>, formatIPv6: IP -> string)

  /** IPInfo, without Latitude and Longitude. */
  datatype IPInfo = IPInfo(
    ip: string,
    network: string,
    version: string,
    city: string,
    region: string,
    regionCode: string,
    country: string,
    countryName: string,
    countryCode: string,
    countryCodeIso3: string,
    continentCode: string,
    inEU: bool,
    postal: string,
    timezone: string,
    utcOffset: string,
    asn: string,
    org: string)

  /** The readers of the "asn", "city" and "country" databases. */
  datatype Lookups = Lookups(asn: Reader, city: Reader, country: Reader)

  /** net.IP.String: "<nil>" for the empty address, the dotted quad for an
      IPv4 address in either form, the environment's text otherwise. */
  function IPString(ip: IP, formatIPv6: IP -> string): string {
    if |ip| == 0 then "<nil>"
    else match To4(ip)
      case Some(b) => FormatIPv4(b)
      case None => formatIPv6(ip)
  }

  function VersionOf(ip: IP): string {
    if To4(ip).Some? then "IPv4" else "IPv6"
  }

  /** `fmt.Sprintf("AS%d", n)`. */
  function AsnText(n: nat): string {
    "AS" + DecimalString(n)
  }

  /** `names["en"]`, the empty string when absent. */
  function EnglishName(names: map<string, string>): string {
    if "en" in names then names["en"] else ""
  }

  /** The alpha-3 code of a country, the alpha-2 code itself when the table
      has none. */
  function Iso3Of(code: string, table: map<string, string>): string {
    if code in table then table[code] else code
  }

  /** Go's integer division, which truncates toward zero. */
  function TruncDiv(a: int, b: int): (q: int)
    requires b > 0
  {
    if a >= 0 then a / b else -((-a) / b)
  }

  /** `fmt.Sprintf("%s%02d00", sign, hours)` for an offset in seconds. */
  function UtcOffsetText(offset: int): (r: string) {
    var hours := TruncDiv(offset, 3600);
    var sign := if hours < 0 then "-" else "+";
    var magnitude := if hours < 0 then -hours else hours;
    sign + ZeroPad2(DecimalString(magnitude)) + "00"
  }

  /** The offset formatting step of getIPInfo: whole hours with Go's
      division, then sign and zero-padded magnitude. */
  method FormatUtcOffset(offset: int) returns (text: string)
    ensures text == UtcOffsetText(offset)
  {
    var hours := TruncDiv(offset, 3600);
    var sign := "+";
    if hours < 0 {
      sign := "-";
      hours := -hours;
    }
    text := sign + ZeroPad2(DecimalString(hours)) + "00";
  }

  /** UTCOffset: left empty without a time zone or when the zone fails to load. */
  function UtcOffsetOf(timezone: string, zoneOffsets: map<string, int>): string {
    if timezone != "" && timezone in zoneOffsets then UtcOffsetText(zoneOffsets[timezone]) else ""
  }

  /** The text of a masked address; a nil mask result prints as "<nil>". */
  function MaskedText(m: Option<IP>, formatIPv6: IP -> string): string {
    match m
    case None => "<nil>"
    case Some(a) => IPString(a, formatIPv6)
  }

  /** Network: the /24 around an IPv4 address, the /64 around any other. */
  function NetworkOf(ip: IP, formatIPv6: IP -> string): string {
    if To4(ip).Some? then MaskedText(Mask(ip, CIDRMask(24, 32)), formatIPv6) + "/24"
    else MaskedText(Mask(ip, CIDRMask(64, 128)), formatIPv6) + "/64"
  }

  /** The record assembled from the three answers. */
  function InfoOf(ip: IP, a: AsnRecord, c: CityRecord, k: CountryRecord, env: Env): IPInfo {
    IPInfo(
      ip := IPString(ip, env.formatIPv6),
      network := NetworkOf(ip, env.formatIPv6),
      version := VersionOf(ip),
      city := EnglishName(c.names),
      region := if |c.subdivisions| > 0 then EnglishName(c.subdivisions[0].names) else "",
      regionCode := if |c.subdivisions| > 0 then c.subdivisions[0].isoCode else "",
      country := k.isoCode,
      countryName := EnglishName(k.names),
      countryCode := k.isoCode,
      countryCodeIso3 := Iso3Of(k.isoCode, env.iso3Codes),
      continentCode := k.continentCode,
      inEU := k.inEU,
      postal := c.postalCode,
      timezone := c.timeZone,
      utcOffset := UtcOffsetOf(c.timeZone, env.zoneOffsets),
      asn := AsnText(a.number),
      org := a.organization)
  }

  /** getIPInfo: ASN, then city, then country; the first lookup that fails
      decides the error. */
  function IpInfoOf(l: Lookups, ip: IP, env: Env): Result<IPInfo, string> {
    match Asn(l.asn, ip)
    case Err(e) => Err("ASN lookup error: " + e)
    case Ok(a) =>
      match City(l.city, ip)
      case Err(e) => Err("city lookup error: " + e)
      case Ok(c) =>
        match Country(l.country, ip)
        case Err(e) => Err("country lookup error: " + e)
        case Ok(k) => Ok(InfoOf(ip, a, c, k, env))
  }

  // ---------------------------------------------------------------------
  // Properties
  // ---------------------------------------------------------------------

  /** The lookup order: a failing ASN lookup decides the answer whatever the
      other readers would say; a failing city lookup decides it whatever the
      country reader would say; the country error comes last. */
  lemma LookupOrder(l: Lookups, ip: IP, env: Env, city': Reader, country': Reader)
    ensures Asn(l.asn, ip).Err? ==>
              IpInfoOf(l, ip, env) == Err("ASN lookup error: " + Asn(l.asn, ip).error)
              && IpInfoOf(Lookups(l.asn, city', country'), ip, env) == IpInfoOf(l, ip, env)
    ensures Asn(l.asn, ip).Ok? && City(l.city, ip).Err? ==>
              IpInfoOf(l, ip, env) == Err("city lookup error: " + City(l.city, ip).error)
              && IpInfoOf(Lookups(l.asn, l.city, country'), ip, env) == IpInfoOf(l, ip, env)
    ensures Asn(l.asn, ip).Ok? && City(l.city, ip).Ok? && Country(l.country, ip).Err? ==>
              IpInfoOf(l, ip, env) == Err("country lookup error: " + Country(l.country, ip).error)
    ensures IpInfoOf(l, ip, env).Ok? <==> Asn(l.asn, ip).Ok? && City(l.city, ip).Ok? && Country(l.country, ip).Ok?
  {
  }

  /** The ASN field is "AS" followed by the number in canonical decimal, so
      the number can be read back from it. */
  lemma AsnTextDecodes(n: nat)
    ensures var t := AsnText(n);
      |t| >= 3 && t[..2] == "AS" && IsCanonicalDecimal(t[2..]) && DigitsValue(t[2..]) == n
  {
    var t := AsnText(n);
    assert t[2..] == DecimalString(n);
    DecimalStringValue(n);
  }

  /** Distinct numbers give distinct ASN fields. */
  lemma AsnTextInjective(m: nat, n: nat)
    requires AsnText(m) == AsnText(n)
    ensures m == n
  {
    AsnTextDecodes(m);
    AsnTextDecodes(n);
  }

  /** Go's truncating division: the quotient is rounded toward zero. */
  lemma TruncDivBounds(a: int, b: int)
    requires b > 0
    ensures var q := TruncDiv(a, b);
      && (a >= 0 ==> 0 <= q && q * b <= a < (q + 1) * b)
      && (a < 0 ==> q <= 0 && (q - 1) * b < a <= q * b)
  {
    var n := if a >= 0 then a else -a;
    var p := n / b;
    assert n == b * p + n % b && 0 <= n % b < b;
    assert (p + 1) * b == p * b + b;
    if a < 0 {
      assert TruncDiv(a, b) == -p;
      assert (-p - 1) * b == -(p * b) - b;
      assert -p * b == -(p * b);
    }
  }

  /** The offset text reads back as a sign, the whole hours of the offset
      (rounded toward zero) in at least two digits, and "00"; the sign is
      '-' exactly for offsets of an hour or more west of UTC. */
  lemma UtcOffsetTextDecodes(offset: int)
    ensures var r := UtcOffsetText(offset);
      var h := TruncDiv(offset, 3600);
      && |r| >= 5
      && (r[0] == '-' <==> offset <= -3600)
      && (r[0] == '+' <==> offset > -3600)
      && r[|r| - 2..] == "00"
      && IsDigits(r[1..|r| - 2])
      && DigitsValue(r[1..|r| - 2]) == (if h < 0 then -h else h)
  {
    var h := TruncDiv(offset, 3600);
    TruncDivBounds(offset, 3600);
    var m := if h < 0 then -h else h;
    ZeroPad2Value(m);
    var r := UtcOffsetText(offset);
    var sign := if h < 0 then "-" else "+";
    assert r == sign + ZeroPad2(DecimalString(m)) + "00";
    assert r[1..|r| - 2] == ZeroPad2(DecimalString(m));
  }

  /** Half an hour west of UTC rounds toward zero, to "+0000". */
  lemma UtcOffsetHalfHourWest()
    ensures UtcOffsetText(-1800) == "+0000"
  {
    assert TruncDiv(-1800, 3600) == 0;
    assert DecimalString(0) == "0";
  }

  /** Three and a half hours west of UTC gives "-0300", not "-0400". */
  lemma UtcOffsetThreeAndAHalfWest()
    ensures UtcOffsetText(-12600) == "-0300"
  {
    assert TruncDiv(-12600, 3600) == -3;
    assert DecimalString(3) == "3";
  }

  /** The version is IPv4 exactly when the address has a 4-byte form. */
  lemma VersionIffTo4(ip: IP)
    ensures VersionOf(ip) == "IPv4" <==> To4(ip).Some?
    ensures VersionOf(ip) == "IPv6" <==> To4(ip).None?
  {
  }

  /** Every record carries the ISO3 code the table gives its country code,
      or the country code itself when the table has none. */
  lemma Iso3Fallback(l: Lookups, ip: IP, env: Env)
    ensures IpInfoOf(l, ip, env).Ok? ==>
              var info := IpInfoOf(l, ip, env).value;
              && (info.countryCode in env.iso3Codes ==> info.countryCodeIso3 == env.iso3Codes[info.countryCode])
              && (info.countryCode !in env.iso3Codes ==> info.countryCodeIso3 == info.countryCode)
  {
  }

  /** Region and region code come from the first subdivision alone and stay
      empty when the city record has none; the other subdivisions never
      matter. */
  lemma RegionFromFirstSubdivision(ip: IP, a: AsnRecord, c: CityRecord, k: CountryRecord, env: Env,
                                   more: seq<Subdivision>)
    ensures var info := InfoOf(ip, a, c, k, env);
      && (|c.subdivisions| == 0 ==> info.region == "" && info.regionCode == "")
      && (|c.subdivisions| > 0 ==>
            info.regionCode == c.subdivisions[0].isoCode
            && info.region == (if "en" in c.subdivisions[0].names then c.subdivisions[0].names["en"] else ""))
    ensures |c.subdivisions| > 0 ==>
              InfoOf(ip, a, c.(subdivisions := c.subdivisions[..1] + more), k, env) == InfoOf(ip, a, c, k, env)
  {
  }

  /** An IPv4 address, as net.ParseIP returns it, lies in the /24 that keeps
      its first three bytes and ends in zero. */
  lemma NetworkOfIPv4(b: IP, formatIPv6: IP -> string)
    requires |b| == 4
    ensures NetworkOf(V4InV6(b), formatIPv6) == FormatIPv4(b[..3] + [0]) + "/24"
  {
    var ip := V4InV6(b);
    To4OfMapped(b);
    assert ip[..12] == [0, 0, 0, 0, 0, 0, 0, 0, 0, 0, 255, 255] && ip[12..] == b;
    var m := CIDRMask(24, 32);
    assert Mask(ip, m) == Mask(b, m);
    MaskWholeBytes(b, 24);
    assert seq(1, _ => 0) == [0];
  }

  /** Any other 16-byte address lies in the /64 that keeps its first eight
      bytes. */
  lemma NetworkOfIPv6(ip: IP, formatIPv6: IP -> string)
    requires |ip| == 16 && To4(ip).None?
    ensures NetworkOf(ip, formatIPv6) == formatIPv6(ip[..8] + seq(8, _ => 0)) + "/64"
  {
    MaskWholeBytes(ip, 64);
    var n := ip[..8] + seq(8, _ => 0);
    assert n[10] == 0;
  }

  /** With the test double behind all three databases and "TS" absent from
      the ISO3 table, the record carries the double's answers and the ISO3
      code falls back to "TS". */
  lemma MockInfo(l: Lookups, ip: IP, env: Env)
    requires l.asn.backend == MockBackend && l.city.backend == MockBackend && l.country.backend == MockBackend
    requires "TS" !in env.iso3Codes
    ensures IpInfoOf(l, ip, env).Ok?
    ensures var info := IpInfoOf(l, ip, env).value;
      && info.asn == "AS12345" && info.org == "Test ISP"
      && info.city == "Test City" && info.region == "Test Region" && info.regionCode == "TS"
      && info.country == "TS" && info.countryCode == "TS" && info.countryCodeIso3 == "TS"
      && info.countryName == "Test Country" && info.inEU && info.continentCode == "TE"
      && info.postal == "12345" && info.timezone == "America/New_York"
  {
    MockAsnText();
  }

  lemma MockAsnText()
    ensures AsnText(12345) == "AS12345"
  {
    assert DecimalString(12) == "12";
    assert DecimalString(123) == "123";
    assert DecimalString(1234) == "1234";
    assert DecimalString(12345) == "12345";
  }

  /** With ErrorMockReader behind the databases, the city lookup fails first. */
  lemma ErrorMockInfo(l: Lookups, ip: IP, env: Env)
    requires l.asn.backend == ErrorMockBackend && l.city.backend == ErrorMockBackend
    ensures IpInfoOf(l, ip, env) == Err("city lookup error: mock City error")
  {
    assert "city lookup error: " + "mock City error" == "city lookup error: mock City error";
  }
}
