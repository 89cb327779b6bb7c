/** The request side of main.go: the SSL configuration check, the client
    address, the routing decision of handleRequest and the status choice of
    handleIPLookup. Writing the response (headers, JSON encoding, logging)
    is not modelled: a response is its status and its body. */
module Server {
  import opened Wrappers
  import opened Text
  import opened Net
  import opened GeoIP
  import opened Lookup

  /** Config: listen host (also the only Host header accepted when not
      empty), port, SSL switch, certificate and key paths. */
  datatype Config = Config(host: string, port: string, ssl: bool, cert: string, key: string)

  const DefaultConfig := Config("", "5324", false, "", "")

  // ---------------------------------------------------------------------
  // validateSSLConfig
  // ---------------------------------------------------------------------

  /** validateSSLConfig: None when the configuration is accepted, else the
      error message. */
  function ValidateSSLConfig(c: Config): Option<string> {
    if !c.ssl && (c.cert != "" || c.key != "") then
      Some("SSL is disabled but certificate or key path is provided")
    else if c.ssl && ((c.cert != "" && c.key == "") || (c.cert == "" && c.key != "")) then
      Some("both certificate and key must be provided when using SSL with custom certificates")
    else None
  }

  /** A configuration is accepted exactly when it names neither file, or
      turns SSL on and names both. */
  lemma ValidateSSLConfigIff(c: Config)
    ensures ValidateSSLConfig(c).None? <==> (c.cert == "" && c.key == "") || (c.ssl && c.cert != "" && c.key != "")
  {
  }

  // ---------------------------------------------------------------------
  // getClientIP
  // ---------------------------------------------------------------------

  /** What the handlers read from a request: the URL path, the Host header,
      RemoteAddr and the X-Forwarded-For header ("" when absent). */
  datatype Request = Request(path: string, host: string, remoteAddr: string, forwardedFor: string)

  /** getClientIP: the first entry of a non-empty X-Forwarded-For, trimmed;
      otherwise the host part of RemoteAddr, or RemoteAddr itself when it
      does not split. */
  function GetClientIP(r: Request): string {
    if r.forwardedFor != "" then TrimSpace(Split(r.forwardedFor, ',')[0])
    else match SplitHostPort(r.remoteAddr)
      case Ok((host, _)) => host
      case Err(_) => r.remoteAddr
  }

  /** With several forwarded addresses, the client is the first one, trimmed
      and not validated. */
  lemma ClientIPForwardedFirst(r: Request, first: string, rest: string)
    requires r.forwardedFor == first + "," + rest
    requires ',' !in first
    ensures GetClientIP(r) == TrimSpace(first)
  {
    IndexOfAfterFree(first, ',', rest);
    assert r.forwardedFor[..|first|] == first;
  }

  /** A single forwarded address is the client, trimmed and not validated. */
  lemma ClientIPForwardedOnly(r: Request)
    requires r.forwardedFor != "" && ',' !in r.forwardedFor
    ensures GetClientIP(r) == TrimSpace(r.forwardedFor)
  {
  }

  /** Without X-Forwarded-For, a RemoteAddr of the form host:port gives the host. */
  lemma ClientIPRemote(r: Request, host: string, port: string)
    requires r.forwardedFor == "" && r.remoteAddr == JoinHostPort(host, port)
    requires '[' !in host && ']' !in host
    requires ':' !in port && '[' !in port && ']' !in port
    ensures GetClientIP(r) == host
  {
    SplitJoinHostPort(host, port);
  }

  /** Without X-Forwarded-For, a RemoteAddr that does not split is used as it is. */
  lemma ClientIPRemoteVerbatim(r: Request)
    requires r.forwardedFor == "" && SplitHostPort(r.remoteAddr).Err?
    ensures GetClientIP(r) == r.remoteAddr
  {
  }

  /** A forwarded first entry without surrounding white space is the client
      exactly as written. */
  lemma ClientIPForwardedVerbatim(r: Request, first: string, rest: string)
    requires r.forwardedFor == first + rest
    requires rest == [] || rest[0] == ','
    requires ',' !in first && first != [] && !IsSpace(first[0]) && !IsSpace(first[|first| - 1])
    ensures GetClientIP(r) == first
  {
    if rest == [] {
      assert r.forwardedFor == first;
      ClientIPForwardedOnly(r);
    } else {
      assert r.forwardedFor == first + "," + rest[1..];
      ClientIPForwardedFirst(r, first, rest[1..]);
    }
    TrimmedAlready(first);
  }

  /** Text that neither starts nor ends with white space is its own trim. */
  lemma TrimmedAlready(s: string)
    requires s != [] && !IsSpace(s[0]) && !IsSpace(s[|s| - 1])
    ensures TrimSpace(s) == s
  {
    assert "" + s + "" == s;
    TrimSpacePadded("", s, "");
  }

  /** Test case: the first of three forwarded addresses. */
  lemma ClientIPFirstOfThree(r: Request)
    requires r.forwardedFor == "192.168.1.1, 10.0.0.1, 172.16.0.1"
    ensures GetClientIP(r) == "192.168.1.1"
  {
    var xff := r.forwardedFor;
    FirstOfThreeText(xff);
    ClientIPForwardedVerbatim(r, xff[..11], xff[11..]);
  }

  lemma FirstOfThreeText(xff: string)
    requires xff == "192.168.1.1, 10.0.0.1, 172.16.0.1"
    ensures xff == xff[..11] + xff[11..] && xff[11..][0] == ','
    ensures xff[..11] == "192.168.1.1" && ',' !in xff[..11]
    ensures !IsSpace(xff[..11][0]) && !IsSpace(xff[..11][10])
  {
    assert xff[..11] == "192.168.1.1";
  }

  /** Test case: a forwarded value is taken without validation. */
  lemma ClientIPForwardedUnchecked(r: Request)
    requires r.forwardedFor == "invalid-ip"
    ensures GetClientIP(r) == "invalid-ip"
  {
    assert r.forwardedFor == "invalid-ip" + "";
    ClientIPForwardedVerbatim(r, "invalid-ip", "");
  }

  /** Test case: a host:port RemoteAddr. */
  lemma ClientIPHostPort()
    ensures GetClientIP(Request("/", "", "192.0.2.1:12345", "")) == "192.0.2.1"
  {
    assert JoinHostPort("192.0.2.1", "12345") == "192.0.2.1:12345";
    ClientIPRemote(Request("/", "", "192.0.2.1:12345", ""), "192.0.2.1", "12345");
  }

  /** Test case: a RemoteAddr without a port. */
  lemma ClientIPNoPort()
    ensures GetClientIP(Request("/", "", "invalid-address", "")) == "invalid-address"
  {
    SplitHostPortNeedsColon("invalid-address");
  }

  // ---------------------------------------------------------------------
  // handleRequest and handleIPLookup
  // ---------------------------------------------------------------------

  /** The Host header without its port, when it has one. */
  function RequestHost(r: Request): string {
    match SplitHostPort(r.host)
    case Ok((host, _)) => host
    case Err(_) => r.host
  }

  /** The host check: every host passes when none is configured. */
  predicate HostAllowed(configHost: string, r: Request) {
    configHost == "" || RequestHost(r) == configHost
  }

  /** What handleRequest decides: refuse, or look up an address given as text. */
  datatype Route = Forbidden | LookUp(ipText: string)

  /** The routing of handleRequest: the host check, then "/ipgeo" for the
      client's own address and "/ipgeo/<ip>" for a given one; the latter
      must split on '/' into exactly three pieces. */
  function RouteOf(c: Config, r: Request): Route {
    if !HostAllowed(c.host, r) then Forbidden
    else if r.path == "/ipgeo" then LookUp(GetClientIP(r))
    else if HasPrefix(r.path, "/ipgeo/") then
      var parts := Split(r.path, '/');
      if |parts| == 3 && parts[1] == "ipgeo" then LookUp(parts[2]) else Forbidden
    else Forbidden
  }

  /** The path "/ipgeo/x", for x without '/', splits into "", "ipgeo" and x. */
  lemma SplitIpgeoPath(x: string)
    requires '/' !in x
    ensures Split("/ipgeo/" + x, '/') == ["", "ipgeo", x]
  {
    var parts := ["", "ipgeo", x];
    assert Join(parts[2..], '/') == x;
    assert Join(parts[1..], '/') == "ipgeo/" + x;
    assert Join(parts, '/') == "/ipgeo/" + x;
    SplitJoin(parts, '/');
  }

  /** Conversely, a path starting "/ipgeo/" that splits into three pieces is
      "/ipgeo/" followed by its third piece, which holds no '/'. */
  lemma IpgeoPathOfSplit(path: string)
    requires HasPrefix(path, "/ipgeo/")
    requires |Split(path, '/')| == 3 && Split(path, '/')[1] == "ipgeo"
    ensures path == "/ipgeo/" + Split(path, '/')[2] && '/' !in Split(path, '/')[2]
  {
    var parts := Split(path, '/');
    JoinSplit(path, '/');
    SplitPiecesFree(path, '/');
    assert Join(parts[2..], '/') == parts[2];
    assert path == parts[0] + "/" + "ipgeo" + "/" + parts[2];
    assert path[0] == '/';
  }

  /** A request is routed to a lookup of x exactly when its host passes and
      either the path is "/ipgeo" and x is the client's address, or the path
      is "/ipgeo/" followed by x and x holds no '/'. Every other request is
      forbidden. */
  lemma RouteIff(c: Config, r: Request, x: string)
    ensures RouteOf(c, r) == LookUp(x) <==>
              HostAllowed(c.host, r)
              && ((r.path == "/ipgeo" && x == GetClientIP(r)) || (r.path == "/ipgeo/" + x && '/' !in x))
  {
    if r.path == "/ipgeo/" + x && '/' !in x {
      SplitIpgeoPath(x);
      assert r.path != "/ipgeo";
      assert HasPrefix(r.path, "/ipgeo/") by {
        assert r.path[..7] == "/ipgeo/";
      }
    }
    if HostAllowed(c.host, r) && r.path != "/ipgeo" && HasPrefix(r.path, "/ipgeo/") {
      var parts := Split(r.path, '/');
      if |parts| == 3 && parts[1] == "ipgeo" {
        IpgeoPathOfSplit(r.path);
      }
    }
  }

  /** Test case: a path with a further '/' is forbidden. */
  lemma RouteNestedPathForbidden(r: Request)
    ensures RouteOf(DefaultConfig, r.(path := "/ipgeo/a/b")).Forbidden?
  {
    var parts := ["", "ipgeo", "a", "b"];
    assert Join(parts[2..], '/') == "a/b" by {
      assert Join(parts[3..], '/') == "b";
    }
    assert Join(parts[1..], '/') == "ipgeo/a/b";
    assert Join(parts, '/') == "/ipgeo/a/b";
    SplitJoin(parts, '/');
  }

  /** Test case: an unknown path is forbidden. */
  lemma RouteUnknownPathForbidden(r: Request)
    ensures RouteOf(DefaultConfig, r.(path := "/invalid")).Forbidden?
  {
    assert "/invalid"[..7] != "/ipgeo/" by {
      assert "/invalid"[..7][2] != "/ipgeo/"[2];
    }
  }

  /** A path "/ipgeo/x" on an accepted host looks up x. */
  lemma RouteGiven(c: Config, r: Request, x: string)
    requires HostAllowed(c.host, r) && r.path == "/ipgeo/" + x && '/' !in x
    ensures RouteOf(c, r) == LookUp(x)
  {
    RouteIff(c, r, x);
  }

  lemma GivenAddressText(path: string)
    requires path == "/ipgeo/8.8.8.8"
    ensures path == "/ipgeo/" + path[7..] && path[7..] == "8.8.8.8" && '/' !in path[7..]
  {
    assert path[7..] == "8.8.8.8";
  }

  /** Test case: "/ipgeo/8.8.8.8" looks up 8.8.8.8. */
  lemma RouteGivenAddress(r: Request)
    requires r.path == "/ipgeo/8.8.8.8"
    ensures RouteOf(DefaultConfig, r) == LookUp("8.8.8.8")
  {
    GivenAddressText(r.path);
    RouteGiven(DefaultConfig, r, r.path[7..]);
  }

  lemma HostWithPortText(host: string)
    requires host == "api.example.com:8080"
    ensures host == JoinHostPort(host[..15], host[16..]) && host[..15] == "api.example.com"
    ensures '[' !in host[..15] && ']' !in host[..15]
    ensures ':' !in host[16..] && '[' !in host[16..] && ']' !in host[16..]
  {
    assert host[..15] == "api.example.com";
    assert host[16..] == "8080";
  }

  /** Test case: a configured host accepts a Host header that adds a port. */
  lemma RouteHostWithPort(r: Request)
    requires r.path == "/ipgeo/8.8.8.8" && r.host == "api.example.com:8080"
    ensures RouteOf(DefaultConfig.(host := "api.example.com"), r) == LookUp("8.8.8.8")
  {
    HostWithPortText(r.host);
    SplitJoinHostPort(r.host[..15], r.host[16..]);
    GivenAddressText(r.path);
    RouteGiven(DefaultConfig.(host := "api.example.com"), r, r.path[7..]);
  }

  /** Test case: a configured host refuses another Host header. */
  lemma RouteWrongHostForbidden(r: Request)
    ensures RouteOf(DefaultConfig.(host := "api.example.com"),
                    r.(path := "/ipgeo", host := "wrong.example.com")).Forbidden?
  {
    SplitHostPortNeedsColon("wrong.example.com");
    assert "wrong.example.com"[0] != "api.example.com"[0];
  }

  /** The body written: http.Error's message with its newline, or the record
      JSON-encoded. */
  datatype Body = Text(text: string) | Json(info: IPInfo)

  datatype Response = Response(status: int, body: Body)

  const ForbiddenResponse := Response(403, Text("Forbidden\n"))

  /** handleIPLookup. `ipv6` holds the IPv6 parser's verdicts. */
  function HandleIPLookup(ipText: string, l: Lookups, env: Env, ipv6: map<string, IP>): Response {
    match ParseIP(ipText, ipv6)
    case None => Response(400, Text("Invalid IP address\n"))
    case Some(ip) =>
      match IpInfoOf(l, ip, env)
      case Err(e) => Response(500, Text("Error getting IP info: " + e + "\n"))
      case Ok(info) => Response(200, Json(info))
  }

  /** handleRequest. */
  function HandleRequest(c: Config, r: Request, l: Lookups, env: Env, ipv6: map<string, IP>): Response {
    match RouteOf(c, r)
    case Forbidden => ForbiddenResponse
    case LookUp(x) => HandleIPLookup(x, l, env, ipv6)
  }

  /** The status of a lookup: 400 exactly for text that does not parse, 500
      exactly when the record cannot be built (with the error in the body),
      200 with the record otherwise. */
  lemma LookupStatus(ipText: string, l: Lookups, env: Env, ipv6: map<string, IP>)
    ensures var resp := HandleIPLookup(ipText, l, env, ipv6);
      && (resp.status == 400 <==> ParseIP(ipText, ipv6).None?)
      && (resp.status == 500 <==> ParseIP(ipText, ipv6).Some? && IpInfoOf(l, ParseIP(ipText, ipv6).value, env).Err?)
      && (resp.status == 200 <==> ParseIP(ipText, ipv6).Some? && IpInfoOf(l, ParseIP(ipText, ipv6).value, env).Ok?)
      && (resp.status == 500 ==>
            resp.body == Text("Error getting IP info: " + IpInfoOf(l, ParseIP(ipText, ipv6).value, env).error + "\n"))
      && (resp.status == 200 ==> resp.body == Json(IpInfoOf(l, ParseIP(ipText, ipv6).value, env).value))
  {
  }

  /** Whatever the route, the status is one of 200, 400, 403 and 500, and 403
      exactly for a forbidden route. */
  lemma RequestStatus(c: Config, r: Request, l: Lookups, env: Env, ipv6: map<string, IP>)
    ensures var s := HandleRequest(c, r, l, env, ipv6).status;
      (s == 403 <==> RouteOf(c, r).Forbidden?) && (s == 200 || s == 400 || s == 403 || s == 500)
  {
  }

  /** The address in the tests parses as the IPv4 address 192.168.1.1. */
  lemma ParseTestAddress(s: string, ipv6: map<string, IP>)
    requires s == "192.168.1.1"
    ensures ParseIP(s, ipv6) == Some(V4InV6([192, 168, 1, 1]))
  {
    TestAddressText(s);
    ParseFormatIPv4([192, 168, 1, 1]);
    MarkAfterPlainPrefix(s[..3], s[4..]);
  }

  /** The test address is the dotted quad of its bytes, and its first '.'
      follows three digits. */
  lemma TestAddressText(s: string)
    requires s == "192.168.1.1"
    ensures s == FormatIPv4([192, 168, 1, 1])
    ensures s == s[..3] + "." + s[4..] && '.' !in s[..3] && ':' !in s[..3] && '%' !in s[..3]
  {
    assert DecimalString(19) == "19";
    assert DecimalString(192) == "192";
    assert DecimalString(16) == "16";
    assert DecimalString(168) == "168";
    assert DecimalString(1) == "1";
    assert Join(["1"], '.') == "1";
    assert Join(["1", "1"], '.') == "1.1";
    assert Join(["168", "1", "1"], '.') == "168.1.1";
    assert s[..3] == "192";
  }

  /** Text with no '.' or ':' at all, such as "not-an-ip-at-all", is refused
      with 400. */
  lemma LookupRejectsPlainText(ipText: string, l: Lookups, env: Env, ipv6: map<string, IP>)
    requires '.' !in ipText && ':' !in ipText
    ensures HandleIPLookup(ipText, l, env, ipv6) == Response(400, Text("Invalid IP address\n"))
  {
    if AddressMark(ipText).Some? {
      assert AddressMark(ipText).value in ipText;
    }
  }

  /** A dotted address with three parts, such as "192.168.1", is refused
      with 400. */
  lemma LookupRejectsThreeParts(a: string, b: string, c: string, l: Lookups, env: Env, ipv6: map<string, IP>)
    requires '.' !in a && '.' !in b && '.' !in c
    requires ':' !in a && '%' !in a
    ensures HandleIPLookup(a + "." + b + "." + c, l, env, ipv6) == Response(400, Text("Invalid IP address\n"))
  {
    var s := a + "." + b + "." + c;
    assert Join([a, b, c], '.') == s by {
      assert Join([b, c], '.') == b + "." + c;
    }
    SplitJoin([a, b, c], '.');
    MarkAfterPlainPrefix(a, b + "." + c);
    assert s == a + "." + (b + "." + c);
  }

  /** The first mark of `a + "." + rest` is the '.' when `a` has no mark. */
  lemma {:induction false} MarkAfterPlainPrefix(a: string, rest: string)
    requires '.' !in a && ':' !in a && '%' !in a
    ensures AddressMark(a + "." + rest) == Some('.')
    decreases |a|
  {
    if |a| > 0 {
      assert a[0] in a;
      MarkAfterPlainPrefix(a[1..], rest);
      assert (a + "." + rest)[1..] == a[1..] + "." + rest;
    }
  }

  /** The lookup test with the test double behind every database: the test
      address answers 200 with the double's record. */
  lemma MockLookup(ipText: string, l: Lookups, env: Env, ipv6: map<string, IP>)
    requires ipText == "192.168.1.1"
    requires l.asn.backend == MockBackend && l.city.backend == MockBackend && l.country.backend == MockBackend
    requires "TS" !in env.iso3Codes
    ensures var resp := HandleIPLookup(ipText, l, env, ipv6);
      && resp.status == 200 && resp.body.Json?
      && resp.body.info.ip == "192.168.1.1" && resp.body.info.version == "IPv4"
      && resp.body.info.city == "Test City" && resp.body.info.country == "TS"
      && resp.body.info.asn == "AS12345" && resp.body.info.countryCodeIso3 == "TS"
  {
    ParseTestAddress(ipText, ipv6);
    TestAddressText(ipText);
    var ip := V4InV6([192, 168, 1, 1]);
    To4OfMapped([192, 168, 1, 1]);
    MockInfo(l, ip, env);
  }

  /** The lookup test with ErrorMockReader: the test address answers 500
      with the city error in the body. */
  lemma ErrorMockLookup(ipText: string, l: Lookups, env: Env, ipv6: map<string, IP>)
    requires ipText == "192.168.1.1"
    requires l.asn.backend == ErrorMockBackend && l.city.backend == ErrorMockBackend
    ensures HandleIPLookup(ipText, l, env, ipv6)
            == Response(500, Text("Error getting IP info: " + "city lookup error: mock City error" + "\n"))
  {
    ParseTestAddress(ipText, ipv6);
    ErrorMockInfo(l, V4InV6([192, 168, 1, 1]), env);
  }
}
