# geoip-api in Dafny

This project models the core of geoip-api, a small Go HTTP service that answers
`GET /ipgeo` and `GET /ipgeo/<ip>` with a JSON record built from three MaxMind
GeoLite2 databases (ASN, City, Country). The databases are downloaded when
missing and refreshed when they are 30 days old.

The model has two halves.

- **The database registry and its lifecycle** (`registry.dfy`, `lifecycle.dfy`).
  - `databases` is a class `Registry.Databases`. It holds a map from kind to
    `Entry` (dbConfig without its lock) and the files on disk.
  - `initDatabases` and `updateDatabasesIfNeeded` are methods with loops. Each
    is proved equal to a specification function (`InitAll`, `RefreshAll`).
  - Go ranges over a map in no fixed order, so each loop visits the kinds in
    an order given as a parameter. The properties are proved for every such
    order. A pass reads the clock once, so every kind in it sees the same
    instant. Under that reading, `Lifecycle.RefreshOrderIndependent` shows
    that the result of an update pass does not depend on the order.
  - The outside world is passed in as parameters: the clock, the result of
    each download, rename and open, and whether `os.Stat` succeeds.
- **The request side** (`server.dfy`, `lookup.dfy`).
  - `getClientIP`, the routing and host check of `handleRequest`, the status
    choice of `handleIPLookup` and `validateSSLConfig` are pure functions.
  - `getIPInfo` is a method that fills the record field by field. It is proved
    equal to the function `Lookup.IpInfoOf`.
- **Readers** (`geoip.dfy`). The `Reader` interface becomes a datatype with one
  variant per implementation:
  - the database-backed reader returned by `geoip2.Open`;
  - `MockReader` from mock_geoip2.go;
  - `ErrorMockReader` from main_test.go.
- **Supporting modules.**
  - `clock.dfy`: Go's `time` arithmetic. The zero Time is 0, and `Sub`
    saturates at the int64 bounds.
  - `filesystem.dfy`: `downloadDatabase` and `os.Rename` on a map of files.
  - `net.dfy`: the parts of Go's `net` package the service calls.
  - `text.dfy`: the `strings` and `fmt` helpers it calls.
  - `wrappers.dfy`: `Option` and `Result`.

## Model

| member | source | states |
|---|---|---|
| Clock.Sub | main.go:340 | `time.Since` as `Time.Sub`: always an int64 Duration, with the sign of the true difference and never farther from zero than it |
| Clock.IsStale | main.go:340 | definition of the staleness test `time.Since(last) >= 30 days`; characterized by `Clock.StaleIff` |
| Clock.StaleIff | main.go:340 | saturation never changes the staleness verdict: an entry is stale exactly when at least 30 days (boundary included) separate it from now |
| Clock.ZeroIsStale | main.go:340 | a zero lastUpdate is stale at any clock reading 30 days or more past Go's zero Time |
| Clock.StaleIsPast | main.go:340 | a stale timestamp lies strictly before now |
| FileSystem.Download | main.go:386-409 | the destination is created or truncated before the GET. Success happens exactly for status 200 with the body copied in full, and then the file holds the body. A create failure changes nothing. Any later failure leaves an empty or partial file stamped now. No other path changes |
| FileSystem.Rename | main.go:357 | `os.Rename` succeeds exactly when allowed and the source exists. Success moves the source's contents over the target and removes the source. Failure changes nothing. No other path changes |
| GeoIP.Asn | main.go:71-76 | definition of Reader.ASN for each implementation; its answers are stated by `GeoIP.MockAsnAnswer`, `GeoIP.ErrorMockAnswers`, `GeoIP.FileReaderClosedFails` and `Registry.OpenAnswers` |
| GeoIP.City | main.go:71-76 | definition of Reader.City for each implementation; stated by the same lemmas |
| GeoIP.Country | main.go:71-76 | definition of Reader.Country for each implementation; stated by the same lemmas |
| GeoIP.Close | main.go:71-76 | definition of Reader.Close; stated by `GeoIP.CloseAnswers` |
| GeoIP.CloseAnswers | mock_geoip2.go:146-148 | closing is idempotent and keeps the reader's identity. A closed database-backed reader fails every lookup, and the test doubles answer exactly as before |
| GeoIP.MockAsnAnswer | mock_geoip2.go:104-109 | MockReader.ASN always succeeds with number 12345 and organization "Test ISP" |
| GeoIP.MockCityAnswer | mock_geoip2.go:111-134 | MockReader.City always succeeds with English name "Test City", exactly one subdivision ("TS", "Test Region"), postal "12345" and zone "America/New_York" |
| GeoIP.MockCountryAnswer | mock_geoip2.go:136-144 | MockReader.Country always succeeds with "TS", "Test Country", in the EU, continent "TE" |
| GeoIP.MockStateless | mock_geoip2.go:102-148 | MockReader's answers depend neither on the address nor on whether it was closed |
| GeoIP.ErrorMockAnswers | main_test.go:672-691 | ErrorMockReader answers ASN (12345, "Mock ISP") and fails City and Country with their fixed messages |
| GeoIP.FileReaderClosedFails | main.go:71-76 | a database-backed reader fails a lookup exactly when it has been closed |
| Registry.Open | main.go:360 | definition of `geoip2.Open` on the file map; stated by `Registry.OpenAnswers` |
| Registry.OpenAnswers | main.go:360 | `geoip2.Open` gives a reader exactly when the file exists and parses. That reader is open, has the library's identity, and answers every lookup from the parsed tables, with the zero record for an address they lack |
| Registry.GeoipOpen | main.go:25-27 | definition of `geoipOpen`; stated by `Registry.GeoipOpenIff` |
| Registry.GeoipOpenIff | main.go:25-27 | `geoipOpen` fails exactly when the real library is installed and `geoip2.Open` fails. Its reader is open, and with the test double it answers like MockReader |
| Registry.DefaultRegistry | main.go:99-112 | the registry starts with exactly the kinds asn, city and country, each with no reader and the zero time |
| Registry.Replace | main.go:350-378 | replacing a database keeps the entry's url and local path, and changes no file outside its own two paths |
| Registry.RefreshEntry | main.go:338-381 | one iteration of the update loop keeps url and local path and touches only the entry's own two paths |
| Registry.RefreshStep | main.go:338-381 | one iteration keeps every kind with its url and path |
| Registry.RefreshAll | main.go:337-383 | an update pass keeps every kind with its url and path |
| Registry.InitEntry | main.go:289-318 | one iteration of initDatabases keeps url and path, and writes only the entry's own file. It rewrites no file that already exists |
| Registry.InitStep | main.go:289-318 | one iteration keeps every kind with its url and path |
| Registry.InitAll | main.go:288-321 | initDatabases keeps every kind with its url and path |
| Registry.Databases.constructor | main.go:99-112 | the registry object holds the given entries and files |
| Registry.Databases.InitOne | main.go:289-318 | the imperative loop body (stat, download, open, date) yields exactly the state and error of `InitStep` |
| Registry.Databases.InitDatabases | main.go:288-321 | the loop over any iteration order, stopping at the first error, yields exactly `InitAll` |
| Registry.Databases.GetIPInfo | main.go:485-573 | filling the record field by field yields exactly `IpInfoOf` of the three registered readers |
| Registry.Databases.ReplaceDatabase | main.go:350-378 | close the old reader, rename, then reopen or install and stamp: the new state is exactly `Replace` |
| Registry.Databases.RefreshOne | main.go:338-381 | one iteration of the update loop yields exactly `RefreshStep` |
| Registry.Databases.UpdateDatabasesIfNeeded | main.go:337-383 | the loop over any iteration order yields exactly `RefreshAll` |
| Registry.RefreshAllSnoc | main.go:338 | a pass over one more kind is one more `RefreshStep` |
| Lifecycle.TempPathDiffers | main.go:344 | the ".new" download target is never the database file |
| Lifecycle.RefreshAttemptsIffStale | main.go:340-348 | a fresh entry leaves the entry and the files untouched. A stale one always attempts the download, which leaves a file stamped now at the ".new" path or at the database path |
| Lifecycle.RefreshDownloadFailure | main.go:344-348 | a failed download keeps the entry (reader and lastUpdate) and the database file. Only the ".new" file may change |
| Lifecycle.RefreshFullSuccess | main.go:357-378 | when download, rename and open succeed, the downloaded bytes replace the database file and the ".new" file is gone. The entry holds the newly opened reader (over the new bytes with the real library) and lastUpdate is now |
| Lifecycle.RefreshRenameFailure | main.go:350-365 | a failed rename keeps lastUpdate and the database file, and leaves the ".new" file behind. The reader is the reopened old file when that parses, else the old reader, now closed. The reopen uses `geoip2.Open` whatever `geoipOpen` holds |
| Lifecycle.RefreshOpenFailure | main.go:367-373 | a renamed file that does not open keeps lastUpdate and leaves the entry with its old reader closed, with the new bytes already at the database path |
| Lifecycle.RefreshStamp | main.go:376-377 | lastUpdate only moves to now, and only together with a freshly opened reader |
| Lifecycle.RefreshThirtyOneDaysOld | database_test.go:172-194 | an entry 31 days old, refreshed with the test double and a good download, ends with a reader and a timestamp less than a minute old |
| Lifecycle.DefaultRegistryPathsSeparate | main.go:99-112 | the three configured kinds use pairwise distinct files, ".new" siblings included |
| Lifecycle.PathsSeparateKept | main.go:337-383 | a state with the same configuration keeps the files separate |
| Lifecycle.RefreshEntryLocal | main.go:338-381 | a kind's refresh depends only on the files at its own two paths |
| Lifecycle.ReplaceLocal | main.go:350-378 | replacing a database depends only on the files at its own two paths |
| Lifecycle.RefreshAllPerEntry | main.go:338 | after a pass over distinct kinds, each visited kind is in the state its own refresh gives from the starting state, and every other kind and file is untouched |
| Lifecycle.RefreshedAloneUnique | main.go:338 | two states that both agree kind by kind with the per-entry refreshes are equal |
| Lifecycle.RefreshOrderIndependent | main.go:338 | for separate files, an update pass gives the same registry and files in every iteration order |
| Lifecycle.RefreshEntryKeepsReader | main.go:350-377 | a refresh never takes a reader away (a closed reader is still a reader) and never moves lastUpdate back |
| Lifecycle.RefreshAllKeepsReaders | main.go:337-383 | over a whole update pass, in any order, every kind that had a reader still has one and no lastUpdate decreases |
| Lifecycle.RefreshAllDownloadFailure | main.go:344-348 | in a whole pass, a stale kind whose download fails keeps its entry and its database file while the pass goes on with the others |
| Lifecycle.InitEntrySuccess | main.go:289-318 | a successful iteration installs the newly opened reader. lastUpdate is now after a download; otherwise a recorded time is kept, then the file's modification time is used, then now |
| Lifecycle.InitEntryFailure | main.go:294-304 | a failed iteration names its kind and leaves the reader. A download failure happens only for a missing file and leaves the entry as it was. An open failure happens only with the real library |
| Lifecycle.InitEntryFailsIff | main.go:291-304 | an iteration of initDatabases fails exactly when the missing file's download fails or the open fails, and the error is a download error exactly in the first case |
| Lifecycle.InitAllColdStart | main.go:289-296 | with every file missing and no download succeeding, initDatabases returns the download error of the first kind it visits and changes no entry |
| Lifecycle.DefaultColdStartNoReaders | main.go:288-321 | the configured registry started without its files and with every download failing: initDatabases fails and no kind gets a reader |
| Lifecycle.InitStepOthers | main.go:289 | an iteration of initDatabases changes only its own kind's entry |
| Lifecycle.InitAllUntouched | main.go:289 | kinds the loop does not reach keep their entries |
| Lifecycle.InitAllError | main.go:294-304 | an error names a kind of the iteration order, and every kind after it in that order is left unprocessed |
| Lifecycle.InitAllKeepsExistingFiles | main.go:291-298 | initDatabases downloads only missing files: every existing file is kept unchanged |
| Lifecycle.InitStepModTimes | main.go:301-317 | a successful iteration leaves its kind with a reader and a non-zero lastUpdate, and files keep real modification times |
| Lifecycle.InitAllReady | main.go:288-321 | after a successful initDatabases every kind has a reader and a non-zero lastUpdate |
| Lookup.Iso3Of | main.go:539-543 | definition of the ISO3 lookup with its fallback; stated through `getIPInfo` by `Lookup.Iso3Fallback` |
| Lookup.Iso3Fallback | main.go:539-543 | every record getIPInfo builds carries the ISO3 code the table gives its country code, or the country code itself when the table has none |
| Lookup.InfoOf | main.go:486-570 | definition of the record assembled from the three answers; its fields are stated by `Lookup.VersionIffTo4`, `Lookup.AsnTextDecodes`, `Lookup.RegionFromFirstSubdivision`, `Lookup.Iso3Fallback`, `Lookup.UtcOffsetTextDecodes`, `Lookup.NetworkOfIPv4` and `Lookup.NetworkOfIPv6` |
| Lookup.IpInfoOf | main.go:485-573 | definition of getIPInfo as a function; its error order is stated by `Lookup.LookupOrder`, and `Registry.Databases.GetIPInfo` is proved equal to it |
| Lookup.FormatUtcOffset | main.go:549-556 | the offset-formatting step computes exactly `UtcOffsetText` |
| Lookup.LookupOrder | main.go:496-530 | lookups go ASN, city, country. The first failure is returned with its prefix, and the later readers do not matter. The record exists exactly when all three succeed |
| Lookup.AsnTextDecodes | main.go:503 | the ASN field is "AS" followed by the number in canonical decimal, which reads back as the number |
| Lookup.AsnTextInjective | main.go:503 | distinct AS numbers give distinct ASN fields |
| Lookup.TruncDivBounds | main.go:549 | Go's `/` rounds toward zero, for negative dividends too |
| Lookup.UtcOffsetTextDecodes | main.go:549-556 | the offset text is a sign, then the whole hours rounded toward zero in at least two digits, then "00". The sign is '-' exactly for an offset of an hour or more west of UTC |
| Lookup.UtcOffsetHalfHourWest | main.go:549-556 | -1800 s formats as "+0000" |
| Lookup.UtcOffsetThreeAndAHalfWest | main.go:549-556 | -12600 s formats as "-0300" |
| Lookup.VersionIffTo4 | main.go:486-493 | Version is "IPv4" exactly when `To4` is non-nil, else "IPv6" |
| Lookup.RegionFromFirstSubdivision | main.go:514-518 | region and region code come from the first subdivision only, are empty without subdivisions, and later subdivisions never matter |
| Lookup.NetworkOfIPv4 | main.go:562-565 | an IPv4 address gives its /24: the first three bytes and a zero |
| Lookup.NetworkOfIPv6 | main.go:566-570 | any other address gives its /64: the first eight bytes and zeros |
| Lookup.MockInfo | main_test.go:227-241 | with MockReader behind all three kinds and "TS" absent from the ISO3 table, the record carries AS12345, Test ISP, Test City, Test Region, TS and "TS" as ISO3 fallback |
| Lookup.MockAsnText | main.go:503 | AS number 12345 prints as "AS12345" |
| Lookup.ErrorMockInfo | main_test.go:716-728 | with ErrorMockReader, getIPInfo fails with "city lookup error: mock City error" |
| Server.ValidateSSLConfig | main.go:593-605 | definition of validateSSLConfig with its two messages; characterized by `Server.ValidateSSLConfigIff` |
| Server.GetClientIP | main.go:575-590 | definition of getClientIP; stated by the `Server.ClientIP…` lemmas below |
| Server.RouteOf | main.go:411-454 | definition of the routing decision of handleRequest; characterized in both directions by `Server.RouteIff` |
| Server.HandleIPLookup | main.go:456-483 | definition of handleIPLookup's status and body; characterized by `Server.LookupStatus` |
| Server.HandleRequest | main.go:411-454 | definition of handleRequest's response; characterized by `Server.RequestStatus` |
| Server.ValidateSSLConfigIff | main.go:593-605 | the SSL configuration passes exactly when it names neither file, or turns SSL on and names both |
| Server.ClientIPForwardedFirst | main.go:578-581 | with several forwarded addresses, the client is the first one, trimmed and unvalidated |
| Server.ClientIPForwardedOnly | main.go:578-581 | a single forwarded address is the client, trimmed |
| Server.ClientIPRemote | main.go:585-589 | without X-Forwarded-For, a host:port RemoteAddr gives its host |
| Server.ClientIPRemoteVerbatim | main.go:585-588 | without X-Forwarded-For, a RemoteAddr that does not split is returned as it is |
| Server.ClientIPForwardedVerbatim | main.go:578-581 | a first forwarded entry without surrounding white space is returned exactly as written |
| Server.ClientIPFirstOfThree | main_test.go:184 | "192.168.1.1, 10.0.0.1, 172.16.0.1" gives "192.168.1.1" |
| Server.ClientIPForwardedUnchecked | main_test.go:653 | "invalid-ip" is returned unvalidated |
| Server.ClientIPHostPort | main_test.go:185 | RemoteAddr "192.0.2.1:12345" gives "192.0.2.1" |
| Server.ClientIPNoPort | main_test.go:659 | RemoteAddr "invalid-address" is returned as it is |
| Server.SplitIpgeoPath | main.go:442-443 | "/ipgeo/x", for x without '/', splits into exactly "", "ipgeo", x |
| Server.IpgeoPathOfSplit | main.go:440-444 | a path that starts "/ipgeo/" and splits into three pieces is "/ipgeo/" followed by a third piece without '/' |
| Server.RouteIff | main.go:415-453 | a request is looked up for x exactly when its host passes and either the path is "/ipgeo" and x is the client address, or the path is "/ipgeo/x" with no '/' in x. Everything else is forbidden |
| Server.RouteNestedPathForbidden | main.go:440-453 | "/ipgeo/a/b" is forbidden |
| Server.RouteUnknownPathForbidden | main_test.go:364-372 | "/invalid" is forbidden |
| Server.RouteGiven | main.go:440-447 | "/ipgeo/x" on an accepted host looks up x |
| Server.RouteGivenAddress | main_test.go:353-361 | "/ipgeo/8.8.8.8" looks up "8.8.8.8" |
| Server.RouteHostWithPort | main.go:415-423 | a configured host accepts a Host header that adds a port |
| Server.RouteWrongHostForbidden | main_test.go:390-401 | a configured host refuses another Host header |
| Server.LookupStatus | main.go:456-483 | 400 exactly for text that does not parse. 500 exactly when the record cannot be built, with "Error getting IP info: " and the error in the body. 200 with the record otherwise |
| Server.RequestStatus | main.go:411-454 | every response is 200, 400, 403 or 500, and 403 exactly for a forbidden route |
| Server.ParseTestAddress | main_test.go:717 | "192.168.1.1" parses to the IPv4-mapped form of 192.168.1.1 |
| Server.LookupRejectsPlainText | main_test.go:734-742 | text with neither '.' nor ':', such as "not-an-ip-at-all", answers 400 |
| Server.LookupRejectsThreeParts | main_test.go:745-753 | a three-part dotted text, such as "192.168.1", answers 400 |
| Server.MockLookup | main_test.go:197-241 | with MockReader behind every kind, "192.168.1.1" answers 200 with ip "192.168.1.1", IPv4, Test City, TS, AS12345 and ISO3 "TS" |
| Server.ErrorMockLookup | main_test.go:792-800 | with ErrorMockReader, "192.168.1.1" answers 500 with the city lookup error in the body |
| Net.ParseIPv4 | main.go:460 | an accepted dotted quad gives four bytes |
| Net.ParseFormatIPv4 | main.go:460 | parsing the dotted quad of four bytes gives the bytes back |
| Net.FormatParseIPv4 | main.go:487 | every accepted dotted quad is the text `IP.String` writes for its bytes |
| Net.To4 | main.go:491 | `IP.To4` gives four bytes, or nil for an address that is not IPv4; `Net.To4OfMapped` shows it inverts the IPv4-mapped form |
| Net.Mask | main.go:562-570 | definition of `IP.Mask`; stated by `Net.MaskWholeBytes` |
| Net.To4OfMapped | main.go:491 | `To4` of the IPv4-mapped form returns the four bytes |
| Net.ParseIP | main.go:460 | a parsed address has 16 bytes and its text has a '.' or ':' before any '%' |
| Net.ParseIPDottedQuad | main.go:460 | text whose first mark is '.' parses exactly when the IPv4 parser accepts it, and `To4` gives the parsed bytes |
| Net.CIDRMask | main.go:564 | the mask has one byte per 8 bits of the address width |
| Net.BitAndOnes | main.go:564 | a mask of n one-bits keeps any value below 2^n |
| Net.BitAndFull | main.go:564 | a mask byte 255 keeps a byte and 0 clears it |
| Net.MaskWholeBytes | main.go:562-570 | masking with a whole-byte prefix keeps the prefix bytes and zeroes the rest |
| Net.SplitHostPort | main.go:585 | text without ':' never splits. A split gives a port without ':', a host without '[' and a port without ']' |
| Net.SplitJoinHostPort | main.go:585 | splitting a joined host and port gives them back, brackets included |
| Net.SplitHostPortNeedsColon | main.go:585-588 | text without ':' fails with "missing port in address" |
| Text.IndexOf | main.go:580 | the first occurrence, or none when the character is absent |
| Text.LastIndexOf | main.go:585 | the last occurrence, or none when the character is absent |
| Text.Split | main.go:442 | `strings.Split` gives at least one piece; `Text.JoinSplit` and `Text.SplitJoin` make it the inverse of `Text.Join` |
| Text.TrimSpace | main.go:581 | definition of `strings.TrimSpace`; stated by `Text.TrimSpacePadded` through `Text.TrimLeft` and `Text.TrimRight` |
| Text.JoinSplit | main.go:442 | joining the pieces of `strings.Split` with the separator gives the text back |
| Text.SplitJoin | main.go:442 | splitting separator-free pieces joined by the separator gives the pieces back |
| Text.SplitPiecesFree | main.go:442 | no piece of `strings.Split` contains the separator |
| Text.SplitFirst | main.go:580 | the first piece is the text before the first separator, or all of it |
| Text.TrimLeft | main.go:581 | drops exactly the leading white space |
| Text.TrimRight | main.go:581 | drops exactly the trailing white space |
| Text.TrimSpacePadded | main.go:581 | `strings.TrimSpace` removes exactly the white space around a text that does not start or end with white space |
| Text.DecimalString | main.go:503 | `%d` writes digits with no leading zero |
| Text.DecimalStringValue | main.go:503 | `%d` text reads back as its number |
| Text.CanonicalDecimalString | main.go:503 | a canonical decimal text is what `%d` writes for its value |
| Text.ZeroPad2Value | main.go:556 | `%02d` pads to at least two digits without changing the number |

## Left out

- HTTP serving (`ListenAndServe`, TLS), writing headers and JSON-encoding
  the record, and logging are I/O. A response is its status and body: the
  `http.Error` text with its trailing newline, or the record.
- `loadConfig`, `ensureConfigFileExists`, `generateSelfSignedCert` and `main`
  do file I/O, JSON parsing and run openssl. Only `validateSSLConfig` and the
  default configuration are modelled.
- `startDatabaseUpdater` (the daily ticker goroutine) and the per-entry
  `sync.RWMutex` are concurrency. One call of `initDatabases` or
  `updateDatabasesIfNeeded` is one atomic step.
- The network transfer inside `downloadDatabase` (`http.Get`, `io.Copy`): only
  its outcome is a parameter. That outcome is create failure, GET failure, a
  status, or a body copied wholly or in part.
- RefreshAll, InitAll and Lifecycle.RefreshOrderIndependent: a whole pass
  reads the clock once, as one `now` parameter. Go reads it again for every
  kind (main.go:297, 315, 340 and 377), and downloads take time. So in Go the
  stamps, and the stale verdict of a kind near the 30-day boundary, can
  depend on the visiting order. The order independence is proved only for
  passes at a single instant.
- `time.Now` is a parameter. `time.LoadLocation` and the zone's current offset
  are a map from zone name to offset in seconds; a zone missing from the map
  fails to load.
- The GeoLite2 binary format and the maxminddb library. An opened file is an
  abstract per-address table. Whether a file parses, and the identity of the
  reader object the library creates, are parameters.
- The library is assumed to fail every lookup on a closed database-backed
  reader. mock_geoip2.go and main_test.go do not say what the real library does.
- Latitude and Longitude are floating point, copied through unchanged, and
  left out of `IPInfo` and of the City record.
- The IPv6 text syntax of `net.ParseIP` is a map from text to 16 bytes. The
  IPv6 text form that `IP.String` writes is a function parameter. Dotted-quad
  parsing and formatting are modelled in full.
- `IP.String`'s "?" form for an address of invalid length cannot arise from
  `net.ParseIP`, so it is not modelled.
- The contents of the `iso3Codes` table are an abstract map, with the fallback
  to the alpha-2 code modelled.
- The `Reader` interface is a datatype with one variant per implementation.
  Go dispatches through an interface.
- The unused `MockASN`, `MockCity` and `MockCountry` struct declarations in
  mock_geoip2.go.
- `os.Stat` errors other than "does not exist" are not distinguished:
  `initDatabases` treats a file as present exactly when it is in the file map.
- The Request carries only the path, the Host header, RemoteAddr and
  X-Forwarded-For. `X-Real-IP` and every other header are ignored by the code
  and absent from the model.
- Registry.Databases.GetIPInfo: requires the three kinds to hold readers. With
  a nil reader, the Go code panics.
- Lifecycle.RefreshOrderIndependent: requires the kinds' paths to be pairwise
  distinct. `Lifecycle.DefaultRegistryPathsSeparate` proves this for the
  configured registry, and `Lifecycle.PathsSeparateKept` shows that every pass
  keeps it.
- Lifecycle.InitAllReady: assumes a clock past the zero Time and files with
  real modification times. Under those conditions, "non-zero lastUpdate" in
  the tests holds.
