/** The `Reader` interface of main.go (ASN, City, Country, Close) and its
    implementations: the database-backed reader that geoip2.Open returns,
    MockReader (mock_geoip2.go) and ErrorMockReader (main_test.go). The
    interface becomes the datatype `Backend`, one variant per implementation;
    a `Reader` value is one reader object: its identity, its implementation
    and whether it has been closed. */
module GeoIP {
  import opened Wrappers
  import opened Net

  /** geoip2.ASN. */
  datatype AsnRecord = AsnRecord(number: nat, organization: string)

  /** One entry of geoip2.City's Subdivisions. */
  datatype Subdivision = Subdivision(isoCode: string, names: map<string, string>)

  /** geoip2.City, without the fields the service never reads (geoname ids,
      registered and represented country, traits) and without the
      floating-point coordinates. */
  datatype CityRecord = CityRecord(
    names: map<string, string>,
    subdivisions: seq<Subdivision>,
    countryIsoCode: string,
    countryInEU: bool,
    countryNames: map<string, string>,
    continentCode: string,
    timeZone: string,
    postalCode: string)

  /** geoip2.Country, likewise trimmed. */
  datatype CountryRecord = CountryRecord(
    isoCode: string,
    names: map<string, string>,
    inEU: bool,
    continentCode: string)

  /** The zero records geoip2 returns for an address the database does not hold. */
  const EmptyAsn := AsnRecord(0, "")
  const EmptyCity := CityRecord(map[], [], "", false, map[], "", "", "")
  const EmptyCountry := CountryRecord("", map[], false, "")

  /** What an opened database file answers, per address. */
  datatype GeoDb = GeoDb(
    asn: map<IP, AsnRecord>,
    city: map<IP, CityRecord>,
    country: map<IP, CountryRecord>)

  /** The implementations of the Reader interface. A database-backed reader
      remembers the file bytes it was opened from. */
  datatype Backend =
    | MockBackend
    | ErrorMockBackend
    | FileBackend(image: seq<Byte>, db: GeoDb)

  datatype Reader = Reader(id: nat, backend: Backend, isOpen: bool)

  const ClosedError := "cannot call Lookup on a closed database"

  /** Reader.ASN. */
  function Asn(r: Reader, ip: IP): Result<AsnRecord, string> {
    match r.backend
    case MockBackend => Ok(MockAsn())
    case ErrorMockBackend => Ok(AsnRecord(12345, "Mock ISP"))
    case FileBackend(_, db) =>
      if !r.isOpen then Err(ClosedError)
      else Ok(if ip in db.asn then db.asn[ip] else EmptyAsn)
  }

  /** Reader.City. */
  function City(r: Reader, ip: IP): Result<CityRecord, string> {
    match r.backend
    case MockBackend => Ok(MockCity())
    case ErrorMockBackend => Err("mock City error")
    case FileBackend(_, db) =>
      if !r.isOpen then Err(ClosedError)
      else Ok(if ip in db.city then db.city[ip] else EmptyCity)
  }

  /** Reader.Country. */
  function Country(r: Reader, ip: IP): Result<CountryRecord, string> {
    match r.backend
    case MockBackend => Ok(MockCountry())
    case ErrorMockBackend => Err("mock Country error")
    case FileBackend(_, db) =>
      if !r.isOpen then Err(ClosedError)
      else Ok(if ip in db.country then db.country[ip] else EmptyCountry)
  }

  /** Reader.Close: the same reader object, now closed. Every implementation
      here reports success, and the service ignores the error anyway. */
  function Close(r: Reader): Reader {
    r.(isOpen := false)
  }

  /** MockReader.ASN's answer. */
  function MockAsn(): AsnRecord {
    AsnRecord(12345, "Test ISP")
  }

  /** MockReader.City's answer (its coordinates are not modelled). */
  function MockCity(): CityRecord {
    CityRecord(
      map["en" := "Test City"],
      [Subdivision("TS", map["en" := "Test Region"])],
      "TS", true, map["en" := "Test Country"], "TE",
      "America/New_York", "12345")
  }

  /** MockReader.Country's answer. */
  function MockCountry(): CountryRecord {
    CountryRecord("TS", map["en" := "Test Country"], true, "TE")
  }

  /** MockReader's ASN answer, the same for every address and every call. */
  lemma MockAsnAnswer(r: Reader, ip: IP)
    requires r.backend == MockBackend
    ensures Asn(r, ip).Ok?
    ensures Asn(r, ip).value.number == 12345 && Asn(r, ip).value.organization == "Test ISP"
  {
  }

  /** MockReader's City answer: one subdivision, English names, never an error. */
  lemma MockCityAnswer(r: Reader, ip: IP)
    requires r.backend == MockBackend
    ensures City(r, ip).Ok?
    ensures var c := City(r, ip).value;
      && c.names["en"] == "Test City"
      && |c.subdivisions| == 1
      && c.subdivisions[0].isoCode == "TS" && c.subdivisions[0].names["en"] == "Test Region"
      && c.postalCode == "12345" && c.timeZone == "America/New_York"
  {
  }

  /** MockReader's Country answer. */
  lemma MockCountryAnswer(r: Reader, ip: IP)
    requires r.backend == MockBackend
    ensures Country(r, ip).Ok?
    ensures var k := Country(r, ip).value;
      k.isoCode == "TS" && k.names["en"] == "Test Country" && k.inEU && k.continentCode == "TE"
  {
  }

  /** MockReader has no state: closing it changes none of its answers, and
      no answer depends on the address asked about. */
  lemma MockStateless(r: Reader, ip1: IP, ip2: IP)
    requires r.backend == MockBackend
    ensures Asn(Close(r), ip1) == Asn(r, ip2)
    ensures City(Close(r), ip1) == City(r, ip2)
    ensures Country(Close(r), ip1) == Country(r, ip2)
  {
  }

  /** ErrorMockReader answers ASN but fails City and Country. */
  lemma ErrorMockAnswers(r: Reader, ip: IP)
    requires r.backend == ErrorMockBackend
    ensures Asn(r, ip) == Ok(AsnRecord(12345, "Mock ISP"))
    ensures City(r, ip) == Err("mock City error")
    ensures Country(r, ip) == Err("mock Country error")
  {
  }

  /** Closing is final and idempotent: a closed database-backed reader
      fails every lookup, while the test doubles answer as before. */
  lemma CloseAnswers(r: Reader, ip: IP)
    ensures Close(Close(r)) == Close(r) && Close(r).id == r.id
    ensures r.backend.FileBackend? ==>
              Asn(Close(r), ip).Err? && City(Close(r), ip).Err? && Country(Close(r), ip).Err?
    ensures !r.backend.FileBackend? ==>
              Asn(Close(r), ip) == Asn(r, ip) && City(Close(r), ip) == City(r, ip)
              && Country(Close(r), ip) == Country(r, ip)
  {
  }

  /** A database-backed reader fails every lookup once closed, and answers
      every lookup while open. */
  lemma FileReaderClosedFails(r: Reader, ip: IP)
    requires r.backend.FileBackend?
    ensures Asn(r, ip).Err? <==> !r.isOpen
    ensures City(r, ip).Err? <==> !r.isOpen
    ensures Country(r, ip).Err? <==> !r.isOpen
  {
  }
}
