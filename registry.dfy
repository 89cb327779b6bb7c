/** The database registry of main.go (`databases`, one dbConfig per kind)
    and its lifecycle: initDatabases at start-up and updateDatabasesIfNeeded
    on every tick of the updater. One call of either is one atomic step; the
    per-entry RWMutex is not modelled. What the environment does (the
    download, the rename, the library opening a file, os.Stat) is given to
    each call as a per-kind outcome. Go ranges over a map in no fixed order,
    so each call also receives the order it visits the kinds in. */
module Registry {
  import opened Wrappers
  import opened Clock
  import opened Net
  import opened GeoIP
  import opened FileSystem
  import opened Lookup

  /** dbConfig: the reader (None for nil), the source URL, the local path and
      the time of the last update. */
  datatype Entry = Entry(reader: Option<Reader>, url: string, localPath: string, lastUpdate: Time)

  /** What the package variable geoipOpen holds: the real geoip2.Open, or the
      test double that hands out a MockReader for any path. */
  datatype Opener = Geoip2Open | MockOpen

  /** What the database library does when asked to open a file: the identity
      of the reader object it would create, and whether the file parses (and
      to what). */
  datatype OpenOutcome = OpenOutcome(id: nat, parsed: Option<GeoDb>)

  /** geoip2.Open(path). */
  function Open(files: Files, path: string, o: OpenOutcome): Option<Reader> {
    if path in files && o.parsed.Some? then Some(Reader(o.id, FileBackend(files[path].data, o.parsed.value), true))
    else None
  }

  /** geoipOpen(path). */
  function GeoipOpen(opener: Opener, files: Files, path: string, o: OpenOutcome): Option<Reader> {
    match opener
    case MockOpen => Some(Reader(o.id, MockBackend, true))
    case Geoip2Open => Open(files, path, o)
  }

  /** geoip2.Open succeeds exactly for a file that exists and parses, and the
      reader it returns answers every lookup from the parsed tables, with the
      zero record for an address they do not hold. */
  lemma OpenAnswers(files: Files, path: string, o: OpenOutcome, ip: IP)
    ensures Open(files, path, o).Some? <==> path in files && o.parsed.Some?
    ensures Open(files, path, o).Some? ==>
              var r := Open(files, path, o).value;
              var db := o.parsed.value;
              && r.isOpen && r.id == o.id
              && Asn(r, ip) == Ok(if ip in db.asn then db.asn[ip] else EmptyAsn)
              && City(r, ip) == Ok(if ip in db.city then db.city[ip] else EmptyCity)
              && Country(r, ip) == Ok(if ip in db.country then db.country[ip] else EmptyCountry)
  {
  }

  /** geoipOpen fails only with the real library, and only when geoip2.Open
      fails; with the test double installed it always hands out an open
      reader answering like MockReader. */
  lemma GeoipOpenIff(opener: Opener, files: Files, path: string, o: OpenOutcome, ip: IP)
    ensures GeoipOpen(opener, files, path, o).None? <==> opener == Geoip2Open && Open(files, path, o).None?
    ensures GeoipOpen(opener, files, path, o).Some? ==>
              GeoipOpen(opener, files, path, o).value.isOpen && GeoipOpen(opener, files, path, o).value.id == o.id
    ensures opener == MockOpen ==>
              var r := GeoipOpen(opener, files, path, o).value;
              Asn(r, ip) == Ok(MockAsn()) && City(r, ip) == Ok(MockCity()) && Country(r, ip) == Ok(MockCountry())
  {
  }

  /** The two paths an entry's lifecycle writes: its file and the sibling the
      refresh downloads into. */
  function TempPath(e: Entry): string {
    e.localPath + ".new"
  }

  function PathsOf(e: Entry): set<string> {
    {e.localPath, TempPath(e)}
  }

  /** The registry as the program starts: three kinds, each with its
      download URL and its file under the fixed directory (filepath.Join
      drops the leading "./"), no reader and the zero time. */
  function DefaultRegistry(): (entries: map<string, Entry>)
    ensures entries.Keys == {"asn", "city", "country"}
    ensures forall k :: k in entries ==> entries[k].reader.None? && entries[k].lastUpdate == ZeroTime
  {
    map[
      "asn" := Entry(None, "https://git.io/GeoLite2-ASN.mmdb", "maxmind_db/GeoLite2-ASN.mmdb", ZeroTime),
      "city" := Entry(None, "https://git.io/GeoLite2-City.mmdb", "maxmind_db/GeoLite2-City.mmdb", ZeroTime),
      "country" := Entry(None, "https://git.io/GeoLite2-Country.mmdb", "maxmind_db/GeoLite2-Country.mmdb", ZeroTime)]
  }

  /** The entries keep to their own files: no path of one is a path of another. */
  ghost predicate PathsSeparate(entries: map<string, Entry>) {
    forall a, b :: a in entries && b in entries && a != b ==> PathsOf(entries[a]) !! PathsOf(entries[b])
  }

  /** Same kinds, and each kind keeps its URL and local path. */
  ghost predicate SameConfig(a: map<string, Entry>, b: map<string, Entry>) {
    a.Keys == b.Keys
    && forall k :: k in a ==> b[k].url == a[k].url && b[k].localPath == a[k].localPath
  }

  /** `order` lists every kind of `entries` exactly once: one possible order
      of Go's range over the map. */
  ghost predicate IsIterationOrder(order: seq<string>, entries: map<string, Entry>) {
    (forall i, j :: 0 <= i < j < |order| ==> order[i] != order[j])
    && (forall k :: k in entries <==> k in order)
  }

  datatype State = State(entries: map<string, Entry>, files: Files)

  // ---------------------------------------------------------------------
  // updateDatabasesIfNeeded
  // ---------------------------------------------------------------------

  /** The environment's answers for one kind during one update pass: the
      download into the ".new" file, the rename, the library's verdict on
      the best-effort reopen after a failed rename, and on the open of the
      renamed file. */
  datatype RefreshOutcomes = RefreshOutcomes(
    download: DownloadOutcome,
    renameSucceeds: bool,
    reopen: OpenOutcome,
    open: OpenOutcome)

  /** What updateDatabasesIfNeeded does once the ".new" file is downloaded:
      the old reader is closed first, then the file is renamed over the old
      one; a failed rename reopens the old path with geoip2.Open directly; a
      successful rename opens the new file with geoipOpen and, if that works,
      installs the new reader and stamps the time. */
  function Replace(e: Entry, files: Files, now: Time, opener: Opener, o: RefreshOutcomes): (r: (Entry, Files))
    ensures r.0.url == e.url && r.0.localPath == e.localPath
    ensures r.1 - PathsOf(e) == files - PathsOf(e)
  {
    var closed := if e.reader.Some? then e.(reader := Some(Close(e.reader.value))) else e;
    var (renamed, ok) := Rename(files, TempPath(e), e.localPath, o.renameSucceeds);
    if !ok then
      var reopened := Open(renamed, e.localPath, o.reopen);
      (if reopened.Some? then closed.(reader := reopened) else closed, renamed)
    else
      var installed := GeoipOpen(opener, renamed, e.localPath, o.open);
      (if installed.Some? then closed.(reader := installed, lastUpdate := now) else closed, renamed)
  }

  /** The loop body of updateDatabasesIfNeeded for one entry: a stale entry
      downloads into the ".new" file and, when that succeeds, replaces its
      database with it. */
  function RefreshEntry(e: Entry, files: Files, now: Time, opener: Opener, o: RefreshOutcomes): (r: (Entry, Files))
    ensures r.0.url == e.url && r.0.localPath == e.localPath
    ensures r.1 - PathsOf(e) == files - PathsOf(e)
  {
    if !IsStale(now, e.lastUpdate) then (e, files)
    else
      var (downloaded, err) := Download(files, TempPath(e), now, o.download);
      if err.Some? then (e, downloaded)
      else Replace(e, downloaded, now, opener, o)
  }

  function RefreshStep(st: State, name: string, now: Time, opener: Opener, o: RefreshOutcomes): (r: State)
    requires name in st.entries
    ensures SameConfig(st.entries, r.entries)
  {
    var (e, f) := RefreshEntry(st.entries[name], st.files, now, opener, o);
    State(st.entries[name := e], f)
  }

  /** One update pass over the kinds in `order`. */
  function RefreshAll(st: State, order: seq<string>, now: Time, opener: Opener,
                      outcomes: map<string, RefreshOutcomes>): (r: State)
    requires forall k :: k in order ==> k in st.entries && k in outcomes
    ensures SameConfig(st.entries, r.entries)
    decreases |order|
  {
    if order == [] then st
    else
      var last := order[|order| - 1];
      RefreshStep(RefreshAll(st, order[..|order| - 1], now, opener, outcomes), last, now, opener, outcomes[last])
  }

  // ---------------------------------------------------------------------
  // initDatabases
  // ---------------------------------------------------------------------

  /** The environment's answers for one kind at start-up: the download (used
      only when the file is missing), the open, and whether the os.Stat that
      reads the modification time succeeds. */
  datatype InitOutcomes = InitOutcomes(download: DownloadOutcome, open: OpenOutcome, statSucceeds: bool)

  /** The errors initDatabases returns, naming the kind. */
  datatype InitError = DownloadFailed(name: string, cause: DownloadError) | OpenFailed(name: string)

  /** The loop body of initDatabases for one entry. A missing file is
      downloaded to the local path itself and the time is stamped; then the
      file is opened; a zero time then becomes the file's modification time,
      or now when os.Stat fails. */
  function InitEntry(name: string, e: Entry, files: Files, now: Time, opener: Opener, o: InitOutcomes)
    : (r: (Entry, Files, Option<InitError>))
    ensures r.0.url == e.url && r.0.localPath == e.localPath
    ensures r.1 - {e.localPath} == files - {e.localPath}
    ensures e.localPath in files ==> r.1 == files
  {
    var missing := e.localPath !in files;
    var (downloaded, dlErr) := if missing then Download(files, e.localPath, now, o.download) else (files, None);
    if dlErr.Some? then (e, downloaded, Some(DownloadFailed(name, dlErr.value)))
    else
      var stamped := if missing then e.(lastUpdate := now) else e;
      var reader := GeoipOpen(opener, downloaded, e.localPath, o.open);
      if reader.None? then (stamped, downloaded, Some(OpenFailed(name)))
      else
        var installed := stamped.(reader := reader);
        var dated :=
          if installed.lastUpdate != ZeroTime then installed
          else if o.statSucceeds && e.localPath in downloaded then installed.(lastUpdate := downloaded[e.localPath].modTime)
          else installed.(lastUpdate := now);
        (dated, downloaded, None)
  }

  function InitStep(st: State, name: string, now: Time, opener: Opener, o: InitOutcomes): (r: (State, Option<InitError>))
    requires name in st.entries
    ensures SameConfig(st.entries, r.0.entries)
  {
    var (e, f, err) := InitEntry(name, st.entries[name], st.files, now, opener, o);
    (State(st.entries[name := e], f), err)
  }

  /** initDatabases over the kinds in `order`, stopping at the first error. */
  function InitAll(st: State, order: seq<string>, now: Time, opener: Opener,
                   outcomes: map<string, InitOutcomes>): (r: (State, Option<InitError>))
    requires forall k :: k in order ==> k in st.entries && k in outcomes
    ensures SameConfig(st.entries, r.0.entries)
    decreases |order|
  {
    if order == [] then (st, None)
    else
      var (next, err) := InitStep(st, order[0], now, opener, outcomes[order[0]]);
      if err.Some? then (next, err) else InitAll(next, order[1..], now, opener, outcomes)
  }

  /** The readers getIPInfo consults. */
  function ReadersOf(entries: map<string, Entry>): Lookups
    requires "asn" in entries && "city" in entries && "country" in entries
    requires entries["asn"].reader.Some? && entries["city"].reader.Some? && entries["country"].reader.Some?
  {
    Lookups(entries["asn"].reader.value, entries["city"].reader.value, entries["country"].reader.value)
  }

  // ---------------------------------------------------------------------
  // The registry object
  // ---------------------------------------------------------------------

  /** The package-level `databases` map together with the files on disk. */
  class Databases {
    var entries: map<string, Entry>
    var files: Files

    constructor (entries: map<string, Entry>, files: Files)
      ensures this.entries == entries && this.files == files
    {
      this.entries := entries;
      this.files := files;
    }

    /** One iteration of initDatabases' loop: the entry `name`. */
    method InitOne(name: string, now: Time, opener: Opener, o: InitOutcomes) returns (err: Option<InitError>)
      requires name in entries
      modifies this
      ensures (State(entries, files), err) == InitStep(old(State(entries, files)), name, now, opener, o)
    {
      ghost var before := entries;
      var db := entries[name];
      err := None;
      if db.localPath !in files {
        // The file is missing: download it to the local path itself.
        var downloaded := Download(files, db.localPath, now, o.download);
        files := downloaded.0;
        if downloaded.1.Some? {
          err := Some(DownloadFailed(name, downloaded.1.value));
          assert entries[name := db] == entries;
          return;
        }
        db := db.(lastUpdate := now);
        entries := entries[name := db];
      }
      var reader := GeoipOpen(opener, files, db.localPath, o.open);
      if reader.None? {
        err := Some(OpenFailed(name));
        assert entries[name := db] == entries;
        return;
      }
      db := db.(reader := reader);
      if db.lastUpdate == ZeroTime {
        if o.statSucceeds && db.localPath in files {
          db := db.(lastUpdate := files[db.localPath].modTime);
        } else {
          db := db.(lastUpdate := now);
        }
      }
      assert entries[name := db] == before[name := db];
      entries := entries[name := db];
    }

    /** initDatabases. */
    method InitDatabases(order: seq<string>, now: Time, opener: Opener, outcomes: map<string, InitOutcomes>)
      returns (err: Option<InitError>)
      requires IsIterationOrder(order, entries)
      requires forall k :: k in entries ==> k in outcomes
      modifies this
      ensures (State(entries, files), err) == InitAll(old(State(entries, files)), order, now, opener, outcomes)
    {
      ghost var start := State(entries, files);
      var i := 0;
      while i < |order|
        invariant 0 <= i <= |order|
        invariant entries.Keys == start.entries.Keys
        invariant forall k :: k in order[i..] ==> k in entries && k in outcomes
        invariant InitAll(State(entries, files), order[i..], now, opener, outcomes) == InitAll(start, order, now, opener, outcomes)
      {
        assert order[i..][0] == order[i] && order[i..][1..] == order[i + 1..];
        err := InitOne(order[i], now, opener, outcomes[order[i]]);
        if err.Some? {
          return;
        }
        i := i + 1;
      }
      err := None;
    }

    /** getIPInfo: the record filled field by field from the readers of the
        "asn", "city" and "country" entries (a missing entry or a nil reader
        makes the Go code panic). */
    method GetIPInfo(ip: IP, env: Env) returns (r: Result<IPInfo, string>)
      requires "asn" in entries && "city" in entries && "country" in entries
      requires entries["asn"].reader.Some? && entries["city"].reader.Some? && entries["country"].reader.Some?
      ensures r == IpInfoOf(ReadersOf(entries), ip, env)
    {
      var info := IPInfo("", "", "IPv4", "", "", "", "", "", "", "", "", false, "", "", "", "", "");
      info := info.(ip := IPString(ip, env.formatIPv6));
      if To4(ip).None? {
        info := info.(version := "IPv6");
      }

      var asn := Asn(entries["asn"].reader.value, ip);
      if asn.Err? {
        return Err("ASN lookup error: " + asn.error);
      }
      info := info.(asn := AsnText(asn.value.number), org := asn.value.organization);

      var city := City(entries["city"].reader.value, ip);
      if city.Err? {
        return Err("city lookup error: " + city.error);
      }
      info := info.(city := EnglishName(city.value.names));
      if |city.value.subdivisions| > 0 {
        info := info.(region := EnglishName(city.value.subdivisions[0].names),
                      regionCode := city.value.subdivisions[0].isoCode);
      }
      info := info.(postal := city.value.postalCode, timezone := city.value.timeZone);

      var country := Country(entries["country"].reader.value, ip);
      if country.Err? {
        return Err("country lookup error: " + country.error);
      }
      info := info.(country := country.value.isoCode, countryName := EnglishName(country.value.names),
                    countryCode := country.value.isoCode, continentCode := country.value.continentCode,
                    inEU := country.value.inEU);

      // ISO3 codes come from the service's own table, with the alpha-2 code as fallback.
      if info.countryCode in env.iso3Codes {
        info := info.(countryCodeIso3 := env.iso3Codes[info.countryCode]);
      } else {
        info := info.(countryCodeIso3 := info.countryCode);
      }

      if info.timezone != "" && info.timezone in env.zoneOffsets {
        var offset := FormatUtcOffset(env.zoneOffsets[info.timezone]);
        info := info.(utcOffset := offset);
      }

      if To4(ip).Some? {
        info := info.(network := MaskedText(Mask(ip, CIDRMask(24, 32)), env.formatIPv6) + "/24");
      } else {
        info := info.(network := MaskedText(Mask(ip, CIDRMask(64, 128)), env.formatIPv6) + "/64");
      }
      r := Ok(info);
    }

    /** The replacement of the database of kind `name` by its downloaded ".new" file. */
    method ReplaceDatabase(name: string, now: Time, opener: Opener, o: RefreshOutcomes)
      requires name in entries
      modifies this
      ensures (entries, files) == (old(entries)[name := Replace(old(entries[name]), old(files), now, opener, o).0],
                                   Replace(old(entries[name]), old(files), now, opener, o).1)
    {
      ghost var before := entries;
      var db := entries[name];
      var tempPath := TempPath(db);
      // Close the existing reader before replacing the file.
      if db.reader.Some? {
        db := db.(reader := Some(Close(db.reader.value)));
        entries := entries[name := db];
      }
      assert entries == before[name := db];
      var renamed := Rename(files, tempPath, db.localPath, o.renameSucceeds);
      files := renamed.0;
      if !renamed.1 {
        // Best effort: reopen the old file with geoip2.Open itself.
        var reopened := Open(files, db.localPath, o.reopen);
        if reopened.Some? {
          db := db.(reader := reopened);
        }
      } else {
        var installed := GeoipOpen(opener, files, db.localPath, o.open);
        if installed.Some? {
          db := db.(reader := installed, lastUpdate := now);
        }
      }
      assert entries[name := db] == before[name := db];
      entries := entries[name := db];
    }

    /** One iteration of updateDatabasesIfNeeded's loop: the entry `name`. */
    method RefreshOne(name: string, now: Time, opener: Opener, o: RefreshOutcomes)
      requires name in entries
      modifies this
      ensures State(entries, files) == RefreshStep(old(State(entries, files)), name, now, opener, o)
    {
      var db := entries[name];
      if !IsStale(now, db.lastUpdate) {
        assert entries[name := db] == entries;
        return;
      }
      // Download to a temporary file next to the current one.
      var tempPath := TempPath(db);
      var downloaded := Download(files, tempPath, now, o.download);
      files := downloaded.0;
      if downloaded.1.Some? {
        assert entries[name := db] == entries;
        return;
      }
      ReplaceDatabase(name, now, opener, o);
    }

    /** updateDatabasesIfNeeded. */
    method UpdateDatabasesIfNeeded(order: seq<string>, now: Time, opener: Opener,
                                   outcomes: map<string, RefreshOutcomes>)
      requires IsIterationOrder(order, entries)
      requires forall k :: k in entries ==> k in outcomes
      modifies this
      ensures State(entries, files) == RefreshAll(old(State(entries, files)), order, now, opener, outcomes)
    {
      ghost var start := State(entries, files);
      var i := 0;
      while i < |order|
        invariant 0 <= i <= |order|
        invariant State(entries, files) == RefreshAll(start, order[..i], now, opener, outcomes)
      {
        RefreshAllSnoc(start, order, i, now, opener, outcomes);
        RefreshOne(order[i], now, opener, outcomes[order[i]]);
        i := i + 1;
      }
      assert order[..|order|] == order;
    }
  }

  /** One more kind in the pass is one more step. */
  lemma RefreshAllSnoc(st: State, order: seq<string>, i: nat, now: Time, opener: Opener,
                       outcomes: map<string, RefreshOutcomes>)
    requires forall k :: k in order ==> k in st.entries && k in outcomes
    requires i < |order|
    ensures order[i] in RefreshAll(st, order[..i], now, opener, outcomes).entries
    ensures RefreshAll(st, order[..i + 1], now, opener, outcomes)
         == RefreshStep(RefreshAll(st, order[..i], now, opener, outcomes), order[i], now, opener, outcomes[order[i]])
  {
    var prefix := order[..i + 1];
    assert prefix[..i] == order[..i] && prefix[i] == order[i];
  }
}
