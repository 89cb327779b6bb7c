/** What initDatabases and updateDatabasesIfNeeded guarantee, entry by entry
    and for a whole pass in any iteration order. */
module Lifecycle {
  import opened Wrappers
  import opened Clock
  import opened Net
  import opened GeoIP
  import opened FileSystem
  import opened Registry

  /** The download target is never the database file itself. */
  lemma TempPathDiffers(e: Entry)
    ensures TempPath(e) != e.localPath
  {
    assert |TempPath(e)| == |e.localPath| + 4;
  }

  /** The download the server answered with 200 and copied in full. */
  predicate DownloadSucceeds(o: DownloadOutcome) {
    o.Responds? && o.status == 200 && o.copied >= |o.body|
  }

  // ---------------------------------------------------------------------
  // One entry of updateDatabasesIfNeeded
  // ---------------------------------------------------------------------

  /** An entry is attempted exactly when it is stale: a fresh entry and the
      files are left as they are; a stale one gets its download, which
      leaves a file stamped now either at the ".new" path or, once renamed,
      at the database path. */
  lemma RefreshAttemptsIffStale(e: Entry, files: Files, now: Time, opener: Opener, o: RefreshOutcomes)
    ensures !IsStale(now, e.lastUpdate) ==> RefreshEntry(e, files, now, opener, o) == (e, files)
    ensures IsStale(now, e.lastUpdate) && !o.download.CreateFails? ==>
              var f := RefreshEntry(e, files, now, opener, o).1;
              (TempPath(e) in f && f[TempPath(e)].modTime == now)
              || (e.localPath in f && f[e.localPath].modTime == now)
  {
    TempPathDiffers(e);
  }

  /** A failed download leaves the entry as it was (reader and lastUpdate)
      and its database file untouched; only the ".new" file may change. */
  lemma RefreshDownloadFailure(e: Entry, files: Files, now: Time, opener: Opener, o: RefreshOutcomes)
    requires IsStale(now, e.lastUpdate)
    requires !DownloadSucceeds(o.download)
    ensures RefreshEntry(e, files, now, opener, o).0 == e
    ensures var f := RefreshEntry(e, files, now, opener, o).1;
      && f - {TempPath(e)} == files - {TempPath(e)}
      && (e.localPath in f <==> e.localPath in files)
      && (e.localPath in files ==> f[e.localPath] == files[e.localPath])
  {
    TempPathDiffers(e);
  }

  /** Download, rename and open all succeed: the downloaded bytes replace the
      database file, the ".new" file is gone, the entry holds the newly opened
      reader (over the new bytes, with the real library) and lastUpdate is now. */
  lemma RefreshFullSuccess(e: Entry, files: Files, now: Time, opener: Opener, o: RefreshOutcomes)
    requires IsStale(now, e.lastUpdate)
    requires DownloadSucceeds(o.download) && o.renameSucceeds
    requires opener == MockOpen || o.open.parsed.Some?
    ensures var (e', f) := RefreshEntry(e, files, now, opener, o);
      && TempPath(e) !in f
      && e.localPath in f && f[e.localPath] == FileInfo(o.download.body, now)
      && e'.reader.Some? && e'.reader.value.id == o.open.id && e'.reader.value.isOpen
      && (opener == Geoip2Open ==> e'.reader.value.backend == FileBackend(o.download.body, o.open.parsed.value))
      && e'.lastUpdate == now
  {
    TempPathDiffers(e);
  }

  /** A failed rename keeps lastUpdate and the database file, and leaves the
      downloaded ".new" file behind. The old reader was already closed: the
      entry keeps it closed unless the reopen of the old file succeeds. That
      reopen goes to the real library, whatever geoipOpen holds. */
  lemma RefreshRenameFailure(e: Entry, files: Files, now: Time, opener: Opener, o: RefreshOutcomes)
    requires IsStale(now, e.lastUpdate)
    requires DownloadSucceeds(o.download) && !o.renameSucceeds
    ensures var (e', f) := RefreshEntry(e, files, now, opener, o);
      && e'.lastUpdate == e.lastUpdate
      && TempPath(e) in f && f[TempPath(e)] == FileInfo(o.download.body, now)
      && (e.localPath in f <==> e.localPath in files)
      && (e.localPath in files ==> f[e.localPath] == files[e.localPath])
      && (e.localPath in files && o.reopen.parsed.Some? ==>
            e'.reader == Some(Reader(o.reopen.id, FileBackend(files[e.localPath].data, o.reopen.parsed.value), true)))
      && (e.localPath !in files || o.reopen.parsed.None? ==>
            (e.reader.None? ==> e'.reader.None?)
            && (e.reader.Some? ==> e'.reader == Some(Close(e.reader.value))))
    ensures RefreshEntry(e, files, now, Geoip2Open, o) == RefreshEntry(e, files, now, MockOpen, o)
  {
    TempPathDiffers(e);
  }

  /** The renamed file does not open: lastUpdate is kept and the entry is left
      with the old reader, closed, while the new bytes already sit at the
      database path. */
  lemma RefreshOpenFailure(e: Entry, files: Files, now: Time, o: RefreshOutcomes)
    requires IsStale(now, e.lastUpdate)
    requires DownloadSucceeds(o.download) && o.renameSucceeds && o.open.parsed.None?
    ensures var (e', f) := RefreshEntry(e, files, now, Geoip2Open, o);
      && e'.lastUpdate == e.lastUpdate
      && (e.reader.None? ==> e'.reader.None?)
      && (e.reader.Some? ==> e'.reader == Some(Close(e.reader.value)))
      && TempPath(e) !in f
      && e.localPath in f && f[e.localPath] == FileInfo(o.download.body, now)
  {
    TempPathDiffers(e);
  }

  /** lastUpdate only ever moves to now, and only together with a freshly
      opened reader. */
  lemma RefreshStamp(e: Entry, files: Files, now: Time, opener: Opener, o: RefreshOutcomes)
    ensures var e' := RefreshEntry(e, files, now, opener, o).0;
      e'.lastUpdate == e.lastUpdate
      || (e'.lastUpdate == now && e'.reader.Some? && e'.reader.value.isOpen && e'.reader.value.id == o.open.id)
  {
  }

  /** An entry 31 days old, refreshed with the test double installed and
      every outcome favourable, ends with a reader and a timestamp less than
      a minute old. */
  lemma RefreshThirtyOneDaysOld(e: Entry, files: Files, now: Time, o: RefreshOutcomes)
    requires e.lastUpdate == now - 31 * 24 * Hour
    requires DownloadSucceeds(o.download) && o.renameSucceeds
    ensures var e' := RefreshEntry(e, files, now, MockOpen, o).0;
      e'.reader.Some? && Sub(now, e'.lastUpdate) < 60 * Second
  {
    StaleIff(now, e.lastUpdate);
    RefreshFullSuccess(e, files, now, MockOpen, o);
  }

  // ---------------------------------------------------------------------
  // A whole pass of updateDatabasesIfNeeded
  // ---------------------------------------------------------------------

  /** Two file maps hold the same files at the paths in `paths`. */
  ghost predicate AgreeOn(f1: Files, f2: Files, paths: set<string>) {
    forall p :: p in paths ==> (p in f1 <==> p in f2) && (p in f1 ==> f1[p] == f2[p])
  }

  /** The three kinds of the start-up registry use six distinct files. */
  lemma DefaultRegistryPathsSeparate()
    ensures PathsSeparate(DefaultRegistry())
  {
    var r := DefaultRegistry();
    var asn, city, country := r["asn"].localPath, r["city"].localPath, r["country"].localPath;
    assert asn[20] == 'A' && city[20] == 'C' && country[20] == 'C';
    assert city[21] == 'i' && country[21] == 'o';
    assert |asn| == 28 && |city| == 29 && |country| == 32;
    assert (asn + ".new")[20] == 'A' && (city + ".new")[21] == 'i';
  }

  /** A pass that keeps every kind's paths keeps them separate. */
  lemma PathsSeparateKept(a: map<string, Entry>, b: map<string, Entry>)
    requires SameConfig(a, b) && PathsSeparate(a)
    ensures PathsSeparate(b)
  {
    SameConfigPaths(a, b);
  }

  /** Every path some entry uses. */
  ghost function AllPaths(entries: map<string, Entry>): set<string> {
    (set k | k in entries :: entries[k].localPath) + (set k | k in entries :: TempPath(entries[k]))
  }

  ghost predicate Distinct(order: seq<string>) {
    forall i, j :: 0 <= i < j < |order| ==> order[i] != order[j]
  }

  /** An entry's refresh reads and writes only its own two paths. */
  lemma RefreshEntryLocal(e: Entry, f1: Files, f2: Files, now: Time, opener: Opener, o: RefreshOutcomes)
    requires AgreeOn(f1, f2, PathsOf(e))
    ensures RefreshEntry(e, f1, now, opener, o).0 == RefreshEntry(e, f2, now, opener, o).0
    ensures AgreeOn(RefreshEntry(e, f1, now, opener, o).1, RefreshEntry(e, f2, now, opener, o).1, PathsOf(e))
  {
    TempPathDiffers(e);
    assert e.localPath in PathsOf(e) && TempPath(e) in PathsOf(e);
    if IsStale(now, e.lastUpdate) {
      var d1 := Download(f1, TempPath(e), now, o.download);
      var d2 := Download(f2, TempPath(e), now, o.download);
      assert d1.1 == d2.1 && AgreeOn(d1.0, d2.0, PathsOf(e));
      if d1.1.None? {
        ReplaceLocal(e, d1.0, d2.0, now, opener, o);
      }
    }
  }

  /** Replace reads and writes only the entry's own two paths. */
  lemma ReplaceLocal(e: Entry, f1: Files, f2: Files, now: Time, opener: Opener, o: RefreshOutcomes)
    requires AgreeOn(f1, f2, PathsOf(e))
    ensures Replace(e, f1, now, opener, o).0 == Replace(e, f2, now, opener, o).0
    ensures AgreeOn(Replace(e, f1, now, opener, o).1, Replace(e, f2, now, opener, o).1, PathsOf(e))
  {
    TempPathDiffers(e);
    assert e.localPath in PathsOf(e) && TempPath(e) in PathsOf(e);
    var r1 := Rename(f1, TempPath(e), e.localPath, o.renameSucceeds);
    var r2 := Rename(f2, TempPath(e), e.localPath, o.renameSucceeds);
    assert r1.1 == r2.1;
    assert AgreeOn(r1.0, r2.0, PathsOf(e));
    assert e.localPath in r1.0 <==> e.localPath in r2.0;
  }

  /** Two file maps that differ only inside `paths` agree everywhere else. */
  lemma AgreeOutside(f1: Files, f2: Files, paths: set<string>, others: set<string>)
    requires f1 - paths == f2 - paths
    requires others !! paths
    ensures AgreeOn(f1, f2, others)
  {
    forall p | p in others
      ensures (p in f1 <==> p in f2) && (p in f1 ==> f1[p] == f2[p])
    {
      assert p in f1 <==> p in f1 - paths;
      assert p in f2 <==> p in f2 - paths;
      if p in f1 {
        assert f1[p] == (f1 - paths)[p];
        assert f2[p] == (f2 - paths)[p];
      }
    }
  }

  lemma AgreeTrans(f1: Files, f2: Files, f3: Files, paths: set<string>)
    requires AgreeOn(f1, f2, paths) && AgreeOn(f2, f3, paths)
    ensures AgreeOn(f1, f3, paths)
  {
  }

  /** Differing only inside a set means differing only inside any larger set. */
  lemma DiffWiden(f1: Files, f2: Files, paths: set<string>, all: set<string>)
    requires f1 - paths == f2 - paths
    requires paths <= all
    ensures f1 - all == f2 - all
  {
    assert f1 - all == (f1 - paths) - all;
    assert f2 - all == (f2 - paths) - all;
  }

  /** The paths of the entries seen so far are the paths of the entries at the start. */
  lemma SameConfigPaths(a: map<string, Entry>, b: map<string, Entry>)
    requires SameConfig(a, b)
    ensures forall k :: k in a ==> PathsOf(b[k]) == PathsOf(a[k])
  {
    forall k | k in a
      ensures PathsOf(b[k]) == PathsOf(a[k])
    {
      assert b[k].localPath == a[k].localPath;
    }
  }

  lemma PathsInAll(entries: map<string, Entry>, k: string)
    requires k in entries
    ensures PathsOf(entries[k]) <= AllPaths(entries)
  {
    assert entries[k].localPath in (set k | k in entries :: entries[k].localPath);
    assert TempPath(entries[k]) in (set k | k in entries :: TempPath(entries[k]));
  }

  /** The kinds in `order` are as their own refresh from the start state leaves them. */
  ghost predicate VisitedAlone(st: State, r: State, order: seq<string>, now: Time, opener: Opener,
                               outcomes: map<string, RefreshOutcomes>)
    requires forall k :: k in order ==> k in st.entries && k in outcomes
  {
    forall k :: k in order ==>
      && k in r.entries
      && r.entries[k] == RefreshEntry(st.entries[k], st.files, now, opener, outcomes[k]).0
      && AgreeOn(r.files, RefreshEntry(st.entries[k], st.files, now, opener, outcomes[k]).1, PathsOf(st.entries[k]))
  }

  /** The other kinds, and their files, are as they were. */
  ghost predicate UnvisitedKept(st: State, r: State, order: seq<string>) {
    forall k :: k in st.entries && k !in order ==>
      k in r.entries && r.entries[k] == st.entries[k] && AgreeOn(r.files, st.files, PathsOf(st.entries[k]))
  }

  /** The paths no entry uses are as they were. */
  ghost predicate OutsideKept(st: State, r: State) {
    r.files - AllPaths(st.entries) == st.files - AllPaths(st.entries)
  }

  /** The state a pass reaches after the kinds in `order`. */
  ghost predicate RefreshedAlone(st: State, r: State, order: seq<string>, now: Time, opener: Opener,
                                 outcomes: map<string, RefreshOutcomes>)
    requires forall k :: k in order ==> k in st.entries && k in outcomes
  {
    && r.entries.Keys == st.entries.Keys
    && VisitedAlone(st, r, order, now, opener, outcomes)
    && UnvisitedKept(st, r, order)
    && OutsideKept(st, r)
  }

  lemma VisitedStep(st: State, s: State, r: State, order: seq<string>, last: string, now: Time,
                    opener: Opener, outcomes: map<string, RefreshOutcomes>)
    requires forall k :: k in order ==> k in st.entries && k in outcomes
    requires last in st.entries && last in outcomes && last !in order
    requires PathsSeparate(st.entries)
    requires VisitedAlone(st, s, order, now, opener, outcomes)
    requires r.entries == s.entries[last := RefreshEntry(st.entries[last], st.files, now, opener, outcomes[last]).0]
    requires AgreeOn(r.files, RefreshEntry(st.entries[last], st.files, now, opener, outcomes[last]).1, PathsOf(st.entries[last]))
    requires r.files - PathsOf(st.entries[last]) == s.files - PathsOf(st.entries[last])
    ensures VisitedAlone(st, r, order + [last], now, opener, outcomes)
  {
    forall k | k in order + [last] && k != last
      ensures AgreeOn(r.files, RefreshEntry(st.entries[k], st.files, now, opener, outcomes[k]).1, PathsOf(st.entries[k]))
    {
      assert k in order;
      AgreeOutside(r.files, s.files, PathsOf(st.entries[last]), PathsOf(st.entries[k]));
      AgreeTrans(r.files, s.files, RefreshEntry(st.entries[k], st.files, now, opener, outcomes[k]).1, PathsOf(st.entries[k]));
    }
  }

  lemma UnvisitedStep(st: State, s: State, r: State, order: seq<string>, last: string, e': Entry)
    requires last in st.entries && last !in order
    requires PathsSeparate(st.entries)
    requires UnvisitedKept(st, s, order)
    requires r.entries == s.entries[last := e']
    requires r.files - PathsOf(st.entries[last]) == s.files - PathsOf(st.entries[last])
    ensures UnvisitedKept(st, r, order + [last])
  {
    forall k | k in st.entries && k !in order + [last]
      ensures AgreeOn(r.files, st.files, PathsOf(st.entries[k]))
    {
      AgreeOutside(r.files, s.files, PathsOf(st.entries[last]), PathsOf(st.entries[k]));
      AgreeTrans(r.files, s.files, st.files, PathsOf(st.entries[k]));
    }
  }

  /** The step that adds one kind, `last`, not yet seen, to a pass. */
  lemma RefreshedAloneStep(st: State, s: State, order: seq<string>, last: string, now: Time,
                           opener: Opener, outcomes: map<string, RefreshOutcomes>)
    requires forall k :: k in order ==> k in st.entries && k in outcomes
    requires last in st.entries && last in outcomes && last !in order
    requires PathsSeparate(st.entries)
    requires SameConfig(st.entries, s.entries)
    requires RefreshedAlone(st, s, order, now, opener, outcomes)
    ensures RefreshedAlone(st, RefreshStep(s, last, now, opener, outcomes[last]), order + [last], now, opener, outcomes)
  {
    var e := st.entries[last];
    var o := outcomes[last];
    var r := RefreshStep(s, last, now, opener, o);
    assert s.entries[last] == e;
    RefreshEntryLocal(e, s.files, st.files, now, opener, o);
    var (e', f) := RefreshEntry(e, s.files, now, opener, o);
    SameConfigPaths(st.entries, s.entries);
    assert r.entries == s.entries[last := e'] && r.files == f;
    VisitedStep(st, s, r, order, last, now, opener, outcomes);
    UnvisitedStep(st, s, r, order, last, e');
    PathsInAll(st.entries, last);
    DiffWiden(r.files, s.files, PathsOf(e), AllPaths(st.entries));
  }

  /** A pass over distinct kinds leaves each kind as its own refresh from the
      start state would: no entry's outcome depends on the others or on the
      order they are visited in. */
  lemma {:induction false} RefreshAllPerEntry(st: State, order: seq<string>, now: Time, opener: Opener,
                                              outcomes: map<string, RefreshOutcomes>)
    requires Distinct(order)
    requires forall k :: k in order ==> k in st.entries && k in outcomes
    requires PathsSeparate(st.entries)
    ensures RefreshedAlone(st, RefreshAll(st, order, now, opener, outcomes), order, now, opener, outcomes)
    decreases |order|
  {
    if order == [] {
    } else {
      var init := order[..|order| - 1];
      var last := order[|order| - 1];
      assert order == init + [last];
      assert last !in init by {
        forall i | 0 <= i < |init|
          ensures init[i] != last
        {
          assert order[i] == init[i];
        }
      }
      RefreshAllPerEntry(st, init, now, opener, outcomes);
      RefreshedAloneStep(st, RefreshAll(st, init, now, opener, outcomes), init, last, now, opener, outcomes);
    }
  }

  /** Maps that agree on every entry's paths and outside them are equal. */
  lemma FilesEqual(entries: map<string, Entry>, f1: Files, f2: Files)
    requires forall k :: k in entries ==> AgreeOn(f1, f2, PathsOf(entries[k]))
    requires f1 - AllPaths(entries) == f2 - AllPaths(entries)
    ensures f1 == f2
  {
    forall p
      ensures p in f1 <==> p in f2
      ensures p in f1 ==> f1[p] == f2[p]
    {
      if p in (set k | k in entries :: entries[k].localPath) {
        var k :| k in entries && entries[k].localPath == p;
        assert p in PathsOf(entries[k]);
      } else if p in (set k | k in entries :: TempPath(entries[k])) {
        var k :| k in entries && TempPath(entries[k]) == p;
        assert p in PathsOf(entries[k]);
      } else {
        AgreeOutside(f1, f2, AllPaths(entries), {p});
      }
    }
  }

  /** Two states that each hold every kind as its own refresh leaves it are
      the same state. */
  lemma RefreshedAloneUnique(st: State, r1: State, r2: State, order1: seq<string>, order2: seq<string>,
                             now: Time, opener: Opener, outcomes: map<string, RefreshOutcomes>)
    requires forall k :: k in order1 ==> k in st.entries && k in outcomes
    requires forall k :: k in order2 ==> k in st.entries && k in outcomes
    requires forall k :: k in st.entries ==> k in order1 && k in order2
    requires RefreshedAlone(st, r1, order1, now, opener, outcomes)
    requires RefreshedAlone(st, r2, order2, now, opener, outcomes)
    ensures r1 == r2
  {
    forall k | k in st.entries
      ensures r1.entries[k] == r2.entries[k]
      ensures AgreeOn(r1.files, r2.files, PathsOf(st.entries[k]))
    {
      AgreeTrans(r1.files, RefreshEntry(st.entries[k], st.files, now, opener, outcomes[k]).1, r2.files, PathsOf(st.entries[k]));
    }
    assert r1.entries == r2.entries;
    FilesEqual(st.entries, r1.files, r2.files);
  }

  /** Two passes over the same entries in two different iteration orders end
      in the same state. */
  lemma RefreshOrderIndependent(st: State, order1: seq<string>, order2: seq<string>, now: Time, opener: Opener,
                                outcomes: map<string, RefreshOutcomes>)
    requires IsIterationOrder(order1, st.entries) && IsIterationOrder(order2, st.entries)
    requires forall k :: k in st.entries ==> k in outcomes
    requires PathsSeparate(st.entries)
    ensures RefreshAll(st, order1, now, opener, outcomes) == RefreshAll(st, order2, now, opener, outcomes)
  {
    RefreshAllPerEntry(st, order1, now, opener, outcomes);
    RefreshAllPerEntry(st, order2, now, opener, outcomes);
    RefreshedAloneUnique(st, RefreshAll(st, order1, now, opener, outcomes), RefreshAll(st, order2, now, opener, outcomes),
                         order1, order2, now, opener, outcomes);
  }

  /** A refresh never takes a reader away and never moves lastUpdate back. */
  lemma RefreshEntryKeepsReader(e: Entry, files: Files, now: Time, opener: Opener, o: RefreshOutcomes)
    ensures var e' := RefreshEntry(e, files, now, opener, o).0;
      (e.reader.Some? ==> e'.reader.Some?) && e'.lastUpdate >= e.lastUpdate
  {
    RefreshStamp(e, files, now, opener, o);
    if IsStale(now, e.lastUpdate) {
      StaleIsPast(now, e.lastUpdate);
    }
  }

  /** Over a whole update pass, in any order, every kind that had a reader
      still has one, and no lastUpdate moves back. */
  lemma {:induction false} RefreshAllKeepsReaders(st: State, order: seq<string>, now: Time, opener: Opener,
                                                  outcomes: map<string, RefreshOutcomes>)
    requires forall k :: k in order ==> k in st.entries && k in outcomes
    ensures var r := RefreshAll(st, order, now, opener, outcomes);
      forall k :: k in st.entries ==>
        && k in r.entries
        && (st.entries[k].reader.Some? ==> r.entries[k].reader.Some?)
        && r.entries[k].lastUpdate >= st.entries[k].lastUpdate
    decreases |order|
  {
    if order != [] {
      var init := order[..|order| - 1];
      var last := order[|order| - 1];
      assert forall k :: k in init ==> k in order;
      RefreshAllKeepsReaders(st, init, now, opener, outcomes);
      var s := RefreshAll(st, init, now, opener, outcomes);
      RefreshEntryKeepsReader(s.entries[last], s.files, now, opener, outcomes[last]);
    }
  }

  /** A kind whose download fails in a pass keeps its entry and its database
      file, and the pass goes on with the others. */
  lemma RefreshAllDownloadFailure(st: State, order: seq<string>, now: Time, opener: Opener,
                                  outcomes: map<string, RefreshOutcomes>, k: string)
    requires IsIterationOrder(order, st.entries)
    requires forall k :: k in st.entries ==> k in outcomes
    requires PathsSeparate(st.entries)
    requires k in st.entries && IsStale(now, st.entries[k].lastUpdate)
    requires !DownloadSucceeds(outcomes[k].download)
    ensures var r := RefreshAll(st, order, now, opener, outcomes);
      && r.entries[k] == st.entries[k]
      && (st.entries[k].localPath in r.files <==> st.entries[k].localPath in st.files)
      && (st.entries[k].localPath in st.files ==> r.files[st.entries[k].localPath] == st.files[st.entries[k].localPath])
  {
    var e := st.entries[k];
    RefreshAllPerEntry(st, order, now, opener, outcomes);
    RefreshDownloadFailure(e, st.files, now, opener, outcomes[k]);
    assert e.localPath in PathsOf(e);
  }

  // ---------------------------------------------------------------------
  // initDatabases
  // ---------------------------------------------------------------------

  /** One entry of initDatabases that succeeds: the entry holds the newly
      opened reader; lastUpdate is now after a download, the recorded time
      when there was one, else the file's modification time, else now. */
  lemma InitEntrySuccess(name: string, e: Entry, files: Files, now: Time, opener: Opener, o: InitOutcomes)
    requires InitEntry(name, e, files, now, opener, o).2.None?
    ensures var (e', f, _) := InitEntry(name, e, files, now, opener, o);
      && e'.reader.Some? && e'.reader.value.isOpen && e'.reader.value.id == o.open.id
      && e.localPath in f
      && (e.localPath !in files ==> e'.lastUpdate == now && f[e.localPath] == FileInfo(o.download.body, now))
      && (e.localPath in files && e.lastUpdate != ZeroTime ==> e'.lastUpdate == e.lastUpdate)
      && (e.localPath in files && e.lastUpdate == ZeroTime && o.statSucceeds ==> e'.lastUpdate == files[e.localPath].modTime)
      && (e.localPath in files && e.lastUpdate == ZeroTime && !o.statSucceeds ==> e'.lastUpdate == now)
  {
  }

  /** One entry of initDatabases that fails: the error names the kind, the
      reader is not touched, and a failed download also leaves lastUpdate. */
  lemma InitEntryFailure(name: string, e: Entry, files: Files, now: Time, opener: Opener, o: InitOutcomes)
    requires InitEntry(name, e, files, now, opener, o).2.Some?
    ensures var (e', _, err) := InitEntry(name, e, files, now, opener, o);
      && err.value.name == name
      && e'.reader == e.reader
      && (err.value.DownloadFailed? ==> e' == e && e.localPath !in files)
      && (err.value.OpenFailed? ==> opener == Geoip2Open)
  {
  }

  /** One entry of initDatabases fails exactly when its file is missing and
      the download fails, or when opening the file (downloaded or already
      there) fails; the error is a download error exactly in the first case. */
  lemma InitEntryFailsIff(name: string, e: Entry, files: Files, now: Time, opener: Opener, o: InitOutcomes)
    ensures var fetched := if e.localPath in files then files else Download(files, e.localPath, now, o.download).0;
      InitEntry(name, e, files, now, opener, o).2.Some? <==>
        (e.localPath !in files && !DownloadSucceeds(o.download))
        || GeoipOpen(opener, fetched, e.localPath, o.open).None?
    ensures var err := InitEntry(name, e, files, now, opener, o).2;
      err.Some? && err.value.DownloadFailed? <==> e.localPath !in files && !DownloadSucceeds(o.download)
  {
  }

  /** A cold start whose downloads all fail: initDatabases returns the
      download error of the first kind it visits and leaves every entry,
      readers included, as it was. */
  lemma InitAllColdStart(st: State, order: seq<string>, now: Time, opener: Opener,
                         outcomes: map<string, InitOutcomes>)
    requires order != []
    requires forall k :: k in order ==> k in st.entries && k in outcomes
    requires forall k :: k in st.entries ==> st.entries[k].localPath !in st.files
    requires forall k :: k in outcomes ==> !DownloadSucceeds(outcomes[k].download)
    ensures var (r, err) := InitAll(st, order, now, opener, outcomes);
      && err.Some? && err.value.DownloadFailed? && err.value.name == order[0]
      && r.entries == st.entries
  {
    var name := order[0];
    InitEntryFailsIff(name, st.entries[name], st.files, now, opener, outcomes[name]);
    InitEntryFailure(name, st.entries[name], st.files, now, opener, outcomes[name]);
    assert st.entries[name := st.entries[name]] == st.entries;
  }

  /** The configured registry started with none of its files and no download
      succeeding: initDatabases fails, and no kind gets a reader. */
  lemma DefaultColdStartNoReaders(files: Files, order: seq<string>, now: Time, opener: Opener,
                                  outcomes: map<string, InitOutcomes>)
    requires IsIterationOrder(order, DefaultRegistry())
    requires forall k :: k in DefaultRegistry() ==> DefaultRegistry()[k].localPath !in files && k in outcomes
    requires forall k :: k in outcomes ==> !DownloadSucceeds(outcomes[k].download)
    ensures var (r, err) := InitAll(State(DefaultRegistry(), files), order, now, opener, outcomes);
      && err.Some?
      && forall k :: k in r.entries ==> r.entries[k].reader.None?
  {
    assert "asn" in DefaultRegistry();
    InitAllColdStart(State(DefaultRegistry(), files), order, now, opener, outcomes);
  }

  /** Every file carries a real (non-zero) modification time. */
  ghost predicate ModTimesSet(files: Files) {
    forall p :: p in files ==> files[p].modTime != ZeroTime
  }

  /** A step of initDatabases changes only its own kind's entry. */
  lemma InitStepOthers(st: State, name: string, now: Time, opener: Opener, o: InitOutcomes, k: string)
    requires name in st.entries && k in st.entries && k != name
    ensures InitStep(st, name, now, opener, o).0.entries[k] == st.entries[k]
  {
  }

  /** Kinds the pass does not visit keep their entries. */
  lemma {:induction false} InitAllUntouched(st: State, order: seq<string>, now: Time, opener: Opener,
                                            outcomes: map<string, InitOutcomes>, k: string)
    requires forall k :: k in order ==> k in st.entries && k in outcomes
    requires k in st.entries && k !in order
    ensures InitAll(st, order, now, opener, outcomes).0.entries[k] == st.entries[k]
    decreases |order|
  {
    if order != [] {
      var (next, err) := InitStep(st, order[0], now, opener, outcomes[order[0]]);
      InitStepOthers(st, order[0], now, opener, outcomes[order[0]], k);
      if err.None? {
        assert forall j :: j in order[1..] ==> j in order;
        InitAllUntouched(next, order[1..], now, opener, outcomes, k);
      }
    }
  }

  /** A pass that fails returns the error of the kind it failed at, and the
      kinds after that one are not processed. */
  lemma {:induction false} InitAllError(st: State, order: seq<string>, now: Time, opener: Opener,
                                        outcomes: map<string, InitOutcomes>)
    requires Distinct(order)
    requires forall k :: k in order ==> k in st.entries && k in outcomes
    ensures var (r, err) := InitAll(st, order, now, opener, outcomes);
      err.Some? ==>
        exists j :: 0 <= j < |order| && order[j] == err.value.name
          && forall i :: j < i < |order| ==> r.entries[order[i]] == st.entries[order[i]]
    decreases |order|
  {
    if order != [] {
      var (r, err) := InitAll(st, order, now, opener, outcomes);
      var (next, err0) := InitStep(st, order[0], now, opener, outcomes[order[0]]);
      DistinctTail(order);
      if err0.Some? {
        InitEntryFailure(order[0], st.entries[order[0]], st.files, now, opener, outcomes[order[0]]);
        forall i | 0 < i < |order|
          ensures r.entries[order[i]] == st.entries[order[i]]
        {
          InitStepOthers(st, order[0], now, opener, outcomes[order[0]], order[i]);
        }
        assert order[0] == err.value.name;
      } else if err.Some? {
        InitAllError(next, order[1..], now, opener, outcomes);
        var j :| 0 <= j < |order[1..]| && order[1..][j] == err.value.name
          && forall i :: j < i < |order[1..]| ==> r.entries[order[1..][i]] == next.entries[order[1..][i]];
        forall i | j + 1 < i < |order|
          ensures r.entries[order[i]] == st.entries[order[i]]
        {
          assert order[i] == order[1..][i - 1];
          InitStepOthers(st, order[0], now, opener, outcomes[order[0]], order[i]);
        }
        assert order[j + 1] == err.value.name;
      }
    }
  }

  /** initDatabases never rewrites a file that exists: it downloads only the
      missing ones. */
  lemma {:induction false} InitAllKeepsExistingFiles(st: State, order: seq<string>, now: Time, opener: Opener,
                                                     outcomes: map<string, InitOutcomes>)
    requires forall k :: k in order ==> k in st.entries && k in outcomes
    ensures var f := InitAll(st, order, now, opener, outcomes).0.files;
      forall p :: p in st.files ==> p in f && f[p] == st.files[p]
    decreases |order|
  {
    if order != [] {
      var (next, err) := InitStep(st, order[0], now, opener, outcomes[order[0]]);
      var e := st.entries[order[0]];
      forall p | p in st.files
        ensures p in next.files && next.files[p] == st.files[p]
      {
        if p != e.localPath {
          assert p in st.files - {e.localPath};
          assert (next.files - {e.localPath})[p] == (st.files - {e.localPath})[p];
        }
      }
      if err.None? {
        assert forall j :: j in order[1..] ==> j in order;
        InitAllKeepsExistingFiles(next, order[1..], now, opener, outcomes);
      }
    }
  }

  /** A successful step keeps every file's modification time set, given a
      clock past the zero Time. */
  lemma InitStepModTimes(st: State, name: string, now: Time, opener: Opener, o: InitOutcomes)
    requires name in st.entries
    requires now != ZeroTime && ModTimesSet(st.files)
    requires InitStep(st, name, now, opener, o).1.None?
    ensures ModTimesSet(InitStep(st, name, now, opener, o).0.files)
    ensures InitStep(st, name, now, opener, o).0.entries[name].reader.Some?
    ensures InitStep(st, name, now, opener, o).0.entries[name].lastUpdate != ZeroTime
  {
    var e := st.entries[name];
    var f := InitStep(st, name, now, opener, o).0.files;
    InitEntrySuccess(name, e, st.files, now, opener, o);
    forall p | p in f
      ensures f[p].modTime != ZeroTime
    {
      if p != e.localPath {
        assert p in f - {e.localPath};
        assert f[p] == (f - {e.localPath})[p] == (st.files - {e.localPath})[p];
      }
    }
  }

  /** A pass of initDatabases that succeeds leaves every kind it visited with
      a reader and a non-zero lastUpdate, given a clock past the zero Time and
      files that carry modification times. */
  lemma {:induction false} InitAllReady(st: State, order: seq<string>, now: Time, opener: Opener,
                                        outcomes: map<string, InitOutcomes>)
    requires Distinct(order)
    requires forall k :: k in order ==> k in st.entries && k in outcomes
    requires now != ZeroTime && ModTimesSet(st.files)
    requires InitAll(st, order, now, opener, outcomes).1.None?
    ensures var r := InitAll(st, order, now, opener, outcomes).0;
      forall k :: k in order ==> r.entries[k].reader.Some? && r.entries[k].lastUpdate != ZeroTime
    decreases |order|
  {
    if order != [] {
      var (next, err) := InitStep(st, order[0], now, opener, outcomes[order[0]]);
      var rest := order[1..];
      DistinctTail(order);
      InitStepModTimes(st, order[0], now, opener, outcomes[order[0]]);
      InitAllReady(next, rest, now, opener, outcomes);
      InitAllUntouched(next, rest, now, opener, outcomes, order[0]);
    }
  }

  /** The tail of a list without repeats has none, lacks the head, and holds
      every other element. */
  lemma DistinctTail(order: seq<string>)
    requires Distinct(order) && order != []
    ensures Distinct(order[1..]) && order[0] !in order[1..]
    ensures forall i :: 0 < i < |order| ==> order[i] != order[0]
    ensures forall k :: k in order ==> k == order[0] || k in order[1..]
    ensures forall k :: k in order[1..] ==> k in order
  {
    var rest := order[1..];
    forall i, j | 0 <= i < j < |rest|
      ensures rest[i] != rest[j]
    {
      assert rest[i] == order[i + 1] && rest[j] == order[j + 1];
    }
    forall k | k in order && k != order[0]
      ensures k in rest
    {
      var i :| 0 <= i < |order| && order[i] == k;
      assert rest[i - 1] == k;
    }
  }
}
