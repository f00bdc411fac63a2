/**
 * A small database and preload list built so that the sets the unit tests
 * assert come out of them: four known hosts, two of them written by an
 * earlier run, and three preload entries. The test resource files
 * themselves are not part of this model, so these are not their contents;
 * the results below follow from the model for this data. The last part
 * holds edge cases of a run on data of its own.
 */
module Fixtures {
  import opened Wrappers
  import opened JavaInt
  import opened JavaString
  import opened HstsEntry
  import opened KnownHosts
  import opened Preload
  import opened Reconcile
  import opened Writer
  import opened Pipeline
  import opened Files
  import opened Updater

  /**
   * The known hosts: example.com and example.edu carry the mark of an
   * earlier run, example.net and github.com were stored by Wget itself.
   */
  const KNOWN_ROWS: seq<Entry> := [
    Entry("example.com", 0, true, INT_MAX as int32, 0),
    Entry("example.net", 0, false, 1500000000, 31536000),
    Entry("example.edu", 0, false, INT_MAX as int32, 0),
    Entry("github.com", 0, true, 1600000000, 31536000)]

  /** The database file: the header, then one line per known host. */
  const DATABASE: seq<string> := HEADER + ToLines(KNOWN_ROWS)

  /**
   * The preload list: example.com is gone from it, example.edu gained
   * include-subdomains, and two force-https names are new.
   */
  const PRELOAD_ENTRIES: seq<PreloadEntry> := [
    PreloadEntry("example.edu", true, false, Some("force-https")),
    PreloadEntry("example.org", false, false, Some("force-https")),
    PreloadEntry("hstspreload.org", true, false, Some("force-https"))]

  lemma KnownRowsWellFormed()
    ensures forall i :: 0 <= i < |KNOWN_ROWS| ==> WellFormedHost(KNOWN_ROWS[i].hostname)
    ensures UniqueHosts(KNOWN_ROWS)
  {
    assert WellFormedHost("example.com");
    assert WellFormedHost("example.net");
    assert WellFormedHost("example.edu");
    assert WellFormedHost("github.com");
  }

  // ---------------------------------------------------------------- single lines

  /** A line of visible, tab-separated words not starting with `#` is read field by field. */
  lemma JoinedLine(ws: seq<string>)
    requires |ws| >= 2 && AreWords(ws)
    requires ws[0][0] > ' ' && ws[0][0] != '#' && ws[|ws| - 1][|ws[|ws| - 1]| - 1] > ' '
    ensures ParseLine(JoinTabs(ws)) == ParseFields(ws)
  {
    var line := JoinTabs(ws);
    SplitJoin(ws);
    assert line[..1] != "#" by {
      assert line[..1][0] == ws[0][0];
    }
    assert !StartsWith(Trim(line), "#");
  }

  /** A single decimal digit reads as its value. */
  lemma ParseDigit(d: int32)
    requires 0 <= d < 10
    ensures ParseInt32([DigitChar(d as nat)]) == Some(d)
  {
    FormatParseRoundTrip(d);
  }

  /** An indented comment is skipped. */
  lemma CommentLineSkipped()
    ensures ParseLine("  # a comment") == Skipped
  {
    var l := "  # a comment";
    assert l[1..][1..] == "# a comment";
    assert TrimStart(l) == "# a comment";
    TrimIdentity("# a comment");
  }

  /** Four fields or six: not a row, and not an error either. */
  lemma WrongFieldCountSkipped()
    ensures ParseLine("a.org\t0\t1\t5") == Skipped
    ensures ParseLine("a.org\t0\t1\t5\t7\t9") == Skipped
  {
    FourFieldsSkipped();
    SixFieldsSkipped();
  }

  lemma FourFieldsSkipped()
    ensures ParseLine("a.org\t0\t1\t5") == Skipped
  {
    var four := ["a.org", "0", "1", "5"];
    assert JoinTabs(four) == "a.org\t0\t1\t5";
    JoinedLine(four);
  }

  lemma SixFieldsSkipped()
    ensures ParseLine("a.org\t0\t1\t5\t7\t9") == Skipped
  {
    var six := ["a.org", "0", "1", "5", "7", "9"];
    assert JoinTabs(six) == "a.org\t0\t1\t5\t7\t9";
    JoinedLine(six);
  }

  /** A flag other than exactly `1` reads as false. */
  lemma FlagOnlyExactOne()
    ensures ParseLine("a.org\t0\t01\t5\t7") == Row(Entry("a.org", 0, false, 5, 7))
  {
    var ws := ["a.org", "0", "01", "5", "7"];
    assert JoinTabs(ws) == "a.org\t0\t01\t5\t7";
    JoinedLine(ws);
    TrimIdentity("a.org");
    TrimIdentity("0");
    TrimIdentity("01");
    TrimIdentity("5");
    TrimIdentity("7");
    ParseDigit(0);
    ParseDigit(5);
    ParseDigit(7);
  }

  /** A numeric field that is not a number aborts the parse of the line. */
  lemma NonNumberIsError()
    ensures ParseLine("a.org\t0\t1\tx\t0") == BadNumber("x")
  {
    var ws := ["a.org", "0", "1", "x", "0"];
    assert JoinTabs(ws) == "a.org\t0\t1\tx\t0";
    JoinedLine(ws);
    TrimIdentity("0");
    TrimIdentity("x");
    ParseDigit(0);
    assert "0" == [DigitChar(0)];
    assert !AllDigits("x") by {
      assert !IsDigit("x"[0]);
    }
    assert ParseInt32("x") == None;
    assert ParseFields(ws) == BadNumber("x");
  }

  /** The database parses to its four rows, in file order, under four hostnames. */
  lemma DatabaseParses()
    ensures ParseKnownHosts(DATABASE) == Success(KNOWN_ROWS)
    ensures ToMap(KNOWN_ROWS).Keys == {"example.com", "example.net", "example.edu", "github.com"}
  {
    KnownRowsWellFormed();
    HeaderSkipped();
    ParsePrinted(HEADER, KNOWN_ROWS);
    HostsOfKnown();
  }

  lemma HostsOfKnown()
    ensures Hosts(KNOWN_ROWS) == {"example.com", "example.net", "example.edu", "github.com"}
  {
    assert KNOWN_ROWS[0].hostname == "example.com";
    assert KNOWN_ROWS[1].hostname == "example.net";
    assert KNOWN_ROWS[2].hostname == "example.edu";
    assert KNOWN_ROWS[3].hostname == "github.com";
  }

  /** The preload map holds the three names. */
  lemma PreloadHasThreeNames()
    ensures PreloadMap(PRELOAD_ENTRIES).Success?
    ensures PreloadMap(PRELOAD_ENTRIES).value.Keys == {"example.edu", "example.org", "hstspreload.org"}
  {
    assert PRELOAD_ENTRIES[0].name == "example.edu";
    assert PRELOAD_ENTRIES[1].name == "example.org";
    assert PRELOAD_ENTRIES[2].name == "hstspreload.org";
    assert UniqueNames(PRELOAD_ENTRIES);
  }

  /** The marked hosts are example.com and example.edu. */
  lemma OriginHosts()
    ensures PreloadOriginHosts(ToMap(KNOWN_ROWS)).Keys == {"example.com", "example.edu"}
  {
    var m := ToMap(KNOWN_ROWS);
    KnownRowsWellFormed();
    HostsOfKnown();
    assert m["example.com"] == KNOWN_ROWS[0];
    assert m["example.net"] == KNOWN_ROWS[1];
    assert m["example.edu"] == KNOWN_ROWS[2];
    assert m["github.com"] == KNOWN_ROWS[3];
  }

  /** The run removes example.com: the list no longer names it. */
  lemma FixtureRemove()
    ensures PreloadMap(PRELOAD_ENTRIES).Success?
    ensures HostsToRemove(PreloadMap(PRELOAD_ENTRIES).value.Keys, PreloadOriginHosts(ToMap(KNOWN_ROWS)).Keys)
            == {"example.com"}
  {
    PreloadHasThreeNames();
    OriginHosts();
  }

  /** The run updates example.edu: the list now includes its subdomains. */
  lemma FixtureUpdate()
    ensures PreloadMap(PRELOAD_ENTRIES).Success?
    ensures HostsToUpdate(PreloadMap(PRELOAD_ENTRIES).value, PreloadOriginHosts(ToMap(KNOWN_ROWS))) == {"example.edu"}
  {
    PreloadHasThreeNames();
    OriginHosts();
    var preload := PreloadMap(PRELOAD_ENTRIES).value;
    var origin := PreloadOriginHosts(ToMap(KNOWN_ROWS));
    assert preload["example.edu"] == PRELOAD_ENTRIES[0];
    KnownRowsWellFormed();
    assert origin["example.edu"] == KNOWN_ROWS[2];
    assert origin["example.com"] == KNOWN_ROWS[0];
  }

  lemma FixtureForceHttps(e: PreloadEntry)
    requires e.mode == Some("force-https")
    ensures IsForceHttps(e)
  {
    ForceHttpsModes(e.name);
  }

  /** It writes all three entries: two inserts and the update. */
  lemma FixtureToWrite()
    ensures PreloadMap(PRELOAD_ENTRIES).Success?
    ensures var w := EntriesToWrite(PreloadMap(PRELOAD_ENTRIES).value, ToMap(KNOWN_ROWS), {"example.edu"});
            && w.Keys == {"example.edu", "example.org", "hstspreload.org"}
            && w["example.edu"] == PRELOAD_ENTRIES[0]
            && w["example.org"] == PRELOAD_ENTRIES[1]
            && w["hstspreload.org"] == PRELOAD_ENTRIES[2]
            && KeyedByName(w)
  {
    PreloadHasThreeNames();
    HostsOfKnown();
    var preload := PreloadMap(PRELOAD_ENTRIES).value;
    assert preload["example.edu"] == PRELOAD_ENTRIES[0];
    assert preload["example.org"] == PRELOAD_ENTRIES[1];
    assert preload["hstspreload.org"] == PRELOAD_ENTRIES[2];
    FixtureForceHttps(PRELOAD_ENTRIES[0]);
    FixtureForceHttps(PRELOAD_ENTRIES[1]);
    FixtureForceHttps(PRELOAD_ENTRIES[2]);
  }

  /** A run over a database that parses plans over its rows. */
  lemma RunOverRows(entries: seq<PreloadEntry>, lines: seq<string>, rows: seq<Entry>)
    requires PreloadMap(entries).Success? && ParseKnownHosts(lines) == Success(rows)
    ensures var preload := PreloadMap(entries).value;
            var origin := PreloadOriginHosts(ToMap(rows));
            var update := HostsToUpdate(preload, origin);
            Run(entries, Some(lines))
            == Success(Plan(rows, HostsToRemove(preload.Keys, origin.Keys), update,
                            EntriesToWrite(preload, ToMap(rows), update)))
  {
  }

  /** The whole run: example.com goes, example.edu is rewritten, two new rows come in. */
  lemma FixturePlan()
    ensures Run(PRELOAD_ENTRIES, Some(DATABASE)).Success?
    ensures var p := Run(PRELOAD_ENTRIES, Some(DATABASE)).value;
            && p.remove == {"example.com"}
            && p.update == {"example.edu"}
            && p.toWrite.Keys == {"example.edu", "example.org", "hstspreload.org"}
            && Writes(p)
    ensures var p := Run(PRELOAD_ENTRIES, Some(DATABASE)).value;
            && p.known == KNOWN_ROWS
            && p.toWrite == EntriesToWrite(PreloadMap(PRELOAD_ENTRIES).value, ToMap(KNOWN_ROWS), {"example.edu"})
  {
    DatabaseParses();
    FixtureRemove();
    FixtureUpdate();
    FixtureToWrite();
    RunOverRows(PRELOAD_ENTRIES, DATABASE, KNOWN_ROWS);
  }

  /** The run over the fixture decides exactly the expected plan. */
  lemma FixtureRunPlan()
    ensures Run(PRELOAD_ENTRIES, Some(DATABASE)) == Success(EXPECTED_PLAN)
  {
    FixtureToWrite();
    ExpectedToWrite(EntriesToWrite(PreloadMap(PRELOAD_ENTRIES).value, ToMap(KNOWN_ROWS), {"example.edu"}));
    FixturePlan();
  }

  lemma ExpectedToWrite(w: map<string, PreloadEntry>)
    requires w.Keys == {"example.edu", "example.org", "hstspreload.org"}
    requires w["example.edu"] == PRELOAD_ENTRIES[0]
    requires w["example.org"] == PRELOAD_ENTRIES[1]
    requires w["hstspreload.org"] == PRELOAD_ENTRIES[2]
    ensures w == EXPECTED_PLAN.toWrite
  {
  }

  /**
   * The file written: the two hosts Wget stored, in file order, then new
   * rows for example.edu, example.org and hstspreload.org, in that order.
   */
  lemma FixtureOutput()
    ensures Retained(EXPECTED_PLAN.known, EXPECTED_PLAN.remove, EXPECTED_PLAN.update) == [KNOWN_ROWS[1], KNOWN_ROWS[3]]
    ensures var nw := NewRows(EXPECTED_PLAN.toWrite);
            && |nw| == 3
            && nw[0] == NewRow(PRELOAD_ENTRIES[0])
            && nw[1] == NewRow(PRELOAD_ENTRIES[1])
            && nw[2] == NewRow(PRELOAD_ENTRIES[2])
  {
    OutputOfPlan(EXPECTED_PLAN);
  }

  /** What the run over the fixture decides. */
  const EXPECTED_PLAN: Plan := Plan(
    KNOWN_ROWS, {"example.com"}, {"example.edu"},
    map["example.edu" := PRELOAD_ENTRIES[0], "example.org" := PRELOAD_ENTRIES[1],
        "hstspreload.org" := PRELOAD_ENTRIES[2]])

  lemma OutputOfPlan(p: Plan)
    requires p.known == KNOWN_ROWS && p.remove == {"example.com"} && p.update == {"example.edu"}
    requires p.toWrite.Keys == {"example.edu", "example.org", "hstspreload.org"}
    requires p.toWrite["example.edu"] == PRELOAD_ENTRIES[0]
    requires p.toWrite["example.org"] == PRELOAD_ENTRIES[1]
    requires p.toWrite["hstspreload.org"] == PRELOAD_ENTRIES[2]
    requires KeyedByName(p.toWrite)
    ensures Retained(p.known, p.remove, p.update) == [KNOWN_ROWS[1], KNOWN_ROWS[3]]
    ensures var nw := NewRows(p.toWrite);
            && |nw| == 3
            && nw[0] == NewRow(PRELOAD_ENTRIES[0])
            && nw[1] == NewRow(PRELOAD_ENTRIES[1])
            && nw[2] == NewRow(PRELOAD_ENTRIES[2])
  {
    FixtureRetained();
    FixtureNewRows(p.toWrite);
  }

  lemma FixtureNewRows(toWrite: map<string, PreloadEntry>)
    requires toWrite.Keys == {"example.edu", "example.org", "hstspreload.org"}
    requires toWrite["example.edu"] == PRELOAD_ENTRIES[0]
    requires toWrite["example.org"] == PRELOAD_ENTRIES[1]
    requires toWrite["hstspreload.org"] == PRELOAD_ENTRIES[2]
    requires KeyedByName(toWrite)
    ensures var nw := NewRows(toWrite);
            && |nw| == 3
            && nw[0] == NewRow(PRELOAD_ENTRIES[0])
            && nw[1] == NewRow(PRELOAD_ENTRIES[1])
            && nw[2] == NewRow(PRELOAD_ENTRIES[2])
  {
    NewRowsSorted(toWrite);
    var nw := NewRows(toWrite);
    ThreeNames();
    assert |nw| == |toWrite| == 3;
    FixtureNewOrder(nw, toWrite.Keys);
    assert nw[0] == NewRow(toWrite[nw[0].hostname]);
    assert nw[1] == NewRow(toWrite[nw[1].hostname]);
    assert nw[2] == NewRow(toWrite[nw[2].hostname]);
  }

  lemma ThreeNames()
    ensures |{"example.edu", "example.org", "hstspreload.org"}| == 3
  {
    assert "example.edu" != "example.org" by {
      assert "example.edu"[8] != "example.org"[8];
    }
  }

  lemma FixtureRetained()
    ensures Retained(KNOWN_ROWS, {"example.com"}, {"example.edu"}) == [KNOWN_ROWS[1], KNOWN_ROWS[3]]
  {
    var remove, update := {"example.com"}, {"example.edu"};
    RetainedFour(KNOWN_ROWS[0], KNOWN_ROWS[1], KNOWN_ROWS[2], KNOWN_ROWS[3], remove, update);
    assert !Keeps(KNOWN_ROWS[0], remove, update);
    assert Keeps(KNOWN_ROWS[1], remove, update);
    assert !Keeps(KNOWN_ROWS[2], remove, update);
    assert Keeps(KNOWN_ROWS[3], remove, update);
  }

  function KeptPart(e: Entry, remove: set<string>, update: set<string>): seq<Entry> {
    if Keeps(e, remove, update) then [e] else []
  }

  lemma RetainedFour(r0: Entry, r1: Entry, r2: Entry, r3: Entry, remove: set<string>, update: set<string>)
    ensures Retained([r0, r1, r2, r3], remove, update)
            == KeptPart(r0, remove, update) + KeptPart(r1, remove, update)
               + KeptPart(r2, remove, update) + KeptPart(r3, remove, update)
  {
    RetainedOne(r0, remove, update);
    RetainedSnoc([r0], r1, remove, update);
    assert [r0] + [r1] == [r0, r1];
    RetainedSnoc([r0, r1], r2, remove, update);
    assert [r0, r1] + [r2] == [r0, r1, r2];
    RetainedSnoc([r0, r1, r2], r3, remove, update);
    assert [r0, r1, r2] + [r3] == [r0, r1, r2, r3];
  }

  lemma RetainedOne(e: Entry, remove: set<string>, update: set<string>)
    ensures Retained([e], remove, update) == KeptPart(e, remove, update)
  {
    assert [e][..0] == [];
  }

  lemma RetainedSnoc(rows: seq<Entry>, e: Entry, remove: set<string>, update: set<string>)
    ensures Retained(rows + [e], remove, update) == Retained(rows, remove, update) + KeptPart(e, remove, update)
  {
    RetainedAppend(rows, [e], remove, update);
    RetainedOne(e, remove, update);
  }

  /** Three rows sorted by hostname over the three names come in `compareTo` order. */
  lemma FixtureNewOrder(nw: seq<Entry>, names: set<string>)
    requires names == {"example.edu", "example.org", "hstspreload.org"}
    requires Hosts(nw) == names && |nw| == 3
    requires forall i, j :: 0 <= i < j < |nw| ==> Less(nw[i].hostname, nw[j].hostname)
    ensures nw[0].hostname == "example.edu" && nw[1].hostname == "example.org" && nw[2].hostname == "hstspreload.org"
  {
    FixtureNamesOrdered();
    var a, b, c := nw[0].hostname, nw[1].hostname, nw[2].hostname;
    assert a in names && b in names && c in names;
    LessTrichotomy(a, b);
    LessTrichotomy(b, c);
    LessTrichotomy(a, c);
    LessTrichotomy("example.edu", "example.org");
    LessTrichotomy("example.org", "hstspreload.org");
    LessTrichotomy("example.edu", "hstspreload.org");
  }

  /** A common prefix does not change `compareTo`. */
  lemma {:induction false} CompareToCommonPrefix(pre: string, a: string, b: string)
    ensures CompareTo(pre + a, pre + b) == CompareTo(a, b)
  {
    if pre != [] {
      assert (pre + a)[1..] == pre[1..] + a;
      assert (pre + b)[1..] == pre[1..] + b;
      CompareToCommonPrefix(pre[1..], a, b);
    } else {
      assert pre + a == a && pre + b == b;
    }
  }

  lemma FixtureNamesOrdered()
    ensures Less("example.edu", "example.org")
    ensures Less("example.org", "hstspreload.org")
    ensures Less("example.edu", "hstspreload.org")
  {
    assert "example.edu" == "example." + "edu";
    assert "example.org" == "example." + "org";
    CompareToCommonPrefix("example.", "edu", "org");
    assert CompareTo("edu", "org") == 'e' as int - 'o' as int;
    assert CompareTo("example.org", "hstspreload.org") == 'e' as int - 'h' as int;
    assert CompareTo("example.edu", "hstspreload.org") == 'e' as int - 'h' as int;
  }

  /** The first backup of a destination whose `.bak.gz` is taken is `.bak.1.gz`. */
  lemma SecondBackupName(files: map<Path, seq<string>>, dest: Path)
    requires dest + ".bak.gz" in files && dest + ".bak.1.gz" !in files
    ensures FirstFreeAt(files, dest, 1)
    ensures forall k :: FirstFreeAt(files, dest, k) ==> BackupName(dest, k) == dest + ".bak.1.gz"
  {
    assert FormatInt(1) == "1";
    assert BackupName(dest, 1) == dest + ".bak.1.gz";
    forall k | FirstFreeAt(files, dest, k)
      ensures BackupName(dest, k) == dest + ".bak.1.gz"
    {
      FirstFreeUnique(files, dest, k, 1);
    }
  }

  // ---------------------------------------------------------------- edge cases of a run

  /** A marked row whose list entry is not force-https and disagrees on include-subdomains. */
  const STALE_ROW: Entry := Entry("a.org", 0, false, INT_MAX as int32, 0)
  const STALE_ENTRY: PreloadEntry := PreloadEntry("a.org", true, false, Some("preload"))

  /**
   * The update set only matters when the run writes: with nothing to insert
   * and nothing to remove, a host due for an update whose entry is not
   * force-https stays in the file untouched, run after run.
   */
  lemma UpdateWithoutWrite()
    ensures Run([STALE_ENTRY], Some(HEADER + ToLines([STALE_ROW]))).Success?
    ensures var p := Run([STALE_ENTRY], Some(HEADER + ToLines([STALE_ROW]))).value;
            p.update == {"a.org"} && p.remove == {} && p.toWrite == map[] && !Writes(p)
  {
    var preload := StalePreload();
    StaleDatabase();
    StalePlan(preload);
  }

  lemma StalePreload() returns (preload: map<string, PreloadEntry>)
    ensures PreloadMap([STALE_ENTRY]) == Success(preload)
    ensures preload.Keys == {"a.org"} && preload["a.org"] == STALE_ENTRY
  {
    assert UniqueNames([STALE_ENTRY]);
    preload := PreloadMap([STALE_ENTRY]).value;
  }

  lemma StaleDatabase()
    ensures ParseKnownHosts(HEADER + ToLines([STALE_ROW])) == Success([STALE_ROW])
  {
    assert WellFormedHost("a.org");
    HeaderSkipped();
    ParsePrinted(HEADER, [STALE_ROW]);
  }

  lemma StalePlan(preload: map<string, PreloadEntry>)
    requires preload.Keys == {"a.org"} && preload["a.org"] == STALE_ENTRY
    ensures var p := PlanFor(preload, Some([STALE_ROW]));
            p.update == {"a.org"} && p.remove == {} && p.toWrite == map[]
  {
    var known := ToMap([STALE_ROW]);
    assert known.Keys == {"a.org"} && known["a.org"] == STALE_ROW;
    assert !IsForceHttps(STALE_ENTRY) by {
      assert !CharEqualsIgnoreCase("preload"[0], "force-https"[0]);
    }
    var origin := PreloadOriginHosts(known);
    assert origin.Keys == {"a.org"};
    var update := HostsToUpdate(preload, origin);
    assert update == {"a.org"};
    assert HostsToRemove(preload.Keys, origin.Keys) == {};
    assert EntriesToWrite(preload, known, update) == map[];
  }

  /** A preload name with a space in it. */
  const SPACED: PreloadEntry := PreloadEntry("a b", false, false, Some("force-https"))

  /** The fields after the first word of the spaced name's row. */
  const SPACED_REST: seq<string> := ["b", "0", "0", FormatInt(INT_MAX), "0"]

  /** The row written for a name with a space reads back as a line of six fields: skipped. */
  lemma SpacedNameLineSkipped()
    ensures ParseLine(NewRow(SPACED).ToString()) == Skipped
  {
    var line := NewRow(SPACED).ToString();
    SpacedLinePieces();
    assert !StartsWith(line, "#") by {
      assert line[..1][0] == line[0] == 'a';
    }
    var p := Pieces(line);
    assert |p| == 6 && p[5] != [];
    assert SplitOnSpaces(line) == p;
  }

  /** The printed row of the spaced name is its own trim and splits into six pieces. */
  lemma SpacedLinePieces()
    ensures var line := NewRow(SPACED).ToString();
            && Trim(line) == line && line[0] == 'a'
            && Pieces(line) == ["a"] + SPACED_REST
  {
    var line := NewRow(SPACED).ToString();
    var tail := JoinTabs(SPACED_REST);
    SpacedLineShape();
    RestWords();
    PiecesCons("a", ' ', tail);
    assert line[|line| - 1] == tail[|tail| - 1];
    TrimIdentity(line);
  }

  lemma RestWords()
    ensures AreWords(SPACED_REST)
    ensures var tail := JoinTabs(SPACED_REST);
            && Pieces(tail) == SPACED_REST && tail != [] && tail[0] == 'b' && tail[|tail| - 1] == '0'
  {
    RestAreWords();
    PiecesOfJoin(SPACED_REST);
    JoinTabsLast(SPACED_REST);
  }

  lemma RestAreWords()
    ensures AreWords(SPACED_REST)
  {
    FormatIntIsWord(INT_MAX);
    assert NoSeparator("b") && NoSeparator("0");
  }

  lemma SpacedLineShape()
    ensures NewRow(SPACED).ToString() == "a" + [' '] + JoinTabs(SPACED_REST)
  {
    SpacedRowText();
    FirstSpace(JoinTabs(SPACED_REST[1..]));
  }

  lemma SpacedRowText()
    ensures NewRow(SPACED).ToString() == "a b" + "\t" + JoinTabs(SPACED_REST[1..])
  {
    var e := NewRow(SPACED);
    var fs := e.Fields();
    ToStringIsJoin(e);
    assert FormatInt(0) == "0";
    assert fs[1..] == SPACED_REST[1..];
  }

  lemma FirstSpace(r: string)
    ensures "a b" + "\t" + r == "a" + [' '] + ("b" + "\t" + r)
  {
  }

  /**
   * So a run never records such a name: every run, the second included,
   * finds it missing from the database and writes the file again.
   */
  lemma SpacedNameRewrittenEveryRun()
    ensures Run([SPACED], None).Success? && Writes(Run([SPACED], None).value)
    ensures var after := OutputLines(Run([SPACED], None).value);
            Run([SPACED], Some(after)).Success? && Writes(Run([SPACED], Some(after)).value)
  {
    var preload := SpacedPreload();
    var p := SpacedFirstRun(preload);
    var after := OutputLines(p);
    SpacedOutputEmpty();
    assert Run([SPACED], Some(after)) == Success(PlanFor(preload, Some([])));
    assert "a b" in PlanFor(preload, Some([])).toWrite;
  }

  lemma SpacedPreload() returns (preload: map<string, PreloadEntry>)
    ensures PreloadMap([SPACED]) == Success(preload)
    ensures preload.Keys == {"a b"} && preload["a b"] == SPACED && IsForceHttps(SPACED)
  {
    assert UniqueNames([SPACED]);
    preload := PreloadMap([SPACED]).value;
    FixtureForceHttps(SPACED);
  }

  lemma SpacedFirstRun(preload: map<string, PreloadEntry>) returns (p: Plan)
    requires PreloadMap([SPACED]) == Success(preload)
    requires preload.Keys == {"a b"} && preload["a b"] == SPACED && IsForceHttps(SPACED)
    ensures Run([SPACED], None) == Success(p) && Writes(p)
    ensures OutputLines(p) == HEADER + [NewRow(SPACED).ToString()]
  {
    p := PlanFor(preload, None);
    assert p.toWrite == map["a b" := SPACED];
    NewRowsSorted(p.toWrite);
    var nw := NewRows(p.toWrite);
    assert |nw| == 1 && nw[0] == NewRow(SPACED);
    assert Retained([], {}, {}) == [];
    assert OutputRows(p) == [NewRow(SPACED)];
  }

  lemma SpacedOutputEmpty()
    ensures ParseKnownHosts(HEADER + [NewRow(SPACED).ToString()]) == Success([])
  {
    var lines := HEADER + [NewRow(SPACED).ToString()];
    SpacedNameLineSkipped();
    HeaderSkipped();
    var rs := ParseLines(lines);
    assert forall i :: 0 <= i < |rs| ==> rs[i].Skipped?;
    RowsOfSkipped(rs);
  }
}
