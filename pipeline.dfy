/**
 * One run of the updater on values: preload entries and the destination's
 * lines in, the plan out; and what the written file means for the rows it
 * holds and for the next run.
 */
module Pipeline {
  import opened Wrappers
  import opened JavaString
  import opened HstsEntry
  import opened KnownHosts
  import opened Preload
  import opened Reconcile
  import opened Writer

  /** The exceptions that end a run before anything is written. */
  datatype RunError =
    | PreloadFailure(preload: PreloadError)   // a repeated name in the preload list
    | DatabaseFailure(database: DatabaseError) // a bad number or a repeated host in the database

  /**
   * The decisions of `execute`, in its order: the preload map first, then the
   * destination database when the file exists (`None`: it does not).
   */
  function Run(entries: seq<PreloadEntry>, dest: Option<seq<string>>): (r: Result<Plan, RunError>)
    ensures r.Success? <==> PreloadMap(entries).Success? && (dest.Some? ==> ParseKnownHosts(dest.value).Success?)
    ensures r.Failure? && r.error.DatabaseFailure? ==> PreloadMap(entries).Success?
    ensures r.Success? && dest.Some? ==> r.value.known == ParseKnownHosts(dest.value).value
  {
    match PreloadMap(entries)
    case Failure(e) => Failure(PreloadFailure(e))
    case Success(preload) =>
      match dest
      case None => Success(PlanFor(preload, None))
      case Some(lines) =>
        match ParseKnownHosts(lines)
        case Failure(e) => Failure(DatabaseFailure(e))
        case Success(rows) => Success(PlanFor(preload, Some(rows)))
  }

  // ---------------------------------------------------------------- the header

  /** A line whose first character is `#` is a comment, whatever follows. */
  lemma CommentSkipped(line: string)
    requires line != [] && line[0] == '#'
    ensures ParseLine(line) == Skipped
  {
    TrimVisibleStart(line);
  }

  lemma HeaderSkipped()
    ensures forall i :: 0 <= i < |HEADER| ==> ParseLine(HEADER[i]).Skipped?
  {
    CommentSkipped(HEADER[0]);
    CommentSkipped(HEADER[1]);
    CommentSkipped(HEADER[2]);
  }

  // ---------------------------------------------------------------- the rows written

  /** The preload names that can be written have hostnames a database line can hold. */
  predicate WritableNames(preload: map<string, PreloadEntry>) {
    forall n :: n in preload && IsForceHttps(preload[n]) ==> WellFormedHost(n)
  }

  /** The known rows, as a database parse leaves them. */
  predicate ParsedRows(known: Option<seq<Entry>>) {
    known.Some? ==>
      UniqueHosts(known.value) && forall i :: 0 <= i < |known.value| ==> WellFormedHost(known.value[i].hostname)
  }

  lemma ToWriteKeyed(preload: map<string, PreloadEntry>, known: Option<seq<Entry>>)
    requires KeyedByName(preload)
    ensures KeyedByName(PlanFor(preload, known).toWrite)
  {
  }

  /**
   * The rows below the header: when every name to write is new or updated,
   * retained and new hostnames are disjoint, so the rows have distinct
   * hostnames, and a retained host keeps its known row while a new host gets
   * the row built from its entry.
   */
  lemma OutputRowsFacts(rows: seq<Entry>, remove: set<string>, update: set<string>, toWrite: map<string, PreloadEntry>)
    requires UniqueHosts(rows) && KeyedByName(toWrite)
    requires forall n :: n in toWrite ==> n !in Hosts(rows) || n in update
    ensures var ret := Retained(rows, remove, update);
            var out := ret + NewRows(toWrite);
            && UniqueHosts(out)
            && Hosts(out) == Hosts(ret) + toWrite.Keys
            && Hosts(ret) == Hosts(rows) - remove - update
            && (forall h :: h in Hosts(ret) ==> ToMap(out)[h] == ToMap(rows)[h])
            && (forall h :: h in toWrite ==> ToMap(out)[h] == NewRow(toWrite[h]))
  {
    var ret := Retained(rows, remove, update);
    var nw := NewRows(toWrite);
    OutputHosts(rows, remove, update, toWrite);
    HostsAppend(ret, nw);
    RetainedLookup(rows, ret, nw);
    NewLookup(ret, nw, toWrite);
  }

  lemma OutputHosts(rows: seq<Entry>, remove: set<string>, update: set<string>, toWrite: map<string, PreloadEntry>)
    requires UniqueHosts(rows) && KeyedByName(toWrite)
    requires forall n :: n in toWrite ==> n !in Hosts(rows) || n in update
    ensures var ret := Retained(rows, remove, update);
            var nw := NewRows(toWrite);
            && UniqueHosts(ret) && UniqueHosts(ret + nw)
            && Hosts(ret + nw) == Hosts(ret) + toWrite.Keys
            && Hosts(ret) == Hosts(rows) - remove - update
            && Hosts(nw) == toWrite.Keys
            && (forall i :: 0 <= i < |nw| ==> nw[i] == NewRow(toWrite[nw[i].hostname]))
  {
    var ret := Retained(rows, remove, update);
    var nw := NewRows(toWrite);
    NewRowsSorted(toWrite);
    SortedUnique(nw);
    RetainedUnique(rows, remove, update);
    RetainedHosts(rows, remove, update);
    assert Hosts(ret) !! Hosts(nw);
    HostsAppend(ret, nw);
    UniqueAppend(ret, nw);
  }

  /** In the map of the output, a retained host still maps to its known row. */
  lemma RetainedLookup(rows: seq<Entry>, ret: seq<Entry>, nw: seq<Entry>)
    requires UniqueHosts(rows) && UniqueHosts(ret + nw)
    requires Hosts(ret + nw) == Hosts(ret) + Hosts(nw) && Hosts(ret) <= Hosts(rows)
    requires forall e :: e in ret ==> e in rows
    ensures forall h :: h in Hosts(ret) ==> ToMap(ret + nw)[h] == ToMap(rows)[h]
  {
    var out := ret + nw;
    forall h | h in Hosts(ret)
      ensures ToMap(out)[h] == ToMap(rows)[h]
    {
      var j :| 0 <= j < |ret| && ret[j].hostname == h;
      assert out[j] == ret[j];
      assert ret[j] in rows;
      var i :| 0 <= i < |rows| && rows[i] == ret[j];
    }
  }

  /** In the map of the output, a new host maps to the row built from its entry. */
  lemma NewLookup(ret: seq<Entry>, nw: seq<Entry>, toWrite: map<string, PreloadEntry>)
    requires UniqueHosts(ret + nw) && Hosts(nw) == toWrite.Keys
    requires Hosts(ret + nw) == Hosts(ret) + Hosts(nw)
    requires forall i :: 0 <= i < |nw| ==> nw[i] == NewRow(toWrite[nw[i].hostname])
    ensures forall h :: h in toWrite ==> ToMap(ret + nw)[h] == NewRow(toWrite[h])
  {
    var out := ret + nw;
    forall h | h in toWrite
      ensures ToMap(out)[h] == NewRow(toWrite[h])
    {
      var j :| 0 <= j < |nw| && nw[j].hostname == h;
      assert out[|ret| + j] == nw[j];
    }
  }

  lemma HostsAppend(a: seq<Entry>, b: seq<Entry>)
    ensures Hosts(a + b) == Hosts(a) + Hosts(b)
  {
    var s := a + b;
    forall h | h in Hosts(a) + Hosts(b)
      ensures h in Hosts(s)
    {
      if h in Hosts(a) {
        var i :| 0 <= i < |a| && a[i].hostname == h;
        assert s[i] == a[i];
      } else {
        var i :| 0 <= i < |b| && b[i].hostname == h;
        assert s[|a| + i] == b[i];
      }
    }
  }

  lemma UniqueAppend(a: seq<Entry>, b: seq<Entry>)
    requires UniqueHosts(a) && UniqueHosts(b) && Hosts(a) !! Hosts(b)
    ensures UniqueHosts(a + b)
  {
    var s := a + b;
    forall i, j | 0 <= i < j < |s|
      ensures s[i].hostname != s[j].hostname
    {
      if j >= |a| && i < |a| {
        assert s[i] == a[i] && s[j] == b[j - |a|];
        assert a[i].hostname in Hosts(a) && b[j - |a|].hostname in Hosts(b);
      } else if i >= |a| {
        assert s[i] == b[i - |a|] && s[j] == b[j - |a|];
      } else {
        assert s[i] == a[i] && s[j] == a[j];
      }
    }
  }

  /**
   * What a plan over known rows says about them, in terms of the rows'
   * hostnames and map.
   */
  lemma PlanFacts(preload: map<string, PreloadEntry>, rows: seq<Entry>)
    ensures var p := PlanFor(preload, Some(rows));
            var k := ToMap(rows);
            && p.known == rows
            && p.remove !! preload.Keys
            && (forall n :: n in p.toWrite ==>
                  p.toWrite[n] == preload[n] && IsForceHttps(preload[n]) && (n !in Hosts(rows) || n in p.update))
            && (forall n :: n in preload && IsForceHttps(preload[n]) && n !in p.toWrite ==>
                  n in Hosts(rows) && n !in p.update)
            && (forall h :: h in Hosts(rows) && IsPreloadOrigin(k[h]) ==> h in p.remove || h in preload)
            && (forall h :: h in Hosts(rows) && IsPreloadOrigin(k[h]) && h in preload && h !in p.update ==>
                  SubdomainsFlag(preload[h]) == k[h].includeSubdomains)
  {
  }

  /**
   * A plan over rows whose marked hosts all agree with the list, and which
   * hold every force-https name, has nothing to do.
   */
  lemma PlanIdle(preload: map<string, PreloadEntry>, rows: seq<Entry>)
    requires forall h :: h in Hosts(rows) && IsPreloadOrigin(ToMap(rows)[h]) ==>
               h in preload && SubdomainsFlag(preload[h]) == ToMap(rows)[h].includeSubdomains
    requires forall n :: n in preload && IsForceHttps(preload[n]) ==> n in Hosts(rows)
    ensures var p := PlanFor(preload, Some(rows));
            p.remove == {} && p.update == {} && p.toWrite == map[]
  {
    var p := PlanFor(preload, Some(rows));
    assert p.update == {};
  }

  /** Rows with distinct hostnames and well-formed hostnames after the header read back as themselves. */
  lemma OutputRowsParse(rows: seq<Entry>, remove: set<string>, update: set<string>, toWrite: map<string, PreloadEntry>)
    requires UniqueHosts(rows) && forall i :: 0 <= i < |rows| ==> WellFormedHost(rows[i].hostname)
    requires KeyedByName(toWrite) && forall n :: n in toWrite ==> WellFormedHost(n)
    requires forall n :: n in toWrite ==> n !in Hosts(rows) || n in update
    ensures var out := Retained(rows, remove, update) + NewRows(toWrite);
            ParseKnownHosts(HEADER + ToLines(out)) == Success(out)
  {
    OutputRowsFacts(rows, remove, update, toWrite);
    var ret := Retained(rows, remove, update);
    var nw := NewRows(toWrite);
    var out := ret + nw;
    NewRowsSorted(toWrite);
    forall i | 0 <= i < |out|
      ensures WellFormedHost(out[i].hostname)
    {
      if i < |ret| {
        assert out[i] == ret[i] && ret[i] in rows;
      } else {
        assert out[i] == nw[i - |ret|];
        assert out[i].hostname in Hosts(nw);
      }
    }
    HeaderSkipped();
    ParsePrinted(HEADER, out);
  }

  /**
   * The header and the rows of a plan over parsed rows read back as exactly
   * those rows: the written database is well formed.
   */
  lemma OutputParses(preload: map<string, PreloadEntry>, known: Option<seq<Entry>>)
    requires KeyedByName(preload) && WritableNames(preload) && ParsedRows(known)
    ensures var p := PlanFor(preload, known);
            ParseKnownHosts(OutputLines(p)) == Success(OutputRows(p))
  {
    var rows := if known.Some? then known.value else [];
    AbsentIsEmpty(preload);
    var p := PlanFor(preload, Some(rows));
    assert p == PlanFor(preload, known);
    PlanFacts(preload, rows);
    ToWriteKeyed(preload, Some(rows));
    OutputRowsParse(rows, p.remove, p.update, p.toWrite);
  }

  // ---------------------------------------------------------------- what the output holds

  /**
   * A hand-edited row (one without the mark) is written back unchanged, and
   * no new row is written for its hostname.
   */
  lemma HandEditedRowKept(preload: map<string, PreloadEntry>, rows: seq<Entry>, i: int)
    requires KeyedByName(preload) && UniqueHosts(rows)
    requires 0 <= i < |rows| && !IsPreloadOrigin(rows[i])
    ensures var p := PlanFor(preload, Some(rows));
            rows[i] in Retained(rows, p.remove, p.update)
            && rows[i].hostname !in Hosts(NewRows(p.toWrite))
  {
    var p := PlanFor(preload, Some(rows));
    PlanTouchesOnlyMarkedRows(preload, rows, i);
    ToWriteKeyed(preload, Some(rows));
    NewRowsSorted(p.toWrite);
  }

  /**
   * A host due for an update whose entry is not force-https is neither
   * retained nor rewritten: it disappears from the database.
   */
  lemma UpdatedNotForceHttpsDisappears(preload: map<string, PreloadEntry>, rows: seq<Entry>, h: string)
    requires KeyedByName(preload)
    requires h in PlanFor(preload, Some(rows)).update && !IsForceHttps(preload[h])
    ensures h !in Hosts(OutputRows(PlanFor(preload, Some(rows))))
  {
    var p := PlanFor(preload, Some(rows));
    ToWriteKeyed(preload, Some(rows));
    NewRowsSorted(p.toWrite);
    RetainedHosts(rows, p.remove, p.update);
    HostsAppend(Retained(rows, p.remove, p.update), NewRows(p.toWrite));
  }

  /**
   * A force-https host due for an update loses its old row and gets the row
   * built from its entry, with the include-subdomains value of the list.
   */
  lemma UpdatedForceHttpsRewritten(preload: map<string, PreloadEntry>, rows: seq<Entry>, h: string)
    requires KeyedByName(preload)
    requires h in PlanFor(preload, Some(rows)).update && IsForceHttps(preload[h])
    ensures var p := PlanFor(preload, Some(rows));
            && h !in Hosts(Retained(rows, p.remove, p.update))
            && NewRow(preload[h]) in NewRows(p.toWrite)
  {
    var p := PlanFor(preload, Some(rows));
    ToWriteKeyed(preload, Some(rows));
    NewRowsSorted(p.toWrite);
    RetainedHosts(rows, p.remove, p.update);
    var nw := NewRows(p.toWrite);
    assert h in Hosts(nw);
    var j :| 0 <= j < |nw| && nw[j].hostname == h;
  }

  /** A removed host has no row in the database that is written. */
  lemma RemovedDisappears(preload: map<string, PreloadEntry>, rows: seq<Entry>, h: string)
    requires KeyedByName(preload)
    requires h in PlanFor(preload, Some(rows)).remove
    ensures h !in Hosts(OutputRows(PlanFor(preload, Some(rows))))
  {
    var p := PlanFor(preload, Some(rows));
    ToWriteKeyed(preload, Some(rows));
    NewRowsSorted(p.toWrite);
    RetainedHosts(rows, p.remove, p.update);
    HostsAppend(Retained(rows, p.remove, p.update), NewRows(p.toWrite));
  }

  // ---------------------------------------------------------------- idempotence

  /**
   * Planning again over the rows a plan writes finds nothing to remove,
   * nothing to update and nothing to write.
   */
  lemma ReplanIsIdle(preload: map<string, PreloadEntry>, known: Option<seq<Entry>>)
    requires KeyedByName(preload) && ParsedRows(known)
    ensures var p2 := PlanFor(preload, Some(OutputRows(PlanFor(preload, known))));
            p2.remove == {} && p2.update == {} && p2.toWrite == map[]
  {
    var rows := if known.Some? then known.value else [];
    AbsentIsEmpty(preload);
    var p := PlanFor(preload, Some(rows));
    assert p == PlanFor(preload, known);
    PlanFacts(preload, rows);
    ToWriteKeyed(preload, Some(rows));
    OutputRowsFacts(rows, p.remove, p.update, p.toWrite);
    var ret := Retained(rows, p.remove, p.update);
    var out := OutputRows(p);
    var k1, k2 := ToMap(rows), ToMap(out);
    forall h | h in Hosts(out) && IsPreloadOrigin(k2[h])
      ensures h in preload && SubdomainsFlag(preload[h]) == k2[h].includeSubdomains
    {
      if h in Hosts(ret) {
        assert k2[h] == k1[h];
      } else {
        assert k2[h] == NewRow(p.toWrite[h]);
      }
    }
    forall n | n in preload && IsForceHttps(preload[n])
      ensures n in Hosts(out)
    {
      if n !in p.toWrite {
        assert n in Hosts(ret);
      }
    }
    PlanIdle(preload, out);
  }

  /**
   * A second run on the same preload list, over what the first run left in
   * the destination, succeeds and writes nothing.
   */
  lemma SecondRunIsNoOp(entries: seq<PreloadEntry>, dest: Option<seq<string>>)
    requires Run(entries, dest).Success?
    requires forall i :: 0 <= i < |entries| && IsForceHttps(entries[i]) ==> WellFormedHost(entries[i].name)
    ensures var p := Run(entries, dest).value;
            var after := if Writes(p) then Some(OutputLines(p)) else dest;
            Run(entries, after).Success? && !Writes(Run(entries, after).value)
  {
    var preload := PreloadMap(entries).value;
    assert WritableNames(preload) by {
      forall n | n in preload && IsForceHttps(preload[n])
        ensures WellFormedHost(n)
      {
        var i :| 0 <= i < |entries| && entries[i].name == n;
      }
    }
    var known := if dest.Some? then Some(ParseKnownHosts(dest.value).value) else None;
    if dest.Some? {
      ParsedRowsWellFormed(dest.value);
    }
    var p := PlanFor(preload, known);
    assert Run(entries, dest).value == p;
    if Writes(p) {
      OutputParses(preload, known);
      ReplanIsIdle(preload, known);
      assert Run(entries, Some(OutputLines(p))).value == PlanFor(preload, Some(OutputRows(p)));
    }
  }
}
