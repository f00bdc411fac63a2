/**
 * What `createUpToDateWgetHstsTempFile` writes: the header, the retained
 * known rows in file order, then one new row per entry to write, sorted by
 * hostname with `String.compareTo`.
 */
module Writer {
  import opened JavaInt
  import opened JavaString
  import opened HstsEntry
  import opened Preload
  import opened Reconcile

  /** A comment line of the database. */
  function Comment(text: string): (line: string)
    ensures line != [] && line[0] == '#'
  {
    "# " + text
  }

  /** The three comment lines every database written by the updater starts with. */
  const HEADER: seq<string> := [
    Comment("HSTS 1.0 Known Hosts database for GNU Wget."),
    Comment("Edit at your own risk."),
    Comment("<hostname>\t<port>\t<incl. subdomains>\t<created>\t<max-age>")]

  // ---------------------------------------------------------------- retained rows

  predicate Keeps(e: Entry, remove: set<string>, update: set<string>) {
    e.hostname !in remove && e.hostname !in update
  }

  /** The known rows that are neither removed nor updated, in file order. */
  function Retained(rows: seq<Entry>, remove: set<string>, update: set<string>): (r: seq<Entry>)
    ensures |r| <= |rows|
    ensures forall e :: e in r <==> e in rows && Keeps(e, remove, update)
  {
    if rows == [] then []
    else
      var n := |rows| - 1;
      assert forall e :: e in rows <==> e in rows[..n] || e == rows[n] by {
        assert rows == rows[..n] + [rows[n]];
      }
      Retained(rows[..n], remove, update) + (if Keeps(rows[n], remove, update) then [rows[n]] else [])
  }

  /** The filter keeps the order: it distributes over concatenation. */
  lemma {:induction false} RetainedAppend(a: seq<Entry>, b: seq<Entry>, remove: set<string>, update: set<string>)
    ensures Retained(a + b, remove, update) == Retained(a, remove, update) + Retained(b, remove, update)
    decreases |b|
  {
    if b != [] {
      var n := |b| - 1;
      assert (a + b)[..|a + b| - 1] == a + b[..n];
      RetainedAppend(a, b[..n], remove, update);
    } else {
      assert a + b == a;
    }
  }

  lemma RetainedHosts(rows: seq<Entry>, remove: set<string>, update: set<string>)
    ensures Hosts(Retained(rows, remove, update)) == Hosts(rows) - remove - update
  {
    var r := Retained(rows, remove, update);
    forall h | h in Hosts(rows) - remove - update
      ensures h in Hosts(r)
    {
      var i :| 0 <= i < |rows| && rows[i].hostname == h;
      assert rows[i] in r;
      var j :| 0 <= j < |r| && r[j] == rows[i];
    }
    forall h | h in Hosts(r)
      ensures h in Hosts(rows) - remove - update
    {
      var j :| 0 <= j < |r| && r[j].hostname == h;
      assert r[j] in rows;
      var i :| 0 <= i < |rows| && rows[i] == r[j];
    }
  }

  /** A filter of rows with distinct hostnames has distinct hostnames. */
  lemma {:induction false} RetainedUnique(rows: seq<Entry>, remove: set<string>, update: set<string>)
    requires UniqueHosts(rows)
    ensures UniqueHosts(Retained(rows, remove, update))
  {
    if rows != [] {
      var n := |rows| - 1;
      var front := rows[..n];
      assert UniqueHosts(front) by {
        assert forall i :: 0 <= i < n ==> front[i] == rows[i];
      }
      RetainedUnique(front, remove, update);
      var r := Retained(front, remove, update);
      if Keeps(rows[n], remove, update) {
        RetainedHosts(front, remove, update);
        assert rows[n].hostname !in Hosts(front);
        UniqueHostsSnoc(r, rows[n]);
      }
    }
  }

  // ---------------------------------------------------------------- new rows

  /**
   * The row written for a preload entry: its name, port 0, include-subdomains
   * from either flag, created `Integer.MAX_VALUE` and max-age 0, so it carries
   * the mark of a row written by the updater.
   */
  function NewRow(p: PreloadEntry): (e: Entry)
    ensures e.hostname == p.name && e.port == 0 && e.includeSubdomains == SubdomainsFlag(p)
    ensures IsPreloadOrigin(e)
  {
    Entry(p.name, includeSubdomains := p.includeSubdomains || p.includeSubdomainsForPinning,
          created := INT_MAX as int32, maxAge := 0)
  }

  /** m comes first in s under `String.compareTo`. */
  predicate IsLeast(m: string, s: set<string>) {
    m in s && forall x :: x in s && x != m ==> Less(m, x)
  }

  lemma {:induction false} LeastExists(s: set<string>)
    requires s != {}
    ensures exists m :: IsLeast(m, s)
    decreases |s|
  {
    var x :| x in s;
    var rest := s - {x};
    if rest == {} {
      assert s == {x};
      assert IsLeast(x, s);
    } else {
      LeastExists(rest);
      var m :| IsLeast(m, rest);
      LessTrichotomy(x, m);
      if Less(x, m) {
        forall y | y in s && y != x
          ensures Less(x, y)
        {
          if y != m {
            LessTransitive(x, m, y);
          }
        }
        assert IsLeast(x, s);
      } else {
        assert IsLeast(m, s);
      }
    }
  }

  lemma LeastUnique(s: set<string>)
    ensures forall m1, m2 :: IsLeast(m1, s) && IsLeast(m2, s) ==> m1 == m2
  {
    forall m1, m2 | IsLeast(m1, s) && IsLeast(m2, s)
      ensures m1 == m2
    {
      LessTrichotomy(m1, m2);
    }
  }

  /** The names in ascending `String.compareTo` order, each once. */
  function SortedHosts(s: set<string>): (r: seq<string>)
    ensures |r| == |s|
    ensures forall i :: 0 <= i < |r| ==> r[i] in s
    ensures forall x :: x in s ==> x in r
    ensures forall i, j :: 0 <= i < j < |r| ==> Less(r[i], r[j])
    decreases |s|
  {
    if s == {} then []
    else
      LeastExists(s);
      LeastUnique(s);
      var m :| IsLeast(m, s);
      var rest := SortedHosts(s - {m});
      assert forall x :: x in s ==> x == m || x in s - {m};
      [m] + rest
  }

  /**
   * The sorted stream of new rows: one marked row per entry to write.
   */
  function NewRows(toWrite: map<string, PreloadEntry>): (r: seq<Entry>)
    ensures |r| == |toWrite|
    ensures forall i :: 0 <= i < |r| ==> IsPreloadOrigin(r[i])
  {
    var hs := SortedHosts(toWrite.Keys);
    seq(|hs|, i requires 0 <= i < |hs| => NewRow(toWrite[hs[i]]))
  }

  /**
   * Java sorts the new rows by hostname; the entries are filed under their
   * names, so the rows are exactly one per entry, in strictly ascending
   * `String.compareTo` order of hostname.
   */
  lemma NewRowsSorted(toWrite: map<string, PreloadEntry>)
    requires KeyedByName(toWrite)
    ensures var r := NewRows(toWrite);
            && Hosts(r) == toWrite.Keys
            && (forall i :: 0 <= i < |r| ==> r[i] == NewRow(toWrite[r[i].hostname]))
            && (forall i, j :: 0 <= i < j < |r| ==> Less(r[i].hostname, r[j].hostname))
  {
    var hs := SortedHosts(toWrite.Keys);
    var r := NewRows(toWrite);
    assert forall i :: 0 <= i < |r| ==> r[i] == NewRow(toWrite[hs[i]]) && r[i].hostname == hs[i];
    forall h | h in toWrite.Keys
      ensures h in Hosts(r)
    {
      var i :| 0 <= i < |hs| && hs[i] == h;
      assert r[i].hostname == h;
    }
  }

  /** Strictly increasing hostnames are distinct. */
  lemma SortedUnique(rows: seq<Entry>)
    requires forall i, j :: 0 <= i < j < |rows| ==> Less(rows[i].hostname, rows[j].hostname)
    ensures UniqueHosts(rows)
  {
    forall i, j | 0 <= i < j < |rows|
      ensures rows[i].hostname != rows[j].hostname
    {
      LessTrichotomy(rows[i].hostname, rows[j].hostname);
    }
  }

  // ---------------------------------------------------------------- the file

  /** The rows below the header, in the order they are written. */
  function OutputRows(p: Plan): seq<Entry> {
    Retained(p.known, p.remove, p.update) + NewRows(p.toWrite)
  }

  /** The lines of the new database file. */
  function OutputLines(p: Plan): (lines: seq<string>)
    ensures |lines| == |HEADER| + |OutputRows(p)|
    ensures lines[..|HEADER|] == HEADER
  {
    HEADER + ToLines(OutputRows(p))
  }
}
