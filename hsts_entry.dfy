/**
 * The rows of GNU Wget's HSTS known-hosts database: the immutable
 * `WgetHstsEntry` and the older mutable `WgetHstsDatabaseEntry`, both with
 * the same tab-separated line format.
 */
module HstsEntry {
  import opened JavaInt
  import opened JavaString

  /**
   * `WgetHstsEntry`. A datatype: the Java class is an immutable value whose
   * equality is field-wise. The defaults are the builder's for fields it
   * was not given.
   */
  datatype Entry = Entry(
    hostname: string,
    port: int32 := 0,
    includeSubdomains: bool := false,
    created: int32 := 0,
    maxAge: int32 := 0)
  {
    /** `toString`: `%s\t%d\t%d\t%d\t%d` over hostname, port, flag, created, max-age. */
    function ToString(): string {
      hostname + "\t" + FormatInt(port as int) + "\t" + FlagField(includeSubdomains)
      + "\t" + FormatInt(created as int) + "\t" + FormatInt(maxAge as int)
    }

    /** The five fields of the line, in order. */
    function Fields(): (fs: seq<string>)
      ensures |fs| == 5 && fs[0] == hostname
    {
      [hostname, FormatInt(port as int), FlagField(includeSubdomains),
       FormatInt(created as int), FormatInt(maxAge as int)]
    }
  }

  /** The include-subdomains column: `1` when set, `0` otherwise. */
  function FlagField(b: bool): (f: string)
    ensures f == "1" <==> b
    ensures f == "0" <==> !b
  {
    if b then "1" else "0"
  }

  /** The line is the five fields joined by single tabs. */
  lemma ToStringIsJoin(e: Entry)
    ensures e.ToString() == JoinTabs(e.Fields())
  {
    var fs := e.Fields();
    JoinFive(fs[0], fs[1], fs[2], fs[3], fs[4]);
    assert fs == [fs[0], fs[1], fs[2], fs[3], fs[4]];
  }

  lemma JoinFive(a: string, b: string, c: string, d: string, e: string)
    ensures JoinTabs([a, b, c, d, e]) == a + "\t" + b + "\t" + c + "\t" + d + "\t" + e
  {
    var ws := [a, b, c, d, e];
    assert ws[1..] == [b, c, d, e];
    assert [b, c, d, e][1..] == [c, d, e];
    assert [c, d, e][1..] == [d, e];
    assert [d, e][1..] == [e];
    assert JoinTabs([e]) == e;
    var j4 := JoinTabs([d, e]);
    assert j4 == d + "\t" + e;
    var j3 := JoinTabs([c, d, e]);
    assert j3 == c + "\t" + j4;
    var j2 := JoinTabs([b, c, d, e]);
    assert j2 == b + "\t" + j3;
    assert JoinTabs(ws) == a + "\t" + j2;
  }

  /**
   * `WgetHstsDatabaseEntry`: the older, mutable form (`@Data`). Only its
   * field values and its line format matter here; `port` is initialised to 0.
   */
  datatype DatabaseEntry = DatabaseEntry(
    hostname: string,
    port: int32 := 0,
    inclSubdomains: bool := false,
    created: int32 := 0,
    maxAge: int32 := 0)
  {
    function ToString(): string {
      hostname + "\t" + FormatInt(port as int) + "\t" + (if inclSubdomains then "1" else "0")
      + "\t" + FormatInt(created as int) + "\t" + FormatInt(maxAge as int)
    }
  }

  /** For equal field values both classes write the same line. */
  lemma SameLineFormat(h: string, p: int32, incl: bool, c: int32, m: int32)
    ensures DatabaseEntry(h, p, incl, c, m).ToString() == Entry(h, p, incl, c, m).ToString()
  {
  }

  /** An entry built with only a hostname has port 0, no subdomains and zero times. */
  lemma BuilderDefaults(h: string)
    ensures Entry(h) == Entry(h, 0, false, 0, 0)
    ensures DatabaseEntry(h).port == 0
  {
  }

  /** A printed int is one non-empty word that starts and ends with a visible character. */
  lemma FormatIntIsWord(n: int)
    ensures var f := FormatInt(n);
            f != [] && NoSeparator(f) && f[0] > ' ' && f[|f| - 1] > ' '
  {
    var d := NatToDigits(if n < 0 then -n else n);
    assert forall i :: 0 <= i < |d| ==> IsDigit(d[i]);
  }

  /** `Stream.map(WgetHstsEntry::toString)`: one line per entry, in order. */
  function ToLines(rows: seq<Entry>): (lines: seq<string>)
    ensures |lines| == |rows|
    ensures forall i :: 0 <= i < |rows| ==> lines[i] == rows[i].ToString()
  {
    seq(|rows|, i requires 0 <= i < |rows| => rows[i].ToString())
  }

  /** Hostnames of a sequence of rows. */
  function Hosts(rows: seq<Entry>): set<string> {
    set i | 0 <= i < |rows| :: rows[i].hostname
  }

  /** No hostname occurs twice: the rows form a map keyed by hostname. */
  predicate UniqueHosts(rows: seq<Entry>) {
    forall i, j :: 0 <= i < j < |rows| ==> rows[i].hostname != rows[j].hostname
  }

  /** Appending a row keeps the hostnames distinct exactly when its hostname is new. */
  lemma UniqueHostsSnoc(rows: seq<Entry>, e: Entry)
    ensures UniqueHosts(rows + [e]) <==> UniqueHosts(rows) && e.hostname !in Hosts(rows)
  {
    var s := rows + [e];
    assert forall i :: 0 <= i < |rows| ==> s[i] == rows[i];
    if e.hostname in Hosts(rows) {
      var k :| 0 <= k < |rows| && rows[k].hostname == e.hostname;
      assert s[k].hostname == s[|rows|].hostname;
    }
  }

  /**
   * The `LinkedHashMap` view of rows with unique hostnames: each hostname maps
   * to its row (the sequence itself keeps the insertion order).
   */
  function ToMap(rows: seq<Entry>): (m: map<string, Entry>)
    ensures m.Keys == Hosts(rows)
    ensures forall h :: h in m ==> m[h].hostname == h
    ensures UniqueHosts(rows) ==> forall i :: 0 <= i < |rows| ==> m[rows[i].hostname] == rows[i]
  {
    if rows == [] then map[]
    else
      var n := |rows| - 1;
      var m := ToMap(rows[..n]);
      HostsSnoc(rows[..n], rows[n]);
      assert rows[..n] + [rows[n]] == rows;
      m[rows[n].hostname := rows[n]]
  }

  lemma HostsSnoc(rows: seq<Entry>, e: Entry)
    ensures Hosts(rows + [e]) == Hosts(rows) + {e.hostname}
  {
    var s := rows + [e];
    assert forall i :: 0 <= i < |rows| ==> s[i] == rows[i];
    assert s[|rows|] == e;
  }
}
