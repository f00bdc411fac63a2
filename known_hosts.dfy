/**
 * `parseWgetHstsKnownHostsDatabase`: reading GNU Wget's known-hosts file
 * into an insertion-ordered map from hostname to entry.
 */
module KnownHosts {
  import opened Wrappers
  import opened JavaInt
  import opened JavaString
  import opened HstsEntry

  /** What one line of the file contributes. */
  datatype LineResult =
    | Skipped                 // a comment, or not exactly five fields
    | Row(entry: Entry)
    | BadNumber(input: string) // `Integer.parseInt` threw NumberFormatException

  /** The exceptions that abort the parse. */
  datatype DatabaseError =
    | NumberFormat(input: string)
    | DuplicateKey(existing: Entry) // `IllegalStateException("Duplicate key " + existing)`

  /**
   * One line: trimmed; a line starting with `#` is a comment; the rest is
   * split on runs of white space and kept only with exactly five fields;
   * port, created and max-age (in that order) go through `Integer.parseInt`
   * and the flag is set only for the exact field `1`.
   */
  function ParseLine(line: string): LineResult {
    var t := Trim(line);
    if StartsWith(t, "#") then Skipped else ParseFields(SplitOnSpaces(t))
  }

  /** The fields of a line that is not a comment. */
  function ParseFields(fields: seq<string>): LineResult {
    if |fields| != 5 then Skipped
    else
      var port := ParseInt32(Trim(fields[1]));
      var created := ParseInt32(Trim(fields[3]));
      var maxAge := ParseInt32(Trim(fields[4]));
      if port.None? then BadNumber(Trim(fields[1]))
      else if created.None? then BadNumber(Trim(fields[3]))
      else if maxAge.None? then BadNumber(Trim(fields[4]))
      else Row(Entry(Trim(fields[0]), port.value, Trim(fields[2]) == "1", created.value, maxAge.value))
  }

  /** The hostnames a row can have: what a line's first field can be after trimming. */
  predicate WellFormedHost(h: string) {
    h != [] && h[0] > ' ' && h[0] != '#' && h[|h| - 1] > ' ' && NoSeparator(h)
  }

  /** `lines.map(...)`: the result of each line, in file order. */
  function ParseLines(lines: seq<string>): (rs: seq<LineResult>)
    ensures |rs| == |lines|
    ensures forall i :: 0 <= i < |lines| ==> rs[i] == ParseLine(lines[i])
  {
    seq(|lines|, i requires 0 <= i < |lines| => ParseLine(lines[i]))
  }

  /** The rows among the line results, in file order. */
  function RowsOf(rs: seq<LineResult>): seq<Entry> {
    if rs == [] then []
    else
      var rows := RowsOf(rs[..|rs| - 1]);
      match rs[|rs| - 1]
      case Row(e) => rows + [e]
      case _ => rows
  }

  predicate NoBadNumber(rs: seq<LineResult>) {
    forall i :: 0 <= i < |rs| ==> !rs[i].BadNumber?
  }

  /** Some hostname h occurs in two different rows. */
  predicate HostRepeats(rows: seq<Entry>, h: string) {
    exists i, j :: 0 <= i < j < |rows| && rows[i].hostname == h && rows[j].hostname == h
  }

  /** The index of the row with hostname h. */
  function IndexOfHost(rows: seq<Entry>, h: string): (i: nat)
    requires h in Hosts(rows)
    ensures i < |rows| && rows[i].hostname == h
  {
    if rows[0].hostname == h then 0
    else
      assert h in Hosts(rows[1..]) by {
        var k :| 0 <= k < |rows| && rows[k].hostname == h;
        assert rows[1..][k - 1] == rows[k];
      }
      1 + IndexOfHost(rows[1..], h)
  }

  lemma NoBadNumberSnoc(rs: seq<LineResult>)
    requires rs != []
    ensures NoBadNumber(rs) <==> NoBadNumber(rs[..|rs| - 1]) && !rs[|rs| - 1].BadNumber?
  {
    var n := |rs| - 1;
    assert forall i :: 0 <= i < n ==> rs[..n][i] == rs[i];
  }

  /**
   * The collector: results in file order go into a map that refuses a second
   * row for the same hostname; the first exception in file order wins
   * (`CollectFirstError`). It succeeds exactly when no line has a bad number
   * and no hostname repeats, and then yields the rows in file order.
   */
  function Collect(rs: seq<LineResult>): (r: Result<seq<Entry>, DatabaseError>)
    ensures r.Success? <==> NoBadNumber(rs) && UniqueHosts(RowsOf(rs))
    ensures r.Success? ==> r.value == RowsOf(rs)
    ensures r.Failure? && r.error.NumberFormat? ==> BadNumber(r.error.input) in rs
    ensures r.Failure? && r.error.DuplicateKey? ==>
              r.error.existing in RowsOf(rs) && HostRepeats(RowsOf(rs), r.error.existing.hostname)
  {
    if rs == [] then Success([])
    else
      var n := |rs| - 1;
      var prev := Collect(rs[..n]);
      var rows := RowsOf(rs[..n]);
      NoBadNumberSnoc(rs);
      if prev.Failure? then
        assert prev.error.NumberFormat? ==> BadNumber(prev.error.input) in rs by {
          if prev.error.NumberFormat? {
            var i :| 0 <= i < n && rs[..n][i] == BadNumber(prev.error.input);
            assert rs[i] == rs[..n][i];
          }
        }
        assert prev.error.DuplicateKey? ==> HostRepeats(RowsOf(rs), prev.error.existing.hostname) by {
          if prev.error.DuplicateKey? {
            var i, j :| 0 <= i < j < |rows| && rows[i].hostname == prev.error.existing.hostname
                        && rows[j].hostname == prev.error.existing.hostname;
            assert RowsOf(rs)[i] == rows[i] && RowsOf(rs)[j] == rows[j];
          }
        }
        prev
      else
        match rs[n]
        case Skipped => prev
        case BadNumber(s) => Failure(NumberFormat(s))
        case Row(e) =>
          UniqueHostsSnoc(rows, e);
          if e.hostname in Hosts(rows) then
            var i := IndexOfHost(rows, e.hostname);
            assert (rows + [e])[i] == rows[i] && (rows + [e])[|rows|] == e;
            Failure(DuplicateKey(rows[i]))
          else
            Success(rows + [e])
  }

  /**
   * The exception line l raises when it reaches a collector already holding
   * rows: a bad number, or a hostname already present, reported with the row
   * the map holds for it.
   */
  predicate Raises(l: LineResult, rows: seq<Entry>, err: DatabaseError) {
    match l
    case Skipped => false
    case BadNumber(s) => err == NumberFormat(s)
    case Row(e) => e.hostname in Hosts(rows) && err == DuplicateKey(rows[IndexOfHost(rows, e.hostname)])
  }

  /**
   * A failed collect reports the first exception in file order: every line
   * before line k went through cleanly, and line k raises exactly the error.
   */
  lemma {:induction false} CollectFirstError(rs: seq<LineResult>)
    ensures Collect(rs).Failure? ==>
              exists k :: 0 <= k < |rs| && NoBadNumber(rs[..k]) && UniqueHosts(RowsOf(rs[..k]))
                          && Raises(rs[k], RowsOf(rs[..k]), Collect(rs).error)
  {
    if rs != [] && Collect(rs).Failure? {
      var n := |rs| - 1;
      var prev := Collect(rs[..n]);
      if prev.Failure? {
        CollectFirstError(rs[..n]);
        var k :| 0 <= k < n && NoBadNumber(rs[..n][..k]) && UniqueHosts(RowsOf(rs[..n][..k]))
                 && Raises(rs[..n][k], RowsOf(rs[..n][..k]), prev.error);
        assert rs[..n][..k] == rs[..k] && rs[..n][k] == rs[k];
        assert Collect(rs) == prev;
      } else {
        assert Raises(rs[n], RowsOf(rs[..n]), Collect(rs).error);
      }
    }
  }

  /** `parseWgetHstsKnownHostsDatabase` over the lines of the file. */
  function ParseKnownHosts(lines: seq<string>): Result<seq<Entry>, DatabaseError> {
    Collect(ParseLines(lines))
  }

  // ---------------------------------------------------------------- round trip

  /** The five printed fields of an entry read back as that entry. */
  lemma FieldsRoundTrip(e: Entry)
    requires e.hostname == [] || (e.hostname[0] > ' ' && e.hostname[|e.hostname| - 1] > ' ')
    ensures ParseFields(e.Fields()) == Row(e)
  {
    var fs := e.Fields();
    FormatIntIsWord(e.port as int);
    FormatIntIsWord(e.created as int);
    FormatIntIsWord(e.maxAge as int);
    TrimIdentity(fs[0]);
    TrimIdentity(fs[1]);
    TrimIdentity(fs[2]);
    TrimIdentity(fs[3]);
    TrimIdentity(fs[4]);
    FormatParseRoundTrip(e.port);
    FormatParseRoundTrip(e.created);
    FormatParseRoundTrip(e.maxAge);
  }

  /** A printed row is its own trim, is not a comment and splits into its fields. */
  lemma PrintedLineSplits(e: Entry)
    requires WellFormedHost(e.hostname)
    ensures Trim(e.ToString()) == e.ToString()
    ensures !StartsWith(e.ToString(), "#")
    ensures SplitOnSpaces(e.ToString()) == e.Fields()
  {
    var fs := e.Fields();
    var line := e.ToString();
    FormatIntIsWord(e.maxAge as int);
    assert AreWords(fs) by {
      FormatIntIsWord(e.port as int);
      FormatIntIsWord(e.created as int);
    }
    ToStringIsJoin(e);
    SplitJoin(fs);
    assert !StartsWith(line, "#") by {
      assert line[..1][0] == line[0] == fs[0][0];
    }
  }

  /** What `toString` writes, parsing reads back: the same five field values. */
  lemma LineRoundTrip(e: Entry)
    requires WellFormedHost(e.hostname)
    ensures ParseLine(e.ToString()) == Row(e)
  {
    PrintedLineSplits(e);
    FieldsRoundTrip(e);
  }

  /** Every hostname the parser produces is well formed, so its line round-trips. */
  lemma ParsedHostWellFormed(line: string)
    requires ParseLine(line).Row?
    ensures WellFormedHost(ParseLine(line).entry.hostname)
  {
    var t := Trim(line);
    assert !StartsWith(t, "#");
    var fields := SplitOnSpaces(t);
    assert |fields| == 5;
    FirstFieldWellFormed(t);
  }

  /**
   * The first of several fields of a trimmed line that is not a comment is
   * non-empty, separator-free and does not start with `#`.
   */
  lemma FirstFieldWellFormed(t: string)
    requires t == [] || (t[0] > ' ' && t[|t| - 1] > ' ')
    requires !StartsWith(t, "#")
    requires |SplitOnSpaces(t)| > 1
    ensures WellFormedHost(Trim(SplitOnSpaces(t)[0]))
  {
    OnePieceIffNoSeparator(t);
    assert t != [];
    assert !IsSeparator(t[0]);
    SplitFirstField(t);
    WordLengthSpec(t);
    var f0 := SplitOnSpaces(t)[0];
    assert f0 == t[..WordLength(t)] && f0 != [] && f0[0] == t[0];
    TrimVisibleStart(f0);
    var h := Trim(f0);
    assert h[0] == f0[0];
    forall k | 0 <= k < |h|
      ensures !IsSeparator(h[k])
    {
      assert h[k] == f0[k];
    }
  }

  // ---------------------------------------------------------------- printed files

  /** The rows among results that are skipped lines followed by the given rows. */
  lemma {:induction false} RowsOfSkippedThenRows(rs: seq<LineResult>, c: nat, rows: seq<Entry>)
    requires |rs| == c + |rows|
    requires forall i :: 0 <= i < c ==> rs[i].Skipped?
    requires forall k :: c <= k < |rs| ==> rs[k] == Row(rows[k - c])
    ensures RowsOf(rs) == rows && NoBadNumber(rs)
  {
    if rows == [] {
      RowsOfSkipped(rs);
    } else {
      var n := |rows| - 1;
      var front := rs[..|rs| - 1];
      assert forall k :: c <= k < |front| ==> front[k] == rs[k];
      RowsOfSkippedThenRows(front, c, rows[..n]);
      assert rs[|rs| - 1] == Row(rows[n]);
      assert rows[..n] + [rows[n]] == rows;
      NoBadNumberSnoc(rs);
    }
  }

  lemma {:induction false} RowsOfSkipped(rs: seq<LineResult>)
    requires forall i :: 0 <= i < |rs| ==> rs[i].Skipped?
    ensures RowsOf(rs) == [] && NoBadNumber(rs)
  {
    if rs != [] {
      RowsOfSkipped(rs[..|rs| - 1]);
    }
  }

  /** Each printed row, after the comment lines, reads back as its entry. */
  lemma PrintedLinesParse(comments: seq<string>, rows: seq<Entry>)
    requires forall i :: 0 <= i < |rows| ==> WellFormedHost(rows[i].hostname)
    ensures forall k :: |comments| <= k < |comments| + |rows| ==>
              ParseLines(comments + ToLines(rows))[k] == Row(rows[k - |comments|])
  {
    var lines := comments + ToLines(rows);
    forall k | |comments| <= k < |comments| + |rows|
      ensures ParseLines(lines)[k] == Row(rows[k - |comments|])
    {
      var e := rows[k - |comments|];
      assert lines[k] == e.ToString();
      LineRoundTrip(e);
    }
  }

  /** The comment lines in front of the printed rows are skipped. */
  lemma CommentLinesParse(comments: seq<string>, rows: seq<Entry>)
    requires forall i :: 0 <= i < |comments| ==> ParseLine(comments[i]).Skipped?
    ensures forall i :: 0 <= i < |comments| ==> ParseLines(comments + ToLines(rows))[i].Skipped?
  {
    var lines := comments + ToLines(rows);
    forall i | 0 <= i < |comments|
      ensures ParseLines(lines)[i].Skipped?
    {
      assert lines[i] == comments[i];
    }
  }

  /** The line results of comment lines followed by printed rows, one by one. */
  lemma PrintedResults(comments: seq<string>, rows: seq<Entry>)
    requires forall i :: 0 <= i < |comments| ==> ParseLine(comments[i]).Skipped?
    requires forall i :: 0 <= i < |rows| ==> WellFormedHost(rows[i].hostname)
    ensures var rs := ParseLines(comments + ToLines(rows));
            && |rs| == |comments| + |rows|
            && (forall i :: 0 <= i < |comments| ==> rs[i].Skipped?)
            && (forall k :: |comments| <= k < |rs| ==> rs[k] == Row(rows[k - |comments|]))
  {
    CommentLinesParse(comments, rows);
    PrintedLinesParse(comments, rows);
  }

  /** Results of comment lines followed by printed rows. */
  lemma RowsOfPrinted(comments: seq<string>, rows: seq<Entry>)
    requires forall i :: 0 <= i < |comments| ==> ParseLine(comments[i]).Skipped?
    requires forall i :: 0 <= i < |rows| ==> WellFormedHost(rows[i].hostname)
    ensures RowsOf(ParseLines(comments + ToLines(rows))) == rows
    ensures NoBadNumber(ParseLines(comments + ToLines(rows)))
  {
    PrintedResults(comments, rows);
    RowsOfSkippedThenRows(ParseLines(comments + ToLines(rows)), |comments|, rows);
  }

  /**
   * A file made of comment lines and the printed rows of a map (unique,
   * well-formed hostnames) parses back to exactly those rows, in order.
   */
  lemma ParsePrinted(comments: seq<string>, rows: seq<Entry>)
    requires forall i :: 0 <= i < |comments| ==> ParseLine(comments[i]).Skipped?
    requires forall i :: 0 <= i < |rows| ==> WellFormedHost(rows[i].hostname)
    requires UniqueHosts(rows)
    ensures ParseKnownHosts(comments + ToLines(rows)) == Success(rows)
  {
    RowsOfPrinted(comments, rows);
  }

  /** The rows of a successful parse all have well-formed hostnames. */
  lemma {:induction false} ParsedRowsWellFormed(lines: seq<string>)
    ensures forall i :: 0 <= i < |RowsOf(ParseLines(lines))| ==>
              WellFormedHost(RowsOf(ParseLines(lines))[i].hostname)
  {
    RowsWellFormed(ParseLines(lines), lines);
  }

  lemma {:induction false} RowsWellFormed(rs: seq<LineResult>, lines: seq<string>)
    requires |rs| == |lines| && forall i :: 0 <= i < |rs| ==> rs[i] == ParseLine(lines[i])
    ensures forall i :: 0 <= i < |RowsOf(rs)| ==> WellFormedHost(RowsOf(rs)[i].hostname)
  {
    if rs != [] {
      var n := |rs| - 1;
      RowsWellFormed(rs[..n], lines[..n]);
      if rs[n].Row? {
        ParsedHostWellFormed(lines[n]);
      }
    }
  }
}
