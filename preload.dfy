/**
 * The Chromium HSTS preload list as the updater sees it: the decoded
 * `entries` array and the map from name to entry that
 * `parseChromiumHstsPreloadedList` builds from it.
 */
module Preload {
  import opened Wrappers
  import opened JavaString

  /**
   * `ChromiumHstsPreloadedEntry`, restricted to the fields the updater reads.
   * A JSON entry without `mode` decodes to a null mode: `None`.
   */
  datatype PreloadEntry = PreloadEntry(
    name: string,
    includeSubdomains: bool,
    includeSubdomainsForPinning: bool,
    mode: Option<string>)

  /** `Collectors.toMap` without a merge function throws on a repeated key. */
  datatype PreloadError = DuplicateName(name: string)

  function Names(entries: seq<PreloadEntry>): set<string> {
    set i | 0 <= i < |entries| :: entries[i].name
  }

  predicate UniqueNames(entries: seq<PreloadEntry>) {
    forall i, j :: 0 <= i < j < |entries| ==> entries[i].name != entries[j].name
  }

  predicate NameRepeats(entries: seq<PreloadEntry>, n: string) {
    exists i, j :: 0 <= i < j < |entries| && entries[i].name == n && entries[j].name == n
  }

  /** Every entry of the map is filed under its own name. */
  predicate KeyedByName(m: map<string, PreloadEntry>) {
    forall n :: n in m ==> m[n].name == n
  }

  lemma UniqueNamesSnoc(entries: seq<PreloadEntry>, e: PreloadEntry)
    ensures UniqueNames(entries + [e]) <==> UniqueNames(entries) && e.name !in Names(entries)
  {
    var s := entries + [e];
    assert forall i :: 0 <= i < |entries| ==> s[i] == entries[i];
    if e.name in Names(entries) {
      var k :| 0 <= k < |entries| && entries[k].name == e.name;
      assert s[k].name == s[|entries|].name;
    }
  }

  /**
   * `root.getEntries().stream().collect(Collectors.toMap(getName, identity))`:
   * one map entry per name when the names are distinct; otherwise the
   * collector stops at the first name seen a second time.
   */
  function PreloadMap(entries: seq<PreloadEntry>): (r: Result<map<string, PreloadEntry>, PreloadError>)
    ensures r.Success? <==> UniqueNames(entries)
    ensures r.Success? ==> r.value.Keys == Names(entries) && KeyedByName(r.value)
    ensures r.Success? ==> forall i :: 0 <= i < |entries| ==> r.value[entries[i].name] == entries[i]
    ensures r.Failure? ==> NameRepeats(entries, r.error.name)
  {
    if entries == [] then Success(map[])
    else
      var n := |entries| - 1;
      var front := entries[..n];
      var e := entries[n];
      assert entries == front + [e];
      UniqueNamesSnoc(front, e);
      match PreloadMap(front)
      case Failure(err) =>
        assert NameRepeats(entries, err.name) by {
          var i, j :| 0 <= i < j < |front| && front[i].name == err.name && front[j].name == err.name;
          assert entries[i] == front[i] && entries[j] == front[j];
        }
        Failure(err)
      case Success(m) =>
        if e.name in m then
          assert NameRepeats(entries, e.name) by {
            var k :| 0 <= k < |front| && front[k].name == e.name;
            assert entries[k] == front[k];
          }
          Failure(DuplicateName(e.name))
        else
          var m' := m[e.name := e];
          assert forall i :: 0 <= i < n ==> entries[i] == front[i];
          assert Names(entries) == Names(front) + {e.name};
          Success(m')
  }

  /** `"force-https".equalsIgnoreCase(mode)`: false for a missing mode. */
  predicate IsForceHttps(e: PreloadEntry) {
    e.mode.Some? && EqualsIgnoreCase("force-https", e.mode.value)
  }

  /** The include-subdomains value a row written for this entry carries. */
  function SubdomainsFlag(e: PreloadEntry): bool {
    e.includeSubdomains || e.includeSubdomainsForPinning
  }

  /**
   * For an ASCII mode, the test is "lower-cases to force-https": upper and
   * mixed case spellings pass, every other value fails.
   */
  lemma ForceHttpsAscii(e: PreloadEntry)
    requires e.mode.Some? && IsAscii(e.mode.value)
    ensures IsForceHttps(e) <==> AsciiLowerString(e.mode.value) == "force-https"
  {
    var lit := "force-https";
    assert forall i :: 0 <= i < |lit| ==> lit[i] < '\U{0080}' && !('A' <= lit[i] <= 'Z');
    assert AsciiLowerString(lit) == lit;
    EqualsIgnoreCaseAscii(lit, e.mode.value);
  }

  /** Modes of the list: upper case and the long s pass; other modes and none fail. */
  lemma ForceHttpsModes(name: string)
    ensures IsForceHttps(PreloadEntry(name, false, false, Some("force-https")))
    ensures IsForceHttps(PreloadEntry(name, false, false, Some("FORCE-HTTPS")))
    ensures IsForceHttps(PreloadEntry(name, false, false, Some("force-http\U{017F}")))
    ensures !IsForceHttps(PreloadEntry(name, false, false, Some("force-http")))
    ensures !IsForceHttps(PreloadEntry(name, false, false, None))
  {
    assert CharEqualsIgnoreCase('\U{017F}', 's');
    var upper := "FORCE-HTTPS";
    assert forall i :: 0 <= i < |upper| ==> CharEqualsIgnoreCase(upper[i], "force-https"[i]);
  }
}
