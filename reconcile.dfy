/**
 * The reconciliation of the known-hosts database with the preload list:
 * which known rows the updater itself wrote, which of them to drop, which to
 * rewrite, and which preload entries end up written.
 */
module Reconcile {
  import opened Wrappers
  import opened JavaInt
  import opened HstsEntry
  import opened Preload

  /**
   * The mark of a row written by this updater: created is `Integer.MAX_VALUE`
   * and max-age is 0. Every other row is hand-edited or came from Wget itself.
   */
  predicate IsPreloadOrigin(e: Entry) {
    e.created as int == INT_MAX && e.maxAge == 0
  }

  /** `retrieveWgetHstsPreloadedHosts`: the known rows carrying the mark, keyed as before. */
  function PreloadOriginHosts(known: map<string, Entry>): (r: map<string, Entry>)
    ensures r.Keys <= known.Keys
    ensures forall h :: h in r ==> r[h] == known[h] && IsPreloadOrigin(r[h])
    ensures forall h :: h in known && IsPreloadOrigin(known[h]) ==> h in r
  {
    map h | h in known && IsPreloadOrigin(known[h]) :: known[h]
  }

  /**
   * `computeHostsToRemove`: the marked hosts that the preload list no longer
   * names, whatever the mode of the entries it does name.
   */
  function HostsToRemove(preloadNames: set<string>, originHosts: set<string>): (r: set<string>)
    ensures r <= originHosts && r !! preloadNames
    ensures originHosts <= r + preloadNames
  {
    set h | h in originHosts && h !in preloadNames
  }

  /**
   * `computeHostsToUpdate`: the marked hosts the preload list still names
   * whose include-subdomains value no longer matches
   * `includeSubdomains || includeSubdomainsForPinning` of the entry.
   */
  function HostsToUpdate(preload: map<string, PreloadEntry>, origin: map<string, Entry>): (r: set<string>)
    ensures r <= origin.Keys && r <= preload.Keys
    ensures forall h :: h in r ==> SubdomainsFlag(preload[h]) != origin[h].includeSubdomains
    ensures forall h :: h in origin && h in preload && h !in r ==>
              SubdomainsFlag(preload[h]) == origin[h].includeSubdomains
  {
    set h | h in origin && h in preload && SubdomainsFlag(preload[h]) != origin[h].includeSubdomains
  }

  /**
   * `computeEntriesToWrite`: the force-https entries that are either unknown
   * to the database or due for an update. A name the database holds for any
   * other reason is never written.
   */
  function EntriesToWrite(preload: map<string, PreloadEntry>, known: map<string, Entry>, update: set<string>)
    : (r: map<string, PreloadEntry>)
    ensures r.Keys <= preload.Keys
    ensures forall n :: n in r ==> r[n] == preload[n] && IsForceHttps(r[n]) && (n !in known || n in update)
    ensures forall n :: n in preload && IsForceHttps(preload[n]) && (n !in known || n in update) ==> n in r
  {
    map n | n in preload && IsForceHttps(preload[n]) && (n !in known || n in update) :: preload[n]
  }

  /** What one run decided: the known rows in file order and the three outcomes. */
  datatype Plan = Plan(
    known: seq<Entry>,
    remove: set<string>,
    update: set<string>,
    toWrite: map<string, PreloadEntry>)

  /**
   * The body of `execute` up to the write: with a destination file its rows
   * are reconciled; without one the known map, the removals and the updates
   * are all empty.
   */
  function PlanFor(preload: map<string, PreloadEntry>, known: Option<seq<Entry>>): Plan {
    match known
    case None => Plan([], {}, {}, EntriesToWrite(preload, map[], {}))
    case Some(rows) =>
      var knownMap := ToMap(rows);
      var origin := PreloadOriginHosts(knownMap);
      var update := HostsToUpdate(preload, origin);
      Plan(rows, HostsToRemove(preload.Keys, origin.Keys), update, EntriesToWrite(preload, knownMap, update))
  }

  /** `!entriesToWrite.isEmpty() || !hostsToRemove.isEmpty()`: the run writes. */
  predicate Writes(p: Plan) {
    p.toWrite != map[] || p.remove != {}
  }

  // ---------------------------------------------------------------- properties

  /** No host is both removed and updated: removal needs an absent name, update a present one. */
  lemma RemoveUpdateDisjoint(preload: map<string, PreloadEntry>, known: Option<seq<Entry>>)
    ensures PlanFor(preload, known).remove !! PlanFor(preload, known).update
  {
  }

  /**
   * Removal and update only ever touch marked rows, and a name the database
   * holds is written only when it is updated.
   */
  lemma PlanTouchesOnlyMarkedRows(preload: map<string, PreloadEntry>, rows: seq<Entry>, i: int)
    requires 0 <= i < |rows| && UniqueHosts(rows)
    requires !IsPreloadOrigin(rows[i])
    ensures var p := PlanFor(preload, Some(rows));
            rows[i].hostname !in p.remove && rows[i].hostname !in p.update && rows[i].hostname !in p.toWrite
  {
    var m := ToMap(rows);
    assert m[rows[i].hostname] == rows[i];
  }

  /**
   * Removal ignores the mode: a marked host that the list still names is
   * kept, even when its entry is not force-https and so is never written.
   */
  lemma RemovalIgnoresMode(preload: map<string, PreloadEntry>, rows: seq<Entry>, h: string)
    requires h in preload && h in Hosts(rows)
    ensures h !in PlanFor(preload, Some(rows)).remove
    ensures !IsForceHttps(preload[h]) ==> h !in PlanFor(preload, Some(rows)).toWrite
  {
  }

  /** Without a destination file every force-https entry is written, as an insert. */
  lemma DestinationAbsent(preload: map<string, PreloadEntry>)
    ensures var p := PlanFor(preload, None);
            && p.known == [] && p.remove == {} && p.update == {}
            && forall n :: n in preload ==> (n in p.toWrite <==> IsForceHttps(preload[n]))
  {
  }

  /** An absent destination plans exactly like an empty one. */
  lemma AbsentIsEmpty(preload: map<string, PreloadEntry>)
    ensures PlanFor(preload, None) == PlanFor(preload, Some([]))
  {
    var p := PlanFor(preload, Some([]));
    assert ToMap([]) == map[];
    assert PreloadOriginHosts(map[]) == map[];
    assert p.remove == {};
    assert p.update == {};
  }
}
