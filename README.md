# update-wget-hsts, modelled in Dafny

This project models the core of `update-wget-hsts`. The tool merges GNU Wget's HSTS known-hosts
database (`~/.wget-hsts`) with the Chromium HSTS preload list
(`transport_security_state_static.json`). A run goes like this:

- It builds a map from name to entry out of the decoded preload list. A repeated name throws
  `IllegalStateException`.
- It reads the existing database, if there is one, into an insertion-ordered map from hostname to
  row. Comment lines and lines that do not have exactly five fields are skipped. A bad number or a
  repeated hostname throws.
- It decides which rows the tool itself wrote earlier. Such a row is marked by
  created = `Integer.MAX_VALUE` and max-age = 0. Some of those rows are removed and some are
  updated. It also decides which force-https entries get written.
- When there is an entry to write or a host to remove, it writes a new file. A pending update
  alone does not cause a write. The file holds three header lines, the retained rows in file order,
  and then the new rows sorted by `String.compareTo`.
  If the destination exists, it is first copied to the first free `dest.bak.gz` / `dest.bak.N.gz`.
  Finally the new file is moved onto the destination.

Both versions of the updater are covered: `UpdateWgetHsts` (picocli) and `WgetHstsDatabaseUpdater`
(the older `main`-based one). Their logic is the same. The older one iterates `entrySet()` with
`getKey()` where the newer one iterates `values()` with `getHostname()`. The key of every row is its
hostname, so the two agree. The table cites whichever file states a property more directly.

Modules, from the leaves up:

| file | module | models |
|---|---|---|
| `wrappers.dfy` | `Wrappers` | `Option`/`Result` standing in for null and for exceptions |
| `java_int.dfy` | `JavaInt` | 32-bit `int`, `%d` formatting, `Integer.parseInt` |
| `java_string.dfy` | `JavaString` | `trim`, `split("[\\t\\s]+")`, `startsWith`, `compareTo`, `equalsIgnoreCase` |
| `hsts_entry.dfy` | `HstsEntry` | `WgetHstsEntry`, `WgetHstsDatabaseEntry`, their `toString` |
| `known_hosts.dfy` | `KnownHosts` | `parseWgetHstsKnownHostsDatabase` |
| `preload.dfy` | `Preload` | preload entries, the `toMap` of `parseChromiumHstsPreloadedList` |
| `reconcile.dfy` | `Reconcile` | `retrieveWgetHstsPreloadedHosts`, `computeHostsToRemove/Update`, `computeEntriesToWrite` |
| `writer.dfy` | `Writer` | the lines `createUpToDateWgetHstsTempFile` writes |
| `pipeline.dfy` | `Pipeline` | a whole run on values; the written file parses back; the second run is a no-op |
| `file_system.dfy` | `Files` | the file system as a class holding a `map<Path, seq<string>>`; its constructor sets up the model's initial state and stands for no line of the program |
| `updater.dfy` | `Updater` | the state-changing part of `execute`: temp file, backup probing, move |
| `fixtures.dfy` | `Fixtures` | data built to meet the unit tests' assertions (not the test resource files, which are not part of this model), single-line parser examples, and edge cases of a run |

The headline results:

- `Pipeline.SecondRunIsNoOp` and `Updater.RunTwice`: a second run on the same preload list changes
  nothing.
- `Reconcile.RemoveUpdateDisjoint`: no host is both removed and updated.
- `Pipeline.HandEditedRowKept`: a row without the mark is written back unchanged.
- `KnownHosts.LineRoundTrip`: parsing a printed row gives the row back.
- `Pipeline.OutputParses`: the written database parses back to exactly its rows.
- `Updater.Execute`: a run with no entry to write and no host to remove touches no file. Otherwise the destination ends up with
  the new lines and the old content sits under the first free backup name.

The idempotence result needs one condition. Every force-https preload name must be a hostname a
database line can hold (`KnownHosts.WellFormedHost`): non-empty; first and last characters above
U+0020, which `trim` would drop; no separator, that is no tab and no character Java's `\s` matches;
and a first character other than `#`. A name with a space in it is written as a line of six fields
(`Fixtures.SpacedNameLineSkipped`). The next parse skips that line, and every run inserts the name
again (`Fixtures.SpacedNameRewrittenEveryRun`).

Points where the code's behaviour is easy to mistake:

- **Repeated preload names.** The preload list is collected with `Collectors.toMap` without a merge
  function, so a repeated name throws `IllegalStateException`; it is not last-write-wins.
  `Preload.PreloadMap` returns `Failure(DuplicateName(..))`.
- **Missing `name`.** The code does not check that a preload record has a `name`. Gson leaves the field
  null and `toMap` then files the entry under the null key. The model gives every entry a name (see
  Left out).
- **Disjointness.** Removal takes marked hosts the list does not name; update takes marked hosts the
  list does name. `Reconcile.RemoveUpdateDisjoint` proves the two sets disjoint for every input.
- **Non-force-https updates.** A marked host whose preload entry is not force-https is due for an update
  when its include-subdomains value disagrees with the list. The update set is not part of the write
  condition (`UpdateWgetHsts.java:112`, `WgetHstsDatabaseUpdater.java:97`), which looks only at the
  entries to write and the hosts to remove. When the run writes for some other reason, the host is
  filtered out of the retained rows but never rewritten, so it disappears from the file
  (`Pipeline.UpdatedNotForceHttpsDisappears`). When nothing else is to be written or removed, the run
  writes nothing and the row stays as it is, run after run (`Fixtures.UpdateWithoutWrite`).

## Model

| member | source | states |
|---|---|---|
| `JavaInt.FormatInt` | src/main/java/org/gnu/wget/WgetHstsEntry.java:23 | `%d` of an int; definition, no contract of its own; its meaning is stated by `FormatParseRoundTrip`, `FormatIntInjective` and `HstsEntry.FormatIntIsWord` |
| `JavaInt.ParseInt32` | src/main/java/io/github/albertus82/wget/UpdateWgetHsts.java:213 | `Integer.parseInt`; definition, no contract of its own; its meaning is stated by `FormatParseRoundTrip`, `ParseInt32OutOfRange` and `ParseInt32Forms` |
| `JavaInt.FormatParseRoundTrip` | src/main/java/io/github/albertus82/wget/UpdateWgetHsts.java:213 | `Integer.parseInt` of what `%d` printed for a 32-bit int gives that int back |
| `JavaInt.ParseInt32OutOfRange` | src/main/java/WgetHstsDatabaseUpdater.java:195 | a decimal integer outside the 32-bit signed range is a NumberFormatException |
| `JavaInt.ParseInt32Forms` | src/main/java/io/github/albertus82/wget/UpdateWgetHsts.java:213 | `parseInt` refuses the empty string, a lone sign and trailing garbage; it accepts `+` and leading zeros |
| `JavaInt.FormatIntInjective` | src/main/java/org/gnu/wget/WgetHstsEntry.java:23 | distinct ints print as distinct `%d` strings |
| `JavaString.Trim` | src/main/java/io/github/albertus82/wget/UpdateWgetHsts.java:212 | `String.trim` leaves no character at or below U+0020 at either end and never lengthens |
| `JavaString.TrimStartSpec` | src/main/java/io/github/albertus82/wget/UpdateWgetHsts.java:212 | the leading part trim drops is exactly the maximal run of characters at or below U+0020 |
| `JavaString.TrimEndSpec` | src/main/java/io/github/albertus82/wget/UpdateWgetHsts.java:212 | the trailing part trim drops is exactly the maximal run of characters at or below U+0020 |
| `JavaString.SplitOnSpaces` | src/main/java/io/github/albertus82/wget/UpdateWgetHsts.java:210-212 | `split("[\\t\\s]+")`; definition, no contract of its own; its meaning is stated by `OnePieceIffNoSeparator`, `SplitOneIffNoSeparator` and `SplitJoin` |
| `JavaString.OnePieceIffNoSeparator` | src/main/java/io/github/albertus82/wget/UpdateWgetHsts.java:210 | the pieces between separator runs, empty ones included, are one exactly when the line has no separator (the no-match case of `Pattern.split`) |
| `JavaString.SplitOneIffNoSeparator` | src/main/java/io/github/albertus82/wget/UpdateWgetHsts.java:212 | on a trimmed line, `split("[\\t\\s]+")` gives exactly one field exactly when the line has no separator |
| `JavaString.SplitJoin` | src/main/java/io/github/albertus82/wget/UpdateWgetHsts.java:212 | two or more non-empty separator-free fields, the first starting and the last ending with a character above U+0020, joined by tabs, trim to themselves and split back into exactly those fields |
| `JavaString.CompareTo` | src/main/java/io/github/albertus82/wget/UpdateWgetHsts.java:236 | `String.compareTo`; definition, no contract of its own; its meaning is stated by `CompareToZero`, `CompareToAntisymmetric`, `LessTransitive` and `LessTrichotomy` |
| `JavaString.CompareToZero` | src/main/java/io/github/albertus82/wget/UpdateWgetHsts.java:236 | `compareTo` is 0 exactly for equal strings |
| `JavaString.CompareToAntisymmetric` | src/main/java/io/github/albertus82/wget/UpdateWgetHsts.java:236 | `a.compareTo(b) == -b.compareTo(a)` |
| `JavaString.LessTransitive` | src/main/java/io/github/albertus82/wget/UpdateWgetHsts.java:236 | the `compareTo` order is transitive |
| `JavaString.LessTrichotomy` | src/main/java/WgetHstsDatabaseUpdater.java:102 | exactly one of a < b, a = b, b < a: a strict total order to sort hostnames by |
| `JavaString.EqualsIgnoreCase` | src/main/java/io/github/albertus82/wget/UpdateWgetHsts.java:136 | `String.equalsIgnoreCase`; definition, no contract of its own; its meaning is stated by `EqualsIgnoreCaseAscii` and `Preload.ForceHttpsModes` |
| `JavaString.EqualsIgnoreCaseAscii` | src/main/java/io/github/albertus82/wget/UpdateWgetHsts.java:136 | for ASCII input and a lower-case ASCII literal, `equalsIgnoreCase` is equality after ASCII lower-casing, both ways |
| `HstsEntry.Entry.ToString` | src/main/java/org/gnu/wget/WgetHstsEntry.java:22-24 | `WgetHstsEntry.toString`; definition, no contract of its own; its meaning is stated by `ToStringIsJoin` and `KnownHosts.LineRoundTrip` |
| `HstsEntry.FlagField` | src/main/java/org/gnu/wget/WgetHstsEntry.java:23 | the flag column is `1` exactly when include-subdomains is set and `0` exactly when not |
| `HstsEntry.ToStringIsJoin` | src/main/java/org/gnu/wget/WgetHstsEntry.java:23 | `toString` is the five fields hostname, port, flag, created, max-age joined by single tabs |
| `HstsEntry.SameLineFormat` | src/main/java/org/gnu/wget/WgetHstsDatabaseEntry.java:16 | for equal field values `WgetHstsDatabaseEntry` writes the same line as `WgetHstsEntry` |
| `HstsEntry.BuilderDefaults` | src/main/java/org/gnu/wget/WgetHstsEntry.java:11-20 | fields the builder is not given are 0 or false; `WgetHstsDatabaseEntry.port` starts at 0 |
| `HstsEntry.FormatIntIsWord` | src/main/java/org/gnu/wget/WgetHstsEntry.java:23 | a printed int is one non-empty word without white space |
| `HstsEntry.ToLines` | src/main/java/io/github/albertus82/wget/UpdateWgetHsts.java:237 | `map(WgetHstsEntry::toString)`: one line per row, in the same order |
| `HstsEntry.ToMap` | src/main/java/io/github/albertus82/wget/UpdateWgetHsts.java:213-215 | the map view of rows: its keys are their hostnames, each row is filed under its own hostname, and with distinct hostnames every row is found under its hostname |
| `HstsEntry.UniqueHostsSnoc` | src/main/java/io/github/albertus82/wget/UpdateWgetHsts.java:213-215 | appending a row keeps hostnames distinct exactly when its hostname is new |
| `KnownHosts.ParseLine` | src/main/java/io/github/albertus82/wget/UpdateWgetHsts.java:212-213 | trim, comment filter, split, five-field filter and the builder, for one line; definition, no contract of its own; its meaning is stated by `LineRoundTrip`, `ParsedHostWellFormed` and `Pipeline.CommentSkipped` |
| `KnownHosts.ParseFields` | src/main/java/io/github/albertus82/wget/UpdateWgetHsts.java:213 | the builder call over five fields; definition, no contract of its own; its meaning is stated by `FieldsRoundTrip` |
| `KnownHosts.ParseKnownHosts` | src/main/java/io/github/albertus82/wget/UpdateWgetHsts.java:209-216 | `parseWgetHstsKnownHostsDatabase`; definition, no contract of its own; its meaning is stated by `Collect`, `CollectFirstError`, `ParsePrinted` and `Pipeline.OutputParses` |
| `KnownHosts.ParseLines` | src/main/java/io/github/albertus82/wget/UpdateWgetHsts.java:211-212 | one line result per line of the file, in file order |
| `KnownHosts.Collect` | src/main/java/io/github/albertus82/wget/UpdateWgetHsts.java:213-215 | the parse succeeds exactly when no line has a bad number and no hostname repeats, and then yields the rows in file order; a NumberFormat error names a bad field of some line; a duplicate-key error carries a row whose hostname occurs twice |
| `KnownHosts.CollectFirstError` | src/main/java/io/github/albertus82/wget/UpdateWgetHsts.java:213-215 | a failed parse reports the first exception in file order: all earlier lines went through cleanly, and that line has the bad number or the repeated hostname, reported with the row already held |
| `KnownHosts.FieldsRoundTrip` | src/main/java/io/github/albertus82/wget/UpdateWgetHsts.java:213 | the five printed fields of a row read back as that row |
| `KnownHosts.PrintedLineSplits` | src/main/java/io/github/albertus82/wget/UpdateWgetHsts.java:212 | a printed row with a well-formed hostname is its own trim, is not a comment, and splits into its five fields |
| `KnownHosts.LineRoundTrip` | src/main/java/org/gnu/wget/WgetHstsEntry.java:23 | for a well-formed hostname (non-empty, first and last characters above U+0020, no tab or `\s` character, not starting with `#`), parsing the `toString` line gives back an equal row |
| `KnownHosts.ParsedHostWellFormed` | src/main/java/io/github/albertus82/wget/UpdateWgetHsts.java:212-213 | every hostname the parser produces is well-formed: non-empty, first and last characters above U+0020, no tab or `\s` character, first character not `#` |
| `KnownHosts.ParsedRowsWellFormed` | src/main/java/WgetHstsDatabaseUpdater.java:195 | all rows of a parse have such hostnames, so every parsed row round-trips |
| `KnownHosts.ParsePrinted` | src/main/java/io/github/albertus82/wget/UpdateWgetHsts.java:209-216 | comment lines followed by the printed rows of a map (distinct, well-formed hostnames) parse back to exactly those rows, in order |
| `Preload.PreloadMap` | src/main/java/WgetHstsDatabaseUpdater.java:190 | building the map succeeds exactly when names are distinct; then its keys are the names and every entry is filed under its name; otherwise the error names a name that occurs twice |
| `Preload.IsForceHttps` | src/main/java/io/github/albertus82/wget/UpdateWgetHsts.java:136 | `"force-https".equalsIgnoreCase(getMode())`; definition, no contract of its own; its meaning is stated by `ForceHttpsAscii` and `ForceHttpsModes` |
| `Preload.SubdomainsFlag` | src/main/java/io/github/albertus82/wget/UpdateWgetHsts.java:142 | `isIncludeSubdomains() || isIncludeSubdomainsForPinning()`; definition, no contract of its own; its meaning is stated by `Reconcile.HostsToUpdate` and `Writer.NewRow` |
| `Preload.ForceHttpsAscii` | src/main/java/io/github/albertus82/wget/UpdateWgetHsts.java:136 | an ASCII mode is force-https exactly when it lower-cases to `force-https` |
| `Preload.ForceHttpsModes` | src/main/java/WgetHstsDatabaseUpdater.java:130 | `force-https`, `FORCE-HTTPS` and the long-s spelling pass; `force-http` and a missing mode fail |
| `Reconcile.IsPreloadOrigin` | src/main/java/io/github/albertus82/wget/UpdateWgetHsts.java:151 | the mark `created == Integer.MAX_VALUE && maxAge == 0`; definition, no contract of its own; its meaning is stated by `PreloadOriginHosts` and `Writer.NewRow` |
| `Reconcile.PlanFor` | src/main/java/io/github/albertus82/wget/UpdateWgetHsts.java:84-108 | the known map, removals, updates and entries to write, on either branch of the existence test; definition, no contract of its own; its meaning is stated by `HostsToRemove`, `HostsToUpdate`, `EntriesToWrite`, `DestinationAbsent`, `AbsentIsEmpty` and `Pipeline.PlanFacts` |
| `Reconcile.Writes` | src/main/java/io/github/albertus82/wget/UpdateWgetHsts.java:112 | the write guard `!entriesToWrite.isEmpty() || !hostsToRemove.isEmpty()`; definition, no contract of its own; its meaning is stated by `Pipeline.PlanIdle`, `Updater.Execute` and `Fixtures.UpdateWithoutWrite` |
| `Reconcile.PreloadOriginHosts` | src/main/java/io/github/albertus82/wget/UpdateWgetHsts.java:150-152 | exactly the known rows with created `Integer.MAX_VALUE` and max-age 0, each under its own key |
| `Reconcile.HostsToRemove` | src/main/java/WgetHstsDatabaseUpdater.java:140-142 | a subset of the marked hosts, disjoint from the preload names, and covering every marked host the list does not name |
| `Reconcile.HostsToUpdate` | src/main/java/WgetHstsDatabaseUpdater.java:133-138 | marked hosts the list still names whose flag differs from `incl OR pinning`; every other marked and listed host agrees with the list |
| `Reconcile.EntriesToWrite` | src/main/java/io/github/albertus82/wget/UpdateWgetHsts.java:135-137 | a preload entry is written exactly when it is force-https and its name is unknown to the database or due for an update |
| `Reconcile.RemoveUpdateDisjoint` | src/main/java/io/github/albertus82/wget/UpdateWgetHsts.java:139-148 | no host is both removed and updated |
| `Reconcile.PlanTouchesOnlyMarkedRows` | src/main/java/io/github/albertus82/wget/UpdateWgetHsts.java:135-152 | a row without the mark is never removed, never updated, and no entry is written for its hostname |
| `Reconcile.RemovalIgnoresMode` | src/main/java/io/github/albertus82/wget/UpdateWgetHsts.java:146-148 | a known host the list names is never removed, whatever its mode; a non-force-https entry is never written |
| `Reconcile.DestinationAbsent` | src/main/java/WgetHstsDatabaseUpdater.java:86-93 | without a destination the known rows, removals and updates are empty, and an entry is written exactly when it is force-https |
| `Reconcile.AbsentIsEmpty` | src/main/java/io/github/albertus82/wget/UpdateWgetHsts.java:101-105 | a missing destination plans exactly like an empty database |
| `Writer.HEADER` | src/main/java/io/github/albertus82/wget/UpdateWgetHsts.java:187 | the three header lines; definition, no contract of its own; its meaning is stated by `Comment` and `Pipeline.HeaderSkipped` |
| `Writer.Comment` | src/main/java/io/github/albertus82/wget/UpdateWgetHsts.java:187 | each header line starts with `#` |
| `Writer.Retained` | src/main/java/io/github/albertus82/wget/UpdateWgetHsts.java:235 | a row is retained exactly when it is a known row whose hostname is neither removed nor updated |
| `Writer.RetainedAppend` | src/main/java/WgetHstsDatabaseUpdater.java:101 | the filter distributes over concatenation, so retained rows keep file order |
| `Writer.RetainedHosts` | src/main/java/WgetHstsDatabaseUpdater.java:101 | the retained hostnames are the known ones minus removals and updates |
| `Writer.RetainedUnique` | src/main/java/io/github/albertus82/wget/UpdateWgetHsts.java:235 | retained rows keep distinct hostnames |
| `Writer.NewRow` | src/main/java/io/github/albertus82/wget/UpdateWgetHsts.java:236 | the row for an entry has its name, port 0, flag `incl OR pinning`, and the mark (created `Integer.MAX_VALUE`, max-age 0) |
| `Writer.LeastExists` | src/main/java/io/github/albertus82/wget/UpdateWgetHsts.java:236 | every non-empty set of names has a least element under `compareTo` |
| `Writer.SortedHosts` | src/main/java/io/github/albertus82/wget/UpdateWgetHsts.java:236 | the names listed once each in strictly ascending `compareTo` order |
| `Writer.NewRows` | src/main/java/WgetHstsDatabaseUpdater.java:102 | one marked row per entry to write |
| `Writer.NewRowsSorted` | src/main/java/io/github/albertus82/wget/UpdateWgetHsts.java:236 | the new rows' hostnames are exactly the names to write; each row is built from its own entry; hostnames strictly ascend |
| `Writer.SortedUnique` | src/main/java/WgetHstsDatabaseUpdater.java:102 | strictly ascending hostnames are distinct |
| `Writer.OutputRows` | src/main/java/io/github/albertus82/wget/UpdateWgetHsts.java:235-237 | `Stream.concat(retained, updated)`; definition, no contract of its own; its meaning is stated by `Pipeline.OutputRowsFacts` and `Pipeline.OutputParses` |
| `Writer.OutputLines` | src/main/java/io/github/albertus82/wget/UpdateWgetHsts.java:233-237 | the file is the three header lines followed by one line per output row |
| `Pipeline.Run` | src/main/java/io/github/albertus82/wget/UpdateWgetHsts.java:75-108 | a run plans exactly when the preload map builds and, with a destination, the database parses; a database error arises only after the preload map built; the plan's rows are the parsed rows |
| `Pipeline.CommentSkipped` | src/main/java/io/github/albertus82/wget/UpdateWgetHsts.java:212 | a line starting with `#` is skipped |
| `Pipeline.HeaderSkipped` | src/main/java/io/github/albertus82/wget/UpdateWgetHsts.java:187 | the parser skips all three header lines |
| `Pipeline.OutputRowsFacts` | src/main/java/io/github/albertus82/wget/UpdateWgetHsts.java:233-237 | output hostnames are distinct: retained ones plus names written; a retained host keeps its known row; a written host gets the row built from its entry |
| `Pipeline.PlanFacts` | src/main/java/io/github/albertus82/wget/UpdateWgetHsts.java:93-108 | a plan over parsed rows, stated through the rows' hostnames and map |
| `Pipeline.PlanIdle` | src/main/java/io/github/albertus82/wget/UpdateWgetHsts.java:112 | when every marked host agrees with the list and every force-https name is known, nothing is removed, updated or written |
| `Pipeline.OutputParses` | src/main/java/io/github/albertus82/wget/UpdateWgetHsts.java:233-239 | the written file parses back to exactly the rows written |
| `Pipeline.HandEditedRowKept` | src/main/java/io/github/albertus82/wget/UpdateWgetHsts.java:235 | a row without the mark is written back unchanged and gets no new row beside it |
| `Pipeline.UpdatedNotForceHttpsDisappears` | src/main/java/WgetHstsDatabaseUpdater.java:101-102 | a host due for update whose entry is not force-https is absent from the written rows |
| `Pipeline.UpdatedForceHttpsRewritten` | src/main/java/io/github/albertus82/wget/UpdateWgetHsts.java:235-236 | a force-https host due for update loses its old row and gets the row built from its entry |
| `Pipeline.RemovedDisappears` | src/main/java/io/github/albertus82/wget/UpdateWgetHsts.java:235 | a removed host has no row in the written file |
| `Pipeline.ReplanIsIdle` | src/main/java/io/github/albertus82/wget/UpdateWgetHsts.java:135-152 | planning again over the rows a plan wrote finds nothing to remove, update or write |
| `Pipeline.SecondRunIsNoOp` | src/main/java/io/github/albertus82/wget/UpdateWgetHsts.java:75-132 | after a successful run, a second run on the same preload list over what the destination then holds succeeds and writes nothing |
| `Files.FileSystem.CreateTempFile` | src/main/java/io/github/albertus82/wget/UpdateWgetHsts.java:181 | a new empty file at a path not in use; nothing else changes |
| `Files.FileSystem.AppendLine` | src/main/java/io/github/albertus82/wget/UpdateWgetHsts.java:248-252 | `writeLine` appends one line to that file only |
| `Files.FileSystem.Copy` | src/main/java/io/github/albertus82/wget/UpdateWgetHsts.java:195-196 | the target holds the source's content; nothing else changes |
| `Files.FileSystem.Move` | src/main/java/io/github/albertus82/wget/UpdateWgetHsts.java:124-130 | after the move the source is gone and the target holds what the source held, on either branch |
| `Updater.BackupName` | src/main/java/io/github/albertus82/wget/UpdateWgetHsts.java:191-193 | `dest.bak.gz` for probe 0, `dest.bak.k.gz` after; definition, no contract of its own; its meaning is stated by `BackupNameInjective` and `BackupExisting` |
| `Updater.BackupNameInjective` | src/main/java/io/github/albertus82/wget/UpdateWgetHsts.java:191-193 | distinct probe numbers give distinct backup names |
| `Updater.FirstFreeUnique` | src/main/java/WgetHstsDatabaseUpdater.java:174-178 | there is at most one first free backup name |
| `Updater.ProbedBound` | src/main/java/WgetHstsDatabaseUpdater.java:176-178 | no more names can be taken than there are files, so the probing loop ends |
| `Updater.BackupExisting` | src/main/java/io/github/albertus82/wget/UpdateWgetHsts.java:190-199 | the backup goes to the first free name among `dest.bak.gz`, `dest.bak.1.gz`, ...; it receives the destination's content; nothing else changes |
| `Updater.WriteLines` | src/main/java/io/github/albertus82/wget/UpdateWgetHsts.java:238-240 | appending lines one by one leaves the file extended by exactly those lines, in order |
| `Updater.CreateUpToDateTempFile` | src/main/java/io/github/albertus82/wget/UpdateWgetHsts.java:233-246 | the new temporary file holds the header, the retained rows and the sorted new rows; nothing else changes |
| `Updater.WritePlan` | src/main/java/WgetHstsDatabaseUpdater.java:97-126 | the destination ends up with the new lines; a backup is made exactly when the destination existed, at the first free name, holding the old content; the temporary file is gone |
| `Updater.Execute` | src/main/java/io/github/albertus82/wget/UpdateWgetHsts.java:112-132 | a failed run, or one with no entry to write and no host to remove, changes no file; otherwise the files are those of `WritePlan` |
| `Updater.RunTwice` | src/main/java/WgetHstsDatabaseUpdater.java:58-127 | on the file system: a failed first run changes no file and the second fails the same way; an idle first run leaves the files as they were and the second is idle too; a first run that writes leaves the destination with the planned lines and the old content at the first free backup name, after which the second run returns Unchanged and changes no file |
| `Fixtures.ParseDigit` | src/main/java/io/github/albertus82/wget/UpdateWgetHsts.java:213 | a single digit parses as its value |
| `Fixtures.CommentLineSkipped` | src/main/java/io/github/albertus82/wget/UpdateWgetHsts.java:212 | an indented comment line is skipped |
| `Fixtures.WrongFieldCountSkipped` | src/main/java/io/github/albertus82/wget/UpdateWgetHsts.java:212 | lines of four or six fields are skipped, not errors |
| `Fixtures.FlagOnlyExactOne` | src/main/java/io/github/albertus82/wget/UpdateWgetHsts.java:213 | a flag field `01` reads as false |
| `Fixtures.NonNumberIsError` | src/main/java/io/github/albertus82/wget/UpdateWgetHsts.java:213 | a non-numeric created field is a NumberFormatException |
| `Fixtures.DatabaseParses` | src/test/java/WgetHstsDatabaseUpdaterTest.java:44-48 | a database built to meet the test's assertions parses to four rows under example.com, example.net, example.edu, github.com |
| `Fixtures.PreloadHasThreeNames` | src/test/java/WgetHstsDatabaseUpdaterTest.java:33-36 | a preload map built to meet the test's assertions has exactly example.edu, example.org, hstspreload.org |
| `Fixtures.OriginHosts` | src/test/java/WgetHstsDatabaseUpdaterTest.java:57-59 | on that data, the marked hosts are example.com and example.edu |
| `Fixtures.FixtureRemove` | src/test/java/WgetHstsDatabaseUpdaterTest.java:73-75 | on that data, the remove set is {example.com} |
| `Fixtures.FixtureUpdate` | src/test/java/WgetHstsDatabaseUpdaterTest.java:89-91 | on that data, the update set is {example.edu} |
| `Fixtures.FixtureToWrite` | src/main/java/WgetHstsDatabaseUpdater.java:129-131 | on that data, all three preload entries are written: two inserts and one update |
| `Fixtures.FixturePlan` | src/main/java/WgetHstsDatabaseUpdater.java:58-97 | the run over that data removes example.com, updates example.edu, writes three entries, and so writes a file |
| `Fixtures.FixtureRunPlan` | src/main/java/io/github/albertus82/wget/UpdateWgetHsts.java:75-108 | the run over that data decides exactly the expected plan |
| `Fixtures.FixtureOutput` | src/main/java/io/github/albertus82/wget/UpdateWgetHsts.java:233-237 | the file written keeps example.net and github.com in file order, then new rows for example.edu, example.org, hstspreload.org in that order |
| `Fixtures.FixtureNamesOrdered` | src/main/java/io/github/albertus82/wget/UpdateWgetHsts.java:236 | example.edu < example.org < hstspreload.org under `compareTo` |
| `Fixtures.SecondBackupName` | src/main/java/WgetHstsDatabaseUpdater.java:174-178 | when `dest.bak.gz` is taken and `dest.bak.1.gz` is free, the backup goes to `dest.bak.1.gz` |
| `Fixtures.UpdateWithoutWrite` | src/main/java/io/github/albertus82/wget/UpdateWgetHsts.java:112 | a marked host due for an update whose entry is not force-https, with nothing to insert or remove: the run plans the update but does not write, so the row stays |
| `Fixtures.SpacedNameLineSkipped` | src/main/java/io/github/albertus82/wget/UpdateWgetHsts.java:212 | the row written for the preload name `a b` splits into six fields, so the parser skips it |
| `Fixtures.SpacedNameRewrittenEveryRun` | src/main/java/io/github/albertus82/wget/UpdateWgetHsts.java:209-216 | with the force-https name `a b`, the first run writes, and the run over what it wrote writes again: without a well-formed name the second run is not a no-op |

## Left out

- Downloading the preload list (`retrieveSourceFile`): the HTTP request, the gzip content-encoding switch and the JSON temp-file helpers are I/O. A run starts from the decoded entry list.
- Gson decoding of the JSON document is a foreign library. The model starts from its entry list. A document without `entries` (a null list and a `NullPointerException` in the code) is not modelled. Neither is a record without `name`: in the model every entry has a name.
- Fields of the preload entries that the core never reads (`policy`, `pins`, `expect_ct`, `expect_ct_report_uri`) and the pinset classes are left out. `WgetHstsKnownHost` is a field-only class and is left out as well.
- The gzip compression of the backup is a foreign codec. The backup holds the destination's lines unchanged.
- Temporary-file names come from the operating system, so the temporary path is a parameter of `Updater.Execute` and must be fresh. POSIX permissions and the fallback without them are left out.
- `Files.move` with and without `ATOMIC_MOVE` is one `Move`. Both branches end with the destination holding the temporary content. Atomicity itself is not modelled.
- I/O failures while writing (the `catch` that deletes the temporary file and rethrows) are not modelled. File writes in the model always succeed.
- Files are sequences of lines as `Files.lines` reads them. Line terminators and character encodings are not modelled.
- `WgetHstsDatabaseEntry` is a `@Data` class whose hostname may be null, in which case `toString` prints `null`. `HstsEntry.DatabaseEntry` has a non-null hostname. The core never builds this class; it only shares the line format.
- Console output, logging, the printed counts, picocli wiring, `main`, the usage message, `loadBuildInfo` and the version providers are display or CLI glue.
- JavaString.CompareTo: compares Dafny characters (Unicode scalar values), while Java compares UTF-16 code units. The two orders differ only for strings that mix supplementary characters with characters from U+E000 to U+FFFF.
- JavaString.CharEqualsIgnoreCase: covers the characters whose Java case mapping meets an ASCII letter (the dotted and dotless i, the long s, the Kelvin sign). It works on scalar values rather than UTF-16 units.
- JavaInt.FormatInt: prints ASCII digits with no grouping, as `%d` does in the ROOT or English locale. Java's `String.format` uses the default locale, and some locales print other digits.
- JavaInt.ParseInt32: accepts ASCII digits only. `Integer.parseInt` also accepts the decimal digits of other scripts.
- Updater.BackupExisting: the probe counter is an unbounded integer. Java's `int i` would wrap after 2^31 taken names.
