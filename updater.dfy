/**
 * The state-changing end of a run: writing the temporary database, backing
 * up the destination under the first free name, and moving the temporary
 * file into place, only when the plan has something to do.
 */
module Updater {
  import opened Wrappers
  import opened JavaInt
  import opened HstsEntry
  import opened KnownHosts
  import opened Preload
  import opened Reconcile
  import opened Writer
  import opened Pipeline
  import opened Files

  // ---------------------------------------------------------------- backup names

  /** `dest + ".bak.gz"` first, then `dest + ".bak." + k + ".gz"` for k = 1, 2, ... */
  function BackupName(dest: Path, k: nat): Path {
    if k == 0 then dest + ".bak.gz" else dest + ".bak." + FormatInt(k) + ".gz"
  }

  /** Different probe numbers give different names. */
  lemma BackupNameInjective(dest: Path, j: nat, k: nat)
    requires BackupName(dest, j) == BackupName(dest, k)
    ensures j == k
  {
    var pre := dest + ".bak.";
    if j > 0 && k > 0 {
      var a, b := FormatInt(j), FormatInt(k);
      assert BackupName(dest, j) == pre + a + ".gz";
      assert BackupName(dest, k) == pre + b + ".gz";
      assert (pre + a + ".gz")[|pre|..|pre| + |a|] == a;
      assert (pre + b + ".gz")[|pre|..|pre| + |b|] == b;
      NatToDigitsInjective(j, k);
    }
  }

  /** The name probed at k is free and every earlier one is taken. */
  predicate FirstFreeAt(files: map<Path, seq<string>>, dest: Path, k: nat) {
    BackupName(dest, k) !in files && forall j :: 0 <= j < k ==> BackupName(dest, j) in files
  }

  /** There is at most one first free name. */
  lemma FirstFreeUnique(files: map<Path, seq<string>>, dest: Path, j: nat, k: nat)
    requires FirstFreeAt(files, dest, j) && FirstFreeAt(files, dest, k)
    ensures j == k
  {
  }

  /** The names probed before the k-th. */
  function ProbedNames(dest: Path, n: nat): set<Path> {
    if n == 0 then {} else ProbedNames(dest, n - 1) + {BackupName(dest, n - 1)}
  }

  lemma {:induction false} ProbedNamesLater(dest: Path, n: nat, m: nat)
    requires n <= m
    ensures BackupName(dest, m) !in ProbedNames(dest, n)
  {
    if n > 0 {
      ProbedNamesLater(dest, n - 1, m);
      if BackupName(dest, n - 1) == BackupName(dest, m) {
        BackupNameInjective(dest, n - 1, m);
      }
    }
  }

  lemma {:induction false} ProbedNamesCount(dest: Path, n: nat)
    ensures |ProbedNames(dest, n)| == n
  {
    if n > 0 {
      ProbedNamesCount(dest, n - 1);
      ProbedNamesLater(dest, n - 1, n - 1);
    }
  }

  lemma {:induction false} ProbedNamesTaken(files: map<Path, seq<string>>, dest: Path, n: nat)
    requires forall j :: 0 <= j < n ==> BackupName(dest, j) in files
    ensures ProbedNames(dest, n) <= files.Keys
  {
    if n > 0 {
      ProbedNamesTaken(files, dest, n - 1);
    }
  }

  /** Only as many names can be taken as there are files: the probing ends. */
  lemma ProbedBound(files: map<Path, seq<string>>, dest: Path, n: nat)
    requires forall j :: 0 <= j < n ==> BackupName(dest, j) in files
    ensures n <= |files|
  {
    ProbedNamesCount(dest, n);
    ProbedNamesTaken(files, dest, n);
    SubsetCard(ProbedNames(dest, n), files.Keys);
  }

  lemma {:induction false} SubsetCard(a: set<Path>, b: set<Path>)
    requires a <= b
    ensures |a| <= |b|
    decreases |b|
  {
    if b != {} {
      var x :| x in b;
      SubsetCard(a - {x}, b - {x});
    }
  }

  /**
   * `backupExistingWgetHstsFile`: probes names until one is free, then
   * copies the destination there.
   */
  method BackupExisting(fs: FileSystem, dest: Path) returns (backup: Path)
    requires dest in fs.files
    modifies fs
    ensures exists k :: backup == BackupName(dest, k) && FirstFreeAt(old(fs.files), dest, k)
    ensures fs.files == old(fs.files)[backup := old(fs.files)[dest]]
  {
    backup := BackupName(dest, 0);
    var i := 1;
    while fs.Exists(backup)
      invariant fs.files == old(fs.files)
      invariant i >= 1 && backup == BackupName(dest, i - 1)
      invariant forall j :: 0 <= j < i - 1 ==> BackupName(dest, j) in fs.files
      decreases |fs.files| - (i - 1)
    {
      ProbedBound(fs.files, dest, i);
      backup := BackupName(dest, i);
      i := i + 1;
    }
    assert FirstFreeAt(fs.files, dest, i - 1);
    fs.Copy(dest, backup);
  }

  // ---------------------------------------------------------------- the temporary file

  /** Appends the lines in order, one `writeLine` each. */
  method WriteLines(fs: FileSystem, p: Path, lines: seq<string>)
    requires p in fs.files
    modifies fs
    ensures fs.files == old(fs.files)[p := old(fs.files)[p] + lines]
  {
    var i := 0;
    assert old(fs.files)[p] + lines[..0] == old(fs.files)[p];
    assert fs.files == old(fs.files)[p := old(fs.files)[p]];
    while i < |lines|
      invariant 0 <= i <= |lines|
      invariant fs.files == old(fs.files)[p := old(fs.files)[p] + lines[..i]]
    {
      fs.AppendLine(p, lines[i]);
      assert old(fs.files)[p] + lines[..i + 1] == (old(fs.files)[p] + lines[..i]) + [lines[i]];
      i := i + 1;
    }
    assert lines[..i] == lines;
  }

  /**
   * `createUpToDateWgetHstsTempFile`: a new file at the given temporary path
   * holding the header, the retained rows and the new rows.
   */
  method CreateUpToDateTempFile(fs: FileSystem, temp: Path, p: Plan)
    requires temp !in fs.files
    modifies fs
    ensures fs.files == old(fs.files)[temp := OutputLines(p)]
  {
    fs.CreateTempFile(temp);
    WriteLines(fs, temp, HEADER);
    assert [] + HEADER == HEADER;
    var rows := Retained(p.known, p.remove, p.update) + NewRows(p.toWrite);
    WriteLines(fs, temp, ToLines(rows));
    assert rows == OutputRows(p);
  }

  // ---------------------------------------------------------------- a run

  datatype RunResult =
    | Failed(error: RunError)
    | Unchanged
    | Written(backup: Option<Path>)

  /** The destination's lines, or `None` when there is no such file. */
  function Content(files: map<Path, seq<string>>, p: Path): Option<seq<string>> {
    if p in files then Some(files[p]) else None
  }

  /** The files after the destination has been replaced, with or without a backup first. */
  function Replaced(files: map<Path, seq<string>>, dest: Path, backup: Option<Path>, lines: seq<string>)
    : map<Path, seq<string>>
  {
    if backup.Some? && dest in files then files[backup.value := files[dest]][dest := lines]
    else files[dest := lines]
  }

  /**
   * The write block of `execute`: the temporary file, the backup when the
   * destination exists, and the move of the temporary file onto the
   * destination.
   */
  method WritePlan(fs: FileSystem, dest: Path, temp: Path, plan: Plan) returns (backup: Option<Path>)
    requires temp != dest && temp !in fs.files
    modifies fs
    ensures backup.Some? <==> dest in old(fs.files)
    ensures backup.Some? ==>
              exists k :: backup.value == BackupName(dest, k)
                          && FirstFreeAt(old(fs.files)[temp := OutputLines(plan)], dest, k)
    ensures fs.files == Replaced(old(fs.files), dest, backup, OutputLines(plan))
  {
    ghost var before := fs.files;
    var out := OutputLines(plan);
    CreateUpToDateTempFile(fs, temp, plan);
    backup := None;
    if fs.Exists(dest) {
      var b := BackupExisting(fs, dest);
      backup := Some(b);
    }
    fs.Move(temp, dest);
    if backup.Some? {
      var b := backup.value;
      assert b != temp;
      ghost var f2 := before[temp := out][b := before[dest]];
      assert f2 - {temp} == before[b := before[dest]];
    } else {
      assert before[temp := out] - {temp} == before;
    }
  }

  /**
   * `execute`, from the decoded preload entries on. The temporary path is a
   * parameter: `Files.createTempFile` picks a fresh name.
   */
  method Execute(fs: FileSystem, dest: Path, entries: seq<PreloadEntry>, temp: Path) returns (result: RunResult)
    requires temp != dest && temp !in fs.files
    modifies fs
    ensures var run := Run(entries, Content(old(fs.files), dest));
            && (run.Failure? ==> result == Failed(run.error) && fs.files == old(fs.files))
            && (run.Success? && !Writes(run.value) ==> result == Unchanged && fs.files == old(fs.files))
            && (run.Success? && Writes(run.value) ==>
                  && result.Written?
                  && (result.backup.Some? <==> dest in old(fs.files))
                  && (result.backup.Some? ==>
                        exists k :: result.backup.value == BackupName(dest, k)
                                    && FirstFreeAt(old(fs.files)[temp := OutputLines(run.value)], dest, k))
                  && fs.files == Replaced(old(fs.files), dest, result.backup, OutputLines(run.value)))
  {
    var run := Run(entries, Content(fs.files, dest));
    if run.Failure? {
      return Failed(run.error);
    }
    if !Writes(run.value) {
      return Unchanged;
    }
    var backup := WritePlan(fs, dest, temp, run.value);
    result := Written(backup);
  }

  /**
   * Two runs in a row on the same preload list: when the first succeeds the
   * second changes nothing; when it fails the second fails the same way.
   */
  method RunTwice(fs: FileSystem, dest: Path, entries: seq<PreloadEntry>, temp1: Path, temp2: Path)
    returns (first: RunResult, second: RunResult)
    requires temp1 != dest && temp1 !in fs.files
    requires temp2 != dest && temp2 != temp1 && temp2 !in fs.files
    // the first run's backup must not land on the path the second run gets for its temporary file
    requires forall k :: BackupName(dest, k) != temp2
    requires forall i :: 0 <= i < |entries| && IsForceHttps(entries[i]) ==> WellFormedHost(entries[i].name)
    modifies fs
    ensures first.Failed? ==> second == first && fs.files == old(fs.files)
    ensures first.Unchanged? ==> second == Unchanged && fs.files == old(fs.files)
    ensures var run := Run(entries, Content(old(fs.files), dest));
            first.Written? ==>
              && run.Success?
              && second == Unchanged
              && fs.files == Replaced(old(fs.files), dest, first.backup, OutputLines(run.value))
  {
    ghost var before := fs.files;
    first := Execute(fs, dest, entries, temp1);
    ghost var run := Run(entries, Content(before, dest));
    if run.Success? {
      SecondRunIsNoOp(entries, Content(before, dest));
      if Writes(run.value) {
        assert Content(fs.files, dest) == Some(OutputLines(run.value));
      }
    }
    second := Execute(fs, dest, entries, temp2);
  }
}
