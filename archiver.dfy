/** The per-dataset decisions of `backup`: which names are archived, which
    stale or mismatching files are removed, how entries are named inside a
    new archive, and how a finished archive reaches its final name. */
module Archiver {
  import opened Wrappers
  import opened Records
  import opened Views

  // ---------------------------------------------------------------------
  // File names

  /** The final archive of a dataset. */
  function ArchiveName(name: string): string { name + ".zip" }

  /** The archive of a dataset while it is being written. */
  function TempName(name: string): string { name + ".part" }

  /** The two names one dataset uses never coincide with each other, and
      two datasets never share either name. */
  lemma NamesDistinct(a: string, b: string)
    ensures ArchiveName(a) != TempName(b)
    ensures ArchiveName(a) == ArchiveName(b) ==> a == b
    ensures TempName(a) == TempName(b) ==> a == b
  {
    var x, y := ArchiveName(a), TempName(b);
    assert x[|x| - 1] == 'p' && y[|y| - 1] == 't';
    if ArchiveName(a) == ArchiveName(b) {
      assert a == ArchiveName(a)[..|a|] && b == ArchiveName(b)[..|b|];
    }
    if TempName(a) == TempName(b) {
      assert a == TempName(a)[..|a|] && b == TempName(b)[..|b|];
    }
  }

  // ---------------------------------------------------------------------
  // Entry names

  /** The entries written for the files of one `os.walk` step. */
  function RootEntries(name: string, w: WalkRoot): (es: seq<seq<string>>)
    ensures |es| == |w.files|
    ensures forall j :: 0 <= j < |es| ==> es[j] == [name] + w.sub + [w.files[j]]
  {
    seq(|w.files|, j requires 0 <= j < |w.files| => [name] + w.sub + [w.files[j]])
  }

  function FileCount(walk: seq<WalkRoot>): nat {
    if walk == [] then 0 else |walk[0].files| + FileCount(walk[1..])
  }

  /** The entry names of a new archive: one per file met by the walk, each
      the dataset's directory name, then the sub-directory, then the file
      name. */
  function EntryNames(name: string, walk: seq<WalkRoot>): (es: seq<seq<string>>)
    ensures |es| == FileCount(walk)
    ensures forall e :: e in es ==> |e| >= 2 && e[0] == name
    decreases |walk|
  {
    if walk == [] then [] else RootEntries(name, walk[0]) + EntryNames(name, walk[1..])
  }

  /** `splitted_root.index(r.path)`: the first position of a component. */
  function FirstIndex(parts: seq<string>, x: string): (i: nat)
    requires x in parts
    ensures i < |parts| && parts[i] == x && x !in parts[..i]
  {
    if parts[0] == x then 0 else 1 + FirstIndex(parts[1..], x)
  }

  /** The entries as the loop writes them: the components of each walked
      directory from the first component equal to the dataset's name
      onwards, where `rawRoot` is the raw root split at the separator. */
  function EntryNamesAsWritten(rawRoot: seq<string>, name: string, walk: seq<WalkRoot>): seq<seq<string>> {
    var parts := rawRoot + [name];
    var idx := FirstIndex(parts, name);
    Cut(parts, idx, walk)
  }

  function Cut(parts: seq<string>, idx: nat, walk: seq<WalkRoot>): seq<seq<string>>
    requires idx < |parts|
    decreases |walk|
  {
    if walk == [] then []
    else
      var w := walk[0];
      seq(|w.files|, j requires 0 <= j < |w.files| => (parts + w.sub)[idx..] + [w.files[j]]) + Cut(parts, idx, walk[1..])
  }

  /** As long as the raw root has no component named like the dataset, the
      entries are rooted at the dataset's directory as intended. */
  lemma {:induction false} EntryNamesAsWrittenAgree(rawRoot: seq<string>, name: string, walk: seq<WalkRoot>)
    requires name !in rawRoot
    ensures EntryNamesAsWritten(rawRoot, name, walk) == EntryNames(name, walk)
  {
    var parts := rawRoot + [name];
    FirstIndexAppended(rawRoot, name);
    assert EntryNamesAsWritten(rawRoot, name, walk) == Cut(parts, |parts| - 1, walk);
    CutAt(parts, name, walk);
  }

  lemma {:induction false} FirstIndexAppended(front: seq<string>, x: string)
    requires x !in front
    ensures FirstIndex(front + [x], x) == |front|
    decreases |front|
  {
    if front != [] {
      assert (front + [x])[1..] == front[1..] + [x];
      FirstIndexAppended(front[1..], x);
    }
  }

  lemma {:induction false} CutAt(parts: seq<string>, name: string, walk: seq<WalkRoot>)
    requires |parts| > 0 && parts[|parts| - 1] == name
    ensures Cut(parts, |parts| - 1, walk) == EntryNames(name, walk)
    decreases |walk|
  {
    if walk != [] {
      CutAt(parts, name, walk[1..]);
      var w := walk[0];
      var idx := |parts| - 1;
      var front := seq(|w.files|, j requires 0 <= j < |w.files| => (parts + w.sub)[idx..] + [w.files[j]]);
      LastOnwards(parts, w.sub);
      forall j | 0 <= j < |w.files| ensures front[j] == RootEntries(name, w)[j] { }
      assert front == RootEntries(name, w);
      assert Cut(parts, idx, walk) == front + Cut(parts, idx, walk[1..]);
    }
  }

  lemma LastOnwards(parts: seq<string>, sub: seq<string>)
    requires |parts| > 0
    ensures (parts + sub)[|parts| - 1..] == [parts[|parts| - 1]] + sub
  {
    var r := (parts + sub)[|parts| - 1..];
    assert forall i :: 0 <= i < |r| ==> r[i] == ([parts[|parts| - 1]] + sub)[i];
  }

  /** When the raw root itself passes through a directory named like the
      dataset, the entries start at that outer directory instead. */
  lemma EntryNamesAsWrittenMisroot()
    ensures EntryNamesAsWritten(["", "data", "B"], "B", [WalkRoot([], ["f"])]) == [["B", "B", "f"]]
    ensures EntryNames("B", [WalkRoot([], ["f"])]) == [["B", "f"]]
  {
    var parts: seq<string> := ["", "data", "B", "B"];
    assert ["", "data", "B"] + ["B"] == parts;
    assert FirstIndex(parts, "B") == 2;
    assert (parts + [])[2..] + ["f"] == ["B", "B", "f"];
    assert RootEntries("B", WalkRoot([], ["f"]))[0] == ["B", "f"];
  }

  /** What the archive of a dataset holds: its walked files, or nothing
      when the name is a plain file (`os.walk` then yields nothing). */
  function Entries(name: string, rawNode: Node): (es: seq<seq<string>>)
    ensures rawNode.Dir? ==> |es| == FileCount(rawNode.walk)
    ensures rawNode.File? ==> es == []
    ensures forall e :: e in es ==> |e| >= 2 && e[0] == name
  {
    match rawNode
    case Dir(walk) => EntryNames(name, walk)
    case File(_) => []
  }

  // ---------------------------------------------------------------------
  // One candidate

  /** How one candidate ends: the exception that leaves `backup`, if any.
      `NoName` is the `TypeError` of joining a path with None. */
  datatype Abort = NoName | UnlinkFailed(file: string) | WriteFailed(file: string)
                 | TempMissing(file: string) | RenameFailed(file: string)

  /** What the file system does that the program does not decide: which
      files cannot be removed, and which writes, existence checks and
      renames fail, by dataset name. */
  datatype Faults = Faults(
    locked: string -> bool,
    writeFails: string -> bool,
    tmpLost: string -> bool,
    renameFails: string -> bool)

  datatype StepResult = StepResult(dir: Folder, abort: Option<Abort>)

  /** An existing archive is kept, with no rewrite, only if it is a zip,
      holds a recognisable dataset and has as many reconstructions as the
      raw dataset. */
  predicate Keeps(arcNode: Node, rawNode: Node, insp: Inspector) {
    insp.isZip(arcNode) && insp.isPvDataset(arcNode) && insp.numRecos(arcNode) == insp.numRecos(rawNode)
  }

  /** The compression and the move into place, starting from a directory
      without the archive and without the temporary file. */
  function Compress(name: string, entries: seq<seq<string>>, d: Folder, faults: Faults): (r: StepResult)
    ensures forall n :: n != TempName(name) && n != ArchiveName(name) ==>
              (n in r.dir <==> n in d) && (n in r.dir ==> r.dir[n] == d[n])
    ensures r.abort.None? <==> !faults.writeFails(name) && !faults.tmpLost(name) && !faults.renameFails(name)
    ensures r.abort.None? ==> TempName(name) !in r.dir && ArchiveName(name) in r.dir &&
                              r.dir[ArchiveName(name)] == File(Zipped(entries))
    ensures r.abort.Some? ==> !r.abort.value.NoName? && r.abort.value.file == TempName(name) &&
                              (ArchiveName(name) in r.dir <==> ArchiveName(name) in d) &&
                              (ArchiveName(name) in r.dir ==> r.dir[ArchiveName(name)] == d[ArchiveName(name)])
    ensures TempName(name) in r.dir ==> r.dir[TempName(name)] in {File(Partial), File(Zipped(entries))}
  {
    var tmp, arc := TempName(name), ArchiveName(name);
    NamesDistinct(name, name);
    if faults.writeFails(name) then StepResult(d[tmp := File(Partial)], Some(WriteFailed(tmp)))
    else if faults.tmpLost(name) then StepResult(d - {tmp}, Some(TempMissing(tmp)))
    else if faults.renameFails(name) then StepResult(d[tmp := File(Zipped(entries))], Some(RenameFailed(tmp)))
    else StepResult((d - {tmp})[arc := File(Zipped(entries))], None)
  }

  /** True when the candidate's existing archive is kept. */
  predicate Kept(name: string, rawDir: Folder, arcDir: Folder, insp: Inspector)
    requires name in rawDir
  {
    ArchiveName(name) in arcDir && Keeps(arcDir[ArchiveName(name)], rawDir[name], insp)
  }

  /** The body of the loop in `backup` for one dataset name. A name without
      a raw dataset is skipped. Otherwise a stale temporary file is removed
      first, an existing archive is kept or removed, and a new archive is
      written under the temporary name and renamed into place. Only the two
      names of this dataset change; the final name never receives anything
      but a complete archive of this dataset; after an exception it holds
      nothing or what it held before; and on success no temporary file is
      left. */
  function BackupStep(name: string, rawDir: Folder, arcDir: Folder, insp: Inspector, faults: Faults): (r: StepResult)
    ensures name !in rawDir ==> r == StepResult(arcDir, None)
    ensures forall n :: n != TempName(name) && n != ArchiveName(name) ==>
              (n in r.dir <==> n in arcDir) && (n in r.dir ==> r.dir[n] == arcDir[n])
    ensures name in rawDir && r.abort.None? ==>
              TempName(name) !in r.dir && ArchiveName(name) in r.dir &&
              r.dir[ArchiveName(name)] ==
                (if Kept(name, rawDir, arcDir, insp) then arcDir[ArchiveName(name)]
                 else File(Zipped(Entries(name, rawDir[name]))))
    ensures r.abort.Some? && ArchiveName(name) in r.dir ==>
              ArchiveName(name) in arcDir && r.dir[ArchiveName(name)] == arcDir[ArchiveName(name)]
    ensures name in rawDir && r.abort != Some(UnlinkFailed(TempName(name))) && TempName(name) in r.dir ==>
              r.dir[TempName(name)] in {File(Partial), File(Zipped(Entries(name, rawDir[name])))}
  {
    if name !in rawDir then StepResult(arcDir, None)
    else
      var tmp, arc := TempName(name), ArchiveName(name);
      NamesDistinct(name, name);
      match (if tmp in arcDir then Unlink(arcDir, tmp, faults.locked) else Some(arcDir))
      case None => StepResult(arcDir, Some(UnlinkFailed(tmp)))
      case Some(d1) =>
        assert tmp !in d1 && (arc in d1 <==> arc in arcDir) && (arc in d1 ==> d1[arc] == arcDir[arc]);
        if arc in d1 && Keeps(d1[arc], rawDir[name], insp) then StepResult(d1, None)
        else
          match (if arc in d1 then Unlink(d1, arc, faults.locked) else Some(d1))
          case None => StepResult(d1, Some(UnlinkFailed(arc)))
          case Some(d2) => Compress(name, Entries(name, rawDir[name]), d2, faults)
  }

  /** The file `n` is there but cannot be removed: it is locked, or it is
      a directory. */
  predicate Blocked(d: Folder, n: string, locked: string -> bool) {
    n in d && !(d[n].File? && !locked(n))
  }

  /** Which exception, if any, one candidate with a raw dataset ends with:
      a stale temporary file that cannot be removed stops it first; a kept
      archive then ends it without error; an archive that must go but
      cannot be removed stops it next; otherwise the write, the check for
      the temporary file and the rename fail in that order, and with none
      of them failing the candidate completes. */
  lemma BackupStepAbort(name: string, rawDir: Folder, arcDir: Folder, insp: Inspector, faults: Faults)
    requires name in rawDir
    ensures var r, tmp, arc := BackupStep(name, rawDir, arcDir, insp, faults), TempName(name), ArchiveName(name);
            (Blocked(arcDir, tmp, faults.locked) ==> r.abort == Some(UnlinkFailed(tmp))) &&
            (!Blocked(arcDir, tmp, faults.locked) && Kept(name, rawDir, arcDir, insp) ==> r.abort.None?) &&
            ((!Blocked(arcDir, tmp, faults.locked) && !Kept(name, rawDir, arcDir, insp) &&
              Blocked(arcDir, arc, faults.locked)) ==> r.abort == Some(UnlinkFailed(arc)))
    ensures var r, tmp, arc := BackupStep(name, rawDir, arcDir, insp, faults), TempName(name), ArchiveName(name);
            !Blocked(arcDir, tmp, faults.locked) && !Kept(name, rawDir, arcDir, insp) &&
            !Blocked(arcDir, arc, faults.locked) ==>
              (faults.writeFails(name) ==> r.abort == Some(WriteFailed(tmp))) &&
              (!faults.writeFails(name) && faults.tmpLost(name) ==> r.abort == Some(TempMissing(tmp))) &&
              (!faults.writeFails(name) && !faults.tmpLost(name) && faults.renameFails(name) ==>
                 r.abort == Some(RenameFailed(tmp))) &&
              (!faults.writeFails(name) && !faults.tmpLost(name) && !faults.renameFails(name) ==> r.abort.None?)
  {
    var tmp, arc := TempName(name), ArchiveName(name);
    NamesDistinct(name, name);
    if !Blocked(arcDir, tmp, faults.locked) {
      var d1 := if tmp in arcDir then arcDir - {tmp} else arcDir;
      assert (arc in d1 <==> arc in arcDir) && (arc in d1 ==> d1[arc] == arcDir[arc]);
    }
  }

  /** With no fault at all and only files under the two names of the
      candidate, the candidate completes. */
  lemma BackupStepNoFaults(name: string, rawDir: Folder, arcDir: Folder, insp: Inspector)
    requires name in rawDir
    requires TempName(name) in arcDir ==> arcDir[TempName(name)].File?
    requires ArchiveName(name) in arcDir ==> arcDir[ArchiveName(name)].File?
    ensures BackupStep(name, rawDir, arcDir, insp, NoFaults()).abort.None?
  {
    BackupStepAbort(name, rawDir, arcDir, insp, NoFaults());
  }

  // ---------------------------------------------------------------------
  // The whole run

  /** The two loops of `backup` over the candidate names, stopping at the
      first exception. */
  function BackupAll(names: seq<Option<string>>, rawDir: Folder, arcDir: Folder, insp: Inspector, faults: Faults): StepResult
    decreases |names|
  {
    if names == [] then StepResult(arcDir, None)
    else if names[0].None? then StepResult(arcDir, Some(NoName))
    else
      var r := BackupStep(names[0].value, rawDir, arcDir, insp, faults);
      if r.abort.Some? then r else BackupAll(names[1..], rawDir, r.dir, insp, faults)
  }

  /** A name whose content the run changed is the temporary name of a
      candidate or the final name of one, holding that dataset's complete
      archive. */
  ghost predicate ChangedSafely(names: seq<Option<string>>, rawDir: Folder, before: Folder, after: Folder) {
    forall n :: n in after && !(n in before && after[n] == before[n]) ==>
      exists c :: Some(c) in names && c in rawDir &&
        (n == TempName(c) || (n == ArchiveName(c) && after[n] == File(Zipped(Entries(c, rawDir[c])))))
  }

  /** Whatever happens, including an exception part-way, every final
      archive name the run touched holds a complete archive: a partial file
      only ever sits under a temporary name. */
  lemma {:induction false} BackupAllSafe(names: seq<Option<string>>, rawDir: Folder, arcDir: Folder, insp: Inspector, faults: Faults)
    ensures ChangedSafely(names, rawDir, arcDir, BackupAll(names, rawDir, arcDir, insp, faults).dir)
    decreases |names|
  {
    if names != [] && names[0].Some? {
      var c := names[0].value;
      var r := BackupStep(c, rawDir, arcDir, insp, faults);
      var after := BackupAll(names, rawDir, arcDir, insp, faults).dir;
      if r.abort.None? {
        BackupAllSafe(names[1..], rawDir, r.dir, insp, faults);
      }
      forall n | n in after && !(n in arcDir && after[n] == arcDir[n])
        ensures exists c' :: Some(c') in names && c' in rawDir &&
                  (n == TempName(c') || (n == ArchiveName(c') && after[n] == File(Zipped(Entries(c', rawDir[c'])))))
      {
        if r.abort.Some? || (n in r.dir && after[n] == r.dir[n]) {
          assert Some(c) in names;
          if n == ArchiveName(c) && n != TempName(c) {
            if r.abort.Some? {
              assert false;
            }
          }
        } else {
          var c' :| Some(c') in names[1..] && c' in rawDir &&
            (n == TempName(c') || (n == ArchiveName(c') && after[n] == File(Zipped(Entries(c', rawDir[c'])))));
          assert Some(c') in names;
        }
      }
    }
  }

  /** Whatever happens, the run deletes nothing but the temporary or final
      archive name of a candidate that has a raw dataset. */
  lemma {:induction false} BackupAllFrame(names: seq<Option<string>>, rawDir: Folder, arcDir: Folder, insp: Inspector, faults: Faults)
    ensures forall n :: n in arcDir && n !in BackupAll(names, rawDir, arcDir, insp, faults).dir ==>
              exists c :: Some(c) in names && c in rawDir && (n == TempName(c) || n == ArchiveName(c))
    decreases |names|
  {
    if names != [] && names[0].Some? {
      var c := names[0].value;
      var r := BackupStep(c, rawDir, arcDir, insp, faults);
      var after := BackupAll(names, rawDir, arcDir, insp, faults).dir;
      if r.abort.None? {
        BackupAllFrame(names[1..], rawDir, r.dir, insp, faults);
      }
      forall n | n in arcDir && n !in after
        ensures exists c' :: Some(c') in names && c' in rawDir && (n == TempName(c') || n == ArchiveName(c'))
      {
        assert Some(c) in names;
        if n !in r.dir {
          assert c in rawDir && (n == TempName(c) || n == ArchiveName(c));
        } else {
          var c' :| Some(c') in names[1..] && c' in rawDir && (n == TempName(c') || n == ArchiveName(c'));
          assert Some(c') in names;
        }
      }
    }
  }

  /** A run that finishes leaves no temporary file of any dataset it
      archived, and a final archive for each. */
  lemma {:induction false} BackupAllClean(names: seq<Option<string>>, rawDir: Folder, arcDir: Folder, insp: Inspector, faults: Faults)
    requires BackupAll(names, rawDir, arcDir, insp, faults).abort.None?
    ensures forall c :: Some(c) in names && c in rawDir ==>
              TempName(c) !in BackupAll(names, rawDir, arcDir, insp, faults).dir &&
              ArchiveName(c) in BackupAll(names, rawDir, arcDir, insp, faults).dir
    decreases |names|
  {
    if names != [] {
      var c := names[0].value;
      var r := BackupStep(c, rawDir, arcDir, insp, faults);
      var after := BackupAll(names, rawDir, arcDir, insp, faults).dir;
      BackupAllClean(names[1..], rawDir, r.dir, insp, faults);
      if c in rawDir && Some(c) !in names[1..] {
        BackupAllKeeps(names[1..], rawDir, r.dir, insp, faults, c);
      }
      forall c' | Some(c') in names && c' in rawDir
        ensures TempName(c') !in after && ArchiveName(c') in after
      {
        if Some(c') !in names[1..] {
          assert c' == c;
        }
      }
    }
  }

  /** A run over names other than `c` leaves `c`'s two names as they were. */
  lemma {:induction false} BackupAllKeeps(names: seq<Option<string>>, rawDir: Folder, arcDir: Folder, insp: Inspector, faults: Faults, c: string)
    requires Some(c) !in names
    ensures var after := BackupAll(names, rawDir, arcDir, insp, faults).dir;
            (TempName(c) in after <==> TempName(c) in arcDir) &&
            (ArchiveName(c) in after <==> ArchiveName(c) in arcDir)
    decreases |names|
  {
    if names != [] && names[0].Some? {
      var c0 := names[0].value;
      NamesDistinct(c, c0);
      NamesDistinct(c0, c);
      var r := BackupStep(c0, rawDir, arcDir, insp, faults);
      if r.abort.None? {
        BackupAllKeeps(names[1..], rawDir, r.dir, insp, faults, c);
      }
    }
  }

  // ---------------------------------------------------------------------
  // Candidates

  /** The names of raw records, in order: every record's name is among
      them and each of them is some record's name. */
  function RawNames(raws: seq<RawRecord>): (ns: seq<Option<string>>)
    ensures |ns| == |raws| && forall i :: 0 <= i < |raws| ==> ns[i] == raws[i].path
    ensures forall r :: r in raws ==> r.path in ns
    ensures forall x :: x in ns ==> exists r :: r in raws && r.path == x
  {
    var ns := seq(|raws|, i requires 0 <= i < |raws| => raws[i].path);
    assert forall r :: r in raws ==> r.path in ns by {
      forall r | r in raws ensures r.path in ns {
        var i :| 0 <= i < |raws| && raws[i] == r;
        assert ns[i] == r.path;
      }
    }
    assert forall x :: x in ns ==> exists r :: r in raws && r.path == x by {
      forall x | x in ns ensures exists r :: r in raws && r.path == x {
        var i :| 0 <= i < |ns| && ns[i] == x;
        assert raws[i] in raws;
      }
    }
    ns
  }

  /** The names the two loops of `backup` visit, as written: first the raw
      records still to be archived, then the issued archive records, whose
      own file name (`B.zip`) is used as if it were a raw dataset name. */
  function CandidatesAsWritten(s: Store): (ns: seq<Option<string>>)
    ensures forall b :: b in s.arcs && b.issued ==> Some(b.path) in ns
  {
    var issued := Issued(s.arcs);
    var tail := seq(|issued|, i requires 0 <= i < |issued| => Some(issued[i].path));
    assert forall b :: b in issued ==> Some(b.path) in tail by {
      forall b | b in issued ensures Some(b.path) in tail {
        var i :| 0 <= i < |issued| && issued[i] == b;
        assert tail[i] == Some(b.path);
      }
    }
    RawNames(ListForBackup(s.raws)) + tail
  }

  /** The raw dataset names issued archives are linked to; archives whose
      link does not resolve, or resolves to a record without a name, are
      passed over. */
  function LinkedNames(raws: seq<RawRecord>, arcs: seq<ArcRecord>): (ns: seq<Option<string>>)
    ensures forall x :: x in ns ==> x.Some? && exists r :: r in raws && r.path == x
    ensures forall b :: b in arcs && RawOf(raws, b).Some? && raws[RawOf(raws, b).value].path.Some? ==>
              raws[RawOf(raws, b).value].path in ns
    decreases |arcs|
  {
    if arcs == [] then []
    else
      var rest := LinkedNames(raws, arcs[1..]);
      assert forall b :: b in arcs ==> b == arcs[0] || b in arcs[1..];
      match RawOf(raws, arcs[0])
      case Some(i) =>
        if raws[i].path.Some? then
          assert raws[i] in raws;
          [raws[i].path] + rest
        else rest
      case None => rest
  }

  /** The names `backup` is evidently meant to visit: the raw records still
      to be archived, then the raw datasets behind the issued archives.
      Every candidate is the name of a raw record (or the missing name of
      one still to be archived), and every pending raw record and every
      issued archive's dataset is visited. */
  function Candidates(s: Store): (ns: seq<Option<string>>)
    ensures forall r :: r in s.raws && NeedsBackup(r) ==> r.path in ns
    ensures forall b :: b in s.arcs && b.issued && RawOf(s.raws, b).Some? && s.raws[RawOf(s.raws, b).value].path.Some? ==>
              s.raws[RawOf(s.raws, b).value].path in ns
    ensures forall x :: x in ns ==> exists r :: r in s.raws && r.path == x
  {
    var pending := ListForBackup(s.raws);
    var front := RawNames(pending);
    front + LinkedNames(s.raws, Issued(s.arcs))
  }

  /** An issued archive of a dataset whose archive no longer matches. */
  function MismatchStore(): Store {
    Store([RawRecord(Some("B"), false, true, false)], [ArcRecord("B.zip", true, false, false, Some(0))])
  }

  function MismatchRawDir(): Folder { map["B" := Dir([WalkRoot([], ["f"])])] }

  function MismatchArcDir(): Folder { map["B.zip" := File(Existing(0))] }

  function MismatchInspector(): Inspector {
    Inspector(_ => true, _ => true, (n: Node) => if n.Dir? then 2 else 1, _ => Some("B"))
  }

  function NoFaults(): Faults { Faults(_ => false, _ => false, _ => false, _ => false) }

  lemma MismatchCandidates()
    ensures CandidatesAsWritten(MismatchStore()) == [Some("B.zip")]
    ensures Candidates(MismatchStore()) == [Some("B")]
  {
    var s := MismatchStore();
    assert ListForBackup(s.raws) == [];
    assert Issued(s.arcs) == s.arcs;
    assert LinkedNames(s.raws, s.arcs[1..]) == [];
  }

  lemma MismatchRewrite()
    ensures BackupStep("B", MismatchRawDir(), MismatchArcDir(), MismatchInspector(), NoFaults())
            == StepResult(map["B.zip" := File(Zipped([["B", "f"]]))], None)
  {
    var rawDir, arcDir, insp, faults := MismatchRawDir(), MismatchArcDir(), MismatchInspector(), NoFaults();
    assert "B" + ".part" == "B.part" && "B" + ".zip" == "B.zip";
    assert "B.part" !in arcDir;
    assert !Keeps(arcDir["B.zip"], rawDir["B"], insp);
    assert Unlink(arcDir, "B.zip", faults.locked) == Some(map[]);
    assert Entries("B", rawDir["B"]) == [["B", "f"]] by {
      assert RootEntries("B", WalkRoot([], ["f"]))[0] == ["B", "f"];
    }
    assert (map[] - {"B.part"})["B.zip" := File(Zipped([["B", "f"]]))] == map["B.zip" := File(Zipped([["B", "f"]]))];
  }

  /** As written, the second loop looks for a raw dataset named `B.zip`,
      finds none and leaves the mismatching archive alone; the intended
      loop re-archives dataset `B` in its place. */
  lemma CandidatesAsWrittenMiss()
    ensures BackupAll(CandidatesAsWritten(MismatchStore()), MismatchRawDir(), MismatchArcDir(), MismatchInspector(), NoFaults())
            == StepResult(MismatchArcDir(), None)
    ensures BackupAll(Candidates(MismatchStore()), MismatchRawDir(), MismatchArcDir(), MismatchInspector(), NoFaults())
            == StepResult(map["B.zip" := File(Zipped([["B", "f"]]))], None)
  {
    var rawDir, arcDir, insp, faults := MismatchRawDir(), MismatchArcDir(), MismatchInspector(), NoFaults();
    MismatchCandidates();
    assert "B.zip" !in rawDir;
    assert BackupAll([Some("B.zip")], rawDir, arcDir, insp, faults) == BackupAll([], rawDir, arcDir, insp, faults);
    MismatchRewrite();
    var d := map["B.zip" := File(Zipped([["B", "f"]]))];
    assert BackupAll([Some("B")], rawDir, arcDir, insp, faults) == BackupAll([], rawDir, d, insp, faults);
  }
}
