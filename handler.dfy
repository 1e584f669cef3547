/** `BackupCacheHandler`: the object that owns the cache and works on the
    raw and backup directories. Its operations update the cache's record
    lists and the backup directory in place, step by step; each is proved
    to end in the state the matching specification function describes. */
module Handler {
  import opened Wrappers
  import opened Records
  import opened Views
  import opened Cache
  import opened Reconciliation
  import opened Archiver
  import opened Cleaner

  /** The two directories: raw datasets by name, and the backup directory's
      files by name. */
  class Disk {
    var raw: Folder
    var arc: Folder

    constructor (raw: Folder, arc: Folder)
      ensures this.raw == raw && this.arc == arc
    {
      this.raw, this.arc := raw, arc;
    }
  }

  /** `EntryNames` grows one walk step at a time. */
  lemma {:induction false} EntryNamesSnoc(name: string, walk: seq<WalkRoot>, w: WalkRoot)
    ensures EntryNames(name, walk + [w]) == EntryNames(name, walk) + RootEntries(name, w)
    decreases |walk|
  {
    if walk == [] {
      assert [w][1..] == [];
    } else {
      assert (walk + [w])[1..] == walk[1..] + [w];
      EntryNamesSnoc(name, walk[1..], w);
    }
  }

  lemma EntryNamesPrefix(name: string, walk: seq<WalkRoot>, i: nat)
    requires i < |walk|
    ensures EntryNames(name, walk[..i + 1]) == EntryNames(name, walk[..i]) + RootEntries(name, walk[i])
  {
    assert walk[..i + 1] == walk[..i] + [walk[i]];
    EntryNamesSnoc(name, walk[..i], walk[i]);
  }

  /** The entries for the files of one walk step, in order. */
  method RootZipEntries(name: string, w: WalkRoot) returns (es: seq<seq<string>>)
    ensures es == RootEntries(name, w)
  {
    es := [];
    var j := 0;
    while j < |w.files|
      invariant 0 <= j <= |w.files|
      invariant |es| == j
      invariant forall m :: 0 <= m < j ==> es[m] == [name] + w.sub + [w.files[m]]
    {
      es := es + [[name] + w.sub + [w.files[j]]];
      j := j + 1;
    }
  }

  /** The entries `zipfile` is given while walking a dataset directory:
      one per file, in walk order, named from the dataset's directory. */
  method ZipEntries(name: string, walk: seq<WalkRoot>) returns (entries: seq<seq<string>>)
    ensures entries == EntryNames(name, walk)
  {
    entries := [];
    var i := 0;
    while i < |walk|
      invariant 0 <= i <= |walk|
      invariant entries == EntryNames(name, walk[..i])
    {
      var es := RootZipEntries(name, walk[i]);
      EntryNamesPrefix(name, walk, i);
      entries := entries + es;
      i := i + 1;
    }
    assert walk[..i] == walk;
  }

  /** `duplicated[k]` lookup: the position of key k, if present. */
  function KeyPos(gs: seq<Group>, k: Option<string>): (j: Option<nat>)
    ensures j.Some? ==> j.value < |gs| && gs[j.value].key == k
    ensures j.None? <==> !HasKey(gs, k)
  {
    if gs == [] then None
    else if gs[0].key == k then Some(0)
    else match KeyPos(gs[1..], k)
      case None => None
      case Some(j) => Some(j + 1)
  }

  lemma {:induction false} AddToGroupAt(gs: seq<Group>, k: Option<string>, p: string)
    ensures AddToGroup(gs, k, p) ==
            match KeyPos(gs, k)
            case None => gs + [Group(k, [p])]
            case Some(j) => gs[j := gs[j].(paths := gs[j].paths + [p])]
  {
    if gs != [] && gs[0].key != k {
      AddToGroupAt(gs[1..], k, p);
      match KeyPos(gs[1..], k)
      case None =>
        assert gs == [gs[0]] + gs[1..];
      case Some(j) =>
        assert gs[j + 1 := gs[j + 1].(paths := gs[j + 1].paths + [p])]
               == [gs[0]] + gs[1..][j := gs[1..][j].(paths := gs[1..][j].paths + [p])];
    }
  }

  /** One unfolding of the review loop at position `i` of the copied
      archive list. */
  lemma ReviewAt(raws: seq<RawRecord>, arcs: seq<ArcRecord>, i: nat, ad: Folder, rd: Folder, insp: Inspector)
    requires i < |arcs|
    ensures var s := ReviewArc(arcs[i], raws, ad, rd, insp);
            Review(raws, arcs[i..], ad, rd, insp) ==
              if !s.ok then Pass(Store(s.raws, OptSeq(s.arc) + arcs[i + 1..]), Unresolved(arcs[i].path))
              else var y := Review(s.raws, arcs[i + 1..], ad, rd, insp);
                   Pass(Store(y.store.raws, OptSeq(s.arc) + y.store.arcs), y.outcome)
  {
    assert arcs[i..][0] == arcs[i] && arcs[i..][1..] == arcs[i + 1..];
  }

  /** The review loop's invariant over the list `arcs` being edited and the
      raw records `raws`: the records before `k` are final, the records from
      `k` on are the uncopied tail `arcs0[i..]`, and reviewing that tail
      completes `whole`. */
  ghost predicate Resumes(arcs: seq<ArcRecord>, raws: seq<RawRecord>, arcs0: seq<ArcRecord>, i: nat, k: nat,
                          whole: Pass, ad: Folder, rd: Folder, insp: Inspector)
  {
    i <= |arcs0| && k <= |arcs| && arcs[k..] == arcs0[i..] &&
    var x := Review(raws, arcs0[i..], ad, rd, insp);
    whole == Pass(Store(x.store.raws, arcs[..k] + x.store.arcs), x.outcome)
  }

  /** Reviewing the record at position k keeps the invariant, or ends the
      loop with the state `whole` describes. */
  lemma ResumesStep(arcs: seq<ArcRecord>, raws: seq<RawRecord>, arcs0: seq<ArcRecord>, i: nat, k: nat,
                    whole: Pass, ad: Folder, rd: Folder, insp: Inspector)
    requires i < |arcs0| && Resumes(arcs, raws, arcs0, i, k, whole, ad, rd, insp)
    ensures k < |arcs| && arcs[k] == arcs0[i]
    ensures var s := ReviewArc(arcs0[i], raws, ad, rd, insp);
            var a := arcs[..k] + OptSeq(s.arc) + arcs[k + 1..];
            |a| == |arcs| - 1 + |OptSeq(s.arc)| &&
            (s.ok ==> Resumes(a, s.raws, arcs0, i + 1, k + |OptSeq(s.arc)|, whole, ad, rd, insp)) &&
            (!s.ok ==> whole == Pass(Store(s.raws, a), Unresolved(arcs0[i].path)))
  {
    var s := ReviewArc(arcs0[i], raws, ad, rd, insp);
    var o := OptSeq(s.arc);
    ReviewAt(raws, arcs0, i, ad, rd, insp);
    assert arcs[k..][0] == arcs[k] && arcs0[i..][0] == arcs0[i];
    assert arcs[k..][1..] == arcs[k + 1..] && arcs0[i..][1..] == arcs0[i + 1..];
    var a := arcs[..k] + o + arcs[k + 1..];
    assert a[..k + |o|] == arcs[..k] + o;
    assert a[k + |o|..] == arcs[k + 1..];
    if s.ok {
      var y := Review(s.raws, arcs0[i + 1..], ad, rd, insp);
      assert arcs[..k] + (o + y.store.arcs) == a[..k + |o|] + y.store.arcs;
    } else {
      assert arcs[..k] + (o + arcs0[i + 1..]) == a;
    }
  }

  class BackupCacheHandler {
    const cache: BackupCache
    const disk: Disk

    constructor (cache: BackupCache, disk: Disk)
      ensures this.cache == cache && this.disk == disk
    {
      this.cache, this.disk := cache, disk;
    }

    /** `__init__` with `_load_pickle`: the cache file is read (a missing
        or truncated one gives an empty cache) and written straight back;
        any other unreadable file raises. */
    static method Open(file: CacheFile, disk: Disk) returns (r: Result<BackupCacheHandler, LoadError>)
      ensures r.Err? <==> Load(file).Err?
      ensures r.Ok? ==> fresh(r.value) && fresh(r.value.cache) && r.value.disk == disk &&
                        r.value.cache.Contents() == Load(file).value &&
                        r.value.cache.saved == Pickled(Load(file).value)
    {
      match Load(file)
      case Err(e) =>
        r := Err(e);
      case Ok(s) =>
        var c := new BackupCache(s);
        var h := new BackupCacheHandler(c, disk);
        r := Ok(h);
    }

    /** `get_duplicated`: the dictionary built by visiting the archive
        records in order. */
    method GetDuplicated() returns (gs: seq<Group>)
      ensures gs == Duplicated(cache.rawData, cache.arcData, cache.arcData)
    {
      var raws, arcs := cache.rawData, cache.arcData;
      gs := [];
      var i := 0;
      while i < |arcs|
        invariant 0 <= i <= |arcs|
        invariant gs == Duplicated(raws, arcs, arcs[..i])
      {
        var b := arcs[i];
        assert arcs[..i + 1][..i] == arcs[..i];
        if IsDuplicated(raws, arcs, b) {
          var k := DupKey(raws, b);
          AddToGroupAt(gs, k, b.path);
          match KeyPos(gs, k)
          case Some(j) =>
            gs := gs[j := gs[j].(paths := gs[j].paths + [b.path])];
          case None =>
            gs := gs + [Group(k, [b.path])];
        }
        i := i + 1;
      }
      assert arcs[..i] == arcs;
    }

    // -------------------------------------------------------------------
    // _parse_info

    /** `_parse_info`: registration of both listings, marking of vanished
        raw datasets and the review of each archive record, saving the
        cache after each of the first three phases and at the end. When an
        association does not resolve the pass stops there, and the cache
        file keeps the third checkpoint. */
    method ParseInfo(insp: Inspector, reg: Registrar) returns (outcome: Outcome)
      modifies cache
      ensures Pass(cache.Contents(), outcome) == Reconcile(old(cache.Contents()), disk.raw, disk.arc, insp, reg)
      ensures cache.saved == if outcome == Done then Pickled(cache.Contents())
                             else Pickled(Marked(old(cache.Contents()), disk.raw, disk.arc, reg))
    {
      ghost var s0 := cache.Contents();
      Scan(reg);
      ghost var m := cache.Contents();
      outcome := ReviewAll(insp);
      assert Pass(cache.Contents(), outcome) == Review(m.raws, m.arcs, disk.arc, disk.raw, insp);
      if outcome == Done {
        cache.Save();
      }
    }

    /** The first three phases of `_parse_info`, each followed by a save:
        registration of the raw listing, then of the archive listing, then
        marking of vanished raw datasets. */
    method Scan(reg: Registrar)
      modifies cache
      ensures cache.Contents() == Marked(old(cache.Contents()), disk.raw, disk.arc, reg)
      ensures cache.saved == Pickled(cache.Contents())
    {
      ghost var s0 := cache.Contents();
      var rawNames, arcNames := RawListing(disk.raw), ArcListing(disk.arc);
      RegisterRawNames(rawNames, reg);
      cache.Save();
      RegisterArcNames(arcNames, reg);
      cache.Save();
      ghost var t := cache.Contents();
      assert t == Store(RegisterRaws(s0.raws, rawNames, reg), RegisterArcs(s0.arcs, arcNames, reg));
      MarkVanished();
      cache.Save();
      assert cache.Contents() == Store(MarkRemoved(t.raws, disk.raw), t.arcs);
    }

    /** "Scanning raw datasets and update cache". */
    method RegisterRawNames(names: seq<string>, reg: Registrar)
      modifies cache`rawData
      ensures cache.rawData == RegisterRaws(old(cache.rawData), names, reg)
    {
      ghost var raws0 := cache.rawData;
      var i := 0;
      while i < |names|
        invariant 0 <= i <= |names|
        invariant cache.rawData == RegisterRaws(raws0, names[..i], reg)
      {
        RegisterRawsSnoc(raws0, names, i, reg);
        cache.SetRaw(NewRaw(names[i], reg));
        i := i + 1;
      }
      assert names[..i] == names;
    }

    /** "Scanning archived datasets and update cache". */
    method RegisterArcNames(names: seq<string>, reg: Registrar)
      modifies cache`arcData
      ensures cache.arcData == RegisterArcs(old(cache.arcData), names, reg)
    {
      ghost var arcs0 := cache.arcData;
      var i := 0;
      while i < |names|
        invariant 0 <= i <= |names|
        invariant cache.arcData == RegisterArcs(arcs0, names[..i], reg)
      {
        RegisterArcsSnoc(arcs0, names, i, reg);
        cache.SetArc(NewArc(names[i], reg));
        i := i + 1;
      }
      assert names[..i] == names;
    }

    /** "Scanning raw dataset cache": every named raw record whose
        directory is absent and not yet marked is marked removed, in place. */
    method MarkVanished()
      modifies cache`rawData
      ensures cache.rawData == MarkRemoved(old(cache.rawData), disk.raw)
    {
      var raws := cache.rawData;
      var i := 0;
      while i < |raws|
        invariant 0 <= i <= |raws|
        invariant |cache.rawData| == |raws|
        invariant forall j :: 0 <= j < i ==> cache.rawData[j] == MarkOne(raws[j], disk.raw)
        invariant forall j :: i <= j < |raws| ==> cache.rawData[j] == raws[j]
      {
        var r := raws[i];
        if r.path.Some? {
          if r.path.value !in disk.raw {
            if !r.removed {
              cache.rawData := cache.rawData[i := r.(removed := true)];
            }
          }
        }
        i := i + 1;
      }
      assert cache.rawData == MarkRemoved(raws, disk.raw);
    }

    /** One iteration of "Reviewing the cached information" for the record
        `b` at position `k` of the archive list: the record is dropped,
        revised in place, or credits its raw record; `ok` is false where
        the lookup of the raw record fails. */
    method ReviewOne(b: ArcRecord, k: nat, insp: Inspector) returns (ok: bool)
      requires k < |cache.arcData| && cache.arcData[k] == b
      modifies cache`rawData, cache`arcData
      ensures var s := ReviewArc(b, old(cache.rawData), disk.arc, disk.raw, insp);
              ok == s.ok && cache.rawData == s.raws &&
              cache.arcData == old(cache.arcData)[..k] + OptSeq(s.arc) + old(cache.arcData)[k + 1..]
    {
      var rawDir, arcDir := disk.raw, disk.arc;
      assert old(cache.arcData) == old(cache.arcData)[..k] + [b] + old(cache.arcData)[k + 1..];
      ok := true;
      if b.path !in arcDir {
        cache.arcData := cache.arcData[..k] + cache.arcData[k + 1..];
        return;
      }
      var node := arcDir[b.path];
      var b' := b;
      if b'.issued {
        if b'.crashed {
          if insp.isZip(node) {
            b' := b'.(crashed := false);
            b' := b'.(issued := SameAsRaw(node, rawDir, insp) != Some(true));
            if b'.issued {
              if b'.garbage {
                if insp.isPvDataset(node) {
                  b' := b'.(garbage := false);
                }
              }
            }
          }
        } else {
          b' := b'.(issued := SameAsRaw(node, rawDir, insp) != Some(true));
          if !b'.issued {
            var r := RawOf(cache.rawData, b');
            if r.None? {
              ok := false;
            } else {
              cache.rawData := cache.rawData[r.value := cache.rawData[r.value].(backup := true)];
            }
          }
        }
      } else {
        var r := RawOf(cache.rawData, b');
        if r.None? {
          ok := false;
        } else if !cache.rawData[r.value].backup {
          cache.rawData := cache.rawData[r.value := cache.rawData[r.value].(backup := true)];
        } else {
          assert cache.rawData[r.value := cache.rawData[r.value].(backup := true)] == cache.rawData;
        }
      }
      cache.arcData := cache.arcData[k := b'];
      assert cache.arcData == old(cache.arcData)[..k] + [b'] + old(cache.arcData)[k + 1..];
    }

    /** The review loop's invariant, `Resumes`, on the cache's lists. */
    ghost predicate Reviewing(arcs0: seq<ArcRecord>, i: nat, k: nat, whole: Pass, insp: Inspector)
      reads this, cache, disk
    {
      Resumes(cache.arcData, cache.rawData, arcs0, i, k, whole, disk.arc, disk.raw, insp)
    }

    /** One iteration of the review loop: reviews `arcs0[i]`, found at
        position `k`, and returns where the next record is. */
    method ReviewNext(arcs0: seq<ArcRecord>, i: nat, k: nat, ghost whole: Pass, insp: Inspector) returns (ok: bool, k': nat)
      requires i < |arcs0| && Reviewing(arcs0, i, k, whole, insp)
      modifies cache`rawData, cache`arcData
      ensures ok ==> Reviewing(arcs0, i + 1, k', whole, insp)
      ensures !ok ==> Pass(cache.Contents(), Unresolved(arcs0[i].path)) == whole
    {
      ResumesStep(cache.arcData, cache.rawData, arcs0, i, k, whole, disk.arc, disk.raw, insp);
      var before := |cache.arcData|;
      ok := ReviewOne(arcs0[i], k, insp);
      k' := if |cache.arcData| == before then k + 1 else k;
    }

    /** "Reviewing the cached information": each record of a copy of the
        archive list is reviewed in turn; the loop stops at an association
        that does not resolve. */
    method ReviewAll(insp: Inspector) returns (outcome: Outcome)
      modifies cache`rawData, cache`arcData
      ensures Pass(cache.Contents(), outcome) == Review(old(cache.rawData), old(cache.arcData), disk.arc, disk.raw, insp)
    {
      var arcs0 := cache.arcData;
      ghost var whole := Review(cache.rawData, arcs0, disk.arc, disk.raw, insp);
      assert cache.arcData[..0] == [];
      var i: nat, k: nat := 0, 0;
      while i < |arcs0|
        invariant i <= |arcs0| && k <= |cache.arcData|
        invariant Reviewing(arcs0, i, k, whole, insp)
      {
        var ok;
        ok, k := ReviewNext(arcs0, i, k, whole, insp);
        if !ok {
          return Unresolved(arcs0[i].path);
        }
        i := i + 1;
      }
      assert arcs0[i..] == [];
      assert cache.arcData[..k] == cache.arcData;
      outcome := Done;
    }

    // -------------------------------------------------------------------
    // backup

    /** Removes a file from the backup directory; false when `os.unlink`
        raises. */
    method UnlinkArc(name: string, locked: string -> bool) returns (ok: bool)
      modifies disk`arc
      ensures ok <==> Unlink(old(disk.arc), name, locked).Some?
      ensures disk.arc == if ok then Unlink(old(disk.arc), name, locked).value else old(disk.arc)
    {
      ok := name in disk.arc && disk.arc[name].File? && !locked(name);
      if ok {
        disk.arc := disk.arc - {name};
      }
    }

    /** "is detected and removed": a temporary file left by an earlier
        run is removed before anything is written. */
    method ClearStaleTemp(name: string, locked: string -> bool) returns (ok: bool)
      modifies disk`arc
      ensures var t := if TempName(name) in old(disk.arc) then Unlink(old(disk.arc), TempName(name), locked) else Some(old(disk.arc));
              ok == t.Some? && disk.arc == if ok then t.value else old(disk.arc)
    {
      ok := true;
      if TempName(name) in disk.arc {
        ok := UnlinkArc(TempName(name), locked);
      }
    }

    /** The keep-or-remove decision for an existing archive: kept when it
        is a zip, holds a dataset and has as many reconstructions as the raw
        dataset; removed otherwise. `run` says whether to write a new one. */
    method ClearStaleArchive(name: string, rawNode: Node, insp: Inspector, locked: string -> bool) returns (run: bool, ok: bool)
      modifies disk`arc
      ensures var d, arc := old(disk.arc), ArchiveName(name);
              (!run <==> arc in d && Keeps(d[arc], rawNode, insp)) &&
              (!run ==> ok && disk.arc == d) &&
              (run ==> var u := if arc in d then Unlink(d, arc, locked) else Some(d);
                       ok == u.Some? && disk.arc == if ok then u.value else d)
    {
      var arc := ArchiveName(name);
      run, ok := true, true;
      if arc in disk.arc {
        var arcNode := disk.arc[arc];
        if !insp.isZip(arcNode) {
          ok := UnlinkArc(arc, locked);
        } else if insp.isPvDataset(arcNode) {
          if insp.numRecos(arcNode) != insp.numRecos(rawNode) {
            ok := UnlinkArc(arc, locked);
          } else {
            run := false;
          }
        } else {
          ok := UnlinkArc(arc, locked);
        }
      }
    }

    /** Compression into the temporary file, the check that it exists, and
        the rename to the final name. */
    method WriteArchive(name: string, entries: seq<seq<string>>, faults: Faults) returns (abort: Option<Abort>)
      modifies disk`arc
      ensures StepResult(disk.arc, abort) == Compress(name, entries, old(disk.arc), faults)
    {
      var tmp, arc := TempName(name), ArchiveName(name);
      if faults.writeFails(name) {
        disk.arc := disk.arc[tmp := File(Partial)];
        return Some(WriteFailed(tmp));
      }
      disk.arc := disk.arc[tmp := File(Zipped(entries))];
      if faults.tmpLost(name) {
        disk.arc := disk.arc - {tmp};
      }
      if tmp !in disk.arc {
        return Some(TempMissing(tmp));
      }
      if faults.renameFails(name) {
        return Some(RenameFailed(tmp));
      }
      disk.arc := (disk.arc - {tmp})[arc := disk.arc[tmp]];
      assert disk.arc == (old(disk.arc) - {tmp})[arc := File(Zipped(entries))];
      return None;
    }

    /** The loop body of `backup` for one dataset name. */
    method BackupOne(name: string, insp: Inspector, faults: Faults) returns (abort: Option<Abort>)
      modifies disk`arc
      ensures StepResult(disk.arc, abort) == BackupStep(name, disk.raw, old(disk.arc), insp, faults)
    {
      if name !in disk.raw {
        return None;
      }
      NamesDistinct(name, name);
      var ok := ClearStaleTemp(name, faults.locked);
      if !ok {
        return Some(UnlinkFailed(TempName(name)));
      }
      var run;
      run, ok := ClearStaleArchive(name, disk.raw[name], insp, faults.locked);
      if !ok {
        return Some(UnlinkFailed(ArchiveName(name)));
      }
      if !run {
        return None;
      }
      var entries: seq<seq<string>> := [];
      if disk.raw[name].Dir? {
        entries := ZipEntries(name, disk.raw[name].walk);
      }
      abort := WriteArchive(name, entries, faults);
    }

    /** `backup`: the raw datasets still to be archived, then the datasets
        behind the issued archives, one after another until one raises. The
        cache is neither changed nor saved. */
    method Backup(insp: Inspector, faults: Faults) returns (abort: Option<Abort>)
      modifies disk`arc
      ensures StepResult(disk.arc, abort) == BackupAll(Candidates(cache.Contents()), disk.raw, old(disk.arc), insp, faults)
    {
      var names := Candidates(cache.Contents());
      var i := 0;
      while i < |names|
        invariant 0 <= i <= |names|
        invariant BackupAll(names, disk.raw, old(disk.arc), insp, faults) == BackupAll(names[i..], disk.raw, disk.arc, insp, faults)
      {
        assert names[i..][0] == names[i] && names[i..][1..] == names[i + 1..];
        if names[i].None? {
          return Some(NoName);
        }
        abort := BackupOne(names[i].value, insp, faults);
        if abort.Some? {
          return;
        }
        i := i + 1;
      }
      return None;
    }

    // -------------------------------------------------------------------
    // clean

    /** One "Are you sure to remove" prompt (answer number `asked`); a
        confirmed, successful removal also drops the record. */
    method OfferOne(name: string, asked: nat, yes: nat -> bool, locked: string -> bool) returns (next: nat)
      modifies cache`arcData, disk`arc
      ensures Cleaning(cache.arcData, disk.arc, next) ==
              Offer(Cleaning(old(cache.arcData), old(disk.arc), asked), name, yes, locked)
    {
      next := asked + 1;
      if yes(asked) {
        var ok := UnlinkArc(name, locked);
        if ok {
          cache.arcData := RemoveArc(cache.arcData, name);
        }
      }
    }

    /** One pass over a copied list, skipping the records `skip` selects. */
    method OfferPass(dset: seq<ArcRecord>, skip: ArcRecord -> bool, asked: nat, yes: nat -> bool, locked: string -> bool)
      returns (next: nat)
      modifies cache`arcData, disk`arc
      ensures Cleaning(cache.arcData, disk.arc, next) ==
              OfferAll(Cleaning(old(cache.arcData), old(disk.arc), asked), Offered(dset, skip), yes, locked)
    {
      next := asked;
      var i := 0;
      while i < |dset|
        invariant 0 <= i <= |dset|
        invariant OfferAll(Cleaning(old(cache.arcData), old(disk.arc), asked), Offered(dset, skip), yes, locked)
                  == OfferAll(Cleaning(cache.arcData, disk.arc, next), Offered(dset[i..], skip), yes, locked)
      {
        assert dset[i..][0] == dset[i] && dset[i..][1..] == dset[i + 1..];
        var a := dset[i];
        assert Offered(dset[i..], skip) == (if skip(a) then [] else [a.path]) + Offered(dset[i + 1..], skip);
        if !skip(a) {
          ghost var rest := Offered(dset[i + 1..], skip);
          assert ([a.path] + rest)[0] == a.path && ([a.path] + rest)[1..] == rest;
          next := OfferOne(a.path, next, yes, locked);
        } else {
          assert [] + Offered(dset[i + 1..], skip) == Offered(dset[i + 1..], skip);
        }
        i := i + 1;
      }
    }

    /** The 'duplicated' pass: every archive of every group, group by
        group. */
    method OfferGroups(gs: seq<Group>, asked: nat, yes: nat -> bool, locked: string -> bool) returns (next: nat)
      modifies cache`arcData, disk`arc
      ensures Cleaning(cache.arcData, disk.arc, next) ==
              OfferAll(Cleaning(old(cache.arcData), old(disk.arc), asked), GroupPaths(gs), yes, locked)
    {
      next := asked;
      var i := 0;
      while i < |gs|
        invariant 0 <= i <= |gs|
        invariant OfferAll(Cleaning(old(cache.arcData), old(disk.arc), asked), GroupPaths(gs), yes, locked)
                  == OfferAll(Cleaning(cache.arcData, disk.arc, next), GroupPaths(gs[i..]), yes, locked)
      {
        assert gs[i..][0] == gs[i] && gs[i..][1..] == gs[i + 1..];
        var paths := gs[i].paths;
        var j := 0;
        while j < |paths|
          invariant 0 <= j <= |paths|
          invariant OfferAll(Cleaning(old(cache.arcData), old(disk.arc), asked), GroupPaths(gs), yes, locked)
                    == OfferAll(Cleaning(cache.arcData, disk.arc, next), paths[j..] + GroupPaths(gs[i + 1..]), yes, locked)
        {
          assert (paths[j..] + GroupPaths(gs[i + 1..]))[0] == paths[j];
          assert (paths[j..] + GroupPaths(gs[i + 1..]))[1..] == paths[j + 1..] + GroupPaths(gs[i + 1..]);
          next := OfferOne(paths[j], next, yes, locked);
          j := j + 1;
        }
        assert paths[j..] + GroupPaths(gs[i + 1..]) == GroupPaths(gs[i + 1..]);
        i := i + 1;
      }
    }

    /** `clean` as evidently intended: after a confirmed opening prompt,
        the passes 'issued', 'garbage', 'crashed' and 'duplicated' over
        lists taken before any removal; the cache is saved at the end. */
    method Clean(yes: nat -> bool, locked: string -> bool)
      modifies cache`arcData, cache`saved, disk`arc
      ensures var c := Cleaner.Clean(old(cache.Contents()), old(disk.arc), yes, locked);
              cache.arcData == c.arcs && disk.arc == c.dir
      ensures cache.rawData == old(cache.rawData)
      ensures cache.saved == Pickled(cache.Contents())
    {
      ghost var s0 := cache.Contents();
      ghost var start := Cleaning(s0.arcs, disk.arc, 1);
      if yes(0) {
        var issued := Issued(cache.arcData);
        var garbage := Garbage(cache.arcData);
        var crashed := Crashed(cache.arcData);  // collected, but no pass acts on it
        var groups := GetDuplicated();
        ghost var a, b, c := Offered(issued, SkipIssued), Offered(garbage, SkipGarbage), GroupPaths(groups);
        assert Offers(s0.raws, s0.arcs) == a + b + c;
        OfferAllConcat(start, a + b, c, yes, locked);
        OfferAllConcat(start, a, b, yes, locked);
        var asked := OfferPass(issued, SkipIssued, 1, yes, locked);
        asked := OfferPass(garbage, SkipGarbage, asked, yes, locked);
        asked := OfferGroups(groups, asked, yes, locked);
      }
      cache.Save();
    }
  }
}
