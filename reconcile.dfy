/** The reconciliation pass `_parse_info`, as functions of the cache contents
    and of the two directories: discovery, registration, marking removed raw
    datasets, and the review of every archive record. */
module Reconciliation {
  import opened Wrappers
  import opened PyStr
  import opened Records

  // ---------------------------------------------------------------------
  // Discovery

  /** `list_of_raw`: the sub-directories of the raw root whose name does not
      contain "import", sorted. */
  function RawListing(rawDir: Folder): (names: seq<string>)
    ensures StrictlySorted(names)
    ensures forall n :: n in names <==> n in rawDir && rawDir[n].Dir? && !Contains(n, "import")
  {
    SortedSet(set n | n in rawDir && rawDir[n].Dir? && !Contains(n, "import"))
  }

  /** `list_of_brk`: the files of the backup root whose name ends in "zip"
      or "PvDatasets", sorted. */
  function ArcListing(arcDir: Folder): (names: seq<string>)
    ensures StrictlySorted(names)
    ensures forall n :: n in names <==>
      n in arcDir && arcDir[n].File? && (EndsWith(n, "zip") || EndsWith(n, "PvDatasets"))
  {
    SortedSet(set n | n in arcDir && arcDir[n].File? && (EndsWith(n, "zip") || EndsWith(n, "PvDatasets")))
  }

  // ---------------------------------------------------------------------
  // Registration (`set_raw`, `set_arc`)

  /** How the cache classifies a name it registers for the first time; the
      cache's own code is not part of this model, so this is given. */
  datatype Registrar = Registrar(
    rawGarbage: string -> bool,
    arcIssued: string -> bool,
    arcCrashed: string -> bool,
    arcGarbage: string -> bool,
    arcLink: string -> Option<nat>)

  function NewRaw(name: string, reg: Registrar): RawRecord {
    RawRecord(Some(name), false, false, reg.rawGarbage(name))
  }

  function NewArc(name: string, reg: Registrar): ArcRecord {
    ArcRecord(name, reg.arcIssued(name), reg.arcCrashed(name), reg.arcGarbage(name), reg.arcLink(name))
  }

  /** The raw records after `set_raw` was called for each name in turn: the
      old records stay as they were, every name is known afterwards, and a
      new record is added only for a name not known before. */
  function RegisterRaws(raws: seq<RawRecord>, names: seq<string>, reg: Registrar): (r: seq<RawRecord>)
    ensures |raws| <= |r| && r[..|raws|] == raws
    ensures forall n :: n in names ==> KnownRaw(r, n)
    ensures forall i :: |raws| <= i < |r| ==>
              r[i].path.Some? && r[i].path.value in names && r[i] == NewRaw(r[i].path.value, reg)
    ensures DistinctRawPaths(raws) ==> DistinctRawPaths(r)
    ensures (forall n :: n in names ==> KnownRaw(raws, n)) ==> r == raws
    decreases |names|
  {
    if names == [] then raws
    else
      var prev := RegisterRaws(raws, names[..|names| - 1], reg);
      var n := names[|names| - 1];
      assert forall m :: m in names ==> m in names[..|names| - 1] || m == n;
      if KnownRaw(prev, n) then prev
      else
        var r := prev + [NewRaw(n, reg)];
        assert r[|prev|].path == Some(n);
        assert forall m :: KnownRaw(prev, m) ==> KnownRaw(r, m) by {
          forall m | KnownRaw(prev, m) ensures KnownRaw(r, m) {
            var i :| 0 <= i < |prev| && prev[i].path == Some(m);
            assert r[i] == prev[i];
          }
        }
        r
  }

  /** The archive records after `set_arc` was called for each name in turn,
      with the same guarantees as for raw records. */
  function RegisterArcs(arcs: seq<ArcRecord>, names: seq<string>, reg: Registrar): (r: seq<ArcRecord>)
    ensures |arcs| <= |r| && r[..|arcs|] == arcs
    ensures forall n :: n in names ==> KnownArc(r, n)
    ensures forall i :: |arcs| <= i < |r| ==> r[i].path in names && r[i] == NewArc(r[i].path, reg)
    ensures DistinctArcPaths(arcs) ==> DistinctArcPaths(r)
    ensures (forall n :: n in names ==> KnownArc(arcs, n)) ==> r == arcs
    decreases |names|
  {
    if names == [] then arcs
    else
      var prev := RegisterArcs(arcs, names[..|names| - 1], reg);
      var n := names[|names| - 1];
      assert forall m :: m in names ==> m in names[..|names| - 1] || m == n;
      if KnownArc(prev, n) then prev
      else
        var r := prev + [NewArc(n, reg)];
        assert r[|prev|].path == n;
        assert forall m :: KnownArc(prev, m) ==> KnownArc(r, m) by {
          forall m | KnownArc(prev, m) ensures KnownArc(r, m) {
            var i :| 0 <= i < |prev| && prev[i].path == m;
            assert r[i] == prev[i];
          }
        }
        r
  }

  /** Registering one more name, as the registration loops do. */
  lemma RegisterRawsSnoc(raws: seq<RawRecord>, names: seq<string>, i: nat, reg: Registrar)
    requires i < |names|
    ensures var prev := RegisterRaws(raws, names[..i], reg);
            RegisterRaws(raws, names[..i + 1], reg) ==
              if KnownRaw(prev, names[i]) then prev else prev + [NewRaw(names[i], reg)]
  {
    assert names[..i + 1][..i] == names[..i] && names[..i + 1][i] == names[i];
  }

  lemma RegisterArcsSnoc(arcs: seq<ArcRecord>, names: seq<string>, i: nat, reg: Registrar)
    requires i < |names|
    ensures var prev := RegisterArcs(arcs, names[..i], reg);
            RegisterArcs(arcs, names[..i + 1], reg) ==
              if KnownArc(prev, names[i]) then prev else prev + [NewArc(names[i], reg)]
  {
    assert names[..i + 1][..i] == names[..i] && names[..i + 1][i] == names[i];
  }

  // ---------------------------------------------------------------------
  // Raw datasets that disappeared

  function MarkOne(r: RawRecord, rawDir: Folder): RawRecord {
    if r.path.Some? && r.path.value !in rawDir && !r.removed then r.(removed := true) else r
  }

  /** The raw records after the "Scanning raw dataset cache" loop: none is
      dropped, and `removed` goes from false to true exactly for a named
      record whose directory is absent; nothing else changes. */
  function MarkRemoved(raws: seq<RawRecord>, rawDir: Folder): (r: seq<RawRecord>)
    ensures |r| == |raws|
    ensures forall i :: 0 <= i < |raws| ==>
              r[i].path == raws[i].path && r[i].backup == raws[i].backup && r[i].garbage == raws[i].garbage
    ensures forall i :: 0 <= i < |raws| ==>
              (r[i].removed <==> raws[i].removed || (raws[i].path.Some? && raws[i].path.value !in rawDir))
  {
    seq(|raws|, i requires 0 <= i < |raws| => MarkOne(raws[i], rawDir))
  }

  // ---------------------------------------------------------------------
  // Review of the archive records

  /** `is_same_as_raw`: compares reconstruction counts when the archive
      names a raw dataset that exists; None (indeterminate) otherwise. */
  function SameAsRaw(arcNode: Node, rawDir: Folder, insp: Inspector): (v: Option<bool>)
    ensures v.Some? <==> insp.pvPath(arcNode).Some? && insp.pvPath(arcNode).value in rawDir
    ensures v == Some(true) ==> insp.numRecos(arcNode) == insp.numRecos(rawDir[insp.pvPath(arcNode).value])
    ensures v == Some(false) ==> insp.numRecos(arcNode) != insp.numRecos(rawDir[insp.pvPath(arcNode).value])
  {
    match insp.pvPath(arcNode)
    case None => None
    case Some(p) => if p in rawDir then Some(insp.numRecos(arcNode) == insp.numRecos(rawDir[p])) else None
  }

  /** The archive's own flags after the review, as a transition on the flag
      set (the arc part of one loop iteration). No flag is ever raised, the
      name and the association stay, a crashed archive that is still not a
      zip is left alone, and otherwise `issued` ends up as "the comparison
      did not say equal" with `crashed` cleared; `garbage` changes only for
      a crashed archive that remains issued and holds a dataset. */
  function Revised(b: ArcRecord, arcNode: Node, rawDir: Folder, insp: Inspector): (r: ArcRecord)
    ensures r.path == b.path && r.rawId == b.rawId
    ensures (r.issued ==> b.issued) && (r.crashed ==> b.crashed) && (r.garbage ==> b.garbage)
    ensures !b.issued ==> r == b
    ensures b.issued && b.crashed && !insp.isZip(arcNode) ==> r == b
    ensures b.issued && (!b.crashed || insp.isZip(arcNode)) ==>
              !r.crashed && (r.issued <==> SameAsRaw(arcNode, rawDir, insp) != Some(true))
    ensures !(b.issued && b.crashed) ==> r.garbage == b.garbage
    ensures b.issued && b.crashed && insp.isZip(arcNode) ==>
              (r.garbage <==> b.garbage && !(r.issued && insp.isPvDataset(arcNode)))
  {
    if !b.issued then b
    else if b.crashed then
      if insp.isZip(arcNode) then
        var issued := SameAsRaw(arcNode, rawDir, insp) != Some(true);
        b.(crashed := false, issued := issued, garbage := b.garbage && !(issued && insp.isPvDataset(arcNode)))
      else b
    else b.(issued := SameAsRaw(arcNode, rawDir, insp) != Some(true))
  }

  /** Whether reviewing an archive sets its raw record's `backup` flag: the
      archive exists and either was not issued or was issued, not crashed,
      and now matches its raw dataset. */
  predicate Credited(b: ArcRecord, arcDir: Folder, rawDir: Folder, insp: Inspector) {
    b.path in arcDir &&
    (!b.issued || (!b.crashed && SameAsRaw(arcDir[b.path], rawDir, insp) == Some(true)))
  }

  /** What reviewing one archive record does: the record it leaves (None
      when it is dropped), the raw records, and false when the association
      does not resolve and Python's attribute access on None raises. */
  datatype Step = Step(arc: Option<ArcRecord>, raws: seq<RawRecord>, ok: bool)

  function SetBackup(raws: seq<RawRecord>, b: ArcRecord): Step {
    match RawOf(raws, b)
    case None => Step(Some(b), raws, false)
    case Some(i) => Step(Some(b), raws[i := raws[i].(backup := true)], true)
  }

  /** One iteration of the "Reviewing the cached information" loop. */
  function ReviewArc(b: ArcRecord, raws: seq<RawRecord>, arcDir: Folder, rawDir: Folder, insp: Inspector): (s: Step)
    ensures b.path !in arcDir <==> s.arc.None?
    ensures b.path !in arcDir ==> s.raws == raws && s.ok
    ensures b.path in arcDir ==> s.arc == Some(Revised(b, arcDir[b.path], rawDir, insp))
    ensures |s.raws| == |raws|
    ensures !Credited(b, arcDir, rawDir, insp) ==> s.ok && s.raws == raws
    ensures Credited(b, arcDir, rawDir, insp) ==>
              (s.ok <==> RawOf(raws, b).Some?) &&
              (s.ok ==> s.raws == raws[RawOf(raws, b).value := raws[RawOf(raws, b).value].(backup := true)]) &&
              (!s.ok ==> s.raws == raws)
  {
    if b.path !in arcDir then Step(None, raws, true)
    else
      var node := arcDir[b.path];
      if b.issued then
        if b.crashed then
          if insp.isZip(node) then
            var issued := SameAsRaw(node, rawDir, insp) != Some(true);
            var garbage := if issued && b.garbage && insp.isPvDataset(node) then false else b.garbage;
            Step(Some(b.(crashed := false, issued := issued, garbage := garbage)), raws, true)
          else Step(Some(b), raws, true)
        else
          var b' := b.(issued := SameAsRaw(node, rawDir, insp) != Some(true));
          if !b'.issued then SetBackup(raws, b') else Step(Some(b'), raws, true)
      else SetBackup(raws, b)
  }

  /** Why `_parse_info` stopped early, if it did: the archive whose raw
      record could not be looked up. */
  datatype Outcome = Done | Unresolved(path: string)

  datatype Pass = Pass(store: Store, outcome: Outcome)

  function OptSeq<T>(o: Option<T>): seq<T> {
    if o.Some? then [o.value] else []
  }

  /** The review loop over `arcs` (the copy `arc_data[:]`) starting from raw
      records `raws`; it stops at the first archive whose association does
      not resolve, leaving the records after it untouched. */
  function Review(raws: seq<RawRecord>, arcs: seq<ArcRecord>, arcDir: Folder, rawDir: Folder, insp: Inspector): (p: Pass)
    ensures |p.store.raws| == |raws|
    ensures |p.store.arcs| <= |arcs|
    decreases |arcs|
  {
    if arcs == [] then Pass(Store(raws, []), Done)
    else
      var s := ReviewArc(arcs[0], raws, arcDir, rawDir, insp);
      if !s.ok then Pass(Store(s.raws, OptSeq(s.arc) + arcs[1..]), Unresolved(arcs[0].path))
      else
        var rest := Review(s.raws, arcs[1..], arcDir, rawDir, insp);
        Pass(Store(rest.store.raws, OptSeq(s.arc) + rest.store.arcs), rest.outcome)
  }

  // ---------------------------------------------------------------------
  // The whole pass

  /** The cache contents after registration (the first two checkpoints). */
  function Registered(s: Store, rawDir: Folder, arcDir: Folder, reg: Registrar): Store {
    Store(RegisterRaws(s.raws, RawListing(rawDir), reg), RegisterArcs(s.arcs, ArcListing(arcDir), reg))
  }

  /** The cache contents after marking removed raw datasets (the third
      checkpoint). */
  function Marked(s: Store, rawDir: Folder, arcDir: Folder, reg: Registrar): Store {
    var t := Registered(s, rawDir, arcDir, reg);
    Store(MarkRemoved(t.raws, rawDir), t.arcs)
  }

  /** `_parse_info` as a whole. */
  function Reconcile(s: Store, rawDir: Folder, arcDir: Folder, insp: Inspector, reg: Registrar): Pass {
    var m := Marked(s, rawDir, arcDir, reg);
    Review(m.raws, m.arcs, arcDir, rawDir, insp)
  }

  // ---------------------------------------------------------------------
  // What a review does, in closed form

  /** The archive records a completed review leaves: those whose file
      exists, in their order, each with its flags revised. */
  function Revise(arcs: seq<ArcRecord>, arcDir: Folder, rawDir: Folder, insp: Inspector): (r: seq<ArcRecord>)
    ensures |r| <= |arcs|
    ensures forall x :: x in r ==> x.path in arcDir
    ensures forall b :: b in arcs && b.path in arcDir ==> Revised(b, arcDir[b.path], rawDir, insp) in r
    ensures forall x :: x in r ==>
              exists b :: b in arcs && b.path in arcDir && x == Revised(b, arcDir[b.path], rawDir, insp)
    decreases |arcs|
  {
    if arcs == [] then []
    else
      var rest := Revise(arcs[1..], arcDir, rawDir, insp);
      assert forall b :: b in arcs ==> b == arcs[0] || b in arcs[1..];
      if arcs[0].path in arcDir then
        [Revised(arcs[0], arcDir[arcs[0].path], rawDir, insp)] + rest
      else rest
  }

  /** Revising keeps archive file names unique. */
  lemma {:induction false} ReviseDistinct(arcs: seq<ArcRecord>, arcDir: Folder, rawDir: Folder, insp: Inspector)
    requires DistinctArcPaths(arcs)
    ensures DistinctArcPaths(Revise(arcs, arcDir, rawDir, insp))
    decreases |arcs|
  {
    if arcs != [] {
      var rest := Revise(arcs[1..], arcDir, rawDir, insp);
      assert DistinctArcPaths(arcs[1..]);
      ReviseDistinct(arcs[1..], arcDir, rawDir, insp);
      if arcs[0].path in arcDir {
        forall x | x in rest ensures x.path != arcs[0].path {
          var b :| b in arcs[1..] && b.path in arcDir && x == Revised(b, arcDir[b.path], rawDir, insp);
          var k :| 0 <= k < |arcs[1..]| && arcs[1..][k] == b;
          assert arcs[k + 1] == b;
        }
        ConsDistinct(Revised(arcs[0], arcDir[arcs[0].path], rawDir, insp), rest);
      }
    }
  }

  lemma ConsDistinct(h: ArcRecord, rest: seq<ArcRecord>)
    requires DistinctArcPaths(rest) && forall x :: x in rest ==> x.path != h.path
    ensures DistinctArcPaths([h] + rest)
  {
    var r := [h] + rest;
    forall i, j | 0 <= i < j < |r| ensures r[i].path != r[j].path {
      assert r[j] == rest[j - 1];
      if i > 0 {
        assert r[i] == rest[i - 1];
      }
    }
  }

  /** The raw records whose `backup` flag a review sets: those linked from
      an archive it credits. */
  function CreditedIds(arcs: seq<ArcRecord>, arcDir: Folder, rawDir: Folder, insp: Inspector): set<nat> {
    set b | b in arcs && Credited(b, arcDir, rawDir, insp) && b.rawId.Some? :: b.rawId.value
  }

  function Credit(raws: seq<RawRecord>, ids: set<nat>): seq<RawRecord> {
    seq(|raws|, i requires 0 <= i < |raws| => if i in ids then raws[i].(backup := true) else raws[i])
  }

  /** Every archive the review credits has a raw record to credit. */
  predicate AllResolve(raws: seq<RawRecord>, arcs: seq<ArcRecord>, arcDir: Folder, rawDir: Folder, insp: Inspector) {
    forall b :: b in arcs && Credited(b, arcDir, rawDir, insp) ==> RawOf(raws, b).Some?
  }

  lemma CreditStep(raws: seq<RawRecord>, b: ArcRecord, rest: seq<ArcRecord>, arcDir: Folder, rawDir: Folder, insp: Inspector)
    requires Credited(b, arcDir, rawDir, insp) && RawOf(raws, b).Some?
    ensures var i := RawOf(raws, b).value;
            Credit(raws[i := raws[i].(backup := true)], CreditedIds(rest, arcDir, rawDir, insp))
            == Credit(raws, CreditedIds([b] + rest, arcDir, rawDir, insp))
  {
    var i := RawOf(raws, b).value;
    var ids := CreditedIds([b] + rest, arcDir, rawDir, insp);
    assert ids == CreditedIds(rest, arcDir, rawDir, insp) + {i} by {
      forall x | x in [b] + rest ensures x == b || x in rest { }
    }
  }

  lemma NoCreditStep(raws: seq<RawRecord>, b: ArcRecord, rest: seq<ArcRecord>, arcDir: Folder, rawDir: Folder, insp: Inspector)
    requires !Credited(b, arcDir, rawDir, insp)
    ensures CreditedIds([b] + rest, arcDir, rawDir, insp) == CreditedIds(rest, arcDir, rawDir, insp)
  {
    forall x | x in [b] + rest ensures x == b || x in rest { }
  }

  /** The review loop finishes exactly when every archive it credits
      resolves to a raw record; it then leaves the existing archives,
      revised, and raises `backup` on exactly the credited raw records. */
  lemma {:induction false} ReviewDone(raws: seq<RawRecord>, arcs: seq<ArcRecord>, arcDir: Folder, rawDir: Folder, insp: Inspector)
    ensures Review(raws, arcs, arcDir, rawDir, insp).outcome == Done <==> AllResolve(raws, arcs, arcDir, rawDir, insp)
    ensures Review(raws, arcs, arcDir, rawDir, insp).outcome == Done ==>
              Review(raws, arcs, arcDir, rawDir, insp).store ==
              Store(Credit(raws, CreditedIds(arcs, arcDir, rawDir, insp)), Revise(arcs, arcDir, rawDir, insp))
  {
    ReviewDoneOutcome(raws, arcs, arcDir, rawDir, insp);
    if Review(raws, arcs, arcDir, rawDir, insp).outcome == Done {
      ReviewDoneArcs(raws, arcs, arcDir, rawDir, insp);
      ReviewDoneRaws(raws, arcs, arcDir, rawDir, insp);
    }
  }

  /** A review that stops early stops at an archive it credits whose
      association does not resolve. */
  lemma {:induction false} ReviewStops(raws: seq<RawRecord>, arcs: seq<ArcRecord>, arcDir: Folder, rawDir: Folder, insp: Inspector)
    requires Review(raws, arcs, arcDir, rawDir, insp).outcome.Unresolved?
    ensures exists b :: b in arcs && b.path == Review(raws, arcs, arcDir, rawDir, insp).outcome.path &&
              Credited(b, arcDir, rawDir, insp) && RawOf(raws, b).None?
    decreases |arcs|
  {
    var s := ReviewArc(arcs[0], raws, arcDir, rawDir, insp);
    if s.ok {
      ReviewStops(s.raws, arcs[1..], arcDir, rawDir, insp);
      var b :| b in arcs[1..] && b.path == Review(s.raws, arcs[1..], arcDir, rawDir, insp).outcome.path &&
               Credited(b, arcDir, rawDir, insp) && RawOf(s.raws, b).None?;
      assert b in arcs;
    } else {
      assert arcs[0] in arcs;
    }
  }

  /** Only the number of raw records matters to whether associations
      resolve. */
  lemma AllResolveCons(raws: seq<RawRecord>, raws': seq<RawRecord>, b: ArcRecord, t: seq<ArcRecord>,
                       arcDir: Folder, rawDir: Folder, insp: Inspector)
    requires |raws'| == |raws|
    ensures AllResolve(raws, [b] + t, arcDir, rawDir, insp) <==>
            (Credited(b, arcDir, rawDir, insp) ==> RawOf(raws, b).Some?) && AllResolve(raws', t, arcDir, rawDir, insp)
  {
    assert forall x :: RawOf(raws', x) == RawOf(raws, x);
    assert forall x :: x in [b] + t <==> x == b || x in t;
  }

  lemma {:induction false} ReviewDoneOutcome(raws: seq<RawRecord>, arcs: seq<ArcRecord>, arcDir: Folder, rawDir: Folder, insp: Inspector)
    ensures Review(raws, arcs, arcDir, rawDir, insp).outcome == Done <==> AllResolve(raws, arcs, arcDir, rawDir, insp)
    decreases |arcs|
  {
    if arcs != [] {
      var b, t := arcs[0], arcs[1..];
      assert arcs == [b] + t;
      var s := ReviewArc(b, raws, arcDir, rawDir, insp);
      AllResolveCons(raws, s.raws, b, t, arcDir, rawDir, insp);
      if s.ok {
        ReviewDoneOutcome(s.raws, t, arcDir, rawDir, insp);
      }
    }
  }

  lemma {:induction false} ReviewDoneArcs(raws: seq<RawRecord>, arcs: seq<ArcRecord>, arcDir: Folder, rawDir: Folder, insp: Inspector)
    requires Review(raws, arcs, arcDir, rawDir, insp).outcome == Done
    ensures Review(raws, arcs, arcDir, rawDir, insp).store.arcs == Revise(arcs, arcDir, rawDir, insp)
    decreases |arcs|
  {
    if arcs != [] {
      var s := ReviewArc(arcs[0], raws, arcDir, rawDir, insp);
      assert s.ok;
      ReviewDoneArcs(s.raws, arcs[1..], arcDir, rawDir, insp);
      assert Revise(arcs, arcDir, rawDir, insp) == OptSeq(s.arc) + Revise(arcs[1..], arcDir, rawDir, insp);
    }
  }

  lemma {:induction false} ReviewDoneRaws(raws: seq<RawRecord>, arcs: seq<ArcRecord>, arcDir: Folder, rawDir: Folder, insp: Inspector)
    requires Review(raws, arcs, arcDir, rawDir, insp).outcome == Done
    ensures Review(raws, arcs, arcDir, rawDir, insp).store.raws == Credit(raws, CreditedIds(arcs, arcDir, rawDir, insp))
    decreases |arcs|
  {
    if arcs == [] {
      assert Credit(raws, {}) == raws;
    } else {
      var b, t := arcs[0], arcs[1..];
      assert arcs == [b] + t;
      var s := ReviewArc(b, raws, arcDir, rawDir, insp);
      assert s.ok;
      ReviewDoneRaws(s.raws, t, arcDir, rawDir, insp);
      if Credited(b, arcDir, rawDir, insp) {
        CreditStep(raws, b, t, arcDir, rawDir, insp);
      } else {
        NoCreditStep(raws, b, t, arcDir, rawDir, insp);
      }
    }
  }

  /** Whatever its outcome, the review keeps every raw record, changes no
      name, `removed` or `garbage` flag, and never lowers `backup`. */
  lemma {:induction false} ReviewKeepsRaws(raws: seq<RawRecord>, arcs: seq<ArcRecord>, arcDir: Folder, rawDir: Folder, insp: Inspector)
    ensures var out := Review(raws, arcs, arcDir, rawDir, insp).store.raws;
            |out| == |raws| &&
            forall i :: 0 <= i < |raws| ==>
              out[i].path == raws[i].path && out[i].removed == raws[i].removed &&
              out[i].garbage == raws[i].garbage && (raws[i].backup ==> out[i].backup)
    decreases |arcs|
  {
    if arcs != [] {
      var s := ReviewArc(arcs[0], raws, arcDir, rawDir, insp);
      if s.ok {
        ReviewKeepsRaws(s.raws, arcs[1..], arcDir, rawDir, insp);
      }
    }
  }

  /** Revising twice is revising once. */
  lemma RevisedIdempotent(b: ArcRecord, arcNode: Node, rawDir: Folder, insp: Inspector)
    ensures Revised(Revised(b, arcNode, rawDir, insp), arcNode, rawDir, insp) == Revised(b, arcNode, rawDir, insp)
  {
  }

  lemma {:induction false} ReviseIdempotent(arcs: seq<ArcRecord>, arcDir: Folder, rawDir: Folder, insp: Inspector)
    ensures Revise(Revise(arcs, arcDir, rawDir, insp), arcDir, rawDir, insp) == Revise(arcs, arcDir, rawDir, insp)
    decreases |arcs|
  {
    if arcs != [] {
      ReviseIdempotent(arcs[1..], arcDir, rawDir, insp);
      if arcs[0].path in arcDir {
        var r := Revise(arcs, arcDir, rawDir, insp);
        var h := Revised(arcs[0], arcDir[arcs[0].path], rawDir, insp);
        RevisedIdempotent(arcs[0], arcDir[arcs[0].path], rawDir, insp);
        assert r == [h] + Revise(arcs[1..], arcDir, rawDir, insp);
        assert r[0] == h && r[1..] == Revise(arcs[1..], arcDir, rawDir, insp);
      }
    }
  }

  // ---------------------------------------------------------------------
  // The whole pass

  /** Raw records are never dropped: the old ones keep their name,
      `garbage` and `backup` (which can only rise), `removed` becomes true
      exactly when the named directory is absent and is never cleared; the
      records added are new, not removed, and named after listed
      directories. */
  lemma {:induction false} ReconcileRaws(s: Store, rawDir: Folder, arcDir: Folder, insp: Inspector, reg: Registrar)
    ensures var out := Reconcile(s, rawDir, arcDir, insp, reg).store.raws;
            |s.raws| <= |out| &&
            (forall i :: 0 <= i < |s.raws| ==>
               out[i].path == s.raws[i].path && out[i].garbage == s.raws[i].garbage &&
               (s.raws[i].backup ==> out[i].backup) &&
               (out[i].removed <==> s.raws[i].removed || (s.raws[i].path.Some? && s.raws[i].path.value !in rawDir))) &&
            (forall i :: |s.raws| <= i < |out| ==>
               out[i].path.Some? && out[i].path.value in RawListing(rawDir) && !out[i].removed &&
               out[i].garbage == reg.rawGarbage(out[i].path.value)) &&
            (forall n :: n in RawListing(rawDir) ==> KnownRaw(out, n))
  {
    var m := Marked(s, rawDir, arcDir, reg).raws;
    var out := Reconcile(s, rawDir, arcDir, insp, reg).store.raws;
    MarkedRaws(s, rawDir, arcDir, reg);
    ReviewKeepsRaws(m, Marked(s, rawDir, arcDir, reg).arcs, arcDir, rawDir, insp);
    forall n | n in RawListing(rawDir) ensures KnownRaw(out, n) {
      var i :| 0 <= i < |m| && m[i].path == Some(n);
      assert out[i].path == Some(n);
    }
  }

  /** The raw records after registration and marking, against the old ones. */
  lemma MarkedRaws(s: Store, rawDir: Folder, arcDir: Folder, reg: Registrar)
    ensures var m := Marked(s, rawDir, arcDir, reg).raws;
            |s.raws| <= |m| &&
            (forall i :: 0 <= i < |s.raws| ==>
               m[i].path == s.raws[i].path && m[i].garbage == s.raws[i].garbage && m[i].backup == s.raws[i].backup &&
               (m[i].removed <==> s.raws[i].removed || (s.raws[i].path.Some? && s.raws[i].path.value !in rawDir))) &&
            (forall i :: |s.raws| <= i < |m| ==>
               m[i].path.Some? && m[i].path.value in RawListing(rawDir) && !m[i].removed &&
               m[i].garbage == reg.rawGarbage(m[i].path.value)) &&
            (forall n :: n in RawListing(rawDir) ==> KnownRaw(m, n))
  {
    var t := RegisterRaws(s.raws, RawListing(rawDir), reg);
    var m := MarkRemoved(t, rawDir);
    assert forall i :: 0 <= i < |s.raws| ==> t[i] == s.raws[i] by {
      assert t[..|s.raws|] == s.raws;
    }
    forall n | n in RawListing(rawDir) ensures KnownRaw(m, n) {
      var i :| 0 <= i < |t| && t[i].path == Some(n);
      assert m[i].path == Some(n);
    }
  }

  /** A name with a record whose file exists keeps a record after a
      completed review. */
  lemma ReviseKnown(arcs: seq<ArcRecord>, n: string, arcDir: Folder, rawDir: Folder, insp: Inspector)
    requires KnownArc(arcs, n) && n in arcDir
    ensures KnownArc(Revise(arcs, arcDir, rawDir, insp), n)
  {
    var out := Revise(arcs, arcDir, rawDir, insp);
    var i :| 0 <= i < |arcs| && arcs[i].path == n;
    var x := Revised(arcs[i], arcDir[n], rawDir, insp);
    assert arcs[i] in arcs;
    assert x in out;
    var j :| 0 <= j < |out| && out[j] == x;
  }

  lemma PrefixMembers<T>(s: seq<T>, t: seq<T>)
    requires |s| <= |t| && t[..|s|] == s
    ensures forall x :: x in s ==> x in t
  {
    forall x | x in s ensures x in t {
      var i :| 0 <= i < |s| && s[i] == x;
      assert t[i] == x;
    }
  }

  /** With the review finished, an archive record is dropped exactly when
      its file is absent: every remaining record names an existing file,
      every old record whose file exists stays (revised), every listed file
      has a record, and file names stay unique. */
  lemma {:induction false} ReconcileArcs(s: Store, rawDir: Folder, arcDir: Folder, insp: Inspector, reg: Registrar)
    requires Reconcile(s, rawDir, arcDir, insp, reg).outcome == Done
    ensures var out := Reconcile(s, rawDir, arcDir, insp, reg).store.arcs;
            (forall x :: x in out ==> x.path in arcDir) &&
            (forall b :: b in s.arcs && b.path in arcDir ==> Revised(b, arcDir[b.path], rawDir, insp) in out) &&
            (forall n :: n in ArcListing(arcDir) ==> KnownArc(out, n)) &&
            (DistinctArcPaths(s.arcs) ==> DistinctArcPaths(out))
  {
    var m := Marked(s, rawDir, arcDir, reg);
    var listing := ArcListing(arcDir);
    assert m.arcs == RegisterArcs(s.arcs, listing, reg);
    ReviewDone(m.raws, m.arcs, arcDir, rawDir, insp);
    var out := Revise(m.arcs, arcDir, rawDir, insp);
    PrefixMembers(s.arcs, m.arcs);
    forall n | n in listing ensures KnownArc(out, n) {
      ReviseKnown(m.arcs, n, arcDir, rawDir, insp);
    }
    if DistinctArcPaths(s.arcs) {
      ReviseDistinct(m.arcs, arcDir, rawDir, insp);
    }
  }

  /** After a pass that finished, registering and marking again changes
      nothing: every listed name is known and every absent raw directory is
      already marked. */
  lemma {:induction false} DoneSettles(s: Store, rawDir: Folder, arcDir: Folder, insp: Inspector, reg: Registrar)
    requires Reconcile(s, rawDir, arcDir, insp, reg).outcome == Done
    ensures var s1 := Reconcile(s, rawDir, arcDir, insp, reg).store;
            Marked(s1, rawDir, arcDir, reg) == s1
  {
    var s1 := Reconcile(s, rawDir, arcDir, insp, reg).store;
    var m := Marked(s, rawDir, arcDir, reg);
    ReconcileRaws(s, rawDir, arcDir, insp, reg);
    ReconcileArcs(s, rawDir, arcDir, insp, reg);
    ReviewDone(m.raws, m.arcs, arcDir, rawDir, insp);
    ReviewKeepsRaws(m.raws, m.arcs, arcDir, rawDir, insp);
    var rr := RegisterRaws(s1.raws, RawListing(rawDir), reg);
    assert rr == s1.raws;
    assert RegisterArcs(s1.arcs, ArcListing(arcDir), reg) == s1.arcs;
    forall i | 0 <= i < |s1.raws| ensures MarkOne(s1.raws[i], rawDir) == s1.raws[i] {
      assert s1.raws[i].removed == m.raws[i].removed;
    }
    assert MarkRemoved(s1.raws, rawDir) == s1.raws;
  }

  lemma CreditTwice(raws: seq<RawRecord>, ids: set<nat>)
    ensures Credit(Credit(raws, ids), ids) == Credit(raws, ids)
  {
  }

  lemma AllResolveByLength(r1: seq<RawRecord>, r2: seq<RawRecord>, arcs: seq<ArcRecord>, arcDir: Folder, rawDir: Folder, insp: Inspector)
    requires |r1| == |r2| && AllResolve(r1, arcs, arcDir, rawDir, insp)
    ensures AllResolve(r2, arcs, arcDir, rawDir, insp)
  {
    assert forall x :: RawOf(r2, x) == RawOf(r1, x);
  }

  /** Running the pass repeatedly settles: once two passes in a row have
      finished, a third leaves the cache exactly as the second did. */
  lemma {:induction false} ReconcileSettles(s: Store, rawDir: Folder, arcDir: Folder, insp: Inspector, reg: Registrar)
    requires Reconcile(s, rawDir, arcDir, insp, reg).outcome == Done
    requires Reconcile(Reconcile(s, rawDir, arcDir, insp, reg).store, rawDir, arcDir, insp, reg).outcome == Done
    ensures var s2 := Reconcile(Reconcile(s, rawDir, arcDir, insp, reg).store, rawDir, arcDir, insp, reg).store;
            Reconcile(s2, rawDir, arcDir, insp, reg) == Pass(s2, Done)
  {
    var m := Marked(s, rawDir, arcDir, reg);
    var s1 := Reconcile(s, rawDir, arcDir, insp, reg).store;
    ReviewDone(m.raws, m.arcs, arcDir, rawDir, insp);
    assert s1.arcs == Revise(m.arcs, arcDir, rawDir, insp);
    DoneSettles(s, rawDir, arcDir, insp, reg);
    assert Reconcile(s1, rawDir, arcDir, insp, reg) == Review(s1.raws, s1.arcs, arcDir, rawDir, insp);
    var s2 := Reconcile(s1, rawDir, arcDir, insp, reg).store;
    var ids := CreditedIds(s1.arcs, arcDir, rawDir, insp);
    ReviewDone(s1.raws, s1.arcs, arcDir, rawDir, insp);
    ReviseIdempotent(m.arcs, arcDir, rawDir, insp);
    assert s2 == Store(Credit(s1.raws, ids), s1.arcs);
    DoneSettles(s1, rawDir, arcDir, insp, reg);
    assert Reconcile(s2, rawDir, arcDir, insp, reg) == Review(s2.raws, s2.arcs, arcDir, rawDir, insp);
    AllResolveByLength(s1.raws, s2.raws, s1.arcs, arcDir, rawDir, insp);
    ReviewDone(s2.raws, s2.arcs, arcDir, rawDir, insp);
    CreditTwice(s1.raws, ids);
  }

  // A cache where one archive was crashed and has since been rewritten.

  function ExampleStore(): Store {
    Store([RawRecord(Some("B"), false, false, false)], [ArcRecord("B.zip", true, true, false, Some(0))])
  }

  function ExampleRawDir(): Folder { map["B" := Dir([])] }

  function ExampleArcDir(): Folder { map["B.zip" := File(Existing(0))] }

  function ExampleInspector(): Inspector {
    Inspector(_ => true, _ => true, _ => 1, _ => Some("B"))
  }

  function ExampleRegistrar(): Registrar {
    Registrar(_ => false, _ => false, _ => false, _ => false, _ => None)
  }

  /** Registration finds nothing new in the example folders. */
  lemma ExampleRawsRegistered(raws: seq<RawRecord>)
    requires raws == ExampleStore().raws
    ensures RegisterRaws(raws, RawListing(ExampleRawDir()), ExampleRegistrar()) == raws
  {
    var rl := RawListing(ExampleRawDir());
    assert KnownRaw(raws, "B") by { assert raws[0].path == Some("B"); }
    assert forall n :: n in rl ==> n == "B";
  }

  lemma ExampleArcsRegistered(arcs: seq<ArcRecord>)
    requires |arcs| == 1 && arcs[0].path == "B.zip"
    ensures RegisterArcs(arcs, ArcListing(ExampleArcDir()), ExampleRegistrar()) == arcs
  {
    var al := ArcListing(ExampleArcDir());
    assert KnownArc(arcs, "B.zip") by { assert arcs[0].path == "B.zip"; }
    assert forall n :: n in al ==> n == "B.zip";
  }

  lemma ExampleRegistered(s: Store)
    requires s.raws == ExampleStore().raws && |s.arcs| == 1 && s.arcs[0].path == "B.zip"
    ensures Registered(s, ExampleRawDir(), ExampleArcDir(), ExampleRegistrar()) == s
  {
    ExampleRawsRegistered(s.raws);
    ExampleArcsRegistered(s.arcs);
  }

  lemma ExampleMarked(s: Store)
    requires s.raws == ExampleStore().raws && |s.arcs| == 1 && s.arcs[0].path == "B.zip"
    ensures Marked(s, ExampleRawDir(), ExampleArcDir(), ExampleRegistrar()) == s
  {
    ExampleRegistered(s);
    assert MarkOne(s.raws[0], ExampleRawDir()) == s.raws[0];
    assert MarkRemoved(s.raws, ExampleRawDir()) == s.raws;
  }

  lemma ExampleFirstPass()
    ensures Reconcile(ExampleStore(), ExampleRawDir(), ExampleArcDir(), ExampleInspector(), ExampleRegistrar())
            == Pass(Store(ExampleStore().raws, [ArcRecord("B.zip", false, false, false, Some(0))]), Done)
  {
    var rawDir, arcDir, insp := ExampleRawDir(), ExampleArcDir(), ExampleInspector();
    var s := ExampleStore();
    var node := File(Existing(0));
    assert arcDir["B.zip"] == node;
    assert SameAsRaw(node, rawDir, insp) == Some(true);
    var b1 := ArcRecord("B.zip", false, false, false, Some(0));
    ExampleMarked(s);
    assert ReviewArc(s.arcs[0], s.raws, arcDir, rawDir, insp) == Step(Some(b1), s.raws, true);
    assert Review(s.raws, s.arcs[1..], arcDir, rawDir, insp) == Pass(Store(s.raws, []), Done);
  }

  /** The second pass's one review step: the repaired archive credits its
      raw record. */
  lemma ExampleSecondStep()
    ensures ReviewArc(ArcRecord("B.zip", false, false, false, Some(0)), ExampleStore().raws,
                      ExampleArcDir(), ExampleRawDir(), ExampleInspector())
            == Step(Some(ArcRecord("B.zip", false, false, false, Some(0))), [RawRecord(Some("B"), false, true, false)], true)
  {
    var rawDir, arcDir, insp := ExampleRawDir(), ExampleArcDir(), ExampleInspector();
    var b1 := ArcRecord("B.zip", false, false, false, Some(0));
    var raws := ExampleStore().raws;
    assert Credited(b1, arcDir, rawDir, insp);
    assert RawOf(raws, b1) == Some(0);
    assert raws[0 := raws[0].(backup := true)] == [RawRecord(Some("B"), false, true, false)];
  }

  /** The second pass's review over the one archive record. */
  lemma ExampleSecondReview()
    ensures var b1 := ArcRecord("B.zip", false, false, false, Some(0));
            Review(ExampleStore().raws, [b1], ExampleArcDir(), ExampleRawDir(), ExampleInspector())
            == Pass(Store([RawRecord(Some("B"), false, true, false)], [b1]), Done)
  {
    var rawDir, arcDir, insp := ExampleRawDir(), ExampleArcDir(), ExampleInspector();
    var b1 := ArcRecord("B.zip", false, false, false, Some(0));
    var r2 := [RawRecord(Some("B"), false, true, false)];
    ExampleSecondStep();
    assert [b1][1..] == [];
    assert Review(r2, [], arcDir, rawDir, insp) == Pass(Store(r2, []), Done);
  }

  lemma ExampleSecondPass()
    ensures var s1 := Store(ExampleStore().raws, [ArcRecord("B.zip", false, false, false, Some(0))]);
            Reconcile(s1, ExampleRawDir(), ExampleArcDir(), ExampleInspector(), ExampleRegistrar())
            == Pass(Store([RawRecord(Some("B"), false, true, false)], s1.arcs), Done)
  {
    var s1 := Store(ExampleStore().raws, [ArcRecord("B.zip", false, false, false, Some(0))]);
    ExampleMarked(s1);
    ExampleSecondReview();
  }

  /** The pass is not idempotent: a crashed archive found repaired is
      cleared of its issue in one pass, but its raw record is credited only
      by the next one. */
  lemma {:induction false} ReconcileNotIdempotent()
    ensures var p1 := Reconcile(ExampleStore(), ExampleRawDir(), ExampleArcDir(), ExampleInspector(), ExampleRegistrar());
            var p2 := Reconcile(p1.store, ExampleRawDir(), ExampleArcDir(), ExampleInspector(), ExampleRegistrar());
            p1.outcome == Done && p2.outcome == Done && p2.store != p1.store
  {
    var rawDir, arcDir, insp, reg := ExampleRawDir(), ExampleArcDir(), ExampleInspector(), ExampleRegistrar();
    var s1 := Store(ExampleStore().raws, [ArcRecord("B.zip", false, false, false, Some(0))]);
    ExampleFirstPass();
    ExampleSecondPass();
    var p1 := Reconcile(ExampleStore(), rawDir, arcDir, insp, reg);
    assert p1.store == s1;
    assert Reconcile(p1.store, rawDir, arcDir, insp, reg).store.raws[0].backup != s1.raws[0].backup;
  }
}
