/** `clean`: which flagged archives each pass offers for deletion, what a
    confirmed deletion does to the directory and the cache, and the label
    printed above each group of duplicated archives. */
module Cleaner {
  import opened Wrappers
  import opened PyStr
  import opened Records
  import opened Views

  // ---------------------------------------------------------------------
  // What each pass offers

  /** The file names a pass over `dset` offers, skipping the records `skip`
      selects. */
  function Offered(dset: seq<ArcRecord>, skip: ArcRecord -> bool): (ps: seq<string>)
    ensures forall p :: p in ps <==> exists b :: b in dset && !skip(b) && b.path == p
    decreases |dset|
  {
    if dset == [] then []
    else
      var rest := Offered(dset[1..], skip);
      assert forall b :: b in dset <==> b == dset[0] || b in dset[1..];
      (if skip(dset[0]) then [] else [dset[0].path]) + rest
  }

  /** The 'issued' pass leaves out archives that are also garbage or
      crashed. */
  predicate SkipIssued(b: ArcRecord) { b.garbage || b.crashed }

  /** The 'garbage' pass leaves out archives that are also crashed. */
  predicate SkipGarbage(b: ArcRecord) { b.crashed }

  lemma IssuedPassOffers(arcs: seq<ArcRecord>, p: string)
    ensures p in Offered(Issued(arcs), SkipIssued) <==>
            exists b :: b in arcs && b.issued && !b.garbage && !b.crashed && b.path == p
  {
  }

  lemma GarbagePassOffers(arcs: seq<ArcRecord>, p: string)
    ensures p in Offered(Garbage(arcs), SkipGarbage) <==>
            exists b :: b in arcs && b.garbage && !b.crashed && b.path == p
  {
  }

  /** The file names of all groups, group by group. */
  function GroupPaths(gs: seq<Group>): (ps: seq<string>)
    ensures forall p :: p in ps <==> exists i :: 0 <= i < |gs| && p in gs[i].paths
    decreases |gs|
  {
    if gs == [] then []
    else
      var rest := GroupPaths(gs[1..]);
      forall i, p | 1 <= i < |gs| && p in gs[i].paths ensures p in rest {
        assert gs[1..][i - 1] == gs[i];
      }
      gs[0].paths + rest
  }

  lemma KeyIndex(gs: seq<Group>, k: Option<string>) returns (i: nat)
    requires HasKey(gs, k)
    ensures i < |gs| && gs[i].key == k
  {
    if gs[0].key == k {
      i := 0;
    } else {
      var j := KeyIndex(gs[1..], k);
      i := j + 1;
    }
  }

  /** The 'duplicated' pass offers exactly the duplicated archives. */
  lemma DuplicatedPassOffers(raws: seq<RawRecord>, arcs: seq<ArcRecord>, b: ArcRecord)
    requires DistinctArcPaths(arcs) && b in arcs
    ensures b.path in GroupPaths(Duplicated(raws, arcs, arcs)) <==> IsDuplicated(raws, arcs, b)
  {
    var gs := Duplicated(raws, arcs, arcs);
    DuplicatedGroups(raws, arcs);
    if IsDuplicated(raws, arcs, b) {
      DuplicatedSpec(raws, arcs, arcs);
      assert InGroup(raws, arcs, DupKey(raws, b), b);
      var i := KeyIndex(gs, DupKey(raws, b));
      assert b.path in gs[i].paths;
    }
  }

  /** Every name `clean` offers, pass after pass: 'issued', 'garbage',
      'crashed' (which offers nothing) and 'duplicated'. */
  function Offers(raws: seq<RawRecord>, arcs: seq<ArcRecord>): seq<string> {
    Offered(Issued(arcs), SkipIssued) + Offered(Garbage(arcs), SkipGarbage) + GroupPaths(Duplicated(raws, arcs, arcs))
  }

  /** A crashed archive is offered only because it is duplicated. */
  lemma CrashedOfferedOnlyAsDuplicate(raws: seq<RawRecord>, arcs: seq<ArcRecord>, b: ArcRecord)
    requires DistinctArcPaths(arcs) && b in arcs && b.crashed
    ensures b.path in Offers(raws, arcs) <==> IsDuplicated(raws, arcs, b)
  {
    DuplicatedPassOffers(raws, arcs, b);
    forall c | c in arcs && c.path == b.path ensures c == b {
      var i :| 0 <= i < |arcs| && arcs[i] == c;
      var j :| 0 <= j < |arcs| && arcs[j] == b;
      assert i == j;
    }
    IssuedPassOffers(arcs, b.path);
    GarbagePassOffers(arcs, b.path);
  }

  // ---------------------------------------------------------------------
  // Offering, as intended

  /** Where `clean` stands: the archive records, the backup directory and
      the number of prompts answered so far (prompt 0 is the opening
      "Are you sure to continue?"). */
  datatype Cleaning = Cleaning(arcs: seq<ArcRecord>, dir: Folder, asked: nat)

  /** One prompt: when confirmed and the file can be removed, the file and
      its record go; a locked or missing file is reported and skipped. */
  function Offer(c: Cleaning, name: string, yes: nat -> bool, locked: string -> bool): Cleaning {
    var c' := c.(asked := c.asked + 1);
    if !yes(c.asked) then c'
    else
      match Unlink(c.dir, name, locked)
      case None => c'
      case Some(d) => c'.(dir := d, arcs := RemoveArc(c.arcs, name))
  }

  /** The prompts for `names`, one after another; one answer is read per
      name. */
  function OfferAll(c: Cleaning, names: seq<string>, yes: nat -> bool, locked: string -> bool): (r: Cleaning)
    ensures r.asked == c.asked + |names|
    decreases |names|
  {
    if names == [] then c else OfferAll(Offer(c, names[0], yes, locked), names[1..], yes, locked)
  }

  lemma {:induction false} OfferAllConcat(c: Cleaning, a: seq<string>, b: seq<string>, yes: nat -> bool, locked: string -> bool)
    ensures OfferAll(c, a + b, yes, locked) == OfferAll(OfferAll(c, a, yes, locked), b, yes, locked)
    decreases |a|
  {
    if a == [] {
      assert a + b == b;
    } else {
      assert (a + b)[1..] == a[1..] + b;
      OfferAllConcat(Offer(c, a[0], yes, locked), a[1..], b, yes, locked);
    }
  }

  /** `clean` as intended: after a confirmed opening prompt, every offered
      name is put to the user in turn. */
  function Clean(s: Store, dir: Folder, yes: nat -> bool, locked: string -> bool): Cleaning {
    var start := Cleaning(s.arcs, dir, 1);
    if !yes(0) then start else OfferAll(start, Offers(s.raws, s.arcs), yes, locked)
  }

  /** The bookkeeping `clean` keeps against the original records and
      directory: records are only dropped, names stay unique, a record is
      present exactly when its file was not deleted, and files are only
      deleted. */
  ghost predicate Tracks(arcs0: seq<ArcRecord>, dir0: Folder, c: Cleaning) {
    DistinctArcPaths(c.arcs) &&
    (forall b :: b in c.arcs ==> b in arcs0) &&
    (forall b :: b in arcs0 ==> (b in c.arcs <==> !(b.path in dir0 && b.path !in c.dir))) &&
    (forall n :: n in c.dir ==> n in dir0 && c.dir[n] == dir0[n])
  }

  /** One prompt keeps the bookkeeping; it deletes nothing unless the
      answer was yes, and a confirmed prompt deletes its file when that is
      a file that is not locked. */
  lemma OfferTracks(arcs0: seq<ArcRecord>, dir0: Folder, c: Cleaning, name: string, yes: nat -> bool, locked: string -> bool)
    requires Tracks(arcs0, dir0, c)
    ensures Tracks(arcs0, dir0, Offer(c, name, yes, locked))
    ensures forall n :: n in c.dir && n !in Offer(c, name, yes, locked).dir ==> n == name
    ensures Offer(c, name, yes, locked).dir != c.dir ==> yes(c.asked)
    ensures yes(c.asked) && name in c.dir && c.dir[name].File? && !locked(name) ==>
              name !in Offer(c, name, yes, locked).dir
  {
  }

  lemma {:induction false} OfferAllTracks(arcs0: seq<ArcRecord>, dir0: Folder, c: Cleaning, names: seq<string>, yes: nat -> bool, locked: string -> bool)
    requires Tracks(arcs0, dir0, c)
    ensures Tracks(arcs0, dir0, OfferAll(c, names, yes, locked))
    ensures forall n :: n in c.dir && n !in OfferAll(c, names, yes, locked).dir ==> n in names
    decreases |names|
  {
    if names != [] {
      var c1 := Offer(c, names[0], yes, locked);
      OfferTracks(arcs0, dir0, c, names[0], yes, locked);
      OfferAllTracks(arcs0, dir0, c1, names[1..], yes, locked);
      assert forall n :: n in names[1..] ==> n in names;
    }
  }

  /** A file the prompts for `names` delete was offered under a prompt
      answered yes. */
  lemma {:induction false} OfferAllConfirmed(c: Cleaning, names: seq<string>, yes: nat -> bool, locked: string -> bool)
    ensures forall n :: n in c.dir && n !in OfferAll(c, names, yes, locked).dir ==>
              exists i :: 0 <= i < |names| && names[i] == n && yes(c.asked + i)
    decreases |names|
  {
    if names != [] {
      var c1 := Offer(c, names[0], yes, locked);
      var r := OfferAll(c1, names[1..], yes, locked);
      OfferAllConfirmed(c1, names[1..], yes, locked);
      forall n | n in c.dir && n !in r.dir
        ensures exists i :: 0 <= i < |names| && names[i] == n && yes(c.asked + i)
      {
        if n in c1.dir {
          var k :| 0 <= k < |names[1..]| && names[1..][k] == n && yes(c1.asked + k);
          assert names[k + 1] == n && yes(c.asked + (k + 1));
        } else {
          assert names[0] == n && yes(c.asked + 0);
        }
      }
    }
  }

  /** Every file offered by the prompts for `names` under a prompt answered
      yes, that is not locked, is gone afterwards. */
  lemma {:induction false} OfferAllDeletes(c: Cleaning, names: seq<string>, yes: nat -> bool, locked: string -> bool)
    ensures forall i :: (0 <= i < |names| && yes(c.asked + i) && names[i] in c.dir &&
                         c.dir[names[i]].File? && !locked(names[i])) ==>
              names[i] !in OfferAll(c, names, yes, locked).dir
    decreases |names|
  {
    if names != [] {
      var c1 := Offer(c, names[0], yes, locked);
      var r := OfferAll(c1, names[1..], yes, locked);
      OfferAllDeletes(c1, names[1..], yes, locked);
      OfferAllShrinks(c1, names[1..], yes, locked);
      forall i | 0 <= i < |names| && yes(c.asked + i) && names[i] in c.dir &&
                 c.dir[names[i]].File? && !locked(names[i])
        ensures names[i] !in r.dir
      {
        if i > 0 && names[i] in c1.dir {
          assert names[1..][i - 1] == names[i] && c1.asked + (i - 1) == c.asked + i;
        }
      }
    }
  }

  /** The prompts only ever delete files. */
  lemma {:induction false} OfferAllShrinks(c: Cleaning, names: seq<string>, yes: nat -> bool, locked: string -> bool)
    ensures forall n :: n in OfferAll(c, names, yes, locked).dir ==>
              n in c.dir && OfferAll(c, names, yes, locked).dir[n] == c.dir[n]
    decreases |names|
  {
    if names != [] {
      OfferAllShrinks(Offer(c, names[0], yes, locked), names[1..], yes, locked);
    }
  }

  /** A successful removal deletes exactly that archive's record: after
      `clean`, an archive keeps its record exactly when its file was not
      deleted, no record is added, names stay unique, only offered files
      are deleted and no other file changes. */
  lemma CleanRemovesExactly(s: Store, dir: Folder, yes: nat -> bool, locked: string -> bool)
    requires DistinctArcPaths(s.arcs)
    ensures var c := Clean(s, dir, yes, locked);
            DistinctArcPaths(c.arcs) &&
            (forall b :: b in c.arcs ==> b in s.arcs) &&
            (forall b :: b in s.arcs ==> (b in c.arcs <==> !(b.path in dir && b.path !in c.dir))) &&
            (forall n :: n in c.dir ==> n in dir && c.dir[n] == dir[n]) &&
            (forall n :: n in dir && n !in c.dir ==> n in Offers(s.raws, s.arcs))
  {
    var start := Cleaning(s.arcs, dir, 1);
    assert Tracks(s.arcs, dir, start);
    OfferAllTracks(s.arcs, dir, start, Offers(s.raws, s.arcs), yes, locked);
  }

  /** `clean` deletes nothing unless the opening prompt and the file's own
      prompt were answered yes (a refused opening prompt leaves everything
      as it was), and it deletes every offered file that is not locked and
      whose prompt was answered yes. */
  lemma CleanConfirmed(s: Store, dir: Folder, yes: nat -> bool, locked: string -> bool)
    ensures !yes(0) ==> Clean(s, dir, yes, locked) == Cleaning(s.arcs, dir, 1)
    ensures var offers, c := Offers(s.raws, s.arcs), Clean(s, dir, yes, locked);
            forall n :: n in dir && n !in c.dir ==>
              yes(0) && exists i :: 0 <= i < |offers| && offers[i] == n && yes(1 + i)
    ensures var offers, c := Offers(s.raws, s.arcs), Clean(s, dir, yes, locked);
            yes(0) ==> forall i :: (0 <= i < |offers| && yes(1 + i) && offers[i] in dir &&
                                   dir[offers[i]].File? && !locked(offers[i])) ==>
                         offers[i] !in c.dir
  {
    var start, offers := Cleaning(s.arcs, dir, 1), Offers(s.raws, s.arcs);
    if yes(0) {
      assert Clean(s, dir, yes, locked) == OfferAll(start, offers, yes, locked);
      OfferAllConfirmed(start, offers, yes, locked);
      OfferAllDeletes(start, offers, yes, locked);
    }
  }

  // ---------------------------------------------------------------------
  // Offering, as written

  /** The exceptions that end `clean` early as written: `a.garbages` and
      `error.message` raise `AttributeError`; the `else` branch after a
      successful removal raises `NotImplementedError`. */
  datatype CleanError = AttributeError | NotImplementedError

  datatype CleanEnd = CleanEnd(state: Cleaning, error: Option<CleanError>)

  /** One prompt as written: any confirmed prompt ends `clean` with an
      exception, after removing the file and the record when it could. */
  function OfferAsWritten(c: Cleaning, name: string, yes: nat -> bool, locked: string -> bool): CleanEnd {
    var c' := c.(asked := c.asked + 1);
    if !yes(c.asked) then CleanEnd(c', None)
    else
      match Unlink(c.dir, name, locked)
      case None => CleanEnd(c', Some(AttributeError))
      case Some(d) => CleanEnd(c'.(dir := d, arcs := RemoveArc(c.arcs, name)), Some(NotImplementedError))
  }

  function OfferAllAsWritten(c: Cleaning, names: seq<string>, yes: nat -> bool, locked: string -> bool): CleanEnd
    decreases |names|
  {
    if names == [] then CleanEnd(c, None)
    else
      var e := OfferAsWritten(c, names[0], yes, locked);
      if e.error.Some? then e else OfferAllAsWritten(e.state, names[1..], yes, locked)
  }

  /** `clean` as written. The 'issued' pass reads `a.garbages` on its first
      record, so any issued archive ends the command before a prompt. When
      `clean` ends with an exception, the cache is not saved. */
  function CleanAsWritten(s: Store, dir: Folder, yes: nat -> bool, locked: string -> bool): CleanEnd {
    var start := Cleaning(s.arcs, dir, 1);
    if !yes(0) then CleanEnd(start, None)
    else if Issued(s.arcs) != [] then CleanEnd(start, Some(AttributeError))
    else OfferAllAsWritten(start, Offered(Garbage(s.arcs), SkipGarbage) + GroupPaths(Duplicated(s.raws, s.arcs, s.arcs)), yes, locked)
  }

  /** One archive with an unresolved issue, and a user who answers yes. */
  function IssuedStore(): Store { Store([], [ArcRecord("A.zip", true, false, false, None)]) }

  function IssuedDir(): Folder { map["A.zip" := File(Existing(0))] }

  function Unlocked(): string -> bool { _ => false }

  function AlwaysYes(): nat -> bool { _ => true }

  /** As written, `clean` stops with `AttributeError` before offering the
      issued archive; as intended it deletes the file and the record. */
  lemma CleanAsWrittenIssuedTypo()
    ensures CleanAsWritten(IssuedStore(), IssuedDir(), AlwaysYes(), Unlocked())
            == CleanEnd(Cleaning(IssuedStore().arcs, IssuedDir(), 1), Some(AttributeError))
    ensures Clean(IssuedStore(), IssuedDir(), AlwaysYes(), Unlocked()) == Cleaning([], map[], 2)
  {
    var s := IssuedStore();
    assert Issued(s.arcs) == s.arcs;
    assert Garbage(s.arcs) == [];
    assert Offered(s.arcs, SkipIssued) == ["A.zip"];
    assert Duplicated(s.raws, s.arcs, s.arcs) == [] by {
      assert !IsDuplicated(s.raws, s.arcs, s.arcs[0]);
      assert s.arcs[..0] == [];
    }
    assert Offers(s.raws, s.arcs) == ["A.zip"];
    assert IssuedDir() - {"A.zip"} == map[];
  }

  /** One garbage archive. */
  function GarbageStore(): Store { Store([], [ArcRecord("G.zip", false, false, true, None)]) }

  function GarbageDir(): Folder { map["G.zip" := File(Existing(0))] }

  /** As written, a confirmed removal deletes the file and then raises, so
      the cache is never saved and still lists the deleted archive; as
      intended the record goes with the file. */
  lemma CleanAsWrittenRaisesAfterDelete()
    ensures CleanAsWritten(GarbageStore(), GarbageDir(), AlwaysYes(), Unlocked())
            == CleanEnd(Cleaning([], map[], 2), Some(NotImplementedError))
    ensures Clean(GarbageStore(), GarbageDir(), AlwaysYes(), Unlocked()) == Cleaning([], map[], 2)
  {
    var s := GarbageStore();
    assert Issued(s.arcs) == [];
    assert Garbage(s.arcs) == s.arcs;
    assert Offered(s.arcs, SkipGarbage) == ["G.zip"];
    assert Offered([], SkipIssued) == [];
    assert Duplicated(s.raws, s.arcs, s.arcs) == [] by {
      assert !IsDuplicated(s.raws, s.arcs, s.arcs[0]);
      assert s.arcs[..0] == [];
    }
    assert Offers(s.raws, s.arcs) == ["G.zip"];
    assert GarbageDir() - {"G.zip"} == map[];
  }

  // ---------------------------------------------------------------------
  // The heading of a group of duplicates

  /** The raw dataset label printed above a group of duplicated archives,
      as written: names SHORTER than 60 characters get cut to 56 and a
      "..." marker, longer ones are printed whole. */
  function GroupLabelAsWritten(key: Option<string>): string {
    match key
    case None => "No name"
    case Some(n) => if |n| < 60 then n[..if |n| < 56 then |n| else 56] + "..." else n
  }

  /** The label as evidently intended: a name longer than 60 characters is
      cut to 56 and marked, so the label always fits its 60-character
      column, and a name that fits is printed unchanged. */
  function GroupLabel(key: Option<string>): (l: string)
    ensures |l| <= 60
    ensures key.Some? && |key.value| <= 60 ==> l == key.value
    ensures key.Some? && |key.value| > 60 ==> l == key.value[..56] + "..."
  {
    match key
    case None => "No name"
    case Some(n) => if |n| > 60 then n[..56] + "..." else n
  }

  /** `'Raw dataset: [{}] '.format(label.ljust(60))`: the label sits in a
      60-character column, so the size printed after it starts at the same
      place on every heading. */
  function GroupHeading(key: Option<string>): (h: string)
    ensures |h| == 76
    ensures h[..14] == "Raw dataset: [" && h[74..] == "] "
    ensures h[14..14 + |GroupLabel(key)|] == GroupLabel(key)
  {
    var l := LJust(GroupLabel(key), 60);
    assert l[..|GroupLabel(key)|] == GroupLabel(key);
    var h := "Raw dataset: [" + l + "] ";
    assert h[14..74] == l;
    h
  }

  /** As written, a short name gets a truncation marker it does not need,
      and a long name overflows the 60-character column. */
  lemma GroupLabelAsWrittenInverted()
    ensures GroupLabelAsWritten(Some("B")) == "B..." && GroupLabel(Some("B")) == "B"
    ensures |GroupLabelAsWritten(Some(Repeat('x', 70)))| == 70
    ensures |GroupLabel(Some(Repeat('x', 70)))| == 59
  {
  }
}
