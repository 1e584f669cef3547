/** The read-only views of the cache the handler offers: the flag filters
    (`get_issued`, `get_crashed`, `get_garbage`, `get_completed`,
    `get_incompleted`, `get_list_for_backup`) and the grouping of duplicated
    archives (`get_duplicated`). */
module Views {
  import opened Wrappers
  import opened Records

  /** The list comprehension `[x for x in s if p(x)]`. */
  function Filter<T(!new)>(s: seq<T>, p: T -> bool): (r: seq<T>)
    ensures |r| <= |s|
    ensures forall x :: x in r <==> x in s && p(x)
  {
    if s == [] then [] else (if p(s[0]) then [s[0]] else []) + Filter(s[1..], p)
  }

  /** Filtering keeps the order of the list: it distributes over `+`. */
  lemma {:induction false} FilterConcat<T(!new)>(a: seq<T>, b: seq<T>, p: T -> bool)
    ensures Filter(a + b, p) == Filter(a, p) + Filter(b, p)
  {
    if a == [] {
      assert a + b == b;
    } else {
      assert (a + b)[1..] == a[1..] + b;
      FilterConcat(a[1..], b, p);
    }
  }

  predicate IsIssued(b: ArcRecord) { b.issued }
  predicate IsCrashed(b: ArcRecord) { b.crashed }
  predicate IsGarbage(b: ArcRecord) { b.garbage }
  predicate IsBackedUp(r: RawRecord) { r.backup }
  predicate NotBackedUp(r: RawRecord) { !r.backup }
  predicate NotGarbage(r: RawRecord) { !r.garbage }
  predicate NeedsBackup(r: RawRecord) { !r.backup && !r.garbage }

  /** `get_issued`: the archive records with an unresolved issue, in cache
      order. */
  function Issued(arcs: seq<ArcRecord>): (r: seq<ArcRecord>)
    ensures |r| <= |arcs|
    ensures forall b :: b in r <==> b in arcs && b.issued
  {
    Filter(arcs, IsIssued)
  }

  /** `get_crashed`: the archive records whose file was found damaged. */
  function Crashed(arcs: seq<ArcRecord>): (r: seq<ArcRecord>)
    ensures |r| <= |arcs|
    ensures forall b :: b in r <==> b in arcs && b.crashed
  {
    Filter(arcs, IsCrashed)
  }

  /** `get_garbage`: the archive records marked as garbage. */
  function Garbage(arcs: seq<ArcRecord>): (r: seq<ArcRecord>)
    ensures |r| <= |arcs|
    ensures forall b :: b in r <==> b in arcs && b.garbage
  {
    Filter(arcs, IsGarbage)
  }

  /** `get_completed`: the raw records already archived. */
  function Completed(raws: seq<RawRecord>): (r: seq<RawRecord>)
    ensures |r| <= |raws|
    ensures forall b :: b in r <==> b in raws && b.backup
  {
    Filter(raws, IsBackedUp)
  }

  /** `get_incompleted`: the raw records not yet archived. */
  function Incompleted(raws: seq<RawRecord>): (r: seq<RawRecord>)
    ensures |r| <= |raws|
    ensures forall b :: b in r <==> b in raws && !b.backup
  {
    Filter(raws, NotBackedUp)
  }

  /** `get_list_for_backup`: the raw records not yet archived that are not
      garbage. */
  function ListForBackup(raws: seq<RawRecord>): (r: seq<RawRecord>)
    ensures |r| <= |raws|
    ensures forall b :: b in r <==> b in raws && !b.backup && !b.garbage
  {
    Filter(Incompleted(raws), NotGarbage)
  }

  /** `get_completed` and `get_incompleted` split the raw records between
      them: together they hold every record exactly as often as the cache. */
  lemma {:induction false} CompletedIncompletedPartition(raws: seq<RawRecord>)
    ensures multiset(Completed(raws)) + multiset(Incompleted(raws)) == multiset(raws)
    ensures |Completed(raws)| + |Incompleted(raws)| == |raws|
    ensures forall r :: r in Completed(raws) <==> r in raws && r.backup
    ensures forall r :: r in Incompleted(raws) <==> r in raws && !r.backup
  {
    if raws != [] {
      CompletedIncompletedPartition(raws[1..]);
      assert raws == [raws[0]] + raws[1..];
    }
  }

  /** `get_list_for_backup` is, in cache order, exactly the records that are
      neither backed up nor garbage. */
  lemma {:induction false} ListForBackupIsPending(raws: seq<RawRecord>)
    ensures ListForBackup(raws) == Filter(raws, NeedsBackup)
  {
    if raws != [] {
      ListForBackupIsPending(raws[1..]);
      var head := if NotBackedUp(raws[0]) then [raws[0]] else [];
      FilterConcat(head, Filter(raws[1..], NotBackedUp), NotGarbage);
    }
  }

  // ---------------------------------------------------------------------
  // Duplicated archives.

  /** `is_duplicated(b.path, by_arc=True)`: some other archive file is
      associated with the same raw record as b. */
  predicate IsDuplicated(raws: seq<RawRecord>, arcs: seq<ArcRecord>, b: ArcRecord) {
    RawOf(raws, b).Some? &&
    exists j :: 0 <= j < |arcs| && arcs[j].path != b.path && RawOf(raws, arcs[j]) == RawOf(raws, b)
  }

  /** The key `get_duplicated` files a duplicated archive under: the name of
      its raw record, which may be None. */
  function DupKey(raws: seq<RawRecord>, b: ArcRecord): Option<string>
    requires RawOf(raws, b).Some?
  {
    raws[RawOf(raws, b).value].path
  }

  predicate InGroup(raws: seq<RawRecord>, arcs: seq<ArcRecord>, k: Option<string>, b: ArcRecord) {
    IsDuplicated(raws, arcs, b) && DupKey(raws, b) == k
  }

  /** One entry of the dictionary `get_duplicated` returns. The dictionary
      is a list of entries in insertion order, as Python dictionaries are. */
  datatype Group = Group(key: Option<string>, paths: seq<string>)

  predicate HasKey(gs: seq<Group>, k: Option<string>) {
    gs != [] && (gs[0].key == k || HasKey(gs[1..], k))
  }

  /** Each key occurs in one entry only. */
  predicate DistinctKeys(gs: seq<Group>) {
    gs == [] || (!HasKey(gs[1..], gs[0].key) && DistinctKeys(gs[1..]))
  }

  /** `duplicated[k]`, or the empty list when k is not a key. */
  function Members(gs: seq<Group>, k: Option<string>): seq<string> {
    if gs == [] then [] else if gs[0].key == k then gs[0].paths else Members(gs[1..], k)
  }

  /** `duplicated[k].append(p)` when k is a key, else `duplicated[k] = [p]`. */
  function AddToGroup(gs: seq<Group>, k: Option<string>, p: string): seq<Group> {
    if gs == [] then [Group(k, [p])]
    else if gs[0].key == k then [gs[0].(paths := gs[0].paths + [p])] + gs[1..]
    else [gs[0]] + AddToGroup(gs[1..], k, p)
  }

  lemma {:induction false} AddToGroupSpec(gs: seq<Group>, k: Option<string>, p: string)
    requires DistinctKeys(gs)
    ensures DistinctKeys(AddToGroup(gs, k, p))
    ensures forall k' :: HasKey(AddToGroup(gs, k, p), k') <==> HasKey(gs, k') || k' == k
    ensures forall k' :: Members(AddToGroup(gs, k, p), k') == Members(gs, k') + (if k' == k then [p] else [])
  {
    var r := AddToGroup(gs, k, p);
    if gs == [] {
    } else if gs[0].key == k {
      assert r[1..] == gs[1..];
    } else {
      AddToGroupSpec(gs[1..], k, p);
      assert r[1..] == AddToGroup(gs[1..], k, p);
    }
  }

  lemma {:induction false} MembersAt(gs: seq<Group>, i: nat)
    requires DistinctKeys(gs) && i < |gs|
    ensures HasKey(gs, gs[i].key)
    ensures Members(gs, gs[i].key) == gs[i].paths
  {
    if i > 0 {
      assert gs[1..][i - 1] == gs[i];
      MembersAt(gs[1..], i - 1);
    }
  }

  /** The dictionary `get_duplicated` has built after visiting the archives
      `arcs` (a prefix of the cache's list `all`). */
  function Duplicated(raws: seq<RawRecord>, all: seq<ArcRecord>, arcs: seq<ArcRecord>): seq<Group>
    decreases |arcs|
  {
    if arcs == [] then []
    else
      var gs := Duplicated(raws, all, arcs[..|arcs| - 1]);
      var b := arcs[|arcs| - 1];
      if IsDuplicated(raws, all, b) then AddToGroup(gs, DupKey(raws, b), b.path) else gs
  }

  /** Every key of the dictionary is the key of some duplicated archive, each
      key occurs once, and the list under a key is the file names of exactly
      the duplicated archives with that key, in cache order. */
  lemma {:induction false} DuplicatedSpec(raws: seq<RawRecord>, all: seq<ArcRecord>, arcs: seq<ArcRecord>)
    ensures DistinctKeys(Duplicated(raws, all, arcs))
    ensures forall k :: HasKey(Duplicated(raws, all, arcs), k) <==>
                        exists b :: b in arcs && InGroup(raws, all, k, b)
    ensures forall k :: Members(Duplicated(raws, all, arcs), k) ==
                        ArcPaths(Filter(arcs, (b: ArcRecord) => InGroup(raws, all, k, b)))
    decreases |arcs|
  {
    if arcs != [] {
      var front, b := arcs[..|arcs| - 1], arcs[|arcs| - 1];
      assert arcs == front + [b];
      DuplicatedSpec(raws, all, front);
      var gs := Duplicated(raws, all, front);
      if IsDuplicated(raws, all, b) {
        AddToGroupSpec(gs, DupKey(raws, b), b.path);
      }
      forall k ensures HasKey(Duplicated(raws, all, arcs), k) <==>
                       exists c :: c in arcs && InGroup(raws, all, k, c) {
        HasKeyStep(raws, all, front, b, k);
      }
      forall k ensures Members(Duplicated(raws, all, arcs), k) ==
                       ArcPaths(Filter(arcs, (b: ArcRecord) => InGroup(raws, all, k, b))) {
        MembersStep(raws, all, front, b, k);
      }
    }
  }

  lemma HasKeyStep(raws: seq<RawRecord>, all: seq<ArcRecord>, front: seq<ArcRecord>, b: ArcRecord, k: Option<string>)
    requires DistinctKeys(Duplicated(raws, all, front))
    requires HasKey(Duplicated(raws, all, front), k) <==> exists c :: c in front && InGroup(raws, all, k, c)
    ensures HasKey(Duplicated(raws, all, front + [b]), k) <==> exists c :: c in front + [b] && InGroup(raws, all, k, c)
  {
    var arcs := front + [b];
    assert arcs[..|arcs| - 1] == front;
    var gs := Duplicated(raws, all, front);
    if IsDuplicated(raws, all, b) {
      AddToGroupSpec(gs, DupKey(raws, b), b.path);
    }
    if InGroup(raws, all, k, b) { assert b in arcs; }
    if exists c :: c in front && InGroup(raws, all, k, c) {
      var c :| c in front && InGroup(raws, all, k, c);
      assert c in arcs;
    }
    if exists c :: c in arcs && InGroup(raws, all, k, c) {
      var c :| c in arcs && InGroup(raws, all, k, c);
      assert c in front || c == b;
    }
  }

  lemma MembersStep(raws: seq<RawRecord>, all: seq<ArcRecord>, front: seq<ArcRecord>, b: ArcRecord, k: Option<string>)
    requires DistinctKeys(Duplicated(raws, all, front))
    requires Members(Duplicated(raws, all, front), k) == ArcPaths(Filter(front, (b: ArcRecord) => InGroup(raws, all, k, b)))
    ensures Members(Duplicated(raws, all, front + [b]), k) ==
            ArcPaths(Filter(front + [b], (b: ArcRecord) => InGroup(raws, all, k, b)))
  {
    var arcs := front + [b];
    assert arcs[..|arcs| - 1] == front;
    var gs := Duplicated(raws, all, front);
    if IsDuplicated(raws, all, b) {
      AddToGroupSpec(gs, DupKey(raws, b), b.path);
    }
    var inK := (c: ArcRecord) => InGroup(raws, all, k, c);
    assert Filter(front + [b], (b: ArcRecord) => InGroup(raws, all, k, b)) == Filter(front + [b], inK);
    FilterConcat(front, [b], inK);
    assert [b][1..] == [];
    var f := Filter(front, inK);
    assert Filter(front, (b: ArcRecord) => InGroup(raws, all, k, b)) == f;
    if inK(b) {
      assert Filter([b], inK) == [b];
      ArcPathsSnoc(f, b);
    } else {
      assert Filter([b], inK) == [];
      assert f + [] == f;
    }
  }

  lemma ArcPathsSnoc(f: seq<ArcRecord>, b: ArcRecord)
    ensures ArcPaths(f + [b]) == ArcPaths(f) + [b.path]
  {
    assert forall i :: 0 <= i < |f| ==> (f + [b])[i] == f[i];
  }

  /** Every group holds at least two archives, and each archive of the cache
      lies in exactly the group of its key when it is duplicated and in no
      group otherwise. */
  lemma DuplicatedGroups(raws: seq<RawRecord>, arcs: seq<ArcRecord>)
    requires DistinctArcPaths(arcs)
    ensures forall i :: 0 <= i < |Duplicated(raws, arcs, arcs)| ==> |Duplicated(raws, arcs, arcs)[i].paths| >= 2
    ensures forall b, i :: b in arcs && 0 <= i < |Duplicated(raws, arcs, arcs)| ==>
              (b.path in Duplicated(raws, arcs, arcs)[i].paths <==>
               IsDuplicated(raws, arcs, b) && Duplicated(raws, arcs, arcs)[i].key == DupKey(raws, b))
  {
    var gs := Duplicated(raws, arcs, arcs);
    forall i | 0 <= i < |gs| ensures |gs[i].paths| >= 2 {
      GroupHasTwo(raws, arcs, i);
    }
    forall b, i | b in arcs && 0 <= i < |gs|
      ensures b.path in gs[i].paths <==> IsDuplicated(raws, arcs, b) && gs[i].key == DupKey(raws, b)
    {
      GroupMembership(raws, arcs, b, i);
    }
  }

  lemma GroupHasTwo(raws: seq<RawRecord>, arcs: seq<ArcRecord>, i: nat)
    requires i < |Duplicated(raws, arcs, arcs)|
    ensures |Duplicated(raws, arcs, arcs)[i].paths| >= 2
  {
    var gs := Duplicated(raws, arcs, arcs);
    DuplicatedSpec(raws, arcs, arcs);
    var k := gs[i].key;
    MembersAt(gs, i);
    var b :| b in arcs && InGroup(raws, arcs, k, b);
    var j :| 0 <= j < |arcs| && arcs[j].path != b.path && RawOf(raws, arcs[j]) == RawOf(raws, b);
    assert InGroup(raws, arcs, k, arcs[j]);
    var f := Filter(arcs, (b: ArcRecord) => InGroup(raws, arcs, k, b));
    assert gs[i].paths == ArcPaths(f);
    assert b in f && arcs[j] in f && b != arcs[j];
    TwoMembers(f, b, arcs[j]);
  }

  lemma TwoMembers<T>(s: seq<T>, x: T, y: T)
    requires x in s && y in s && x != y
    ensures |s| >= 2
  {
    var i :| 0 <= i < |s| && s[i] == x;
    var j :| 0 <= j < |s| && s[j] == y;
    assert i != j;
  }

  lemma GroupMembership(raws: seq<RawRecord>, arcs: seq<ArcRecord>, b: ArcRecord, i: nat)
    requires DistinctArcPaths(arcs)
    requires b in arcs && i < |Duplicated(raws, arcs, arcs)|
    ensures b.path in Duplicated(raws, arcs, arcs)[i].paths <==>
            IsDuplicated(raws, arcs, b) && Duplicated(raws, arcs, arcs)[i].key == DupKey(raws, b)
  {
    var gs := Duplicated(raws, arcs, arcs);
    DuplicatedSpec(raws, arcs, arcs);
    MembersAt(gs, i);
    var k := gs[i].key;
    var f := Filter(arcs, (b: ArcRecord) => InGroup(raws, arcs, k, b));
    assert gs[i].paths == ArcPaths(f);
    if b.path in gs[i].paths {
      var m :| 0 <= m < |f| && f[m].path == b.path;
      assert f[m] in arcs;
      assert f[m] == b by {
        var u :| 0 <= u < |arcs| && arcs[u] == f[m];
        var v :| 0 <= v < |arcs| && arcs[v] == b;
        assert u == v;
      }
    }
    if IsDuplicated(raws, arcs, b) && k == DupKey(raws, b) {
      assert b in f;
      var m :| 0 <= m < |f| && f[m] == b;
      assert ArcPaths(f)[m] == b.path;
    }
  }
}
