/** The two kinds of record the backup cache keeps, the cache's contents as a
    value, and the view of the two directories (raw datasets and archives) the
    handler works on. */
module Records {
  import opened Wrappers

  /** A raw dataset directory, identified by its name under the raw root.
      `removed` records that the directory was seen to disappear; `backup`
      that an archive of it was confirmed; `garbage` that it holds no
      recognisable dataset. The handler allows the name to be missing. */
  datatype RawRecord = RawRecord(path: Option<string>, removed: bool, backup: bool, garbage: bool)

  /** An archive file, identified by its file name under the backup root.
      `rawId` is the association the cache stores with it: the position of the
      raw record it was made from, if any. */
  datatype ArcRecord = ArcRecord(path: string, issued: bool, crashed: bool, garbage: bool, rawId: Option<nat>)

  /** Everything the cache file holds, apart from its diagnostic log. */
  datatype Store = Store(raws: seq<RawRecord>, arcs: seq<ArcRecord>)

  /** `get_rpath_obj(b.path, by_arc=True)`: the raw record an archive is
      associated with, or None when the association does not resolve. */
  function RawOf(raws: seq<RawRecord>, b: ArcRecord): (i: Option<nat>)
    ensures i.Some? <==> b.rawId.Some? && b.rawId.value < |raws|
    ensures i.Some? ==> i == b.rawId
  {
    if b.rawId.Some? && b.rawId.value < |raws| then b.rawId else None
  }

  function ArcPaths(arcs: seq<ArcRecord>): (ps: seq<string>)
    ensures |ps| == |arcs|
    ensures forall i :: 0 <= i < |arcs| ==> ps[i] == arcs[i].path
  {
    seq(|arcs|, i requires 0 <= i < |arcs| => arcs[i].path)
  }

  predicate KnownRaw(raws: seq<RawRecord>, name: string) {
    exists i :: 0 <= i < |raws| && raws[i].path == Some(name)
  }

  predicate KnownArc(arcs: seq<ArcRecord>, name: string) {
    exists i :: 0 <= i < |arcs| && arcs[i].path == name
  }

  /** Identity keys are unique: at most one record per raw name ... */
  ghost predicate DistinctRawPaths(raws: seq<RawRecord>) {
    forall i, j :: 0 <= i < j < |raws| && raws[i].path.Some? ==> raws[i].path != raws[j].path
  }

  /** ... and at most one record per archive file name. */
  ghost predicate DistinctArcPaths(arcs: seq<ArcRecord>) {
    forall i, j :: 0 <= i < j < |arcs| ==> arcs[i].path != arcs[j].path
  }

  /** `arc_data.remove(b)` for the record b filed under `path`: drops the
      first record with that file name, or nothing when there is none. */
  function RemoveArc(arcs: seq<ArcRecord>, path: string): (r: seq<ArcRecord>)
    ensures KnownArc(arcs, path) ==> |r| == |arcs| - 1
    ensures !KnownArc(arcs, path) ==> r == arcs
    ensures forall b :: b in r ==> b in arcs
    ensures DistinctArcPaths(arcs) ==> DistinctArcPaths(r)
    ensures DistinctArcPaths(arcs) ==> forall b :: b in r <==> b in arcs && b.path != path
  {
    if arcs == [] then []
    else if arcs[0].path == path then arcs[1..]
    else
      var rest := RemoveArc(arcs[1..], path);
      assert KnownArc(arcs[1..], path) <==> KnownArc(arcs, path) by {
        if KnownArc(arcs, path) {
          var i :| 0 <= i < |arcs| && arcs[i].path == path;
          assert arcs[1..][i - 1].path == path;
        }
        if KnownArc(arcs[1..], path) {
          var i :| 0 <= i < |arcs[1..]| && arcs[1..][i].path == path;
          assert arcs[i + 1].path == path;
        }
      }
      [arcs[0]] + rest
  }

  // ---------------------------------------------------------------------
  // The directories, as the handler sees them.

  /** The content of a file in the backup directory: one that was already
      there (known only by an identity), a zip archive this program wrote
      completely, or one whose writing was interrupted. Each entry is a path
      given as its list of components. */
  datatype Blob = Existing(id: nat) | Zipped(entries: seq<seq<string>>) | Partial

  /** One step of `os.walk` below a dataset directory: the sub-directory
      (components relative to the dataset directory) and the files in it. */
  datatype WalkRoot = WalkRoot(sub: seq<string>, files: seq<string>)

  datatype Node = Dir(walk: seq<WalkRoot>) | File(blob: Blob)

  /** A directory's entries by name; `name in f` is `os.path.exists`. */
  type Folder = map<string, Node>

  /** The dataset inspector (`zipfile.is_zipfile` and `StudyToNifti`), which
      is not part of this model: whether a path is a zip file, whether it
      holds a recognisable dataset, how many reconstructions it holds, and
      the raw dataset name recorded inside an archive. */
  datatype Inspector = Inspector(
    isZip: Node -> bool,
    isPvDataset: Node -> bool,
    numRecos: Node -> int,
    pvPath: Node -> Option<string>)

  /** `os.unlink` / `os.remove` of a name in a directory: it fails (an
      `OSError`) when the name is absent, is a directory, or is held locked
      by another process. */
  function Unlink(d: Folder, n: string, locked: string -> bool): (r: Option<Folder>)
    ensures r.Some? <==> n in d && d[n].File? && !locked(n)
    ensures r.Some? ==> n !in r.value && forall m :: m != n ==> (m in r.value <==> m in d)
    ensures r.Some? ==> forall m :: m in r.value ==> r.value[m] == d[m]
  {
    if n in d && d[n].File? && !locked(n) then Some(d - {n}) else None
  }
}
