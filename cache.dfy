/** The persisted store (`BackupCache`, whose own source is not part of this
    model): the two record lists the handler reads and rewrites in place, and
    the content of the cache file it last wrote. */
module Cache {
  import opened Wrappers
  import opened Records

  /** What `_load_pickle` can find at the cache path. */
  datatype CacheFile = NoFile | Pickled(store: Store) | Truncated | Unreadable

  datatype LoadError = UnpicklingError

  /** `_load_pickle`: a missing file, or one that ends early (`EOFError`),
      yields a fresh empty store; only `EOFError` is caught, so any other
      unreadable content raises. */
  function Load(f: CacheFile): (r: Result<Store, LoadError>)
    ensures r.Err? <==> f.Unreadable?
    ensures f.Pickled? ==> r == Ok(f.store)
    ensures f.NoFile? || f.Truncated? ==> r == Ok(Store([], []))
  {
    match f
    case NoFile => Ok(Store([], []))
    case Truncated => Ok(Store([], []))
    case Pickled(s) => Ok(s)
    case Unreadable => Err(UnpicklingError)
  }

  class BackupCache {
    var rawData: seq<RawRecord>
    var arcData: seq<ArcRecord>
    /** The content of the cache file as the last `_save_pickle` wrote it. */
    var saved: CacheFile

    /** At most one record per identity key. */
    ghost predicate Valid()
      reads this
    {
      DistinctRawPaths(rawData) && DistinctArcPaths(arcData)
    }

    function Contents(): Store
      reads this
    {
      Store(rawData, arcData)
    }

    /** A cache opened on a loaded store, which `_load_pickle` writes back
        straight away. */
    constructor (s: Store)
      ensures Contents() == s && saved == Pickled(s)
    {
      rawData, arcData := s.raws, s.arcs;
      saved := Pickled(s);
    }

    /** `_save_pickle`: the file now holds the current contents; loading it
        gives them back. */
    method Save()
      modifies this`saved
      ensures saved == Pickled(Contents())
      ensures Load(saved) == Ok(Contents())
    {
      saved := Pickled(Contents());
    }

    /** `set_raw`: registers a raw dataset name not yet known. */
    method SetRaw(r: RawRecord)
      requires r.path.Some?
      modifies this`rawData
      ensures rawData == if KnownRaw(old(rawData), r.path.value) then old(rawData) else old(rawData) + [r]
      ensures old(Valid()) ==> Valid()
      ensures KnownRaw(rawData, r.path.value)
    {
      if !KnownRaw(rawData, r.path.value) {
        rawData := rawData + [r];
        assert rawData[|rawData| - 1] == r;
      }
    }

    /** `set_arc`: registers an archive file name not yet known. */
    method SetArc(b: ArcRecord)
      modifies this`arcData
      ensures arcData == if KnownArc(old(arcData), b.path) then old(arcData) else old(arcData) + [b]
      ensures old(Valid()) ==> Valid()
      ensures KnownArc(arcData, b.path)
    {
      if !KnownArc(arcData, b.path) {
        arcData := arcData + [b];
        assert arcData[|arcData| - 1] == b;
      }
    }
  }
}
