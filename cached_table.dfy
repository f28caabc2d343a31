/** The load-once memo of the CSV repositories: `_cache` starts as None, the
    first `load_all` reads the file and stores the rows, and every later call
    returns the stored rows without reading again. */
module CachedTables {
  import opened Seqs

  class CachedTable<T> {
    /** `_cache`. */
    var cache: Option<seq<T>>
    /** How many times the underlying CSV loader has run. */
    ghost var loads: nat

    /** The loader has run exactly once if the cache is filled, never otherwise. */
    ghost predicate Valid()
      reads this
    {
      loads == if cache.Some? then 1 else 0
    }

    /** The cache as it stands after one more `load_all`, when reading the
        file now would give `file`. */
    function Filled(file: seq<T>): (c: Option<seq<T>>)
      reads this
      ensures c.Some?
      ensures cache.Some? ==> c == cache
    {
      if cache.Some? then cache else Some(file)
    }

    constructor ()
      ensures Valid() && cache == None
    {
      cache := None;
      loads := 0;
    }

    /** `load_all`. Reading the file is modelled by the parameter `file`: what
        the CSV loader would return if it ran now. */
    method LoadAll(file: seq<T>) returns (rows: seq<T>)
      requires Valid()
      modifies this
      ensures Valid() && loads <= 1
      ensures old(cache).None? ==> cache == Some(file) && rows == file
      ensures old(cache).Some? ==> cache == old(cache) && rows == old(cache).value && loads == old(loads)
    {
      if cache.None? {
        cache := Some(file);
        loads := loads + 1;
      }
      rows := cache.value;
    }
  }

  /** Two `load_all` calls on a fresh repository: the second returns what the
      first read, even if the file has changed in between. */
  method LoadTwice<T>(first: seq<T>, second: seq<T>) returns (a: seq<T>, b: seq<T>)
    ensures a == first && b == first
  {
    var table := new CachedTable<T>();
    a := table.LoadAll(first);
    b := table.LoadAll(second);
    assert table.loads == 1;
  }
}
