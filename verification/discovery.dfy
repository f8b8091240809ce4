/** `_list_kernels_in` and the aggregation over the search directories that
    `find_kernel_specs` performs. */
module Discovery {
  import opened Wrappers
  import opened Paths
  import opened FileSystems

  /** Entry `i` of a listing of `dir` is a kernel directory whose folded name is `k`. */
  predicate Provides(fs: FileSystem, dir: Path, entries: seq<string>, i: int, k: string)
  {
    0 <= i < |entries| && IsKernelDir(fs, Join(dir, entries[i])) && Lower(entries[i]) == k
  }

  /** The dict comprehension of `_list_kernels_in` over the entries of `dir`, taken in
      listing order, so that a later entry overwrites an earlier one of the same
      folded name. */
  function KernelsAmong(fs: FileSystem, dir: Path, entries: seq<string>): map<string, Path>
    decreases |entries|
  {
    if entries == [] then map[]
    else
      var f := entries[|entries| - 1];
      var m := KernelsAmong(fs, dir, entries[..|entries| - 1]);
      if IsKernelDir(fs, Join(dir, f)) then m[Lower(f) := Join(dir, f)] else m
  }

  /** Entry `i` is the last entry of the listing that provides `k`. */
  predicate LastProvides(fs: FileSystem, dir: Path, entries: seq<string>, i: int, k: string)
  {
    Provides(fs, dir, entries, i, k) && forall j :: i < j < |entries| ==> !Provides(fs, dir, entries, j, k)
  }

  /** A name is listed exactly when some entry is a kernel directory folding to it,
      and it maps to the last such entry joined onto `dir`. */
  lemma {:induction false} KernelsAmongLastEntryWins(fs: FileSystem, dir: Path, entries: seq<string>, k: string)
    ensures k in KernelsAmong(fs, dir, entries) <==> exists i :: Provides(fs, dir, entries, i, k)
    ensures k in KernelsAmong(fs, dir, entries) ==>
              exists i :: LastProvides(fs, dir, entries, i, k) && KernelsAmong(fs, dir, entries)[k] == Join(dir, entries[i])
    decreases |entries|
  {
    if entries != [] {
      var n := |entries| - 1;
      var prefix := entries[..n];
      var f := entries[n];
      var before := KernelsAmong(fs, dir, prefix);
      var after := KernelsAmong(fs, dir, entries);
      KernelsAmongLastEntryWins(fs, dir, prefix, k);
      forall i | 0 <= i < n
        ensures Provides(fs, dir, prefix, i, k) == Provides(fs, dir, entries, i, k)
      {
        assert prefix[i] == entries[i];
      }
      if Provides(fs, dir, entries, n, k) {
        assert after == before[k := Join(dir, f)];
        assert LastProvides(fs, dir, entries, n, k);
      } else {
        assert k in after <==> k in before;
        if k in before {
          assert after[k] == before[k];
          var i :| LastProvides(fs, dir, prefix, i, k) && before[k] == Join(dir, prefix[i]);
          assert LastProvides(fs, dir, entries, i, k);
        } else {
          assert forall i :: !Provides(fs, dir, entries, i, k);
        }
      }
    }
  }

  /** `_list_kernels_in(dir)`: nothing when `dir` is `None` or not a directory,
      otherwise each kernel directory in it under its folded name. */
  function ListKernelsIn(fs: FileSystem, dir: Option<Path>): map<string, Path>
  {
    if dir.None? || !IsDir(fs, dir.value) then map[]
    else KernelsAmong(fs, dir.value, fs.dirs[dir.value])
  }

  /** What `_list_kernels_in` returns: the empty map for `None` or a path that is
      not a directory; otherwise a name is listed exactly when an entry of the
      directory is a kernel directory folding to it, and the name maps to that
      entry joined onto the directory, every name being already folded. */
  lemma ListKernelsInContents(fs: FileSystem, dir: Option<Path>, k: string)
    ensures dir.None? || !IsDir(fs, dir.value) ==> ListKernelsIn(fs, dir) == map[]
    ensures dir.Some? && IsDir(fs, dir.value) ==>
              (k in ListKernelsIn(fs, dir) <==> exists i :: Provides(fs, dir.value, fs.dirs[dir.value], i, k))
    ensures k in ListKernelsIn(fs, dir) ==>
              Lower(k) == k &&
              exists i :: Provides(fs, dir.value, fs.dirs[dir.value], i, k) &&
                          ListKernelsIn(fs, dir)[k] == Join(dir.value, fs.dirs[dir.value][i])
  {
    if dir.Some? && IsDir(fs, dir.value) {
      KernelsAmongLastEntryWins(fs, dir.value, fs.dirs[dir.value], k);
      if k in ListKernelsIn(fs, dir) {
        var i :| Provides(fs, dir.value, fs.dirs[dir.value], i, k);
        LowerIdempotent(fs.dirs[dir.value][i]);
      }
    }
  }

  /** Every name `_list_kernels_in` reports is already folded. */
  lemma ListedNamesAreLower(fs: FileSystem, dir: Option<Path>, k: string)
    requires k in ListKernelsIn(fs, dir)
    ensures IsLower(k) && Lower(k) == k
  {
    ListKernelsInContents(fs, dir, k);
    var i :| Provides(fs, dir.value, fs.dirs[dir.value], i, k);
    LowerIdempotent(fs.dirs[dir.value][i]);
  }

  /** The loop of `find_kernel_specs` over the search directories: a name is
      inserted only when it is not there yet, so the first directory to list a
      name keeps it. */
  function Discovered(fs: FileSystem, dirs: seq<Option<Path>>): map<string, Path>
    decreases |dirs|
  {
    if dirs == [] then map[]
    else ListKernelsIn(fs, dirs[|dirs| - 1]) + Discovered(fs, dirs[..|dirs| - 1])
  }

  /** Search directory `i` lists `name`. */
  predicate Defines(fs: FileSystem, dirs: seq<Option<Path>>, i: int, name: string)
  {
    0 <= i < |dirs| && name in ListKernelsIn(fs, dirs[i])
  }

  /** Search directory `i` is the earliest that lists `name`. */
  predicate FirstDefines(fs: FileSystem, dirs: seq<Option<Path>>, i: int, name: string)
  {
    Defines(fs, dirs, i, name) && forall j :: 0 <= j < i ==> !Defines(fs, dirs, j, name)
  }

  /** Every name listed by some search directory. */
  ghost function ListedNames(fs: FileSystem, dirs: seq<Option<Path>>): set<string>
  {
    set i, name | 0 <= i < |dirs| && name in ListKernelsIn(fs, dirs[i]) :: name
  }

  /** First found wins: a name is discovered exactly when some directory lists it,
      and it maps to the path given by the earliest such directory. */
  lemma {:induction false} DiscoveredFirstFoundWins(fs: FileSystem, dirs: seq<Option<Path>>, name: string)
    ensures name in Discovered(fs, dirs) <==> exists i :: Defines(fs, dirs, i, name)
    ensures forall i :: FirstDefines(fs, dirs, i, name) ==>
              Discovered(fs, dirs)[name] == ListKernelsIn(fs, dirs[i])[name]
    decreases |dirs|
  {
    if dirs != [] {
      var n := |dirs| - 1;
      var prefix := dirs[..n];
      var before := Discovered(fs, prefix);
      var after := Discovered(fs, dirs);
      var last := ListKernelsIn(fs, dirs[n]);
      assert after == last + before;
      DiscoveredFirstFoundWins(fs, prefix, name);
      forall i | 0 <= i < n
        ensures Defines(fs, prefix, i, name) == Defines(fs, dirs, i, name)
      {
        assert prefix[i] == dirs[i];
      }
      if name in before {
        assert after[name] == before[name];
        forall i | FirstDefines(fs, dirs, i, name)
          ensures after[name] == ListKernelsIn(fs, dirs[i])[name]
        {
          var i0 :| Defines(fs, prefix, i0, name);
          assert i <= i0;
          assert FirstDefines(fs, prefix, i, name);
        }
      } else {
        assert forall i :: 0 <= i < n ==> !Defines(fs, dirs, i, name);
        assert name in after <==> Defines(fs, dirs, n, name);
      }
    }
  }

  /** Before filtering, the discovered names are the union of the names each
      search directory lists. */
  lemma DiscoveredNames(fs: FileSystem, dirs: seq<Option<Path>>)
    ensures Discovered(fs, dirs).Keys == ListedNames(fs, dirs)
  {
    forall name
      ensures name in Discovered(fs, dirs) <==> name in ListedNames(fs, dirs)
    {
      DiscoveredFirstFoundWins(fs, dirs, name);
    }
  }

  /** Directories searched later never change a name an earlier one supplied. */
  lemma {:induction false} LaterDirsNeverOverride(fs: FileSystem, dirs: seq<Option<Path>>, later: seq<Option<Path>>, name: string)
    requires name in Discovered(fs, dirs)
    ensures name in Discovered(fs, dirs + later)
    ensures Discovered(fs, dirs + later)[name] == Discovered(fs, dirs)[name]
    decreases |later|
  {
    if later == [] {
      assert dirs + later == dirs;
    } else {
      var all := dirs + later;
      var shorter := later[..|later| - 1];
      assert all[..|all| - 1] == dirs + shorter;
      LaterDirsNeverOverride(fs, dirs, shorter, name);
      assert Discovered(fs, all) == ListKernelsIn(fs, all[|all| - 1]) + Discovered(fs, dirs + shorter);
    }
  }
}
