/** `KernelSpecManager`: the configured registry. It finds the kernels in its search
    directories, looks one up by name and installs a spec directory. */
module KernelSpecManager {
  import opened Wrappers
  import opened Paths
  import opened JsonValues
  import opened FileSystems
  import opened KernelSpecs
  import opened Discovery

  /** The manager's configuration and what its module finds in its environment:
      the native kernel's name, the resource directory ipykernel ships (`None`
      without ipykernel) and what ipykernel's `get_kernel_dict` returns (`None`
      when that import fails). */
  datatype Manager = Manager(
    kernelDirs: seq<Option<Path>>,
    whitelist: set<string>,
    userKernelDir: Path,
    systemJupyterPath: Path,
    nativeName: string,
    nativeResourceDir: Option<Path>,
    nativeKernelDict: Option<map<string, Json>>)

  /** The native fallback: the native kernel is added from its resource directory
      only when no search directory supplied its name. */
  function WithNative(d: map<string, Path>, name: string, dir: Option<Path>): map<string, Path>
  {
    if name !in d && dir.Some? then d[name := dir.value] else d
  }

  /** A non-empty whitelist keeps only the names it holds; an empty one keeps all. */
  function ApplyWhitelist(d: map<string, Path>, whitelist: set<string>): (r: map<string, Path>)
    ensures whitelist == {} ==> r == d
    ensures whitelist != {} ==> r.Keys == d.Keys * whitelist
    ensures forall name :: name in r ==> name in d && r[name] == d[name]
  {
    if whitelist != {} then map name | name in d && name in whitelist :: d[name] else d
  }

  /** The registry before the whitelist is applied. */
  function Unfiltered(m: Manager, fs: FileSystem): map<string, Path>
  {
    WithNative(Discovered(fs, m.kernelDirs), m.nativeName, m.nativeResourceDir)
  }

  /** What `find_kernel_specs` returns. */
  function FoundKernelSpecs(m: Manager, fs: FileSystem): map<string, Path>
  {
    ApplyWhitelist(Unfiltered(m, fs), m.whitelist)
  }

  /** `find_kernel_specs`: fill a dict directory by directory, inserting a name only
      when it is not there yet, then add the native kernel and filter. */
  method FindKernelSpecs(m: Manager, fs: FileSystem) returns (d: map<string, Path>)
    ensures d == FoundKernelSpecs(m, fs)
  {
    d := map[];
    for n := 0 to |m.kernelDirs|
      invariant d == Discovered(fs, m.kernelDirs[..n])
    {
      var kernels := ListKernelsIn(fs, m.kernelDirs[n]);
      ghost var start := d;
      var pending := kernels.Keys;
      while pending != {}
        invariant pending <= kernels.Keys
        invariant d == (map k | k in kernels && k !in pending :: kernels[k]) + start
        decreases pending
      {
        var kname :| kname in pending;
        if kname !in d {
          d := d[kname := kernels[kname]];
        }
        pending := pending - {kname};
      }
      assert m.kernelDirs[..n + 1][..n] == m.kernelDirs[..n];
      assert d == kernels + start;
    }
    assert m.kernelDirs[..|m.kernelDirs|] == m.kernelDirs;
    if m.nativeName !in d {
      if m.nativeResourceDir.Some? {
        d := d[m.nativeName := m.nativeResourceDir.value];
      }
    }
    if m.whitelist != {} {
      d := map name | name in d && name in m.whitelist :: d[name];
    }
  }

  /** Before filtering, the names found are those some search directory lists,
      plus the native kernel's name when its resource directory is known. */
  lemma UnfilteredNames(m: Manager, fs: FileSystem)
    ensures Unfiltered(m, fs).Keys ==
              ListedNames(fs, m.kernelDirs) + (if m.nativeResourceDir.Some? then {m.nativeName} else {})
  {
    DiscoveredNames(fs, m.kernelDirs);
  }

  /** The native fallback in its three cases: a search directory that lists the
      native name keeps its path; otherwise the native resource directory is used
      when there is one, and the name is absent when there is none. */
  lemma NativeFallback(m: Manager, fs: FileSystem)
    ensures forall i :: FirstDefines(fs, m.kernelDirs, i, m.nativeName) ==>
              m.nativeName in Unfiltered(m, fs) &&
              Unfiltered(m, fs)[m.nativeName] == ListKernelsIn(fs, m.kernelDirs[i])[m.nativeName]
    ensures (forall i :: !Defines(fs, m.kernelDirs, i, m.nativeName)) && m.nativeResourceDir.Some? ==>
              m.nativeName in Unfiltered(m, fs) && Unfiltered(m, fs)[m.nativeName] == m.nativeResourceDir.value
    ensures (forall i :: !Defines(fs, m.kernelDirs, i, m.nativeName)) && m.nativeResourceDir.None? ==>
              m.nativeName !in Unfiltered(m, fs)
  {
    DiscoveredFirstFoundWins(fs, m.kernelDirs, m.nativeName);
  }

  /** The registry end to end: a name is there exactly when the whitelist lets it
      through and some search directory lists it or it is the native kernel with a
      known resource directory; a name a search directory lists maps to the path
      given by the earliest directory that lists it. */
  lemma FoundKernelSpecsEntry(m: Manager, fs: FileSystem, name: string)
    ensures name in FoundKernelSpecs(m, fs) <==>
              (m.whitelist == {} || name in m.whitelist) &&
              ((exists i :: Defines(fs, m.kernelDirs, i, name)) ||
               (name == m.nativeName && m.nativeResourceDir.Some?))
    ensures forall i :: FirstDefines(fs, m.kernelDirs, i, name) && (m.whitelist == {} || name in m.whitelist) ==>
              name in FoundKernelSpecs(m, fs) &&
              FoundKernelSpecs(m, fs)[name] == ListKernelsIn(fs, m.kernelDirs[i])[name]
  {
    DiscoveredFirstFoundWins(fs, m.kernelDirs, name);
  }

  /** Any other name is left as discovery found it. */
  lemma OtherNamesUntouchedByNative(m: Manager, fs: FileSystem, name: string)
    requires name != m.nativeName
    ensures name in Unfiltered(m, fs) <==> name in Discovered(fs, m.kernelDirs)
    ensures name in Unfiltered(m, fs) ==> Unfiltered(m, fs)[name] == Discovered(fs, m.kernelDirs)[name]
  {
  }

  /** What the comparison `d == NATIVE_RESOURCE_DIR` sees: a dict on one side and
      a path or `None` on the other. */
  datatype PyValue = PyDict(entries: map<string, Path>) | PyStr(s: string) | PyNone

  function AsPyValue(p: Option<Path>): PyValue
  {
    match p
    case None => PyNone
    case Some(s) => PyStr(s)
  }

  /** `get_kernel_spec(kernel_name)`: look the folded name up in the registry and
      raise `NoSuchKernel` with the name as given on a miss. The branch for the
      native kernel compares the whole registry with a path, which never holds, so
      the spec is always read from the resource directory's kernel.json. */
  function GetKernelSpec(m: Manager, fs: FileSystem, kernelName: string): (r: Result<KernelSpec, SpecError>)
    ensures r == Err(NoSuchKernel(kernelName)) <==> Lower(kernelName) !in FoundKernelSpecs(m, fs)
    ensures Lower(kernelName) in FoundKernelSpecs(m, fs) ==>
              r == FromResourceDir(fs, FoundKernelSpecs(m, fs)[Lower(kernelName)])
    ensures r.Ok? ==> r.value.resourceDir == FoundKernelSpecs(m, fs)[Lower(kernelName)]
  {
    var d := FoundKernelSpecs(m, fs);
    var key := Lower(kernelName);
    if key !in d then Err(NoSuchKernel(kernelName))
    else
      var resourceDir := d[key];
      if PyDict(d) == AsPyValue(m.nativeResourceDir) then
        match m.nativeKernelDict
        case None => Err(NoSuchKernel(kernelName))
        case Some(dict) => FromKernelDict(dict, resourceDir)
      else FromResourceDir(fs, resourceDir)
  }

  /** Lookup ignores case: names that fold alike give the same result, except that
      a miss names the kernel as each caller spelled it. */
  lemma {:induction false} LookupIgnoresCase(m: Manager, fs: FileSystem, a: string, b: string)
    requires |a| == |b|
    requires forall i :: 0 <= i < |a| ==> LowerChar(a[i]) == LowerChar(b[i])
    ensures GetKernelSpec(m, fs, a).Ok? <==> GetKernelSpec(m, fs, b).Ok?
    ensures GetKernelSpec(m, fs, a).Ok? ==> GetKernelSpec(m, fs, a) == GetKernelSpec(m, fs, b)
    ensures GetKernelSpec(m, fs, a) == Err(NoSuchKernel(a)) <==> GetKernelSpec(m, fs, b) == Err(NoSuchKernel(b))
    ensures Lower(a) in FoundKernelSpecs(m, fs) ==> GetKernelSpec(m, fs, a) == GetKernelSpec(m, fs, b)
  {
    LowerIgnoresCase(a, b);
  }

  /** `_get_destination_dir`: `user_kernel_dir/name` for a user install,
      `SYSTEM_JUPYTER_PATH[0]/kernels/name` otherwise. */
  function DestinationDir(m: Manager, kernelName: string, user: bool): (r: Path)
    ensures user ==> r == m.userKernelDir + "/" + kernelName
    ensures !user ==> r == m.systemJupyterPath + "/kernels/" + kernelName
    ensures |kernelName| < |r| && r[|r| - |kernelName| - 1..] == "/" + kernelName
  {
    if user then Join(m.userKernelDir, kernelName)
    else Join(Join(m.systemJupyterPath, "kernels"), kernelName)
  }

  /** A destination is named after the kernel it holds. */
  lemma DestinationNamedAfterKernel(m: Manager, kernelName: string, user: bool)
    requires '/' !in kernelName
    ensures Basename(DestinationDir(m, kernelName, user)) == kernelName
  {
    if user {
      BasenameOfJoin(m.userKernelDir, kernelName);
    } else {
      BasenameOfJoin(Join(m.systemJupyterPath, "kernels"), kernelName);
    }
  }

  /** The name `install_kernel_spec` installs under: the name given or, when none
      (or an empty one) is given, the basename of the source directory; folded
      either way. */
  function InstallName(sourceDir: Path, kernelName: Option<string>): (r: string)
    ensures IsLower(r)
    ensures kernelName.None? || kernelName.value == "" ==> '/' !in r && r == Lower(Basename(sourceDir))
    ensures kernelName.Some? && kernelName.value != "" ==> r == Lower(kernelName.value)
    ensures kernelName.Some? && '/' !in kernelName.value ==> '/' !in r
  {
    var name := if kernelName.None? || kernelName.value == "" then Basename(sourceDir) else kernelName.value;
    LowerIdempotent(name);
    LowerKeepsSeparators(name);
    Lower(name)
  }

  /** A source directory given with a trailing separator and no name yields the
      empty name, so a user install targets `user_kernel_dir/` itself. */
  lemma TrailingSeparatorGivesEmptyName(m: Manager, sourceDir: Path)
    requires sourceDir != [] && sourceDir[|sourceDir| - 1] == '/'
    ensures InstallName(sourceDir, None) == ""
    ensures DestinationDir(m, InstallName(sourceDir, None), true) == m.userKernelDir + "/"
  {
    assert Basename(sourceDir) == [];
  }

  /** What installing leaves behind: the result and the new store. */
  datatype InstallOutcome = InstallOutcome(result: Result<Path, CopyError>, trees: map<Path, Tree>)

  /** The remove-then-copy step of `install_kernel_spec`: an existing destination
      is removed, then the source is copied there. */
  function ReplaceTree(trees: map<Path, Tree>, sourceDir: Path, destination: Path): InstallOutcome
  {
    var cleared := if destination in trees then trees - {destination} else trees;
    if sourceDir !in cleared then InstallOutcome(Err(SourceNotFound(sourceDir)), cleared)
    else InstallOutcome(Ok(destination), cleared[destination := cleared[sourceDir]])
  }

  /** The effect of `install_kernel_spec` on the store: the destination is
      computed from the name, then replaced by a copy of the source. */
  function Installed(m: Manager, trees: map<Path, Tree>, sourceDir: Path, kernelName: Option<string>, user: bool): InstallOutcome
  {
    ReplaceTree(trees, sourceDir, DestinationDir(m, InstallName(sourceDir, kernelName), user))
  }

  /** `install_kernel_spec`: remove whatever is at the destination, then copy the
      source directory there and return the destination. */
  method InstallKernelSpec(m: Manager, store: FileStore, sourceDir: Path, kernelName: Option<string>, user: bool)
    returns (r: Result<Path, CopyError>)
    modifies store
    ensures InstallOutcome(r, store.trees) == Installed(m, old(store.trees), sourceDir, kernelName, user)
  {
    var name := InstallName(sourceDir, kernelName);
    var destination := DestinationDir(m, name, user);
    if store.HasDir(destination) {
      store.RemoveTree(destination);
    }
    var copied := store.CopyTree(sourceDir, destination);
    match copied
    case Err(e) => r := Err(e);
    case Ok(_) => r := Ok(destination);
  }

  /** Installing replaces rather than merges: on success the destination holds
      exactly the source's contents and its path is returned; it fails only when
      the source is missing, or is the destination itself and so was just removed;
      no other directory changes either way. */
  lemma InstallReplaces(trees: map<Path, Tree>, sourceDir: Path, destination: Path)
    ensures ReplaceTree(trees, sourceDir, destination).result.Ok? <==>
              sourceDir in trees && sourceDir != destination
    ensures ReplaceTree(trees, sourceDir, destination).result.Ok? ==>
              ReplaceTree(trees, sourceDir, destination).result.value == destination &&
              destination in ReplaceTree(trees, sourceDir, destination).trees &&
              ReplaceTree(trees, sourceDir, destination).trees[destination] == trees[sourceDir]
    ensures ReplaceTree(trees, sourceDir, destination).result.Err? ==>
              ReplaceTree(trees, sourceDir, destination).result == Err(SourceNotFound(sourceDir)) &&
              destination !in ReplaceTree(trees, sourceDir, destination).trees
    ensures forall p :: p != destination ==>
              (p in ReplaceTree(trees, sourceDir, destination).trees <==> p in trees)
    ensures forall p :: p != destination && p in trees ==>
              ReplaceTree(trees, sourceDir, destination).trees[p] == trees[p]
  {
    var cleared := if destination in trees then trees - {destination} else trees;
    assert cleared == trees - {destination};
  }

  /** Whatever the destination held before does not matter: stores that differ
      only there give the same outcome. */
  lemma InstallIgnoresPrevious(trees1: map<Path, Tree>, trees2: map<Path, Tree>, sourceDir: Path, destination: Path)
    requires trees1 - {destination} == trees2 - {destination}
    ensures ReplaceTree(trees1, sourceDir, destination) == ReplaceTree(trees2, sourceDir, destination)
  {
    assert (if destination in trees1 then trees1 - {destination} else trees1) == trees1 - {destination};
    assert (if destination in trees2 then trees2 - {destination} else trees2) == trees2 - {destination};
  }

  /** The installed spec lands in a directory named after its folded name. */
  lemma InstalledUnderName(m: Manager, trees: map<Path, Tree>, sourceDir: Path, kernelName: Option<string>, user: bool)
    requires kernelName.None? || '/' !in kernelName.value
    ensures Installed(m, trees, sourceDir, kernelName, user).result.Ok? ==>
              Basename(Installed(m, trees, sourceDir, kernelName, user).result.value) == InstallName(sourceDir, kernelName)
  {
    DestinationNamedAfterKernel(m, InstallName(sourceDir, kernelName), user);
  }
}
