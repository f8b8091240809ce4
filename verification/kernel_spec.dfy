/** `KernelSpec`: the launch description of one kernel, how it is serialised
    (`to_dict`) and how it is built from a resource directory's kernel.json
    (`from_resource_dir`). */
module KernelSpecs {
  import opened Wrappers
  import opened Paths
  import opened JsonValues
  import opened FileSystems

  /** The traits of a spec. `argv` and `env` are untyped `List()` and `Dict()`
      traits, so their items are whatever the JSON file holds. */
  datatype KernelSpec = KernelSpec(
    argv: seq<Json>,
    displayName: string,
    language: string,
    env: map<string, Json>,
    resourceDir: Path)

  /** Why a spec cannot be produced. */
  datatype SpecError =
    | NoSuchKernel(name: string)       // the registry has no kernel of that name
    | FileNotFound(path: Path)         // `io.open` on a missing kernel.json
    | InvalidJson(path: Path)          // `json.load` rejects the file
    | NotAMapping(path: Path)          // the file holds JSON that is not an object
    | DuplicateArgument(key: string)   // the file itself sets `resource_dir`
    | TraitError(traitName: string)       // a trait given a value of the wrong type

  /** The keys `to_dict` writes, which are the traits a kernel.json may set. */
  const SerialisedKeys: set<string> := {"argv", "env", "display_name", "language"}

  /** The value a trait has when kernel.json does not set it. */
  function TraitDefault(key: string): Json
  {
    match key
    case "argv" => JArray([])
    case "env" => JObject(map[])
    case _ => JString("")
  }

  /** `to_dict`: the four serialised traits with the spec's values; the resource
      directory is where the spec was found, not part of it. */
  function ToDict(spec: KernelSpec): (d: map<string, Json>)
    ensures d.Keys == SerialisedKeys
    ensures "resource_dir" !in d
    ensures d["argv"].JArray? && d["argv"].items == spec.argv
    ensures d["env"].JObject? && d["env"].members == spec.env
    ensures d["display_name"].JString? && d["display_name"].s == spec.displayName
    ensures d["language"].JString? && d["language"].s == spec.language
  {
    map["argv" := JArray(spec.argv),
        "env" := JObject(spec.env),
        "display_name" := JString(spec.displayName),
        "language" := JString(spec.language)]
  }

  /** Whether the value given for a serialised trait has the type the trait accepts. */
  predicate TraitAccepts(key: string, value: Json)
  {
    match key
    case "argv" => value.JArray?
    case "env" => value.JObject?
    case _ => value.JString?
  }

  /** `cls(resource_dir=resource_dir, **kernel_dict)`: keys that name no trait are
      passed over, a trait given the wrong type is a `TraitError`, and a dict that
      itself carries `resource_dir` clashes with the keyword argument. */
  function FromKernelDict(dict: map<string, Json>, resourceDir: Path): (r: Result<KernelSpec, SpecError>)
    ensures r.Ok? <==>
              "resource_dir" !in dict &&
              forall k :: k in SerialisedKeys && k in dict ==> TraitAccepts(k, dict[k])
    ensures "resource_dir" in dict ==> r == Err(DuplicateArgument("resource_dir"))
    ensures "resource_dir" !in dict && r.Err? ==>
              r.error.TraitError? && r.error.traitName in SerialisedKeys && r.error.traitName in dict &&
              !TraitAccepts(r.error.traitName, dict[r.error.traitName])
    ensures r.Ok? ==> r.value.resourceDir == resourceDir
    ensures r.Ok? ==> forall k :: k in SerialisedKeys ==>
              ToDict(r.value)[k] == if k in dict then dict[k] else TraitDefault(k)
  {
    if "resource_dir" in dict then Err(DuplicateArgument("resource_dir"))
    else if "argv" in dict && !dict["argv"].JArray? then Err(TraitError("argv"))
    else if "env" in dict && !dict["env"].JObject? then Err(TraitError("env"))
    else if "display_name" in dict && !dict["display_name"].JString? then Err(TraitError("display_name"))
    else if "language" in dict && !dict["language"].JString? then Err(TraitError("language"))
    else
      Ok(KernelSpec(
        argv := if "argv" in dict then dict["argv"].items else [],
        displayName := if "display_name" in dict then dict["display_name"].s else "",
        language := if "language" in dict then dict["language"].s else "",
        env := if "env" in dict then dict["env"].members else map[],
        resourceDir := resourceDir))
  }

  /** `KernelSpec.from_resource_dir(dir)`: read `dir/kernel.json` and build the spec
      from it, with `dir` as its resource directory. */
  function FromResourceDir(fs: FileSystem, dir: Path): (r: Result<KernelSpec, SpecError>)
    ensures !IsFile(fs, Join(dir, "kernel.json")) ==> r == Err(FileNotFound(Join(dir, "kernel.json")))
    ensures IsFile(fs, Join(dir, "kernel.json")) && fs.files[Join(dir, "kernel.json")].Unparsable? ==>
              r == Err(InvalidJson(Join(dir, "kernel.json")))
    ensures IsFile(fs, Join(dir, "kernel.json")) && fs.files[Join(dir, "kernel.json")].JsonText? &&
            !fs.files[Join(dir, "kernel.json")].value.JObject? ==>
              r == Err(NotAMapping(Join(dir, "kernel.json")))
    ensures IsFile(fs, Join(dir, "kernel.json")) && fs.files[Join(dir, "kernel.json")].JsonText? &&
            fs.files[Join(dir, "kernel.json")].value.JObject? ==>
              r == FromKernelDict(fs.files[Join(dir, "kernel.json")].value.members, dir)
    ensures r.Ok? ==> r.value.resourceDir == dir
    ensures r.Ok? <==>
              IsFile(fs, Join(dir, "kernel.json")) &&
              fs.files[Join(dir, "kernel.json")].JsonText? &&
              fs.files[Join(dir, "kernel.json")].value.JObject? &&
              FromKernelDict(fs.files[Join(dir, "kernel.json")].value.members, dir).Ok?
  {
    var kernelFile := Join(dir, "kernel.json");
    if kernelFile !in fs.files then Err(FileNotFound(kernelFile))
    else
      match fs.files[kernelFile]
      case Unparsable => Err(InvalidJson(kernelFile))
      case JsonText(JObject(fields)) => FromKernelDict(fields, dir)
      case JsonText(_) => Err(NotAMapping(kernelFile))
  }

  /** Serialising a spec and building one from the result, in the same resource
      directory, gives the spec back. */
  lemma ToDictRoundTrip(spec: KernelSpec)
    ensures FromKernelDict(ToDict(spec), spec.resourceDir) == Ok(spec)
  {
  }

  /** A kernel.json that sets exactly the serialised traits, each with a value its
      trait accepts, is reproduced by serialising the spec built from it. */
  lemma FromKernelDictRoundTrip(dict: map<string, Json>, resourceDir: Path)
    requires dict.Keys == SerialisedKeys
    requires forall k :: k in dict ==> TraitAccepts(k, dict[k])
    ensures FromKernelDict(dict, resourceDir).Ok?
    ensures ToDict(FromKernelDict(dict, resourceDir).value) == dict
  {
    var d := ToDict(FromKernelDict(dict, resourceDir).value);
    assert d.Keys == dict.Keys;
    forall k | k in d
      ensures d[k] == dict[k]
    {
    }
  }

  /** `to_dict` does not see the resource directory: two specs that differ only
      there serialise alike. */
  lemma ToDictDropsResourceDir(spec: KernelSpec, dir: Path)
    ensures ToDict(spec.(resourceDir := dir)) == ToDict(spec)
  {
  }
}
