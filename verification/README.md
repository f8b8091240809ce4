# Kernel-spec registry of jupyter_client, modelled in Dafny

This project models the kernel-spec registry of `jupyter_client/kernelspec.py`.
A kernel spec is a directory holding a `kernel.json` that says how to launch one
kernel. The registry does four things:

- It searches a list of kernel directories and builds a map from kernel name to
  resource directory (`find_kernel_specs`).
- It looks a name up and builds the `KernelSpec` from that directory's
  `kernel.json` (`get_kernel_spec`).
- It serialises a spec (`to_dict`).
- It installs a spec directory by copying it into the user or the system
  kernel directory (`install_kernel_spec`).

The filesystem is plain data. Discovery and lookup read a `FileSystem` value.
It holds each directory's entries in `os.listdir` order and each file as
`json.load` parses it. Installation changes a `FileStore` object, which maps
each directory path to the tree of files below it. `rmtree` and `copytree`
update that map.

Modules, one per concern of the source file:

- `Wrappers`: `Option` (Python's `None`) and `Result` (a raised exception).
- `Paths`: `str.lower()`, `os.path.join` and `os.path.basename`.
- `JsonValues`: the values a kernel.json can hold.
- `FileSystems`: the read-only snapshot, `_is_kernel_dir`, and the `FileStore`
  class that installation mutates.
- `KernelSpecs`: `KernelSpec`, `to_dict` and `from_resource_dir`.
  `NoSuchKernel` and the other failures are the constructors of `SpecError`.
- `Discovery`: `_list_kernels_in` and the first-found-wins merge over the
  search directories.
- `KernelSpecManager`: the manager's configuration (a datatype, because no
  method of the manager changes it), `find_kernel_specs` as a method with the
  source's nested loops, `get_kernel_spec`, `_get_destination_dir` and
  `install_kernel_spec`.

Where the documentation and the code disagree, the model follows the code:

- **Precedence.** The help text of `kernel_dirs` (kernelspec.py:97) says later
  directories take priority. The loop at kernelspec.py:118-123 inserts a name
  only when it is not there yet, so the first directory that lists a name wins.
  `Discovery.DiscoveredFirstFoundWins` and `Discovery.LaterDirsNeverOverride`
  prove the first-found rule about the model.
- **Inside one directory the last entry wins.** `_list_kernels_in` builds a dict
  comprehension, so when two entries fold to the same name (`Python3` and
  `python3`), the entry listed later overwrites the earlier one.
- **The native branch of `get_kernel_spec` is dead.** kernelspec.py:150
  compares the whole registry dict with `NATIVE_RESOURCE_DIR`, a path or
  `None`, and that comparison is never true. The model keeps the branch and the
  comparison as written. `KernelSpecManager.GetKernelSpec` proves that every
  successful lookup reads the resource directory's kernel.json.

## Model

| member | source | states |
|---|---|---|
| `Paths.LowerChar` | jupyter_client/kernelspec.py:74 | folding maps an ASCII capital to its small letter, leaves every other character, and never yields a capital |
| `Paths.Lower` | jupyter_client/kernelspec.py:74 | `lower()` keeps the length and folds each character in place |
| `Paths.LowerIdempotent` | jupyter_client/kernelspec.py:74 | a folded string has no capitals, and folding it again changes nothing |
| `Paths.LowerIgnoresCase` | jupyter_client/kernelspec.py:146 | strings that differ only in the case of their letters fold to the same string |
| `Paths.LowerKeepsSeparators` | jupyter_client/kernelspec.py:181 | folding neither adds nor removes a `/` |
| `Paths.Join` | jupyter_client/kernelspec.py:12 | `pjoin(a, b)` is `a`, then one separator, then `b` |
| `Paths.Basename` | jupyter_client/kernelspec.py:180 | `basename(p)` is the longest suffix of `p` without a separator: it is preceded by `/` unless it is all of `p` |
| `Paths.BasenameOfJoin` | jupyter_client/kernelspec.py:180 | the basename of `pjoin(a, b)` is `b` when `b` has no separator |
| `FileSystems.FileStore.RemoveTree` | jupyter_client/kernelspec.py:193-195 | `rmtree` removes the directory and nothing else |
| `FileSystems.FileStore.CopyTree` | jupyter_client/kernelspec.py:197 | `copytree` fails on a missing source first, then on an existing destination, and leaves the store unchanged when it fails; otherwise the destination is created holding the source's tree |
| `KernelSpecs.ToDict` | jupyter_client/kernelspec.py:47-54 | `to_dict` has exactly the keys argv, env, display_name and language, each holding the spec's value, and never has resource_dir |
| `KernelSpecs.FromKernelDict` | jupyter_client/kernelspec.py:45 | building a spec succeeds exactly when kernel.json does not set resource_dir and gives each trait it sets a value of the trait's type; a `resource_dir` key is a duplicate-argument error, and any other failure is a `TraitError` naming a serialised trait the file sets with the wrong type; the spec then has the given resource directory, and each serialised trait holds the file's value or the trait's default |
| `KernelSpecs.FromResourceDir` | jupyter_client/kernelspec.py:37-45 | a missing kernel.json is a file-not-found error, an unparsable one an invalid-JSON error, and JSON that is not an object a not-a-mapping error; an object gives exactly the spec built from its members with the directory read as resource directory |
| `KernelSpecs.ToDictRoundTrip` | jupyter_client/kernelspec.py:37-54 | serialising a spec and building one from the dict in the same resource directory gives the spec back |
| `KernelSpecs.FromKernelDictRoundTrip` | jupyter_client/kernelspec.py:37-54 | a kernel.json with exactly the four serialised traits, each well typed, builds a spec whose `to_dict` is that kernel.json |
| `KernelSpecs.ToDictDropsResourceDir` | jupyter_client/kernelspec.py:47-54 | `to_dict` does not depend on the resource directory |
| `Discovery.KernelsAmongLastEntryWins` | jupyter_client/kernelspec.py:74-75 | a folded name is listed exactly when some entry is a kernel directory folding to it, and it maps to the LAST such entry joined onto the directory |
| `Discovery.ListKernelsInContents` | jupyter_client/kernelspec.py:67-75 | `None` or a non-directory gives the empty map; otherwise a name is a key exactly when an entry that is a kernel directory folds to it; every key is already folded and maps to `dir/entry` for such an entry |
| `Discovery.ListedNamesAreLower` | jupyter_client/kernelspec.py:74 | every name `_list_kernels_in` reports is lower case |
| `Discovery.DiscoveredFirstFoundWins` | jupyter_client/kernelspec.py:117-123 | a name is found exactly when some search directory lists it, and it maps to the path from the earliest such directory |
| `Discovery.DiscoveredNames` | jupyter_client/kernelspec.py:117-123 | the names found by the loop are the union of the names each search directory lists |
| `Discovery.LaterDirsNeverOverride` | jupyter_client/kernelspec.py:118-123 | appending search directories never removes or changes a name an earlier directory supplied |
| `KernelSpecManager.ApplyWhitelist` | jupyter_client/kernelspec.py:133-135 | an empty whitelist leaves the map unchanged; a non-empty one keeps exactly the names it holds, with unchanged values |
| `KernelSpecManager.FindKernelSpecs` | jupyter_client/kernelspec.py:115-136 | the nested loops, native fallback and filter build exactly the first-found-wins registry |
| `KernelSpecManager.UnfilteredNames` | jupyter_client/kernelspec.py:117-131 | before filtering, the names are the union of the directories' names plus the native name when its resource directory is known |
| `KernelSpecManager.NativeFallback` | jupyter_client/kernelspec.py:125-131 | a directory listing the native name keeps its path; otherwise the native resource directory is used, or the name is absent when that directory is `None` |
| `KernelSpecManager.FoundKernelSpecsEntry` | jupyter_client/kernelspec.py:115-136 | a name is in the result exactly when the whitelist admits it and a directory lists it or it is the available native kernel; a listed name maps to the earliest directory's path |
| `KernelSpecManager.OtherNamesUntouchedByNative` | jupyter_client/kernelspec.py:125-131 | the native fallback changes no name other than the native one |
| `KernelSpecManager.GetKernelSpec` | jupyter_client/kernelspec.py:139-159 | the result is `NoSuchKernel` with the name as given exactly when the folded name is missing; otherwise it is the spec read from that resource directory's kernel.json, because the native branch is never taken |
| `KernelSpecManager.LookupIgnoresCase` | jupyter_client/kernelspec.py:144-159 | names that differ only in case give the same result: the same spec or the same error reading kernel.json, or both raise `NoSuchKernel` with the name as each was given |
| `KernelSpecManager.DestinationDir` | jupyter_client/kernelspec.py:161-165 | the destination is `user_kernel_dir/name` for a user install, else `SYSTEM_JUPYTER_PATH[0]/kernels/name` |
| `KernelSpecManager.DestinationNamedAfterKernel` | jupyter_client/kernelspec.py:161-165 | the basename of the destination is the kernel name |
| `KernelSpecManager.TrailingSeparatorGivesEmptyName` | jupyter_client/kernelspec.py:179-181 | a source directory ending in `/` with no name gives the empty name, so a user install targets `user_kernel_dir/` itself |
| `KernelSpecManager.InstallName` | jupyter_client/kernelspec.py:179-181 | the name is the one given, or the source's basename when none or an empty one is given; it is always folded, and has no separator unless the given name had one |
| `KernelSpecManager.InstallKernelSpec` | jupyter_client/kernelspec.py:168-199 | removing then copying produces exactly the result and store of `Installed`, which is `ReplaceTree` at the computed destination |
| `KernelSpecManager.InstallReplaces` | jupyter_client/kernelspec.py:193-199 | for any destination, replacing it: on success the destination is returned and holds exactly the source's tree; it fails only when the source is missing or is the destination, and then the destination is gone; no other path changes |
| `KernelSpecManager.InstallIgnoresPrevious` | jupyter_client/kernelspec.py:193-197 | what any destination held before does not affect the outcome |
| `KernelSpecManager.InstalledUnderName` | jupyter_client/kernelspec.py:179-190 | a successful install returns a directory whose basename is the installed name |

## Left out

- Real filesystem access is not modelled. `os.listdir`, `os.path.isdir`/`isfile`, `io.open` and `json.load` read a `FileSystem` value. `shutil.rmtree`/`copytree` update a `FileStore`. The two views are not linked, so a lookup after an install is not modelled.
- JSON is already parsed. Malformed JSON is one `Unparsable` case, and numbers are integers only. `to_json` (`json.dumps`) is not modelled.
- `KernelSpecManager.InstallReplaces` promises that no other path changes only because the store treats paths as independent keys. In the source, a directory removed by `rmtree` takes every directory below it along. With a source directory ending in `/` and no name, the name is empty (`KernelSpecManager.TrailingSeparatorGivesEmptyName`). A user install then removes `user_kernel_dir/` and every kernel installed under it, which the model does not show.
- The store treats directory paths as independent keys. Nesting between them is not modelled, for example a destination inside the source. Permissions (`OSError` on the system directory) and a plain file sitting at the destination are not modelled either.
- `Paths.Lower` and `Paths.LowerChar` fold only the ASCII letters A-Z. Python's `str.lower()` also folds non-ASCII letters.
- `Paths.Join` always inserts one separator. It does not model `os.path.join` restarting at an absolute second part, skipping the separator after a trailing slash, or returning the second part alone when the first is empty.
- `FileSystems.IsDir` holds for any path the snapshot lists, including the empty path, for which `os.path.isdir` is always false.
- `KernelSpecs.FromKernelDict` checks invalid traits in a fixed order (argv, env, display_name, language). Python reports the first invalid trait in the file's key order, which the map does not keep. Unknown keys are passed over: traitlets only warns about them.
- Environment probing is not modelled; its results are parameters of `KernelSpecManager.Manager`. This covers `PY3` for the native name, the optional ipykernel import (`NATIVE_RESOURCE_DIR`, `get_kernel_dict`), `jupyter_data_dir`, `jupyter_path`, `SYSTEM_JUPYTER_PATH[0]` and the IPython directory fallbacks (kernelspec.py:14-26, 83-88, 99-113, 152-155).
- Logging and the deprecation warning for `replace` are not modelled, so `install_kernel_spec` has no `replace` parameter. `install_native_kernel_spec` only delegates to ipykernel. The module-level wrappers only build a default manager.
- jupyter_client/blocking/client.py is not part of this model. It is a thin layer of wrappers over a client class and channels that are not shown.
- jupyter_client/tests/signalkernel.py is not part of this model. It is a test kernel that spawns processes and handles signals.
