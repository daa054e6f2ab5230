# catpip merge engine, in Dafny

`pyutils/catpip.py` merges the Pipfiles of several modules into one. It keeps
three module-level dictionaries: `release` for the `packages` sections,
`build` for `dev-packages` and `requires` for `requires`. Each module's
parsed Pipfile is folded into them, one module at a time and in command-line
order. The work is done by `update_section`, which walks one section's
entries in document order:

- a name the table does not hold yet is inserted with its version string as given;
- if the recorded or the incoming version is the wildcard `"*"`, the entry
  becomes `"*"` and the function returns at once, so the rest of that section
  is not looked at;
- otherwise the entry takes the incoming version only when its expansion
  compares strictly greater. The source compares
  `Version(expand_version(x))`, and `expand_version` pads a version to three
  components and maps `"*"` to `9999999.0.0`.

The project has three modules:

- `versions.dfy` (`Versions`): `expand_version` as a method with its loop
  (`ExpandVersion`), the function `Expanded` that specifies it, and the numeric
  comparison. The comparison splits the expanded string on `.`, reads the three
  fields as decimal numbers (`Key`) and compares them lexicographically
  (`VersionLess`).
- `tables.dfy` (`Tables`): an insertion-ordered dictionary. `Dict` is its value:
  the key order plus the map. `Table` is the object that is mutated in place,
  and `Put` models `table[k] = v`.
- `catpip.dfy` (`Catpip`): the parsed document. Each section is a sequence of
  `Entry(name, version)` in document order. Also here:
  - `Merge`, the function saying what `update_section` leaves in the table;
  - `UpdateSection`, a method with a loop and the early `return`, proved equal to `Merge`;
  - the class `Pipfiles`, holding the three tables, with `UpdateRelease`, `UpdateBuild`, `UpdateRequires` and `Exec`;
  - `Fold`, the function `Exec` is proved against.

Two consequences of the code are easy to miss:

- The `return` at pyutils/catpip.py:31 ends `update_section` at the first
  wildcard conflict. Any later entries of that section are then skipped,
  including names the table has never seen. `MergeOutcome`,
  `LaterNamesDropped` and `EarlyExitExample` state this.
- The sentinel `9999999.0.0` is an ordinary version (`SentinelIsFinite`): an
  explicit `10000000` would compare above it. The wildcard wins only because
  the code tests for `"*"` (lines 29-31) before it compares (line 34).

## Model

| member | source | states |
|---|---|---|
| `Versions.ExpandVersion` | pyutils/catpip.py:11-20 | the loop that appends ".0" once per missing component returns exactly `Expanded(version)`, and the wildcard returns the sentinel |
| `Versions.ExpandedShape` | pyutils/catpip.py:11-20 | "*" expands to "9999999.0.0"; any other input is a prefix of its expansion (never truncated); only alternating "." and "0" follow it, exactly two characters per missing dot; the result has two dots, or the input's own count when that is larger, in which case the input comes back unchanged |
| `Versions.ExpandedExamples` | tests/test_python_versions.py:5-11 | "1.2" expands to "1.2.0", "1" to "1.0.0", "1.2.3" to itself and "*" to "9999999.0.0" |
| `Versions.SentinelIsFinite` | pyutils/catpip.py:12-13 | the wildcard and the explicit version "9999999" expand to the same string |
| `Versions.PaddedFields` | pyutils/catpip.py:17-18 | padding a version of one or two numeric fields gives three numeric fields: the original ones, then zeros |
| `Versions.ExpandedFields` | pyutils/catpip.py:15-20 | every explicit version expands to three numeric fields beginning with its own, so the comparison at line 34 is defined |
| `Versions.VersionLessIsStrictTotal` | pyutils/catpip.py:34 | the comparison of expanded versions is irreflexive, asymmetric and transitive, and two versions neither of which is less have equal numeric keys |
| `Versions.DominatesOrder` | pyutils/catpip.py:29-35 | "at least as high" (the wildcard above all, then numeric order) is reflexive and transitive, and only "*" is at least as high as "*" |
| `Tables.Dict.Set` | pyutils/catpip.py:35-37 | `d[k] = v`: k maps to v, every other key keeps its presence and value, the key order is kept and a new key is appended last, and the dict invariant is preserved |
| `Tables.Table.Put` | pyutils/catpip.py:35-37 | the table object's new contents are `Set(k, v)` of the old ones |
| `Tables.Table.constructor` | pyutils/catpip.py:7-9 | a new table is empty |
| `Catpip.Absorb` | pyutils/catpip.py:26-37 | one pass of the loop body for one entry: the recorded versions stay `"*"` or explicit, and the dict invariant is kept (its three branches are stated by `AbsorbAgreeing`) |
| `Catpip.Merge` | pyutils/catpip.py:22-37 | the table `update_section` leaves: the recorded versions stay `"*"` or explicit, and the dict invariant is kept (its behaviour is stated by `MergeSplit`, `MergeKeys`, `MergeOrder`, `MergeElsewhere`, `MergeMonotone` and `MergeOutcome`) |
| `Catpip.UpdateSection` | pyutils/catpip.py:22-37 | the loop over the section, with its early return, leaves exactly `Merge(parse[section], old table)` and keeps the values well-formed |
| `Catpip.MergeSplit` | pyutils/catpip.py:29-31 | early exit: merging `p + q` gives the result of `p` alone when `p` ended at a wildcard conflict, and otherwise merges `q` into the result of `p` |
| `Catpip.MergeKeys` | pyutils/catpip.py:24-37 | keys are never removed and the old key order is a prefix of the new one; only names of the section are added; and a section that runs to its end leaves every one of its names in the table |
| `Catpip.MergeOrder` | pyutils/catpip.py:24-37 | a section that runs to its end leaves the old keys followed by its new names, in document order and each once; this is the order `print_pipfile` lists them in (lines 60-71) |
| `Catpip.MergeElsewhere` | pyutils/catpip.py:24-37 | a name the section does not mention keeps its presence and its value |
| `Catpip.AbsorbMonotone` | pyutils/catpip.py:26-37 | one loop iteration keeps every recorded name, and each recorded version stays at least as high as it was |
| `Catpip.MergeMonotone` | pyutils/catpip.py:29-35 | after a section every recorded version is at least as high as before, and a recorded "*" stays "*" |
| `Catpip.AbsorbAgreeing` | pyutils/catpip.py:26-37 | one loop iteration: a new name is inserted with the entry's version and the loop goes on; a wildcard on either side records "*" and stops the loop; otherwise the loop goes on with the numerically larger version recorded, the old one on a tie |
| `Catpip.AbsorbExplicit` | pyutils/catpip.py:33-35 | in any table whose entry for the name is explicit, an explicit incoming version lets the loop go on, and the table takes it when it compares strictly greater and is otherwise left unchanged |
| `Catpip.MergeOutcome` | pyutils/catpip.py:26-37 | for an entry reached before any wildcard conflict: a new name gets the entry's version verbatim; a wildcard on either side gives "*", and the section's result is fixed at that entry; otherwise the numerically larger version wins, the recorded one on a tie |
| `Catpip.LaterNamesDropped` | pyutils/catpip.py:29-31 | after a wildcard conflict, a later name of the same section that the table did not hold is not inserted |
| `Catpip.EarlyExitExample` | pyutils/catpip.py:29-31 | with `x = "*"` recorded, the section `x = "*"`, `y = "*"` leaves the table unchanged, without `y` |
| `Catpip.FoldModule` | pyutils/catpip.py:81-83 | one module's `update_release`, `update_build` and `update_requires`: the three tables keep holding `"*"` or explicit versions |
| `Catpip.Fold` | pyutils/catpip.py:74-83 | the tables after folding the modules in order, a missing Pipfile skipped: they keep holding `"*"` or explicit versions (what they grow to is stated by `FoldGrows`) |
| `Catpip.MergeGrows` | pyutils/catpip.py:24-37 | a section's merge keeps the key order as a prefix and no recorded version falls |
| `Catpip.FoldGrows` | pyutils/catpip.py:74-85 | over a whole run, in each of the three tables, no key is removed or reordered, no recorded version falls, and a recorded "*" stays "*" |
| `Catpip.MaximumExample` | pyutils/catpip.py:33-35 | modules declaring 1.0.0, 2.0.0 and 1.5.0 for one package, in that order, leave 2.0.0 recorded |
| `Catpip.WildcardExample` | pyutils/catpip.py:29-31 | modules declaring 1.0.0, "*" and 2.0.0 for one package, in that order, leave "*" recorded |
| `Catpip.Pipfiles.constructor` | pyutils/catpip.py:7-9 | the three tables start empty and are three distinct objects |
| `Catpip.Pipfiles.UpdateRelease` | pyutils/catpip.py:39-40 | `release` becomes the merge of the `packages` section into it; `build` and `requirements` are unchanged |
| `Catpip.Pipfiles.UpdateBuild` | pyutils/catpip.py:42-43 | `build` becomes the merge of the `dev-packages` section into it; the other two tables are unchanged |
| `Catpip.Pipfiles.UpdateRequires` | pyutils/catpip.py:45-46 | `requirements` becomes the merge of the `requires` section into it; the other two tables are unchanged |
| `Catpip.Pipfiles.Exec` | pyutils/catpip.py:73-85 | folding the modules in order, skipping a module without a Pipfile, leaves the three tables equal to `Fold(modules, old tables)` |

## Left out

- `print_pipfile` (pyutils/catpip.py:48-71) is left out because it only formats output. The key order it prints is modelled as `Dict.keys`, and `MergeOrder` states how a section extends it.
- `exec`'s input and output are left out: `sys.argv`, `os.path.isfile`, `open`, `toml.load` and the "skipping" message. `Exec` takes the already-parsed Pipfiles in order, with `None` for a module whose Pipfile is missing.
- `version_parser.Version` comes from an external library and is replaced by a lexicographic comparison of three decimal fields. Its behaviour on other strings cannot be seen. So sections are required to hold `"*"` or one to three dot-separated numerals (`SectionWF`, `Loadable`), and the tables keep that invariant.
- A section missing from a Pipfile makes `parse[section]` raise `KeyError` in the source. Here the section's presence is a precondition (`UpdateSection`, `Loadable`).
- Structured Pipfile values, such as inline tables with a version and an index, are left out. The code passes values to `Version` as opaque strings.
- `MergeOrder`: covers only a section that runs to its end. After a wildcard conflict the order is the one of the entries before it, and `LaterNamesDropped` states that later new names are left out.
- `MergeOutcome`, `LaterNamesDropped`: both assume the names in a section are distinct, as the keys of a TOML table are. `Merge` itself does not need this.
- `get_python_feature`, `strip_pipfile_version_operators` and `get_pipfile_version` are imported by tests/test_python_versions.py but do not exist in pyutils/catpip.py, so they are not part of this model.
- pyutils/mkfat.py and pyutils/mkset.py are not part of this model. They list installed packages through a `pipenv` subprocess and filter them by name.
