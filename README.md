# Batch renamer: the planning half, in Dafny

This project models how `rename.py` plans a batch of moves. The program walks a
source directory recursively. It keeps the regular files whose base name the
regular expression matches (`collecter_fichiers`). For each kept file it
substitutes in the base name, then looks for a free path in the destination
directory (`generer_nom_unique`). If `nom` is taken it tries `{stem}_1{ext}`,
`{stem}_2{ext}`, and so on. Finally it pairs each file with its new path
(`renommer_deplacer`).

The environment enters as parameters:

- The recursive walk is a sequence of `Entry` values. Each entry has a path
  and the answer `is_file()` gives for it.
- The compiled pattern is two functions: a match predicate on names, and a
  substitution function from names to names.
- The destination directory is a snapshot: the finite set of names for which
  `Path.exists()` is true. `Path.exists()` becomes membership in that set. Planning moves no file,
  so one snapshot serves every call.
- A path is `FsPath(dir, name)`: the directory it lies in and its base name.

Files:

- `path_names.dfy` (module `PathNames`) models `Path(nom).stem`,
  `Path(nom).suffix` and the decimal spelling of the counter.
- `rename.dfy` (module `Rename`) models the three planning functions.
  `UniqueName` and `PlanMoves` keep the source's loops, and each is proved
  equal to a specification function (`UniquePath`, `Planned`). The lemmas
  are stated about those functions.
- `scenarios.dfy` (module `Scenarios`) holds concrete cases. They cover
  `a.txt` -> `a_1.txt` -> `a_2.txt`, suffix splitting of dot-names, and two
  in-batch collisions.

`generer_nom_unique`'s docstring promises to avoid name collisions in the
destination (rename.py:23), but the planner reserves nothing between files,
so two planned moves can share a destination. The model keeps this behaviour
as written. `PlannedSameNameSameDest`, `PlannedAppend`, `SameNameCollides` and
`DistinctNamesCollide` state it. `DistinctNamesCollide`
also shows a collision between two files whose substituted names differ:
`a.txt` and `a_1.txt`, with `a.txt` already present.

## Model

| member | source | states |
|---|---|---|
| PathNames.LastDot | rename.py:28-29 | the result is -1 or the index of a '.', and no '.' follows it: the last dot, as `str.rfind` finds it for pathlib |
| PathNames.SuffixShape | rename.py:29 | the suffix is non-empty exactly when the last dot is neither first nor last. It then starts with that dot, holds no other dot, is shorter than the name and is the name's tail |
| PathNames.StemSuffixSplit | rename.py:28-29 | stem followed by suffix is the original name, and the stem is empty only for the empty name |
| PathNames.DecimalShape | rename.py:30 | `str(compteur)` is a non-empty string of digits. It has one digit exactly below 10 and ends in the last decimal digit of the number |
| PathNames.DecimalInjective | rename.py:30 | distinct counters are spelt differently |
| Rename.CollectFiles | rename.py:12-17 | a path is collected iff some walk entry with that path is a regular file whose name matches; never more files than entries |
| Rename.CollectAppend | rename.py:14-17 | collecting over two stretches of the walk yields the first stretch's files followed by the second's, so walk order is kept and nothing is added or dropped |
| Rename.CollectOne | rename.py:16 | a single entry is kept exactly when it is a regular file and its name matches |
| Rename.CollectCount | rename.py:14-17 | the number of collected files equals the number of selected entries |
| Rename.CandidateInjective | rename.py:24-31 | distinct counters give distinct candidate names (`nom` itself for counter 0, `{stem}_{k}{ext}` after), so no name is tested twice |
| Rename.FirstFreeFrom | rename.py:27-31 | the least counter from a starting point whose candidate is absent; every candidate below it is present. It terminates because a finite set blocks only finitely many distinct names |
| Rename.FirstFree | rename.py:25-31 | the counter reached is the least one whose candidate is absent; all smaller counters' candidates are present |
| Rename.UniquePath | rename.py:22-33 | the returned path lies directly in the destination directory, and its name is not among the existing names |
| Rename.UniqueKeepsFreeName | rename.py:24-27 | `dossier / nom` is returned unchanged if and only if `nom` does not exist |
| Rename.UniqueLeastCounter | rename.py:25-31 | a taken `nom` becomes `{stem}_{k}{ext}`, with stem and suffix from the original `nom`, for the least k >= 1 whose name is absent; all names for 1..k-1 exist |
| Rename.FirstFreeBound | rename.py:27-31 | the final counter never exceeds the number of existing names, so at most that many plus one names are tested |
| Rename.UniqueName | rename.py:22-33 | the `while` loop that recomputes stem and suffix from `nom` each round returns exactly `UniquePath` |
| Rename.Planned | rename.py:45-50 | one action per file, in file order. Each action's source is its file, and its destination lies in the destination directory under a name that does not exist |
| Rename.PlanMoves | rename.py:38-52 | the `for` loop appending to `actions` yields exactly `Planned` over the collected files |
| Rename.PlannedFlattens | rename.py:48-49 | a destination is decided only by the substituted base name, so the source's sub-directory is dropped |
| Rename.PlannedSameNameSameDest | rename.py:47-50 | two files with equal substituted names get the same destination, since nothing is reserved within a batch |
| Rename.PlannedAppend | rename.py:47-50 | planning a batch equals planning its two parts separately against the same snapshot |
| Scenarios.SplitOfTxt | rename.py:28-29 | `a.txt` splits into stem `a` and suffix `.txt` |
| Scenarios.SplitOfDotNames | rename.py:28-29 | `.bashrc` and `a.` have no suffix; each is its own stem |
| Scenarios.FreeNameKept | rename.py:24-27 | with an empty destination, `a.txt` stays `a.txt` |
| Scenarios.FirstSuffix | rename.py:27-31 | with `a.txt` present, the answer is `a_1.txt` |
| Scenarios.SecondSuffixNotStacked | rename.py:27-31 | with `a.txt` and `a_1.txt` present, the answer is `a_2.txt`, not `a_1_2.txt` |
| Scenarios.SameNameCollides | rename.py:45-50 | two files named `a.txt` in different sub-directories are both planned onto `dest/a.txt` |
| Scenarios.DistinctNamesCollide | rename.py:45-50 | with `a.txt` present, files renamed to `a.txt` and to `a_1.txt` are both planned onto `dest/a_1.txt` |
| Scenarios.OnlyMatchingFiles | rename.py:14-17 | a non-matching file and a non-file are left out of the collection |

## Left out

- `main` (argument count check, usage message, source-existence check, `mkdir`, the preview printout, the confirmation prompt, exit codes): command-line glue and console I/O.
- `appliquer_actions`: `shutil.move` changes the real filesystem. Its overwrite and cross-device behaviour depends on the platform.
- The recursive walk `rglob("*")` and `is_file()`: directory traversal is I/O. They are replaced by the input sequence of entries. Walk order is whatever that sequence gives.
- `Path.exists()`: replaced by membership in a fixed set of names. Planning does not change the filesystem, so one snapshot is faithful. A filesystem changed by another process during planning is not modelled. `exists()` follows symlinks, so a dangling symlink in the destination reads as absent and the planner can pick its name; the set holds only the names for which `exists()` is true.
- The `re` engine: `re.compile` with `IGNORECASE`, `regex.match` and `regex.sub` are abstracted as an arbitrary predicate and an arbitrary function on names. Case-insensitivity, start-anchoring of `match`, back-references and pattern compilation errors live inside the engine and are not modelled. The model's `sub` is total: `regex.sub` raises `re.error` for a bad group reference in the template (such as `\2` when the pattern has one group), which happens inside `renommer_deplacer` on the first collected file (rename.py:48), so no plan is produced at all; that failure is not modelled.
- Path normalisation by `/` and `Path(...)`: a substituted name that contains a separator, is absolute, or is `""`, `.` or `..` makes pathlib join or split differently. The model treats every name as one plain component.
- PathNames.SuffixShape: `Suffix` follows the pathlib rule before Python 3.14, in which a final dot starts no suffix (`Path("a.").suffix == ""`). Later versions treat a single final dot as a suffix.
- Windows path semantics (drive letters) and case-insensitive existence checks (the default on Windows and on macOS file systems) are not modelled. Existence is exact string membership.
