# Hierarchical file copier, modelled in Dafny

This project models `copy_files.py`, a utility that walks a source directory tree and
keeps the entries that are files whose base name passes a selector. It copies each kept
file into one flat destination directory, under a name that encodes the directories
the file came from. The default selector keeps names ending in `.md` or `.rst`. The
rename rule turns `p1/…/pn/name` into `p1_…_pn_name`. A file directly under the root
keeps its name.

Everything lives in module `CopyFiles` (`copy_files.dfy`):

- `DefaultFileFilter` is the default selector, a suffix test on the base name.
- `Join` and `NewName` are `'_'.join(...)` and the rename expression.
- `DirPrefix` is an independent reference definition of the rename rule: every
  component followed by `_`.
- An `Entry` is one item of the traversal. It has its parent directory components,
  its base name, whether it is a file, and its bytes.
- `Destination` is the destination directory, a class. The `present` flag says
  whether the directory exists. The `files` map goes from file name to contents.
  Copying a file is the single-key update `files[name := content]`.
- `CopyFilesWithHierarchy` is the copy pass: a loop over the traversal that keeps a
  counter and writes into the `Destination`. Its postconditions tie the final
  `files` to `AfterCopies`, the destination map as a function of the traversal, and
  tie the count to `CountSelected`. The lemmas about `AfterCopies` give the
  properties of the pass: which names are produced, that the last write wins, that
  names nobody targets are left alone, and that a second pass is idempotent.
- The traversal `src` is a sequence value, so the pass cannot change the source.
- The selector is a parameter `filter: string -> bool`. The source's default is
  `DefaultFileFilter`.
- The traversal order of `Path.rglob` is whatever order the given sequence has.
- A `KeyboardInterrupt` is an optional position `interrupt`. An interrupt at
  position `k < |src|` arrives before entry `k` is handled. An interrupt at
  position `|src|` arrives after the last entry, while the loop is still inside
  its `try`.

Behaviour of the code worth noting:

- On interrupt the function returns 0, not the number of files copied so far
  (`copy_files.py:52-54`). The files copied so far stay in the destination.
- The code never checks that the source directory exists. A missing source behaves
  like an empty traversal. In the model, the source is simply a sequence of entries.
- Only `KeyboardInterrupt` is caught. A per-file copy error is not skipped; it ends
  the call. Such errors are left out (see below).

## Model

| member | source | states |
|---|---|---|
| `CopyFiles.DefaultFileFilter` | copy_files.py:8-10 | the default selector; no contract of its own, its meaning is given by `DefaultFileFilterSpec` |
| `CopyFiles.Join` | copy_files.py:42 | `'_'.join(parts)`; no contract of its own, `JoinThenSeparator` relates it to `DirPrefix` |
| `CopyFiles.NewName` | copy_files.py:39-42 | the rename expression; no contract of its own, its meaning is given by `NewNameIsPrefixPlusName` |
| `CopyFiles.Selected` | copy_files.py:37 | the guard `entry.is_file() and file_filter(entry.name)`; no contract of its own, `AfterCopiesKeys` and `CountSelectedIsNumberSelected` say what it decides |
| `CopyFiles.DefaultFileFilterSpec` | copy_files.py:8-10 | the default selector accepts a name exactly when it is some stem followed by `.md`, or some stem followed by `.rst` |
| `CopyFiles.EndsWithIffStem` | copy_files.py:10 | the suffix test used by the selector holds exactly when the string is a stem followed by the suffix |
| `CopyFiles.DefaultFileFilterExamples` | copy_files.py:8-10 | `readme.md` and `spec.rst` are accepted; `image.png`, `notes.markdown`, `md` and the empty name are rejected |
| `CopyFiles.JoinThenSeparator` | copy_files.py:42 | for non-empty parts, `'_'.join(parts) + '_'` is every component followed by `_` |
| `CopyFiles.NewNameIsPrefixPlusName` | copy_files.py:39-42 | for every input, the destination name is `p1_…_pn_` followed by the base name; with no parent parts the prefix is empty |
| `CopyFiles.NewNameAtRoot` | copy_files.py:39-42 | a file directly under the root (no parent parts) keeps its base name unchanged |
| `CopyFiles.NewNameExamples` | copy_files.py:42 | `a/b/note.md` becomes `a_b_note.md`; `note.md` at the root stays `note.md` |
| `CopyFiles.NewNameEndsWithName` | copy_files.py:42 | the destination name always ends with the original base name |
| `CopyFiles.NewNameSameDirInjective` | copy_files.py:42 | two files in the same directory get the same destination name if and only if their base names are equal |
| `CopyFiles.NewNameCollidesAcrossDirectories` | copy_files.py:42 | the rule is not injective across directories: `a/b_c.md` and `a_b/c.md` both become `a_b_c.md` |
| `CopyFiles.NewNameInjectiveWithoutSeparator` | copy_files.py:42 | when no directory component and no base name contains `_`, two paths get the same destination name if and only if they are the same path |
| `CopyFiles.CountSelectedIsNumberSelected` | copy_files.py:33-50 | the number of copies the pass makes equals the number of traversal positions holding a file that passes the selector |
| `CopyFiles.AfterCopiesKeys` | copy_files.py:36-49 | the destination's names afterwards are exactly its names before plus the flattened name of every selected entry; directories and rejected files add no name |
| `CopyFiles.AfterCopiesUntargeted` | copy_files.py:43-49 | a destination name that no selected entry targets keeps its old content, or stays absent |
| `CopyFiles.AfterCopiesLastWins` | copy_files.py:43-49 | on a collision the later entry in traversal order wins: a selected entry that no later selected entry collides with leaves its own content under its name |
| `CopyFiles.AfterCopiesTargetedAgree` | copy_files.py:43-49 | the content under a targeted name does not depend on what the destination held before the pass |
| `CopyFiles.AfterCopiesIdempotent` | copy_files.py:36-49 | running the pass again over a destination it already produced leaves the destination unchanged |
| `CopyFiles.TargetsOrderFree` | copy_files.py:36-42 | the set of destination names depends only on which entries the traversal visits, not on their order |
| `CopyFiles.TargetsAtMostCount` | copy_files.py:36-50 | the number of distinct destination names written is at most the returned count |
| `CopyFiles.TargetsCountWithoutCollisions` | copy_files.py:36-50 | when no two selected entries share a destination name, the number of distinct names written equals the count |
| `CopyFiles.DefaultSelectorExample` | copy_files.py:36-50 | with the default selector, `readme.md`, `spec.rst` and `image.png` at the root yield count 2 and exactly the files `readme.md` and `spec.rst` |
| `CopyFiles.Destination.EnsurePresent` | copy_files.py:29-31 | after the call the destination exists and its files are unchanged |
| `CopyFiles.Destination.Write` | copy_files.py:49 | a copy updates one key, `files[name := content]`, replacing any earlier file of that name; nothing else changes |
| `CopyFiles.CopyFilesWithHierarchy` | copy_files.py:26-57 | the destination exists afterwards. With no interrupt, the result is the number of selected entries and the files are the old files updated by each selected entry in traversal order. With an interrupt at position `k <= |src|` (including `|src|`, after the last entry), the result is 0 and the files are those of the first `k` entries' copies |

## Left out

- Real file-system effects are abstract. The traversal is a given sequence of entries. Byte contents stand in for `shutil.copy2`. The mode and modification time that `shutil.copy2` also copies are not modelled.
- The ordering of `Path.rglob` is not modelled. Any order is allowed; the names produced do not depend on it (`TargetsOrderFree`), though the content kept on a collision does.
- The traversal is fixed before the pass starts. So a destination directory inside the source tree, whose new files `rglob` could visit, is not modelled.
- Errors raised by `mkdir` or `shutil.copy2` are not modelled. These include permission denied and a source file that vanished. The code lets them propagate.
- The destination is modelled as holding files only. A subdirectory already in the destination whose name equals a flattened name receives the copy inside it, as `<name>/<base name>`; `shutil.copy2` raises nothing then and the count still goes up.
- A `KeyboardInterrupt` can only arrive between entries or after the last one. An interrupt in the middle of one copy, such as between `shutil.copy2` and the count increment, is not modelled.
- Logging is left out. It has no effect on the result.
- The `argparse` entry point `main` (`copy_files.py:59-77`) is left out. It only passes its two arguments to the copy pass with the default selector.
- `chat_agent.py` and `mcp_tool.py` are not part of this model. They are glue over third-party services.
