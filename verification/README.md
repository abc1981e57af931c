# Selective file mover, modelled in Dafny

The model covers `move_files.py`, a script that scans one directory and moves
selected files into a destination directory. It has two parts:

- `contains_string`, the content predicate. It tells whether a file's text
  holds the search string. A file that cannot be read counts as a non-match,
  and the failure is reported.
- `move_files`. It first checks that the destination exists and raises if it
  does not. It then makes one pass over the source listing. Directories are
  skipped. Every other entry goes through an if / elif. The content branch
  fires when the search string is truthy, the name ends with `.md` and the
  contents hold the string. Otherwise the type branch fires when the type
  string is truthy and the name ends with it. A selected file is moved into
  the destination under the same name, and `Moved: <name>` is printed.

Files:

- `options.dfy`: `Option`.
- `strings.dfy`: Python's `str.endswith` and `in`. Each comes with an
  index-based reference definition and a lemma that relates the two.
- `decision.dfy`: the content predicate, Python truthiness of the criteria,
  and the per-file if / elif.
- `mover.dfy`: directory entries, the scan loop `MoveFiles`, and a
  declarative statement `Run` of what a call does. `Run` says that a call
  keeps `Kept(source)`, adds `SelectedFiles(source)` to the destination, and
  prints `ScanLog(listing)`. The file also holds the lemmas about the log and
  about running twice.

Modelling choices:

- A directory is a `map<string, Entry>`, where `Entry = Dir | File(contents)`.
  The contents are `Option<string>`: the text exactly as `read()` returns it
  in text mode, or `None` for a read or UTF-8 decoding failure.
- The listing from `os.listdir` is a parameter. It holds every name of the
  source once, in an order the model does not fix.
- Whether the destination exists is a boolean parameter.
- The console output is a sequence of `LogLine`s. `Moved(name)` is the
  `Moved:` line. `ReadError(name)` is the report of a failed read. The text of
  that report is not modelled.
- A criterion is `Option<string>`. `None` is the argument left at its default.
  Both `None` and `Some("")` are falsy, as in Python. So an empty type string
  disables the type branch, even though every name ends with `""`.
- A move into the destination overwrites an entry of the same name there.
  This follows the move call on POSIX systems and is taken as an assumption.

Two corners of the code are easy to misread. First, a failed read makes
`contains_string` return False (move_files.py:16-18). The `elif` at
move_files.py:48 is then still tried, so an unreadable `.md` file is moved
when its name ends with the type string
(`Decision.UnreadableMarkdownMovedByType`). Second, the docstring at
move_files.py:26-27 says a criterion is ignored when it is None. The guards at
move_files.py:43 and 48 test truthiness, so an empty string is ignored too
(`Decision.EmptyCriteriaDisableBranches`).

## Model

| member | source | states |
|---|---|---|
| Strings.Contains | move_files.py:15 | Python's `needle in text` is true exactly when the needle occurs at some index of the text |
| Strings.EndsWithIsTail | move_files.py:43-48 | the `endswith` test holds exactly when the suffix is some tail of the name; it is a plain suffix match, not an extension parse |
| Strings.EveryNameEndsWithEmpty | move_files.py:48 | every name ends with the empty string, so an empty type string would select every file if truthiness did not guard it |
| Decision.ContainsString | move_files.py:13-18 | the content predicate holds exactly when the file was readable and the search string occurs in its text; a read failure always gives false |
| Decision.DecisionRule | move_files.py:43-50 | the content branch fires iff the search string is non-empty, the name has the `.md` tail and the readable contents hold the string; otherwise the type branch fires iff the type string is non-empty and is a tail of the name; the branches exclude each other |
| Decision.MarkdownWithoutMatchFallsThrough | move_files.py:43-48 | an unreadable file, or one lacking the search string, is never taken by the content branch and is decided by the type branch on its name alone |
| Decision.UnreadableMarkdownMovedByType | move_files.py:16-49 | an unreadable `.md` file is still moved by the type branch when the type string is `.md` |
| Decision.EmptyCriteriaDisableBranches | move_files.py:43-48 | an absent or empty search string disables the content branch, and an absent or empty type string disables the type branch |
| Decision.NonMarkdownIgnoresContents | move_files.py:43 | for a name without the `.md` tail the decision does not depend on the contents, and the content branch never fires |
| Mover.MoveFiles | move_files.py:20-50 | with the destination missing, the call fails before any move and both directories and the log are unchanged; otherwise it completes with the source reduced to the kept entries, the selected files added to the destination, and the log of the listing in listing order |
| Mover.ConsiderEntry | move_files.py:38-50 | one listed entry is moved iff it is a regular file the content or type branch selects; a directory produces no output; a `.md` file the content check could not read produces a read-failure line |
| Mover.CompletedRunFrame | move_files.py:38-50 | after a completed run directories are still in the source unchanged; each selected file has left the source and is in the destination under its name with its entry; unselected files stay unchanged; destination entries not overwritten stay; no other names appear |
| Mover.LogNamesSelected | move_files.py:17-50 | a `Moved` line appears exactly for the selected listed files, and a read-failure line exactly for the listed `.md` files the content check could not read |
| Mover.MovedLoggedOnce | move_files.py:34-50 | over a listing without repeats, each selected file is logged as moved exactly once and every other name never |
| Mover.KeptIsStable | move_files.py:43-50 | nothing a scan leaves in the source is selected again by the same criteria |
| Mover.SecondRunMovesNothing | move_files.py:34-50 | a second completed run with the same criteria on the resulting directories changes neither directory and logs no move |
| Mover.ScanPartitionsSource | move_files.py:43-50 | every source entry either stays or is moved, never both, and nothing else is involved |
| Mover.NoCriteriaMovesNothing | move_files.py:43-48 | with both criteria absent or empty a completed run leaves both directories as they were |
| Mover.ThreeFileScan | move_files.py:20-50 | a three-file scan: `a.md` holding "TODO", `b.md` without it and `c.txt`, searched for "TODO" with type ".txt", leave only `b.md` in the source and move `a.md` and `c.txt`, logging both in listing order |

## Left out

- The command-line entry point (move_files.py:52-61): argument parsing and the default source computed from the script's own path are process plumbing.
- Reading files and UTF-8 decoding: contents are given as `Option<string>`, with `None` for any failure.
- Newline translation by text-mode `read()` (move_files.py:14): "\r\n" and "\r" become "\n" before the search, so a search string holding "\r" never matches in the code. The model takes the already-translated text as given and does not perform or constrain the translation.
- File names that are not valid Unicode: `os.listdir` returns undecodable bytes as lone surrogates, which a Dafny `string` of Unicode scalar values cannot hold. Such names are outside the model.
- The text of the read-failure message (move_files.py:17): only which file it names is modelled.
- The order of `os.listdir`: the listing is any order of the source's names, and nothing depends on it except the order of the log.
- A missing or unreadable source directory, which makes `os.listdir` raise: the source is always a map.
- Destination existence is one boolean. The difference between `os.path.exists` and a directory is not modelled: a plain file at the destination path passes the check in the code.
- Mover.MoveFiles: does not model the move call's platform behaviour. That covers cross-device copy-and-delete, a move failure that aborts the rest of the scan, and a destination name that is an existing directory, which makes the call move the file inside it. A move is a map update that overwrites.
- Source and destination are two separate maps. Aliasing is not modelled: the same directory given twice, or a destination inside the source, which the scan sees only as a skipped directory entry.
- Symbolic links: an entry is a directory or a regular file, as `os.path.isdir` classifies it.
- Changes to either directory by other processes during the scan.
