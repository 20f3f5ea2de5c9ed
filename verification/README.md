# smart-alias `gen-aliases.py` in Dafny

A model of the alias generator in `gen-aliases.py`. The program walks a
directory tree and writes one shell line `alias <name>="cd <path>"` per
directory it keeps. Directories that share a base name are settled by a
"preferred" regular expression matched against their full paths.

The model has two halves, as the program does.

- **Collector** (`walk.dfy`). The filesystem is a finite rose tree
  `Entry = File(name, path) | Folder(name, path, entries)`, whose entries
  keep the directory listing's order. `Walk` is `gen_aliases`: a pre-order
  walk producing one `Candidate(name, path, numDirectories, level)` per
  folder, root first. `Collect` adds the error the directory listing raises
  when the root is a plain file.
- **Writer** (`candidate.dfy`, `resolve.dfy`, `writer.dfy`). `Resolve` is the
  meaning of `write_aliases`. It gives the candidates whose line is written,
  in output order, and `Render` turns them into the file's lines. The
  methods `Tally`, `WritesLine` and `WriteAliases` follow the program's own
  loops: the name tally, the skip of empty and dot names, the unique case,
  and the scan of the same-name group that stops at the first preferred
  member. `Tally` is proved to count each name as `CountName` does,
  `WritesLine` to decide each line as `Emits` does, and `WriteAliases` to
  produce exactly `Render(Resolve(..))`.
  `Run` chains the walk from level 1 into the writer, as `main` does.

The regular-expression engine is not modelled. Its verdict is the
parameter `rx: (string, string) -> bool` (pattern, path), and the model only
uses how the writer consumes that verdict.

The writer's statements are about emitted candidates, not about raw text.
Directory names may contain `=` and `"`, so two different candidates can
in principle produce the same line. A given name still fixes the path its
line changes into (`LineDeterminesPath`).

On an ambiguous name the writer follows the code as written. Once any
member of the same-name group has a preferred path, the line written on
each visit is the line of the candidate being visited, not the line of the
member that matched. So every member of the group gets its line, and a
group with no preferred member gets none. A reader might expect that with
pattern `^/r/lib$` only the top-level `lib` is written. The code writes
`/r/vendor/lib` as well. `Scenarios.LibTreeRun` proves the
code's behaviour on exactly that tree.

## Model

| member | source | states |
|---|---|---|
| `Candidates.LineFields` | gen-aliases.py:59-60 | a line is `alias `, the name, `="cd `, the path, then a closing quote and newline, at fixed offsets |
| `Candidates.LineDeterminesPath` | gen-aliases.py:59-60 | two candidates with the same name and the same line have the same path |
| `Candidates.GroupMembers` | gen-aliases.py:111 | the same-name group holds exactly the candidates that carry the name |
| `Candidates.GroupSize` | gen-aliases.py:95-102 | the same-name group is as long as the tally of its name |
| `Candidates.GroupOfUnique` | gen-aliases.py:108-111 | a name tallied once has the one candidate carrying it as its whole group |
| `Collector.Collect` | gen-aliases.py:72-91 | a file root fails with NotADirectory; a folder root gives one candidate per folder, the root first with the caller's level and its directory count |
| `Collector.WalkSize` | gen-aliases.py:84-91 | the walk yields exactly as many candidates as the tree has folders, root included |
| `Collector.WalkLevels` | gen-aliases.py:84-91 | the root is first at the start level; every later candidate is strictly deeper; no candidate is deeper than the tree; each step descends at most one level |
| `Collector.WalkChildBlock` | gen-aliases.py:84-91 | the walk of the `k`-th entry, when it is a directory, sits one level deeper as one contiguous block, right after the root and the blocks of the directories listed before it |
| `Collector.WalkBlocks` | gen-aliases.py:81-91 | every folder `t` levels below the root is walked at the start level plus `t`, as one contiguous block of the root's walk (pre-order) |
| `Collector.ContainsAtSomeDepth` | gen-aliases.py:88-91 | a folder lies in the tree (as `WalkSound` and `WalkComplete` read it) exactly when it lies some number of levels below the root (as `WalkBlocks` reads it) |
| `Collector.WalkChildren` | gen-aliases.py:81-91 | exactly one candidate sits at the start level, and the root's directory count equals the number of candidates one level below it |
| `Collector.WalkSound` | gen-aliases.py:81-84 | every candidate has the name, path and directory-entry count of some folder in the tree |
| `Collector.WalkComplete` | gen-aliases.py:88-91 | every folder in the tree is recorded by some candidate |
| `Resolver.ScanFrom` | gen-aliases.py:113-118 | the group scan stops at the first member with a non-empty name and a matching path; finding nothing means no member has both |
| `Resolver.EmitsIff` | gen-aliases.py:104-118 | a name gets lines if and only if it is non-empty, has no leading dot, and is either unique or carried by some candidate whose path matches |
| `Resolver.EmittedGroup` | gen-aliases.py:104-118 | for each name, the output holds either all candidates of that name, in order, or none |
| `Resolver.ResolveInOrder` | gen-aliases.py:104-118 | output lines come from candidates in sequence order, at most one per candidate, so there are never more lines than candidates |
| `Resolver.ResolveSkipsHidden` | gen-aliases.py:105-107 | no empty or dot name ever appears in the output; every emitted candidate is one of the inputs |
| `Resolver.ResolveUnique` | gen-aliases.py:108-109 | a visible candidate with a unique name is the only emitted candidate of that name, and its line appears in the output |
| `Resolver.ResolveAmbiguous` | gen-aliases.py:110-118 | for a visible name carried several times: if some carrier's path matches, all carriers are emitted (count lines); if none matches, zero lines |
| `Resolver.ResolveMatchAll` | gen-aliases.py:104-118 | with a pattern that matches the path of every candidate, the output is exactly the visible candidates in order |
| `Writer.Tally` | gen-aliases.py:95-102 | the counter's keys are exactly the names present, each mapped to its number of candidates (at least 1) |
| `Writer.WritesLine` | gen-aliases.py:104-118 | one loop iteration writes the current candidate's line exactly when the name-level decision says so |
| `Writer.WriteAliases` | gen-aliases.py:94-118 | the imperative writer produces exactly the lines of the resolved candidates |
| `Writer.Run` | gen-aliases.py:141-144 | walk from level 1 then write: fails only on a file root, never writes more lines than the tree has folders |
| `Scenarios.NestedTreeRun` | gen-aliases.py:84-109 | on `/r` holding `a/x` and `b`, the lines are for r, a, x, b in walk order |
| `Scenarios.LibTreeRun` | gen-aliases.py:110-118 | on `/r` holding `lib` and `vendor/lib`, with only `/r/lib` matching, both `lib` directories get their line |
| `Scenarios.LibTreeDefaultPattern` | gen-aliases.py:113-125 | under the verdict of the default pattern `.` (any non-empty string whose first character is not a newline), both `lib` directories and every other directory of the tree keep their line |
| `Scenarios.DotTreeRun` | gen-aliases.py:105-107 | on `/r` holding `.git` and a file, the output is the single line `alias r="cd /r"` |
| `Scenarios.FileRootFails` | gen-aliases.py:81 | a root that is a plain file fails with NotADirectory |

## Left out

- Logging (`create_logger`, every `logger.debug` and `logger.warning`): it only observes and does not change the output.
- Command-line handling (`getopt`, `print_help`, `sys.exit`, the `-d`/`-p` defaults of `.`): this is argument plumbing. `Run` takes the root and pattern directly.
- Real filesystem calls (`os.listdir`, `os.path.isdir`, `os.path.join`, `os.path.basename`). The tree carries each folder's name and path as given. The model does not check that a name is the basename of its path or that a child's path joins its parent's.
- `gen_aliases` lists the directory twice, once to count directories and once to recurse. The model assumes both listings agree.
- Filesystem errors other than a file root (missing or unreadable root, an entry vanishing mid-walk): the abstract tree always exists.
- Symlink cycles and unbounded recursion: the tree is finite by construction.
- The regular-expression engine (`re.match` with `re.M | re.I`), including invalid-pattern errors. The `rx` parameter stands for its verdict.
- The `aliases.sh` file handle and I/O errors while writing: the output is a sequence of strings.
- The `num_directories` field is not used by the writer. Its meaning is covered by `WalkSound` and `WalkChildren`.
- Start level: like the source, the walk accepts any integer start level. It is not limited to the positive levels that `main` uses.
