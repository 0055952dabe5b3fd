# Repository path resolver, modelled in Dafny

This project models `Repository`, the path resolver of a small version-control tool. A repository is a working-tree root plus a control directory `<root>/.git`. The resolver turns repository-relative names into paths by joining them onto the control directory. It has two read-only probes: `file` needs the parent of the joined path to exist, and `dir` needs the joined path to be a directory. `mkdir` normalises the joined path and then creates it, together with every missing ancestor.

The model has three modules:

- `Paths` (`paths.dfy`) writes out the Rust `std::path` behaviour that the resolver depends on, on a Unix target. A path is its raw text, a `string`.
  - `Join` is `Path::join`: an absolute argument replaces the base, and otherwise a `/` is inserted only where one is needed.
  - `Split` and `Components` are `Path::components`. Empty segments and `.` after the start are dropped. A leading `.` is kept as `CurDir`, and `..` is kept as `ParentDir`.
  - `Parent` is `Path::parent`, taken as the component sequence of the parent.
  - `Rebuild` is the normalisation that `mkdir` performs: a left fold of `join` over the components, from an empty path.
- `Fs` (`filesystem.dfy`) is an abstract filesystem: a map from locations to `Dir` or `File`.
  - A location is a component sequence without a leading `.`. The working directory and `/` always exist as directories. The empty path names nothing.
  - `Tree` is the invariant that every entry's parent is a root or a directory.
  - `Exists`, `IsDir` and `IsFile` model `Path::exists`, `Path::is_dir` and a file check.
  - The class `FileSystem` holds the mutable map. Its method `CreateDirAll` is `std::fs::create_dir_all`. It is proved against the specification function `Created`, which adds the missing directories one prefix at a time.
- `Repo` (`repository.dfy`) is the resolver itself: `New`, and the `Repository` members `Path`, `File`, `Dir` and `Mkdir`. Beside them are the lemmas that connect the probes to `mkdir`.

Normalisation does not collapse `..`: `Path::components` keeps it as `ParentDir`, and so does the model. The model therefore claims containment only for relative names without `..` (`PathInsideControlDir`). An absolute name is not contained at all: it replaces the control directory (`Path`'s postcondition `IsAbsolute(name) ==> p == name`, with the instance `AbsoluteNameReplaces`).

## Model

| member | source | states |
|---|---|---|
| `Repo.New` | src/repository.rs:11-17 | the working tree is the given root and the value is consistent (its control directory is the root joined with `.git`); the control directory's components are the root's followed by exactly `.git`, so it is a direct child of the root; the control directory path is never empty and never ends in a separator; no filesystem access, no failure |
| `Repo.ControlDirComponents` | src/repository.rs:13 | joining `.git` onto any root, empty or ending in `/` included, appends the single component `.git` |
| `Repo.ControlDirLocation` | src/repository.rs:13 | the control directory's location ends in `.git` and is never the filesystem root or the working directory |
| `Repo.Repository.Path` | src/repository.rs:40-42 | an absolute name replaces the control directory; a relative name gives the control directory's components followed by the name's own components, a leading `.` dropped |
| `Repo.PathInsideControlDir` | src/repository.rs:40-42 | for a relative name without `..`, the control directory's location is a prefix of the result's location and every component after it is a plain name |
| `Repo.AbsoluteNameReplaces` | src/repository.rs:40-42 | an absolute name replaces the control directory: `path("/etc")` is `/etc` for every root, an instance of `Path`'s first postcondition |
| `Repo.DescriptionPath` | src/repository.rs:79-83 | for a root with no trailing separator, `path("description")` is exactly `<root>/.git/description` |
| `Repo.Repository.File` | src/repository.rs:20-27 | returns the joined path, and only that path; it returns something exactly when the joined path has a last component that is not the root and the place named by all the others exists; it reads the filesystem and never changes it |
| `Repo.FileReadiness` | src/repository.rs:20-27 | for a plain name, `file` is decided by the control directory alone: the joined path when the control directory exists, nothing when it does not |
| `Repo.FileAfterMkdirDot` | src/repository.rs:72-87 | on a fresh working tree (an existing directory without `.git`), `mkdir(".")` succeeds, and afterwards `file` returns the joined path for every plain name |
| `Repo.Repository.Dir` | src/repository.rs:29-38 | returns the joined path, and only that path; it returns something exactly when that path is a directory; it returns nothing exactly when the path is absent or is a file; it never changes the filesystem |
| `Repo.DirAfterMkdir` | src/repository.rs:29-53 | after a successful `mkdir(n)`, `dir(n)` returns the joined path |
| `Repo.MkdirOnExistingDir` | src/repository.rs:44-53 | when `dir(n)` already finds a directory, `mkdir(n)` succeeds and leaves the filesystem exactly as it was |
| `Repo.Repository.MkdirTarget` | src/repository.rs:45-50 | the location `mkdir` creates, taken from the normalised path, is the location of the joined path itself |
| `Repo.Normalize` | src/repository.rs:45-49 | the component-by-component fold returns the normalised path, and that path has the same components as its input |
| `Repo.Repository.Mkdir` | src/repository.rs:44-53 | succeeds exactly when no prefix of the target's location, the target included, is an existing file; on success the new state is `Created` of the old one; on failure nothing changes and the error carries the normalised path; the filesystem stays a tree |
| `Repo.MkdirDotIsControlDir` | src/repository.rs:45-49 | `mkdir(".")` targets the control directory itself, because the trailing `.` is dropped |
| `Repo.ControlDirAfterMkdirDot` | src/repository.rs:62-70 | on a fresh working tree, `mkdir(".")` succeeds, and afterwards `<root>/.git` is a directory |
| `Repo.MkdirDotSucceedsOnFreshRoot` | src/repository.rs:44-53 | on a fresh working tree (the root is a directory, `.git` is absent), no prefix of the target of `mkdir(".")` is a file, so the call succeeds |
| `Repo.MkdirTwice` | src/repository.rs:50-52 | a second `mkdir` of the same name succeeds whenever the first did and leaves the state the first produced; if the first failed, the second fails too and nothing changed |
| `Paths.JoinText` | src/repository.rs:13 | `join` as text: an absolute argument is the result; otherwise the result is the base, at most one separator, then the argument |
| `Paths.JoinComponents` | src/repository.rs:41 | joining a relative name onto a non-empty base appends the name's components, without a leading `.`, to the base's components |
| `Paths.ComponentsWellFormed` | src/repository.rs:48 | `components` yields a root or a `.` only in front, then plain names and `..`; it starts with the root exactly when the path is absolute |
| `Paths.ParentOfJoin` | src/repository.rs:22 | the parent of a plain name joined onto a non-empty base is the base |
| `Paths.RebuildComponents` | src/repository.rs:45-49 | rebuilding a well-formed component sequence and reading it back gives the same sequence |
| `Paths.NormalizedComponents` | src/repository.rs:45-49 | normalisation keeps the path's components, `..` included |
| `Paths.NormalizedIdempotent` | src/repository.rs:45-49 | normalising a normalised path changes nothing |
| `Paths.NormalizedTidy` | src/repository.rs:45-49 | a normalised path has no empty segment and no `.` segment after its first, and no trailing separator unless it is `/` |
| `Paths.SplitUnsplit` | src/repository.rs:48 | a check of `Split`, the splitting behind `components`: splitting separator-joined segments gives back the segments |
| `Paths.UnsplitSplit` | src/repository.rs:48 | a check of `Split`: joining the split segments with separators gives back the path, so no text is lost |
| `Fs.FileSystem.CreateDirAll` | src/repository.rs:50-51 | succeeds exactly when no prefix of the location is a file; on success the state is `Created` of the old; on failure it is unchanged; the tree invariant is kept |
| `Fs.FileSystem.CreateChain` | src/repository.rs:50-51 | the creation loop over a location, outermost prefix first: the same outcome and new state as `CreateDirAll`, stated on the location |
| `Fs.FileSystem.Visit` | src/repository.rs:50-51 | one step of the creation: a file on the way stops it with the filesystem as it was before the first step; otherwise the prefix is a directory afterwards and the state is the specification's state one step further |
| `Fs.CreatedShape` | src/repository.rs:50-51 | after `create_dir_all`, existing entries keep their kind; every new entry is a directory on a non-root prefix of the target; when nothing on the chain is a file, every non-root prefix, the target included, is a directory |
| `Fs.CreatedTarget` | src/repository.rs:50-51 | after a successful `create_dir_all`, the target itself is a directory (or a root) |
| `Fs.AddDirsCovers` | src/repository.rs:50-51 | every prefix the creation has dealt with is present afterwards, and is a directory when none of them was a file |
| `Fs.CreatedIdempotent` | src/repository.rs:50-52 | after a successful creation the chain is still clear, and creating again yields the identical state |
| `Fs.CreateExistingDir` | src/repository.rs:50-52 | in a tree, creating a location that already is a directory succeeds and changes nothing |
| `Fs.BlockedChainExists` | src/repository.rs:50-51 | in a tree, when the next prefix is a file the creation fails (the chain is not clear), and every shorter prefix is already a directory, so the failed attempt made nothing |
| `Fs.AncestorsAreDirs` | src/repository.rs:22-23 | in a tree, every non-root ancestor of an entry is a directory entry |
| `Fs.ProbesAgree` | src/repository.rs:23-35 | `exists` holds exactly when the path is a directory or a file, and never both |
| `Fs.ChildClear` | src/repository.rs:50-51 | in a tree, creating a missing child of a directory meets no file on the way |

## Left out

- `Command::create`, the initializer that lays out `branches`, `objects`, `refs/heads`, `refs/tags` and the seed files: src/command.rs is not part of this model.
- src/main.rs, the command-line parsing and dispatch, is not modelled.
- src/testutil.rs is not modelled. It creates temporary directories with random names, catches panics and cleans up. The two tests in src/repository.rs are instead stated as lemmas over any fresh working tree, that is, any filesystem where the root is a directory and `.git` is absent: `ControlDirAfterMkdirDot` and `FileAfterMkdirDot`. `DescriptionPath` covers any root without a trailing separator.
- Repo.Repository.Mkdir: real operating-system failures are not modelled. A denied permission or a full disk cannot happen in the abstract filesystem, so `mkdir` fails only when an existing file stands on the way. The `anyhow` context message is reduced to the path it names.
- Repo.Repository.Mkdir: Rust's `create_dir_all` works bottom-up. It tries the target, then recurses to the parent on "not found". The model creates the missing prefixes top-down. Under the tree invariant, the final state and the error cases are the same.
- Fs.Exists: the filesystem identifies places lexically. `..` is an ordinary step, not a move to the parent directory. Symbolic links and canonicalisation are not modelled.
- Repo.Repository.File: `Path::parent` returns a slice of the original text. The model keeps only the slice's components, the only thing `exists` looks at.
- Unicode conversion (`to_str`) is left out. The source's test compares strings; the model's paths are strings already.
- Repo.Repository: the datatype's constructor is public, while the Rust fields are private and only `new` builds a value. `Consistent` says what `new` guarantees. `Path`, `File`, `Dir`, `Mkdir` and `MkdirTwice` are proved for every value, consistent or not.
- Windows path prefixes and verbatim paths are left out. The model is the Unix behaviour of `std::path`.
