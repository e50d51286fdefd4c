# gosvc generator core, modelled in Dafny

`gosvc -init <module path>` scaffolds a Go microservice. It takes the last
element of the module path as the folder name. From that folder name it derives
the exported identifier `Service` and the unexported identifier `service`.
It then copies the embedded `resources` tree into the folder, rendering
every file as a `text/template` with `{Service, Module, service}` as data.

This project models the part of `cmd/gosvc/main.go` that does this:

- the usage check on the trimmed `-init` value;
- `ProcessServiceName`;
- `WalkAndCreate`.

It proves what these promise about their results.

| file | module | models |
|---|---|---|
| `results.dfy` | `Results` | `Option` and `Result`, used in place of Go's `error` returns |
| `gostrings.dfy` | `GoStrings` | the parts of `strings`, `path/filepath` and `regexp` the code uses: `TrimSpace`, `Replace`, `Split`, `filepath.Split`, the `[^\w]` filter |
| `servicename.dfy` | `ServiceName` | `ProcessServiceName`, and a one-pass reference scan that it is proved equal to |
| `walk.dfy` | `Materialize` | `WalkAndCreate`, the plan of steps it carries out (listings and file leaves, depth first), and the proofs that it follows that plan and stops at the first failing step |
| `cli.dfy` | `Cli` | `main` from the `-init` check through the walk |

Outside effects are parameters:

- The embedded file system is a tree of `Node`s, listed in `ReadDir` order.
- Whether each file-system call succeeds is a predicate `ok: Op -> bool` over the call.
- The template engine is a function from the template name, its bytes and the data map to `Output(bytes)`, `ParseFailed` or `ExecuteFailed`.
- The walk returns the effects it made (`Made(dir)`, `Wrote(path, bytes)`) and the error that stopped it, if any.

Facts about the code that the model keeps:

- The code extracts no owner or account name from the module path.
- The code does not reject a module path that starts with `.` or `/`.
- `service` is the only entry name the code renames.
- The code renders every file as a template, whether or not its name ends in `.tmpl`.
- The code deletes `.tmpl` everywhere in the joined destination path of a file, not only in its name. A directory's own path keeps `.tmpl`, but the directories the walk creates are the parents of files after the deletion. So a source directory `x.tmpl` holding a file appears on disk as `x`. `FileDest` and `FileDestInDirectory` state which part of the path is affected.
- The code does not report an empty exported name. It slices `serviceName[0:1]`, which panics. The model turns that panic into `Failure(EmptyExportedName)` and `NamePanic`.

## Model

| member | source | states |
|---|---|---|
| GoStrings.TrimSpaceParts | cmd/gosvc/main.go:106 | the input is white space, then the trimmed string, then white space: only the two ends are removed, and only white space |
| GoStrings.TrimSpace | cmd/gosvc/main.go:106 | `strings.TrimSpace`: the result neither starts nor ends with white space (Go's `unicode.IsSpace` set); with `TrimSpaceParts` this fixes it as the input minus white space at both ends |
| GoStrings.TrimSpaceEmpty | cmd/gosvc/main.go:160-161 | the trimmed value is empty exactly when the input is all white space |
| GoStrings.TrimSpaceIdempotent | cmd/gosvc/main.go:106 | trimming an already trimmed string changes nothing |
| GoStrings.Split | cmd/gosvc/main.go:110 | `strings.Split` yields at least one piece and no piece contains the separator |
| GoStrings.JoinSplit | cmd/gosvc/main.go:110 | joining the pieces with the separator gives back the split string |
| GoStrings.SplitJoin | cmd/gosvc/main.go:110 | splitting undoes joining for one or more separator-free pieces |
| GoStrings.ReplaceChar | cmd/gosvc/main.go:107-108 | `strings.Replace` of one character by another keeps the length and changes exactly the matching positions |
| GoStrings.SplitPath | cmd/gosvc/main.go:102 | `filepath.Split`: directory and file concatenate to the path, the file part holds no `/`, the directory part is empty or ends in `/` |
| GoStrings.SplitPathUnique | cmd/gosvc/main.go:102 | those three properties determine the split completely |
| GoStrings.KeepFacts | cmd/gosvc/main.go:121 | the `[^\w]` filter keeps only word characters, each taken from the input, and keeps an all-word input whole |
| GoStrings.StripNonWord | cmd/gosvc/main.go:121 | the `[^\w]` deletion keeps only characters of `[0-9A-Za-z_]`, each taken from the input, and keeps an input made only of them whole |
| GoStrings.DeleteAll | cmd/gosvc/main.go:59 | `strings.Replace(path, ".tmpl", "", -1)`: a path holding `.tmpl` gets strictly shorter, and a path without it is left unchanged |
| GoStrings.DeleteAllFirst | cmd/gosvc/main.go:59 | which characters go: everything before the leftmost occurrence of the pattern is kept, that occurrence is deleted and deletion resumes right after it; with the unchanged case of `DeleteAll` this fixes the result on every input |
| GoStrings.OccursSomewhere | cmd/gosvc/main.go:59 | the left-to-right search for the pattern finds it exactly when it occurs at some index |
| GoStrings.DeleteAllAround | cmd/gosvc/main.go:59 | no deleted occurrence spans a character that is not in the pattern, so the parts on either side are handled separately |
| ServiceName.FolderName | cmd/gosvc/main.go:102-103 | the folder name is the suffix of the module path after its last `/`, and holds no `/` |
| ServiceName.Derive | cmd/gosvc/main.go:101-130 | the derivation fails exactly when the folder name has no ASCII letter or digit. Otherwise `Module` is the unchanged module path, the folder is the last path element, `Service` is `ExportedName` of the folder, non-empty and all ASCII alphanumeric, and up to letter case it is exactly the folder's ASCII letters and digits in order. `service` has the same length and tail as `Service` and a lower-cased first character |
| ServiceName.UnexportedName | cmd/gosvc/main.go:123 | the unexported name has the length and characters of the exported one from index 1 on, and a first character that is lower-cased and not upper case |
| ServiceName.UnexportedRoundTrip | cmd/gosvc/main.go:123 | upper-casing the first character of the unexported name gives back an exported name that did not start with a lower-case letter |
| ServiceName.ExportedNameIsScan | cmd/gosvc/main.go:104-121 | `ExportedName`, the step-by-step computation of `Service`, equals one left-to-right scan of the trimmed folder name: separators dropped, the first character and every character after a separator title-cased, non-word characters removed |
| ServiceName.PiecesAreCamel | cmd/gosvc/main.go:110-119 | splitting on `-`, title-casing each piece and concatenating equals the scan |
| ServiceName.CamelIgnoresDashing | cmd/gosvc/main.go:107-108 | turning `.` and `_` into `-` does not change the scan, so all three act as separators |
| ServiceName.TitleBeforeTrimIsRedundant | cmd/gosvc/main.go:104-106 | title-casing the whole name before the trim adds nothing to the title-casing of each piece |
| ServiceName.CamelWord | cmd/gosvc/main.go:114-116 | a piece without separators is title-cased and otherwise kept verbatim |
| ServiceName.CamelThroughSeparator | cmd/gosvc/main.go:110-117 | a separator splits the name into pieces that are title-cased independently and concatenated in order |
| ServiceName.CamelDropsSeparators | cmd/gosvc/main.go:110-117 | no separator survives the split and concatenation |
| ServiceName.ConsecutiveSeparators | cmd/gosvc/main.go:107-119 | a run of two separators gives the same exported name as one separator |
| ServiceName.ExportedNameIsAlnum | cmd/gosvc/main.go:121 | every character of the exported name is an ASCII letter or digit |
| ServiceName.ExportedIsFoldedAlnum | cmd/gosvc/main.go:104-121 | ignoring letter case, `ExportedName` of a folder consists of exactly the ASCII letters and digits of the folder name, in order, and it is empty exactly when there are none |
| ServiceName.ExampleModulePath | cmd/gosvc/main.go:101-130 | `github.com/acme/my-cool_service` gives folder `my-cool_service`, `Service` = `MyCoolService`, `service` = `myCoolService` and the module path unchanged |
| ServiceName.ExampleSeparatorsOnly | cmd/gosvc/main.go:121-123 | a last element of only separators, as in `github.com/acme/---`, leaves an empty exported name, so the derivation fails where the code would panic |
| Materialize.DestName | cmd/gosvc/main.go:53-56 | only an entry named `service` is renamed, and it is renamed to the folder name |
| Materialize.WalkAndCreate | cmd/gosvc/main.go:42-99 | the walk carries out its plan step by step: list the source directory, then each entry in listing order, a file by creating it and a directory by walking it depth first. A failed listing of the source stops it at once with a read-dir error and no effects. It succeeds exactly when no step fails, and then its effects are the whole planned trace. Otherwise it stops at the first failing step: the error is that step's first failing call (a listing, or a file's read, parent directory, parse, execution or write, in that order), and the effects are the trace of every file planned before that step, plus the parent directory when the failing file got that far |
| Materialize.CreateFile | cmd/gosvc/main.go:57-91 | a file is read, its parent directory made when the path has one, rendered with the shared data and written, in that order. It succeeds exactly when all of these calls succeed, and then it has made the parent and written the engine's output. Otherwise the error is the first call that failed, and the parent directory is the only effect, present exactly when the failure came after making it |
| Materialize.FirstFailing | cmd/gosvc/main.go:47-98 | the step where a walk stops: every step before it succeeds and the step itself, if any, has a call that fails |
| Materialize.WalkSucceedsExactly | cmd/gosvc/main.go:42-99 | the walk reports no error exactly when every step of its plan succeeds: every listing, and for every file its read, parent directory, parse, execution and write. Only calls the walk makes count |
| Materialize.FollowsPlanDetermines | cmd/gosvc/main.go:42-99 | the plan fixes the outcome: two outcomes that both follow the same plan are equal, so the walk's contract determines its effects and its error |
| Materialize.FollowsPlanPrefix | cmd/gosvc/main.go:42-99 | whatever the walk has done when it stops is a prefix of the trace it makes when nothing fails |
| Materialize.PlanCoversFiles | cmd/gosvc/main.go:47-96 | the plan materialises one file per file leaf of the tree, counted independently of the plan |
| Materialize.SuccessWritesEveryFile | cmd/gosvc/main.go:47-97 | a successful walk writes exactly as many files as the tree has file leaves |
| Materialize.NoFilesNoEffects | cmd/gosvc/main.go:47-96 | directories are never made for their own sake: a tree without files leaves the disk untouched |
| Materialize.MadeDirsReceiveFiles | cmd/gosvc/main.go:65-89 | every directory the walk makes gets the next file written into it, except when it is the walk's last effect after a failure |
| Materialize.TraceMadeThenWrote | cmd/gosvc/main.go:65-89 | in the planned trace, each made directory is the parent of the file written next |
| Materialize.FileDest | cmd/gosvc/main.go:52-59 | a file's destination is the destination directory and the renamed entry name, each with `.tmpl` deleted separately, joined by `/`; it is the joined path unchanged exactly when that path holds no `.tmpl` |
| Materialize.FileDestInDirectory | cmd/gosvc/main.go:52-59 | below a directory path without `.tmpl`, a file lands in that directory under its renamed name with `.tmpl` deleted |
| Materialize.ExampleFileDest | cmd/gosvc/main.go:52-59 | the template `main.go.tmpl` in directory `x` is written as `x/main.go` |
| Materialize.ExampleSinglePass | cmd/gosvc/main.go:59 | deletion is one pass: `.t.tmplmpl` becomes `.tmpl`, because the occurrence that deleting the inner `.tmpl` creates is kept |
| Cli.Run | cmd/gosvc/main.go:160-184 | a blank `-init` is rejected before any work. Otherwise a name without letters or digits is the panic. Otherwise the names are exactly those `Derive` gives for the trimmed value: the trimmed value is the module path and the non-empty folder name is the destination. The walk of `resources` into that folder, with the template data built from those names, then follows its plan: it writes every planned file when no step fails, and otherwise stops at and reports the first failing call; a failed listing of `resources` leaves the disk untouched |

## Left out

- `-version`, flag parsing, the messages printed and `os.Exit` (`main.go:153-158`, `162-164`) are not modelled. They are output and process control.
- `CommandRunner` and its `go mod tidy` / `go generate` calls are not modelled. They run external commands.
- `filepath.Abs`, `os.Chdir` and the deferred `os.RemoveAll` cleanup are not modelled. They act on the process and the real disk after the walk. The walk's outcome, which decides whether cleanup happens, is modelled.
- `internal/resources.go` is not part of this model. The embedded tree is a parameter.
- ExportedName: title-casing uses an ASCII rule. A word starts only at the start of the name and after `-`, `.` or `_`, and only an ASCII lower-case letter is upper-cased. `golang.org/x/text/cases` differs in more than letter case. It also starts words after white space and other punctuation inside the name: for `my service` Go gives `MyService` and the model gives `Myservice`. It may upper-case the first letter after leading digits (`3d`). It also maps some non-ASCII letters to ASCII ones, which the `\w` filter then keeps: `ſ` (U+017F) becomes `S` and `ß` becomes `Ss`. So for folder `ſvc` Go gives `Svc` and the model `vc`. For folder `ß` Go gives `Ss`, while `Derive` fails. The ASCII rule can therefore change which letters appear and whether the derivation fails. The model agrees with the code on folder names made only of ASCII letters and the separators `-`, `.` and `_`.
- UnexportedName: lower-cases ASCII only. This is exact, because the exported name it is applied to is all ASCII letters and digits.
- Derive: the index panic on an empty exported name is modelled as a failure value, not as a crash.
- The template engine is a parameter. `text/template` parsing and execution are not modelled, and the data map is a map of strings.
- File-system success is a predicate of each call alone. It does not depend on earlier calls. File modes (`os.ModePerm`) and partially written files are not modelled. `MkdirAll` is one effect, however many ancestors it creates.
- Paths use `/` as the only separator. `filepath.Join` is modelled as `dir + "/" + name`, without `Clean`. The two agree because embedded entry names are single path elements. `Cli.Run` also proves the destination root is a non-empty folder name without `/`, so `filepath.Join(".", folder)` is that folder.
- Error values carry their kind only, not the formatted messages.
- Strings are sequences of runes. Invalid UTF-8 in the `-init` value is not modelled.
