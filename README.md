# Go static analyser: detection core in Dafny

This project models the detection logic of a small Go static analyser
(`main.go`). The analyser walks cloned repositories, parses every `.go` file
and reports three heuristic security patterns as findings `{File, Line,
Message}`:

- **hardcoded credentials**: a string literal whose raw text contains
  `password`, `secret`, `token`, `apikey` or `auth`, case-insensitively;
- **insecure HTTP**: a string literal argument starting with `"http://` to a
  call whose callee is a selector `x.Get…`;
- **command injection**: a call whose callee is a selector `x.Command`.

A file that does not parse yields the single finding `Error parsing file` at
line 0. A repository whose lower-cased base name is in the ignore set is
skipped. Otherwise every non-directory entry whose name is a non-empty stem
followed by `.go` is analysed, in walk order, until the directory walker
reports an error.

Modules:

- `Wrappers` (`wrappers.dfy`): `Option`, for nil callees and failed parses.
- `Ast` (`ast.dfy`): the syntax nodes the detectors distinguish (`BasicLit`,
  `CallExpr`, `SelectorExpr`, `Ident`) and `OtherNode` for every other kind.
  Each node carries its line. `Preorder` is the order in which the tree
  walker visits nodes.
- `Findings` (`findings.dfy`): the `Finding` value, the four fixed messages,
  and `FindingChannel`, the shared findings channel. It is a class whose
  `buffer` only grows.
- `Patterns` (`patterns.dfy`): the pure match conditions. These are the
  file-name test, the case-insensitive credential search and the prefix test.
- `Detectors` (`detectors.dfy`): the three detectors. Each is a method that
  sends on the channel. Next to each method is a function stating exactly
  what it sends, with that function's properties proved.
- `Analyzer` (`analyzer.dfy`): the per-node dispatch, the recursive tree walk
  and the per-file analysis. It also has the per-repository filter over the
  walker's events and a sequential scan of all repositories.

The case-insensitive match of `(?i)(password|secret|token|apikey|auth)` uses
the case folding the regular expression engine applies to these letters.
An ASCII capital folds to its lower-case letter. U+017F LATIN SMALL LETTER
LONG S folds to `s`. U+212A KELVIN SIGN folds to `k`. No other character
folds onto a letter of the five words, so the model matches the engine
exactly on these words.

Strings are sequences of characters, where the source works on bytes. The
source's text comparisons (`strings.HasPrefix`, the suffix slice in
`isGoFile`) compare only against ASCII text (`.go`, `"http://`, `Get`,
`Command`), and on ASCII text a byte comparison and a character comparison
agree. The length test `len(name) > 3` counts bytes, and on its own a byte
length and a character length differ ("éé" is four bytes but two
characters). Joined to the suffix test it agrees all the same: a name ending
in `.go` has more than three bytes exactly when it has more than three
characters, since both say that something precedes the suffix.

Two consequences of the code are worth stating:

- A call never fires both call detectors. The insecure-HTTP detector needs a
  selector name starting with `Get`, the command detector the name
  `Command` (`Detectors.CallDetectorsExclusive`).
- The insecure-HTTP detector sends one finding per matching argument, at
  that argument's line, not one per call.

## Model

| member | source | states |
|---|---|---|
| Patterns.IsGoFile | main.go:176-178 | the file-name test: longer than three characters and ending in ".go" (its properties are in the two rows below) |
| Patterns.IsGoFileIffStem | main.go:176-178 | a name is accepted exactly when it is some non-empty stem followed by ".go" |
| Patterns.IsGoFileExamples | main_test.go:123-126 | "main.go" is accepted; "main.txt", "", "file" and ".go" are rejected |
| Patterns.ToLower | main.go:77 | the result has no ASCII capital, equals the input up to ASCII case, and a string without capitals is returned unchanged |
| Patterns.FoldOrbit | main.go:123-124 | the characters that match a lower-case letter case-insensitively are the letter, its capital, and for s and k the long s and the Kelvin sign |
| Patterns.SearchCredentialFrom | main.go:123-124 | the unanchored search from index i succeeds iff a credential word matches case-insensitively at some index at or after i |
| Patterns.MatchesCredentialPattern | main.go:123-124 | the pattern matches a raw literal iff one of the five words occurs in it case-insensitively |
| Patterns.NoCredentialWithoutInitial | main.go:123-124 | text with no character folding to p, s, t or a never matches |
| Patterns.CredentialPatternAccepts | main_test.go:15-16 | "\"password123\"" and "\"APIKEY12345\"" match |
| Patterns.CredentialPatternRejects | main_test.go:17-18 | "\"Hello, World!\"" and "\"\"" do not match |
| Findings.FindingChannel.constructor | main.go:47 | a new channel holds no findings |
| Findings.FindingChannel.Send | main.go:104 | sending appends exactly the sent finding and changes nothing else |
| Detectors.IsInsecureHttpArg | main.go:136 | the argument test: a STRING literal whose raw text starts with "http:// (quote included) |
| Detectors.IsGetSelector | main.go:133-134 | the callee test of the insecure-HTTP detector: a selector whose name starts with "Get" |
| Detectors.IsCommandSelector | main.go:150 | the callee test of the command detector: a selector named exactly "Command" |
| Detectors.CredentialFindings | main.go:120-130 | at most one finding; one exactly when the literal is a STRING containing a credential word; it carries the file, the literal's line and "Potential hardcoded credentials" |
| Detectors.CheckHardcodedCredentials | main.go:120-130 | appends exactly the credential findings of the literal to the channel |
| Detectors.InsecureArgFindings | main.go:135-140 | at most one finding per argument; each has the file and "Insecure HTTP URL detected"; none exactly when no argument is a STRING literal starting with "http:// (quote included) |
| Detectors.InsecureArgFindingsLines | main.go:136-138 | every finding is at the line of an argument that is a STRING literal starting with "http:// |
| Detectors.InsecureArgFindingsComplete | main.go:135-138 | every argument that is a STRING literal starting with "http:// yields a finding with the file, the insecure-HTTP message and that argument's own line |
| Detectors.InsecureArgFindingsAppend | main.go:135-140 | the findings for two argument lists one after the other are the first list's findings followed by the second's |
| Detectors.InsecureArgFindingsSingle | main.go:136-138 | a single argument yields exactly one finding at its line if it is an insecure HTTP literal, and none otherwise |
| Detectors.InsecureArgFindingsCount | main.go:135-140 | the number of findings equals the number of insecure HTTP literal arguments |
| Detectors.HttpFindings | main.go:132-143 | the detector sends something iff the callee is a selector whose name starts with "Get" and some argument is an insecure HTTP literal; every finding has the file and the insecure-HTTP message |
| Detectors.CheckInsecureHTTP | main.go:132-143 | the loop over the arguments appends exactly the insecure-HTTP findings of the call |
| Detectors.CommandFindings | main.go:145-154 | at most one finding; one iff the call is not nil and its callee is a selector named exactly "Command"; it carries the file, the call's line and "Potential command injection detected" |
| Detectors.CheckCommandInjection | main.go:145-154 | appends exactly the command findings of the call; a nil call or nil callee appends nothing |
| Detectors.CallDetectorsExclusive | main.go:134 | no call fires both the insecure-HTTP and the command detector |
| Detectors.HttpFindingsAccepts | main_test.go:47 | http.Get("http://example.com") gives exactly one finding |
| Detectors.HttpFindingsRejects | main_test.go:48-50 | http.Get with an https, a non-URL or an empty literal gives none |
| Detectors.CommandFindingsExamples | main_test.go:86-88 | exec.Command gives one finding; exec.Exec and exec.NotACommand give none; nor do a nil call, a nil callee or a plain identifier callee |
| Detectors.CredentialFindingsExamples | main_test.go:15-18 | the credential test literals give one, one, zero and zero findings; a CHAR literal gives none |
| Ast.Preorder | main.go:108 | the order in which the tree walk visits nodes: the node, then its children left to right (callee before arguments, X before Sel) |
| Analyzer.TreeFindings | main.go:108-117 | what the walk sends for a tree: the node's own findings, then those of its children in walk order (characterised by TreeFindingsArePreorder) |
| Analyzer.ListFindings | main.go:108-117 | what the walk sends for a sequence of trees, one after the other |
| Analyzer.NodeFindings | main.go:109-115 | every finding for one node has the file and a detector message; nodes other than literals and calls give none |
| Analyzer.FileFindings | main.go:102-117 | a parse error gives exactly the line-0 finding "Error parsing file"; a parsed file never gives that message; every finding has the file and one of the four messages |
| Analyzer.TreeFindingsAttribution | main.go:108-117 | every finding of a tree walk has the walked file and a detector message |
| Analyzer.ListFindingsAttribution | main.go:108-117 | the same for a sequence of trees |
| Analyzer.ConcatNodeFindingsAppend | main.go:108-117 | the per-node findings of two node sequences, one after the other, are the two sequences' findings concatenated |
| Analyzer.TreeFindingsArePreorder | main.go:108-117 | walking a tree sends, in pre-order, the findings of each node alone: the credential check for a literal, the insecure-HTTP then the command check for a call, nothing otherwise |
| Analyzer.ListFindingsArePreorder | main.go:108-117 | the same for a sequence of trees |
| Analyzer.Inspect | main.go:108-117 | the recursive walk appends exactly the findings of the tree |
| Analyzer.InspectCall | main.go:112-114 | for a call, appends both call detectors' findings, then those of the callee and of the arguments |
| Analyzer.InspectList | main.go:108-117 | appends the findings of each tree in turn |
| Analyzer.AnalyzeFile | main.go:97-118 | appends exactly the findings of the file given its parse result |
| Analyzer.IsAnalysed | main.go:86 | the walk callback analyses an entry exactly when it is not a directory and its name passes the file-name test |
| Analyzer.WalkFindings | main.go:82-90 | what the walk callback sends: the findings of each analysed entry in walk order, up to the first walk error (characterised by the walk lemmas below) |
| Analyzer.IsIgnored | main.go:76-77 | a repository is ignored when its ASCII-lower-cased base name is in the ignore set |
| Analyzer.IgnoreIsCaseInsensitive | main.go:76-77 | with an ignore set written in lower case, a repository is ignored exactly when its base name equals an ignored name up to ASCII case |
| Analyzer.RepoFindings | main.go:76-80 | an ignored repository gives no findings |
| Analyzer.WalkFindingsAttribution | main.go:82-90 | every finding of a walk has one of the four messages and names a non-directory entry, whose name is a non-empty stem followed by ".go", reached before any walk error |
| Analyzer.WalkFindingsAppend | main.go:82-90 | with no error in the first part, a walk's findings are those of its two parts concatenated |
| Analyzer.WalkStopsAtError | main.go:83-85 | nothing after a walk error is analysed |
| Analyzer.SkippedEntryIsInert | main.go:86-88 | a directory, or a file whose name is not a non-empty stem followed by ".go", contributes nothing, wherever it occurs |
| Analyzer.AnalyzeRepo | main.go:75-95 | appends exactly the findings of the repository |
| Analyzer.IgnorePolicy | main.go:76-80 | of two repositories with the same walk, the one whose lower-cased name is ignored gives nothing, the other its walk's findings |
| Analyzer.Scan | main.go:41-68 | an empty repository list is reported as such; otherwise the drained findings are the repositories' findings one repository after the other, and their number is the sum of the per-repository counts |

## Left out

- `main` (main.go:30-73): flag parsing, console output and colours are not modelled. The fan-out of one goroutine per repository, the `sync.WaitGroup` and the close after wait are not modelled either. `Analyzer.Scan` runs the repository analyses one after the other. This is one of the orders the concurrent scan allows. Other interleavings of different repositories' findings are not modelled.
- Analyzer.Scan: the channel's capacity and blocking sends are not modelled; the buffer is unbounded.
- `logFindingToFile` (main.go:156-174): file I/O with timestamps.
- `parser.ParseFile` and `token.FileSet.Position` are library calls. A file's parse result is an input (`None` for a parse error). Each node's line is a field of the node.
- `filepath.Walk` and `filepath.Base` are library calls. A repository is its base name plus the sequence of the walker's callback events. The notice printed for an ignored repository (main.go:78) and the error printout at main.go:92-94 only print.
- The per-file `sync.WaitGroup` (main.go:87, 98-99) is never waited on and has no effect.
- Patterns.ToLower: lower-cases ASCII capitals only. Go's `strings.ToLower` lower-cases all of Unicode, so a non-ASCII repository name may compare differently against the ignore set.
- The ignore set (github_clone.go:18-21) is a parameter, and github_clone.go is not part of this model: it holds the hosting-provider API client, cloning and its concurrency.
- Node kinds beyond literals, calls, selectors and identifiers are `OtherNode` with their children. Nothing in the detectors depends on them.
