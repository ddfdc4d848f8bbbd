/**
 * Per-file dispatch and per-repository filtering.
 *
 * The parser is not modelled: a file's parse result is given, as `None`
 * for a parse error or `Some(root)`. A repository is given as its base
 * name and the sequence of events its directory walk produces.
 */
module Analyzer {
  import opened Wrappers
  import opened Ast
  import opened Findings
  import opened Patterns
  import opened Detectors

  // ---------------------------------------------------------------------
  // One file

  /**
   * Sequence concatenation is associative. Dafny knows this already; the
   * calls below only point the solver at the regrouping a proof needs.
   */
  lemma AppendAssoc(a: seq<Finding>, b: seq<Finding>, c: seq<Finding>)
    ensures a + b + c == a + (b + c)
  {
  }

  /** What the type switch of the tree walk sends for the single node `n`. */
  function NodeFindings(n: Node, path: string): (r: seq<Finding>)
    ensures forall f :: f in r ==> f.file == path && IsDetectorMessage(f.message)
    ensures !n.BasicLit? && !n.CallExpr? ==> r == []
  {
    match n
    case BasicLit(_, _, _) => CredentialFindings(n, path)
    case CallExpr(_, _, _) => HttpFindings(n, path) + CommandFindings(Some(n), path)
    case _ => []
  }

  /** What walking the tree rooted at `n` sends: `n` itself first, then its children in order. */
  function TreeFindings(n: Node, path: string): seq<Finding>
    decreases n
  {
    NodeFindings(n, path) +
    match n
    case BasicLit(_, _, _) => []
    case CallExpr(fun, args, _) =>
      (if fun.Some? then TreeFindings(fun.value, path) else []) + ListFindings(args, path)
    case SelectorExpr(x, _) => TreeFindings(x, path)
    case Ident(_) => []
    case OtherNode(children) => ListFindings(children, path)
  }

  /** What walking each tree of `ns` in turn sends. */
  function ListFindings(ns: seq<Node>, path: string): seq<Finding>
    decreases ns
  {
    if ns == [] then [] else TreeFindings(ns[0], path) + ListFindings(ns[1..], path)
  }

  /** What analysing one file sends, given its parse result. */
  function FileFindings(parsed: Option<Node>, path: string): (r: seq<Finding>)
    ensures parsed.None? ==> r == [Finding(path, 0, ParseErrorMessage)]
    ensures parsed.Some? ==> forall f :: f in r ==> f.file == path && IsDetectorMessage(f.message)
    ensures forall f :: f in r ==> f.file == path && IsKnownMessage(f.message)
  {
    if parsed.None? then [Finding(path, 0, ParseErrorMessage)]
    else
      TreeFindingsAttribution(parsed.value, path);
      TreeFindings(parsed.value, path)
  }

  /** Every finding of a tree walk names the walked file and comes from one of the three detectors. */
  lemma {:induction false} TreeFindingsAttribution(n: Node, path: string)
    ensures forall f :: f in TreeFindings(n, path) ==> f.file == path && IsDetectorMessage(f.message)
    decreases n
  {
    match n
    case BasicLit(_, _, _) =>
    case CallExpr(fun, args, _) =>
      if fun.Some? { TreeFindingsAttribution(fun.value, path); }
      ListFindingsAttribution(args, path);
    case SelectorExpr(x, _) =>
      TreeFindingsAttribution(x, path);
    case Ident(_) =>
    case OtherNode(children) =>
      ListFindingsAttribution(children, path);
  }

  lemma {:induction false} ListFindingsAttribution(ns: seq<Node>, path: string)
    ensures forall f :: f in ListFindings(ns, path) ==> f.file == path && IsDetectorMessage(f.message)
    decreases ns
  {
    if ns != [] {
      TreeFindingsAttribution(ns[0], path);
      ListFindingsAttribution(ns[1..], path);
    }
  }

  /** The per-node findings of `ns`, one node after the other. */
  function ConcatNodeFindings(ns: seq<Node>, path: string): seq<Finding>
    decreases ns
  {
    if ns == [] then [] else NodeFindings(ns[0], path) + ConcatNodeFindings(ns[1..], path)
  }

  lemma {:induction false} ConcatNodeFindingsAppend(a: seq<Node>, b: seq<Node>, path: string)
    ensures ConcatNodeFindings(a + b, path) == ConcatNodeFindings(a, path) + ConcatNodeFindings(b, path)
    decreases a
  {
    if a == [] {
      assert a + b == b;
    } else {
      assert (a + b)[0] == a[0];
      assert (a + b)[1..] == a[1..] + b;
      var here := NodeFindings(a[0], path);
      assert ConcatNodeFindings(a + b, path) == here + ConcatNodeFindings(a[1..] + b, path);
      ConcatNodeFindingsAppend(a[1..], b, path);
      AppendAssoc(here, ConcatNodeFindings(a[1..], path), ConcatNodeFindings(b, path));
    }
  }

  /**
   * The tree walk visits every node once, in pre-order, and sends for each
   * the findings of that node alone: a literal contributes the credential
   * check, a call the insecure-HTTP check followed by the command check,
   * every other node nothing.
   */
  lemma {:induction false} TreeFindingsArePreorder(n: Node, path: string)
    ensures TreeFindings(n, path) == ConcatNodeFindings(Preorder(n), path)
    decreases n
  {
    var rest := Preorder(n)[1..];
    assert Preorder(n) == [n] + rest;
    match n
    case BasicLit(_, _, _) =>
    case CallExpr(fun, args, _) =>
      var head := if fun.Some? then Preorder(fun.value) else [];
      if fun.Some? { TreeFindingsArePreorder(fun.value, path); }
      ListFindingsArePreorder(args, path);
      ConcatNodeFindingsAppend(head, PreorderList(args), path);
    case SelectorExpr(x, sel) =>
      TreeFindingsArePreorder(x, path);
      ConcatNodeFindingsAppend(Preorder(x), [Ident(sel)], path);
    case Ident(_) =>
    case OtherNode(children) =>
      ListFindingsArePreorder(children, path);
  }

  lemma {:induction false} ListFindingsArePreorder(ns: seq<Node>, path: string)
    ensures ListFindings(ns, path) == ConcatNodeFindings(PreorderList(ns), path)
    decreases ns
  {
    if ns != [] {
      TreeFindingsArePreorder(ns[0], path);
      ListFindingsArePreorder(ns[1..], path);
      ConcatNodeFindingsAppend(Preorder(ns[0]), PreorderList(ns[1..]), path);
    }
  }

  /** Walks the tree rooted at `n` in pre-order, running the detectors that match each node's kind. */
  method Inspect(n: Node, path: string, findings: FindingChannel)
    modifies findings
    ensures findings.buffer == old(findings.buffer) + TreeFindings(n, path)
    decreases n, 1
  {
    match n {
      case BasicLit(_, _, _) =>
        assert TreeFindings(n, path) == CredentialFindings(n, path);
        CheckHardcodedCredentials(n, path, findings);
      case CallExpr(_, _, _) =>
        InspectCall(n, path, findings);
      case SelectorExpr(x, _) =>
        assert TreeFindings(n, path) == TreeFindings(x, path);
        Inspect(x, path, findings);
      case Ident(_) =>
        assert TreeFindings(n, path) == [];
      case OtherNode(children) =>
        assert TreeFindings(n, path) == ListFindings(children, path);
        InspectList(children, path, findings);
    }
  }

  /** Runs both call detectors on the call `n`, then walks its callee and its arguments. */
  method InspectCall(n: Node, path: string, findings: FindingChannel)
    requires n.CallExpr?
    modifies findings
    ensures findings.buffer == old(findings.buffer) + TreeFindings(n, path)
    decreases n, 0
  {
    ghost var start := findings.buffer;
    CheckInsecureHTTP(n, path, findings);
    CheckCommandInjection(Some(n), path, findings);
    ghost var nodeDone := findings.buffer;
    assert nodeDone == start + NodeFindings(n, path);
    ghost var callee: seq<Finding> := [];
    if n.fun.Some? {
      Inspect(n.fun.value, path, findings);
      callee := TreeFindings(n.fun.value, path);
    }
    ghost var calleeDone := findings.buffer;
    assert calleeDone == nodeDone + callee;
    InspectList(n.args, path, findings);
    assert TreeFindings(n, path) == NodeFindings(n, path) + (callee + ListFindings(n.args, path));
    AppendAssoc(start, NodeFindings(n, path), callee);
    AppendAssoc(start + NodeFindings(n, path), callee, ListFindings(n.args, path));
    AppendAssoc(start, NodeFindings(n, path), callee + ListFindings(n.args, path));
    AppendAssoc(NodeFindings(n, path), callee, ListFindings(n.args, path));
  }

  /** Walks each tree of `ns` in turn. */
  method InspectList(ns: seq<Node>, path: string, findings: FindingChannel)
    modifies findings
    ensures findings.buffer == old(findings.buffer) + ListFindings(ns, path)
    decreases ns
  {
    var i := 0;
    while i < |ns|
      invariant 0 <= i <= |ns|
      invariant old(findings.buffer) + ListFindings(ns, path) == findings.buffer + ListFindings(ns[i..], path)
    {
      assert ns[i..][1..] == ns[i + 1..];
      ghost var before := findings.buffer;
      assert ListFindings(ns[i..], path) == TreeFindings(ns[i], path) + ListFindings(ns[i + 1..], path);
      Inspect(ns[i], path, findings);
      AppendAssoc(before, TreeFindings(ns[i], path), ListFindings(ns[i + 1..], path));
      i := i + 1;
    }
  }

  /**
   * Analyses one file: a parse error sends the single line-0 finding
   * "Error parsing file"; otherwise the whole tree is walked.
   */
  method AnalyzeFile(path: string, parsed: Option<Node>, findings: FindingChannel)
    modifies findings
    ensures findings.buffer == old(findings.buffer) + FileFindings(parsed, path)
  {
    if parsed.None? {
      findings.Send(Finding(path, 0, ParseErrorMessage));
      return;
    }
    Inspect(parsed.value, path, findings);
  }

  // ---------------------------------------------------------------------
  // One repository

  /**
   * One call of the directory walker's callback: an entry (file or
   * directory) with its path, base name and, for a file, its parse
   * result; or an error reported by the walker.
   */
  datatype WalkEvent =
    | Visit(path: string, name: string, isDir: bool, parsed: Option<Node>)
    | WalkError

  /** A cloned repository: its base directory name and the events of its walk, in walk order. */
  datatype Repository = Repository(baseName: string, walk: seq<WalkEvent>)

  /** An entry the walk callback hands to the file analysis. */
  predicate IsAnalysed(e: WalkEvent) {
    e.Visit? && !e.isDir && IsGoFile(e.name)
  }

  /** The callback returns the error it is given, which ends the walk. */
  function WalkFindings(events: seq<WalkEvent>): seq<Finding>
    decreases |events|
  {
    if events == [] || events[0].WalkError? then []
    else
      var e := events[0];
      (if IsAnalysed(e) then FileFindings(e.parsed, e.path) else []) + WalkFindings(events[1..])
  }

  /** A repository is skipped when its lower-cased base name is ignored. */
  predicate IsIgnored(repo: Repository, ignored: set<string>) {
    ToLower(repo.baseName) in ignored
  }

  /**
   * With an ignore set written in lower case, a repository is ignored
   * exactly when its base name equals an ignored name up to ASCII case.
   */
  lemma IgnoreIsCaseInsensitive(name: string, walk: seq<WalkEvent>, ignored: set<string>)
    requires forall x :: x in ignored ==> IsLowerAscii(x)
    ensures IsIgnored(Repository(name, walk), ignored) <==>
      exists x :: x in ignored && EqIgnoringAsciiCase(name, x)
  {
    if IsIgnored(Repository(name, walk), ignored) {
      assert ToLower(name) in ignored && EqIgnoringAsciiCase(name, ToLower(name));
    }
    if exists x :: x in ignored && EqIgnoringAsciiCase(name, x) {
      var x :| x in ignored && EqIgnoringAsciiCase(name, x);
      assert ToLower(x) == x;
      assert ToLower(name) == ToLower(x);
    }
  }

  /** What analysing a repository sends. */
  function RepoFindings(repo: Repository, ignored: set<string>): (r: seq<Finding>)
    ensures IsIgnored(repo, ignored) ==> r == []
  {
    if IsIgnored(repo, ignored) then [] else WalkFindings(repo.walk)
  }

  /**
   * Every finding of a walk belongs to an entry that is not a directory,
   * whose name is a non-empty stem followed by ".go", and that the walk
   * reached before any error; it carries one of the four messages.
   */
  lemma {:induction false} WalkFindingsAttribution(events: seq<WalkEvent>)
    ensures forall f :: f in WalkFindings(events) ==>
      IsKnownMessage(f.message) &&
      exists j :: 0 <= j < |events| && IsAnalysed(events[j]) && f.file == events[j].path &&
        forall k :: 0 <= k < j ==> !events[k].WalkError?
    decreases |events|
  {
    if events != [] && !events[0].WalkError? {
      WalkFindingsAttribution(events[1..]);
      var tail := events[1..];
      forall f | f in WalkFindings(events)
        ensures IsKnownMessage(f.message) &&
          exists j :: 0 <= j < |events| && IsAnalysed(events[j]) && f.file == events[j].path &&
            forall k :: 0 <= k < j ==> !events[k].WalkError?
      {
        if f !in WalkFindings(tail) {
          assert IsAnalysed(events[0]) && f.file == events[0].path;
        } else {
          var j :| 0 <= j < |tail| && IsAnalysed(tail[j]) && f.file == tail[j].path &&
            forall k :: 0 <= k < j ==> !tail[k].WalkError?;
          assert events[j + 1] == tail[j];
          assert forall k :: 0 <= k < j + 1 ==> !events[k].WalkError? by {
            forall k | 0 <= k < j + 1 ensures !events[k].WalkError? {
              if k > 0 { assert events[k] == tail[k - 1]; }
            }
          }
        }
      }
    }
  }

  /** The walk sends each analysed file's findings in walk order, until the first error. */
  lemma {:induction false} WalkFindingsAppend(a: seq<WalkEvent>, b: seq<WalkEvent>)
    requires forall k :: 0 <= k < |a| ==> !a[k].WalkError?
    ensures WalkFindings(a + b) == WalkFindings(a) + WalkFindings(b)
    decreases |a|
  {
    if a == [] {
      assert a + b == b;
    } else {
      var e := a[0];
      assert (a + b)[0] == e;
      assert (a + b)[1..] == a[1..] + b;
      assert !e.WalkError?;
      var here := if IsAnalysed(e) then FileFindings(e.parsed, e.path) else [];
      assert WalkFindings(a + b) == here + WalkFindings(a[1..] + b);
      assert WalkFindings(a) == here + WalkFindings(a[1..]);
      assert forall k :: 0 <= k < |a[1..]| ==> !a[1..][k].WalkError? by {
        forall k | 0 <= k < |a[1..]| ensures !a[1..][k].WalkError? { assert a[1..][k] == a[k + 1]; }
      }
      WalkFindingsAppend(a[1..], b);
      AppendAssoc(here, WalkFindings(a[1..]), WalkFindings(b));
    }
  }

  /** Nothing after a walk error is analysed. */
  lemma {:induction false} WalkStopsAtError(a: seq<WalkEvent>, b: seq<WalkEvent>)
    ensures WalkFindings(a + [WalkError] + b) == WalkFindings(a + [WalkError])
    decreases |a|
  {
    if a == [] {
      assert (a + [WalkError] + b)[0] == WalkError;
    } else {
      assert (a + [WalkError] + b)[0] == a[0] == (a + [WalkError])[0];
      assert (a + [WalkError] + b)[1..] == a[1..] + [WalkError] + b;
      assert (a + [WalkError])[1..] == a[1..] + [WalkError];
      WalkStopsAtError(a[1..], b);
    }
  }

  /**
   * Directories, and files whose names are not a non-empty stem followed by
   * ".go", contribute nothing, wherever they occur.
   */
  lemma {:induction false} SkippedEntryIsInert(a: seq<WalkEvent>, e: WalkEvent, b: seq<WalkEvent>)
    requires e.Visit? && !IsAnalysed(e)
    ensures WalkFindings(a + [e] + b) == WalkFindings(a + b)
    decreases |a|
  {
    if a == [] {
      assert (a + [e] + b)[0] == e;
      assert (a + [e] + b)[1..] == a + b;
    } else {
      assert (a + [e] + b)[0] == a[0] == (a + b)[0];
      assert (a + [e] + b)[1..] == a[1..] + [e] + b;
      assert (a + b)[1..] == a[1..] + b;
      SkippedEntryIsInert(a[1..], e, b);
    }
  }

  /**
   * Analyses one repository: unless its lower-cased base name is ignored,
   * every non-directory entry whose name is a non-empty stem followed by
   * ".go" is analysed, in walk order, until the walker reports an error.
   */
  method AnalyzeRepo(repo: Repository, ignored: set<string>, findings: FindingChannel)
    modifies findings
    ensures findings.buffer == old(findings.buffer) + RepoFindings(repo, ignored)
  {
    var repoName := repo.baseName;
    if ToLower(repoName) in ignored {
      return;
    }
    var events := repo.walk;
    var i := 0;
    while i < |events|
      invariant 0 <= i <= |events|
      invariant old(findings.buffer) + WalkFindings(events) == findings.buffer + WalkFindings(events[i..])
    {
      var e := events[i];
      assert events[i..][0] == e;
      if e.WalkError? {
        assert WalkFindings(events[i..]) == [];
        assert findings.buffer + [] == findings.buffer;
        break;
      }
      assert events[i..][1..] == events[i + 1..];
      ghost var before := findings.buffer;
      ghost var here := if IsAnalysed(e) then FileFindings(e.parsed, e.path) else [];
      assert WalkFindings(events[i..]) == here + WalkFindings(events[i + 1..]);
      if !e.isDir && IsGoFile(e.name) {
        AnalyzeFile(e.path, e.parsed, findings);
      }
      assert findings.buffer == before + here;
      AppendAssoc(before, here, WalkFindings(events[i + 1..]));
      i := i + 1;
    }
  }

  // ---------------------------------------------------------------------
  // All repositories

  /** The outcome of a run: no repositories to analyse, or the findings of the scan. */
  datatype ScanOutcome = NoRepositories | Scanned(findings: seq<Finding>)

  /** The per-repository findings, one repository after the other. */
  function AllFindings(repos: seq<Repository>, ignored: set<string>): seq<Finding>
    decreases |repos|
  {
    if repos == [] then [] else RepoFindings(repos[0], ignored) + AllFindings(repos[1..], ignored)
  }

  /** The number of findings of all repositories together. */
  function TotalCount(repos: seq<Repository>, ignored: set<string>): nat
    decreases |repos|
  {
    if repos == [] then 0 else |RepoFindings(repos[0], ignored)| + TotalCount(repos[1..], ignored)
  }

  /**
   * Scans every repository and drains the channel, with the repository
   * analyses run one after the other (one of the interleavings the
   * concurrent scan allows). An empty list is reported as such.
   */
  method Scan(repos: seq<Repository>, ignored: set<string>) returns (outcome: ScanOutcome)
    ensures repos == [] <==> outcome.NoRepositories?
    ensures outcome.Scanned? ==> outcome.findings == AllFindings(repos, ignored)
    ensures outcome.Scanned? ==> |outcome.findings| == TotalCount(repos, ignored)
  {
    if |repos| == 0 {
      return NoRepositories;
    }
    var findings := new FindingChannel();
    var i := 0;
    while i < |repos|
      invariant 0 <= i <= |repos|
      invariant AllFindings(repos, ignored) == findings.buffer + AllFindings(repos[i..], ignored)
      invariant TotalCount(repos, ignored) == |findings.buffer| + TotalCount(repos[i..], ignored)
    {
      assert repos[i..][1..] == repos[i + 1..];
      ghost var before := findings.buffer;
      ghost var here := RepoFindings(repos[i], ignored);
      assert AllFindings(repos[i..], ignored) == here + AllFindings(repos[i + 1..], ignored);
      assert TotalCount(repos[i..], ignored) == |here| + TotalCount(repos[i + 1..], ignored);
      AnalyzeRepo(repos[i], ignored, findings);
      assert findings.buffer == before + here;
      AppendAssoc(before, here, AllFindings(repos[i + 1..], ignored));
      i := i + 1;
    }
    return Scanned(findings.buffer);
  }

  /**
   * Ignoring is by name only: an ignored repository contributes nothing,
   * and a repository with the same walk under a name that is not ignored
   * contributes its walk's findings.
   */
  lemma IgnorePolicy(walk: seq<WalkEvent>, ignoredName: string, otherName: string, ignored: set<string>)
    requires ToLower(ignoredName) in ignored && ToLower(otherName) !in ignored
    ensures RepoFindings(Repository(ignoredName, walk), ignored) == []
    ensures RepoFindings(Repository(otherName, walk), ignored) == WalkFindings(walk)
  {
  }
}
