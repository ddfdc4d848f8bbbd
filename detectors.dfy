/**
 * The three node detectors. Each looks at one syntax node and sends zero or
 * more findings on the channel. Next to each detector method stands the
 * function that says which findings it sends; the methods are proved to
 * append exactly those.
 */
module Detectors {
  import opened Wrappers
  import opened Ast
  import opened Findings
  import opened Patterns

  /** The callee's selected name, when the callee is a selector expression `x.Name`. */
  function SelectorName(fun: Option<Node>): Option<string> {
    if fun.Some? && fun.value.SelectorExpr? then Some(fun.value.sel) else None
  }

  /** A string literal whose raw text starts with `"http://`, opening quote included. */
  predicate IsInsecureHttpArg(arg: Node) {
    arg.BasicLit? && arg.kind == STRING && HasPrefix(arg.value, "\"http://")
  }

  /** A callee `x.Name` whose name starts with "Get". */
  predicate IsGetSelector(fun: Option<Node>) {
    SelectorName(fun).Some? && HasPrefix(SelectorName(fun).value, "Get")
  }

  /** A callee `x.Command`. */
  predicate IsCommandSelector(fun: Option<Node>) {
    SelectorName(fun) == Some("Command")
  }

  // ---------------------------------------------------------------------
  // Hardcoded credentials

  /** What the credential detector sends for the literal `lit`. */
  function CredentialFindings(lit: Node, path: string): (r: seq<Finding>)
    requires lit.BasicLit?
    ensures |r| <= 1
    ensures r != [] <==> lit.kind == STRING && ContainsCredentialWord(lit.value)
    ensures forall f :: f in r ==> f == Finding(path, lit.line, CredentialsMessage)
  {
    if lit.kind == STRING && MatchesCredentialPattern(lit.value)
    then [Finding(path, lit.line, CredentialsMessage)]
    else []
  }

  method CheckHardcodedCredentials(n: Node, path: string, findings: FindingChannel)
    requires n.BasicLit?
    modifies findings
    ensures findings.buffer == old(findings.buffer) + CredentialFindings(n, path)
  {
    if n.kind == STRING {
      var matched := MatchesCredentialPattern(n.value);
      if matched {
        findings.Send(Finding(path, n.line, CredentialsMessage));
      }
    }
  }

  // ---------------------------------------------------------------------
  // Insecure HTTP

  /** One finding per argument that is an insecure HTTP literal, in argument order, at that literal's line. */
  function InsecureArgFindings(args: seq<Node>, path: string): (r: seq<Finding>)
    ensures |r| <= |args|
    ensures forall f :: f in r ==> f.file == path && f.message == InsecureHttpMessage
    ensures r == [] <==> forall i :: 0 <= i < |args| ==> !IsInsecureHttpArg(args[i])
    decreases |args|
  {
    if args == [] then []
    else
      var last := args[|args| - 1];
      var prefix := args[..|args| - 1];
      var r := InsecureArgFindings(prefix, path);
      assert forall i :: 0 <= i < |prefix| ==> prefix[i] == args[i];
      r + if IsInsecureHttpArg(last) then [Finding(path, last.line, InsecureHttpMessage)] else []
  }

  /** Each finding is at the line of an argument that is an insecure HTTP literal. */
  lemma {:induction false} InsecureArgFindingsLines(args: seq<Node>, path: string)
    ensures forall f :: f in InsecureArgFindings(args, path) ==>
      exists i :: 0 <= i < |args| && IsInsecureHttpArg(args[i]) && f.line == args[i].line
    decreases |args|
  {
    if args != [] {
      var n := |args| - 1;
      var prefix := args[..n];
      InsecureArgFindingsLines(prefix, path);
      forall f | f in InsecureArgFindings(args, path)
        ensures exists i :: 0 <= i < |args| && IsInsecureHttpArg(args[i]) && f.line == args[i].line
      {
        if f in InsecureArgFindings(prefix, path) {
          var i :| 0 <= i < |prefix| && IsInsecureHttpArg(prefix[i]) && f.line == prefix[i].line;
          assert prefix[i] == args[i];
        } else {
          assert IsInsecureHttpArg(args[n]) && f.line == args[n].line;
        }
      }
    }
  }

  /** Every insecure HTTP literal argument yields a finding at its own line. */
  lemma {:induction false} InsecureArgFindingsComplete(args: seq<Node>, path: string)
    ensures forall i :: 0 <= i < |args| && IsInsecureHttpArg(args[i]) ==>
      Finding(path, args[i].line, InsecureHttpMessage) in InsecureArgFindings(args, path)
    decreases |args|
  {
    if args != [] {
      var n := |args| - 1;
      var prefix := args[..n];
      InsecureArgFindingsComplete(prefix, path);
      forall i | 0 <= i < n && IsInsecureHttpArg(args[i])
        ensures Finding(path, args[i].line, InsecureHttpMessage) in InsecureArgFindings(args, path)
      {
        assert prefix[i] == args[i];
      }
    }
  }

  /**
   * The findings for two argument lists one after the other are those of
   * the first followed by those of the second; with the one-argument case
   * this fixes the findings, in argument order.
   */
  lemma {:induction false} InsecureArgFindingsAppend(a: seq<Node>, b: seq<Node>, path: string)
    ensures InsecureArgFindings(a + b, path) == InsecureArgFindings(a, path) + InsecureArgFindings(b, path)
    decreases |b|
  {
    if b == [] {
      assert a + b == a;
    } else {
      var n := |b| - 1;
      assert (a + b)[..|a + b| - 1] == a + b[..n];
      assert (a + b)[|a + b| - 1] == b[n];
      InsecureArgFindingsAppend(a, b[..n], path);
      var last := if IsInsecureHttpArg(b[n]) then [Finding(path, b[n].line, InsecureHttpMessage)] else [];
      assert InsecureArgFindings(b, path) == InsecureArgFindings(b[..n], path) + last;
      assert InsecureArgFindings(a + b, path) == InsecureArgFindings(a + b[..n], path) + last;
    }
  }

  /** A single argument yields one finding at its line exactly when it is an insecure HTTP literal. */
  lemma InsecureArgFindingsSingle(arg: Node, path: string)
    ensures InsecureArgFindings([arg], path) ==
      if IsInsecureHttpArg(arg) then [Finding(path, arg.line, InsecureHttpMessage)] else []
  {
  }

  /** The indices of the arguments that are insecure HTTP literals. */
  function InsecureArgIndices(args: seq<Node>): set<nat> {
    set i: nat | i < |args| && IsInsecureHttpArg(args[i])
  }

  /** Extending the arguments by one adds that argument's index exactly when it is an insecure HTTP literal. */
  lemma InsecureArgIndicesSnoc(args: seq<Node>)
    requires args != []
    ensures |InsecureArgIndices(args)| ==
      |InsecureArgIndices(args[..|args| - 1])| + if IsInsecureHttpArg(args[|args| - 1]) then 1 else 0
  {
    var n := |args| - 1;
    var prefix := args[..n];
    var before, after := InsecureArgIndices(prefix), InsecureArgIndices(args);
    var hit := IsInsecureHttpArg(args[n]);
    forall i: nat ensures i in after <==> i in before || (hit && i == n) {
      if i < n { assert prefix[i] == args[i]; }
    }
    if hit {
      assert n !in before;
      assert after == before + {n};
    } else {
      assert after == before;
    }
  }

  /** The detector sends exactly as many findings as there are insecure HTTP literal arguments. */
  lemma {:induction false} InsecureArgFindingsCount(args: seq<Node>, path: string)
    ensures |InsecureArgFindings(args, path)| == |InsecureArgIndices(args)|
    decreases |args|
  {
    if args != [] {
      var n := |args| - 1;
      InsecureArgFindingsCount(args[..n], path);
      InsecureArgIndicesSnoc(args);
      assert |InsecureArgFindings(args, path)| ==
        |InsecureArgFindings(args[..n], path)| + if IsInsecureHttpArg(args[n]) then 1 else 0;
    }
  }

  /** What the insecure-HTTP detector sends for the call `call`. */
  function HttpFindings(call: Node, path: string): (r: seq<Finding>)
    requires call.CallExpr?
    ensures r != [] <==>
      IsGetSelector(call.fun) && exists i :: 0 <= i < |call.args| && IsInsecureHttpArg(call.args[i])
    ensures forall f :: f in r ==> f.file == path && f.message == InsecureHttpMessage
  {
    if IsGetSelector(call.fun) then InsecureArgFindings(call.args, path) else []
  }

  method CheckInsecureHTTP(n: Node, path: string, findings: FindingChannel)
    requires n.CallExpr?
    modifies findings
    ensures findings.buffer == old(findings.buffer) + HttpFindings(n, path)
  {
    if n.fun.Some? && n.fun.value.SelectorExpr? {
      var funcIdent := n.fun.value;
      if HasPrefix(funcIdent.sel, "Get") {
        var i := 0;
        while i < |n.args|
          invariant 0 <= i <= |n.args|
          invariant findings.buffer == old(findings.buffer) + InsecureArgFindings(n.args[..i], path)
        {
          var arg := n.args[i];
          assert n.args[..i + 1][..i] == n.args[..i];
          if arg.BasicLit? && arg.kind == STRING && HasPrefix(arg.value, "\"http://") {
            findings.Send(Finding(path, arg.line, InsecureHttpMessage));
          }
          i := i + 1;
        }
        assert n.args[..i] == n.args;
      }
    }
  }

  // ---------------------------------------------------------------------
  // Command injection

  /** What the command-injection detector sends for `call`, which is nil when None. */
  function CommandFindings(call: Option<Node>, path: string): (r: seq<Finding>)
    requires call.Some? ==> call.value.CallExpr?
    ensures |r| <= 1
    ensures r != [] <==> call.Some? && IsCommandSelector(call.value.fun)
    ensures forall f :: f in r ==> f == Finding(path, call.value.line, CommandInjectionMessage)
  {
    if call.None? || call.value.fun.None? then []
    else if call.value.fun.value.SelectorExpr? && call.value.fun.value.sel == "Command"
    then [Finding(path, call.value.line, CommandInjectionMessage)]
    else []
  }

  method CheckCommandInjection(n: Option<Node>, path: string, findings: FindingChannel)
    requires n.Some? ==> n.value.CallExpr?
    modifies findings
    ensures findings.buffer == old(findings.buffer) + CommandFindings(n, path)
  {
    if n.None? || n.value.fun.None? {
      return;
    }
    var fun := n.value.fun.value;
    if fun.SelectorExpr? && fun.sel == "Command" {
      findings.Send(Finding(path, n.value.line, CommandInjectionMessage));
    }
  }

  /**
   * No call fires both call detectors: the insecure-HTTP detector needs a
   * name starting with "Get", the command detector the name "Command".
   */
  lemma CallDetectorsExclusive(call: Node, path: string)
    requires call.CallExpr?
    ensures HttpFindings(call, path) == [] || CommandFindings(Some(call), path) == []
  {
    if IsCommandSelector(call.fun) {
      assert SelectorName(call.fun).value[..3] == "Com";
    }
  }

  // ---------------------------------------------------------------------
  // The detectors on the calls and literals they are known to decide

  /** The call `pkg.name(args)` on line 0, as a test builds it. */
  function SelectorCall(pkg: string, name: string, args: seq<Node>): Node {
    CallExpr(Some(SelectorExpr(Ident(pkg), name)), args, 0)
  }

  /** A plain-HTTP literal passed to `http.Get` is reported once. */
  lemma HttpFindingsAccepts()
    ensures |HttpFindings(SelectorCall("http", "Get", [BasicLit(STRING, "\"http://example.com\"", 0)]), "test.go")| == 1
  {
  }

  /** HTTPS, non-URL and empty literals passed to `http.Get` are not reported. */
  lemma HttpFindingsRejects()
    ensures HttpFindings(SelectorCall("http", "Get", [BasicLit(STRING, "\"https://example.com\"", 0)]), "test.go") == []
    ensures HttpFindings(SelectorCall("http", "Get", [BasicLit(STRING, "\"Not a URL\"", 0)]), "test.go") == []
    ensures HttpFindings(SelectorCall("http", "Get", [BasicLit(STRING, "\"\"", 0)]), "test.go") == []
  {
    var https: string := "\"https://example.com\"";
    assert https[..8][5] == 's';
    assert !IsInsecureHttpArg(BasicLit(STRING, https, 0));
    var other: string := "\"Not a URL\"";
    assert other[..8][1] == 'N';
    assert !IsInsecureHttpArg(BasicLit(STRING, other, 0));
    assert !IsInsecureHttpArg(BasicLit(STRING, "\"\"", 0));
  }

  lemma CommandFindingsExamples()
    ensures |CommandFindings(Some(SelectorCall("exec", "Command", [])), "test.go")| == 1
    ensures CommandFindings(Some(SelectorCall("exec", "Exec", [])), "test.go") == []
    ensures CommandFindings(Some(SelectorCall("exec", "NotACommand", [])), "test.go") == []
    ensures CommandFindings(None, "test.go") == []
    ensures CommandFindings(Some(CallExpr(None, [], 0)), "test.go") == []
    ensures CommandFindings(Some(CallExpr(Some(Ident("Command")), [], 0)), "test.go") == []
  {
  }

  lemma CredentialFindingsExamples()
    ensures |CredentialFindings(BasicLit(STRING, "\"password123\"", 0), "test.go")| == 1
    ensures |CredentialFindings(BasicLit(STRING, "\"APIKEY12345\"", 0), "test.go")| == 1
    ensures CredentialFindings(BasicLit(STRING, "\"Hello, World!\"", 0), "test.go") == []
    ensures CredentialFindings(BasicLit(STRING, "\"\"", 0), "test.go") == []
    ensures CredentialFindings(BasicLit(CHAR, "'password'", 0), "test.go") == []
  {
    CredentialPatternAccepts();
    CredentialPatternRejects();
  }
}
