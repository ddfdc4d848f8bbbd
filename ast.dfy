/**
 * The part of a Go syntax tree that the detectors look at.
 *
 * Only the node kinds that the detectors distinguish are spelled out; every
 * other kind of node (declarations, statements, other expressions) is an
 * `OtherNode` that carries its children in the order the tree walker visits
 * them. Each node carries the source line its position resolves to.
 */
module Ast {
  import opened Wrappers

  /** The kinds of a basic literal token. */
  datatype TokenKind = INT | FLOAT | IMAG | CHAR | STRING

  datatype Node =
    /** A basic literal; `value` is its raw text, quotes included. */
    | BasicLit(kind: TokenKind, value: string, line: nat)
      /**
       * A call; `line` is the line of the call's position. `fun` is the
       * callee; the parser always builds one, and `None` (a nil callee)
       * exists only so that the command detector's nil check has a case.
       * The source's tree walk never meets a nil callee (it would fail on
       * one), so the walk of such a call here models nothing in the source.
       */
    | CallExpr(fun: Option<Node>, args: seq<Node>, line: nat)
      /** `x.sel`; the walker visits `x` and then the identifier `sel`. */
    | SelectorExpr(x: Node, sel: string)
    | Ident(name: string)
    | OtherNode(children: seq<Node>)

  /**
   * Every node of the tree rooted at `n`, each once, in the order of a
   * depth-first pre-order walk: the node itself, then its children from
   * left to right (for a call: the callee, then the arguments).
   */
  function Preorder(n: Node): seq<Node>
    decreases n
  {
    [n] +
    match n
    case BasicLit(_, _, _) => []
    case CallExpr(fun, args, _) =>
      (if fun.Some? then Preorder(fun.value) else []) + PreorderList(args)
    case SelectorExpr(x, sel) => Preorder(x) + [Ident(sel)]
    case Ident(_) => []
    case OtherNode(children) => PreorderList(children)
  }

  /** The pre-order walks of `ns`, one after the other. */
  function PreorderList(ns: seq<Node>): seq<Node>
    decreases ns
  {
    if ns == [] then [] else Preorder(ns[0]) + PreorderList(ns[1..])
  }
}
