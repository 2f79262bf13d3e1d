/** An abstract stand-in for the Babel syntax tree the scanner walks. A
    node records only what the scanner's visitors read: its type, the
    name it carries, the type of its parent, the scope's answer to
    `hasBinding`, the callee of a call, and the names an export or import
    mentions. The tree itself is given to the scanner either as its
    pre-order node sequence (the order in which Babel's `traverse` calls
    the entry visitors) or as its well-nested sequence of Enter/Exit events. */
module Syntax {

  type Name = string

  datatype Option<T> = None | Some(value: T)

  /** The Babel node types the visitors distinguish; every other type is `OtherType`. */
  datatype NodeType =
    | VariableDeclarator
    | FunctionDeclaration
    | ExportNamedDeclaration
    | ImportSpecifier
    | JSXIdentifier
    | Identifier
    | CallExpression
    | OtherType

  /** The callee of a call: a plain identifier, or any other expression (`obj.method`, `f()`, ...). */
  datatype Callee = CalleeIdentifier(name: Name) | CalleeExpression

  /** What an `export` statement carries: a declaration with an `id`
      (`export function f`), a declaration with declarators
      (`export const a = 1, b = 2`), a declaration with neither, or a
      specifier list (`export { a, b as c }`, giving the exported names). */
  datatype ExportShape =
    | DeclarationWithId(id: Name)
    | DeclarationWithDeclarators(ids: seq<Name>)
    | DeclarationWithoutName
    | Specifiers(exported: seq<Name>)

  /** One node. Declarators and function declarations are restricted to a
      plain identifier as their `id`. */
  datatype Node =
    | Declarator(id: Name)
    | FunctionDecl(id: Name)
    | ExportNamed(shape: ExportShape)
    | ImportSpec(local: Name)
    | JsxName(name: Name)
    | Ident(name: Name, parentType: NodeType, hasBinding: bool)
    | Call(callee: Callee)
    | Other

  function TypeOf(n: Node): NodeType {
    match n
    case Declarator(_) => VariableDeclarator
    case FunctionDecl(_) => FunctionDeclaration
    case ExportNamed(_) => ExportNamedDeclaration
    case ImportSpec(_) => ImportSpecifier
    case JsxName(_) => JSXIdentifier
    case Ident(_, _, _) => Identifier
    case Call(_) => CallExpression
    case Other => OtherType
  }

  /** The names an `export` statement adds to the exported set, in order. */
  function ExportedNames(shape: ExportShape): seq<Name> {
    match shape
    case DeclarationWithId(id) => [id]
    case DeclarationWithDeclarators(ids) => ids
    case DeclarationWithoutName => []
    case Specifiers(names) => names
  }

  datatype DeclKind = Variable | Function

  /** A declaration the rewriters act on: a variable declarator or a function declaration. */
  datatype Declaration = Declaration(kind: DeclKind, name: Name)

  function DeclarationOf(n: Node): (d: Option<Declaration>)
    ensures d.Some? <==> n.Declarator? || n.FunctionDecl?
    ensures d.Some? ==> d.value.name == n.id
    ensures d.Some? ==> (d.value.kind == Variable <==> n.Declarator?)
  {
    match n
    case Declarator(x) => Some(Declaration(Variable, x))
    case FunctionDecl(x) => Some(Declaration(Function, x))
    case _ => None
  }

  /** The declarations of a pre-order sequence, in order. */
  function Declarations(ns: seq<Node>): (ds: seq<Declaration>)
    ensures forall d :: d in ds <==> exists i :: 0 <= i < |ns| && DeclarationOf(ns[i]) == Some(d)
    decreases |ns|
  {
    if ns == [] then []
    else
      var rest := Declarations(ns[1..]);
      assert forall i :: 1 <= i < |ns| ==> ns[i] == ns[1..][i - 1];
      (if DeclarationOf(ns[0]).Some? then [DeclarationOf(ns[0]).value] else []) + rest
  }

  /** The names of all identifier nodes of a pre-order sequence. */
  function IdentifierNames(ns: seq<Node>): (names: set<Name>)
    ensures forall x :: x in names <==> exists i :: 0 <= i < |ns| && ns[i].Ident? && ns[i].name == x
    decreases |ns|
  {
    if ns == [] then {}
    else
      var rest := IdentifierNames(ns[1..]);
      assert forall i :: 1 <= i < |ns| ==> ns[i] == ns[1..][i - 1];
      (if ns[0].Ident? then {ns[0].name} else {}) + rest
  }

  datatype Tree = Tree(node: Node, children: seq<Tree>)

  datatype Event = Enter(node: Node) | Exit(node: Node)

  function PreOrder(t: Tree): seq<Node>
    decreases t
  {
    [t.node] + PreOrderForest(t.children)
  }

  function PreOrderForest(ts: seq<Tree>): seq<Node>
    decreases ts
  {
    if ts == [] then [] else PreOrder(ts[0]) + PreOrderForest(ts[1..])
  }

  /** The visits of a depth-first traversal: a node is entered, its
      children are visited in order, then it is exited. */
  function Events(t: Tree): seq<Event>
    decreases t
  {
    [Enter(t.node)] + EventsForest(t.children) + [Exit(t.node)]
  }

  function EventsForest(ts: seq<Tree>): seq<Event>
    decreases ts
  {
    if ts == [] then [] else Events(ts[0]) + EventsForest(ts[1..])
  }

  /** A tree Babel could have produced, as far as the visitors can tell:
      each identifier's recorded parent type is its parent's type; a
      declaration's first child is the identifier it binds; a call whose
      callee is a plain identifier has that identifier as its first child. */
  predicate WellFormed(t: Tree)
    decreases t
  {
    && (forall i :: 0 <= i < |t.children| && t.children[i].node.Ident? ==>
          t.children[i].node.parentType == TypeOf(t.node))
    && ((t.node.Declarator? || t.node.FunctionDecl?) ==>
          |t.children| > 0 && t.children[0].node.Ident? && t.children[0].node.name == t.node.id)
    && ((t.node.Call? && t.node.callee.CalleeIdentifier?) ==>
          |t.children| > 0 && t.children[0].node.Ident? && t.children[0].node.name == t.node.callee.name)
    && (forall i :: 0 <= i < |t.children| ==> WellFormed(t.children[i]))
  }

  /** In a pre-order sequence: every declaration is immediately followed
      by the identifier it binds, whose parent is that declaration. */
  predicate BindingsFollow(ns: seq<Node>) {
    forall i :: 0 <= i < |ns| && (ns[i].Declarator? || ns[i].FunctionDecl?) ==>
      && i + 1 < |ns|
      && ns[i + 1].Ident?
      && ns[i + 1].name == ns[i].id
      && ns[i + 1].parentType == TypeOf(ns[i])
  }

  lemma BindingsFollowAppend(a: seq<Node>, b: seq<Node>)
    requires BindingsFollow(a) && BindingsFollow(b)
    ensures BindingsFollow(a + b)
  {
    forall i | 0 <= i < |a + b| && ((a + b)[i].Declarator? || (a + b)[i].FunctionDecl?)
      ensures i + 1 < |a + b| && (a + b)[i + 1] == (if i < |a| then a[i + 1] else b[i + 1 - |a|])
    {
      if i >= |a| {
        assert (a + b)[i] == b[i - |a|];
      }
    }
  }

  lemma PreOrderForestHead(ts: seq<Tree>)
    requires ts != []
    ensures PreOrderForest(ts) != [] && PreOrderForest(ts)[0] == ts[0].node
  {
  }

  /** The pre-order of a well-formed tree puts each binding identifier right after its declaration. */
  lemma {:induction false} WellFormedBindingsFollow(t: Tree)
    requires WellFormed(t)
    ensures BindingsFollow(PreOrder(t))
    decreases t
  {
    WellFormedForestBindingsFollow(t.children);
    var f := PreOrderForest(t.children);
    if t.node.Declarator? || t.node.FunctionDecl? {
      PreOrderForestHead(t.children);
    }
    var p := PreOrder(t);
    assert p == [t.node] + f;
    forall i | 0 <= i < |p| && (p[i].Declarator? || p[i].FunctionDecl?)
      ensures i + 1 < |p| && p[i + 1].Ident? && p[i + 1].name == p[i].id
        && p[i + 1].parentType == TypeOf(p[i])
    {
      if i > 0 {
        assert p[i] == f[i - 1] && p[i + 1] == f[i];
      }
    }
  }

  lemma {:induction false} WellFormedForestBindingsFollow(ts: seq<Tree>)
    requires forall i :: 0 <= i < |ts| ==> WellFormed(ts[i])
    ensures BindingsFollow(PreOrderForest(ts))
    decreases ts
  {
    if ts != [] {
      WellFormedBindingsFollow(ts[0]);
      WellFormedForestBindingsFollow(ts[1..]);
      BindingsFollowAppend(PreOrder(ts[0]), PreOrderForest(ts[1..]));
    }
  }

  /** Every node of the tree is exited exactly when it occurs in the pre-order. */
  lemma {:induction false} ExitsArePreOrder(t: Tree)
    ensures forall n :: Exit(n) in Events(t) <==> n in PreOrder(t)
    decreases t
  {
    ExitsArePreOrderForest(t.children);
    assert Events(t) == [Enter(t.node)] + EventsForest(t.children) + [Exit(t.node)];
  }

  lemma {:induction false} ExitsArePreOrderForest(ts: seq<Tree>)
    ensures forall n :: Exit(n) in EventsForest(ts) <==> n in PreOrderForest(ts)
    decreases ts
  {
    if ts != [] {
      ExitsArePreOrder(ts[0]);
      ExitsArePreOrderForest(ts[1..]);
    }
  }
}
