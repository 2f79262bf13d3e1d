/** `deleteCode` (lib.js:199-241): one traversal with three sets that the
    generic `enter` visitor clears on every node before tracking it. The
    `Identifier` visitor tracks an identifier a second time. On `exit`, a
    variable declarator or function declaration whose name is not among
    the used identifiers is removed. The traversal is the sequence of
    Enter/Exit events of a depth-first walk; the model returns the
    declarations removed, in exit order. */
module Deletion {
  import opened OrderedSets
  import opened Syntax
  import Liveness
  import Commenting

  datatype DeleteState = DeleteState(
    declaredVariables: set<Name>,
    declaredFunctions: set<Name>,
    usedIdentifiers: set<Name>)

  const Cleared := DeleteState({}, {}, {})

  /** `trackIdentifiers`: a declaration records its name; an identifier
      whose name is declared is marked used. Only a name already declared
      can become used, so on cleared declared sets nothing does; the
      declared sets grow by the node's own declaration and nothing else,
      and a declaring node marks nothing used. */
  function TrackIdentifiers(st: DeleteState, n: Node): (r: DeleteState)
    ensures st.usedIdentifiers <= r.usedIdentifiers
    ensures r.usedIdentifiers - st.usedIdentifiers <= st.declaredVariables + st.declaredFunctions
    ensures st.declaredVariables == {} && st.declaredFunctions == {} ==> r.usedIdentifiers == st.usedIdentifiers
    ensures DeclarationOf(n).Some? ==> r.usedIdentifiers == st.usedIdentifiers
    ensures forall x :: x in r.declaredVariables <==> x in st.declaredVariables || DeclarationOf(n) == Some(Declaration(Variable, x))
    ensures forall x :: x in r.declaredFunctions <==> x in st.declaredFunctions || DeclarationOf(n) == Some(Declaration(Function, x))
  {
    match n
    case Declarator(x) => st.(declaredVariables := st.declaredVariables + {x})
    case FunctionDecl(x) => st.(declaredFunctions := st.declaredFunctions + {x})
    case Ident(x, _, _) =>
      if x in st.declaredVariables || x in st.declaredFunctions then
        st.(usedIdentifiers := st.usedIdentifiers + {x})
      else st
    case _ => st
  }

  /** Entering a node: `enter` clears the sets and tracks the node, then
      the `Identifier` visitor tracks an identifier once more. Whatever
      came before, no identifier is marked used afterwards. */
  function OnEnter(st: DeleteState, n: Node): (r: DeleteState)
    ensures r.usedIdentifiers == {}
    ensures r.declaredVariables == (if n.Declarator? then {n.id} else {})
    ensures r.declaredFunctions == (if n.FunctionDecl? then {n.id} else {})
  {
    var cleared := TrackIdentifiers(Cleared, n);
    if n.Ident? then TrackIdentifiers(cleared, n) else cleared
  }

  /** Exiting a node: whether `exit` removes it. */
  predicate RemovedOnExit(st: DeleteState, n: Node) {
    (n.Declarator? || n.FunctionDecl?) && n.id !in st.usedIdentifiers
  }

  datatype Run = Run(state: DeleteState, removed: seq<Declaration>)

  function Step(run: Run, e: Event): Run {
    match e
    case Enter(n) => run.(state := OnEnter(run.state, n))
    case Exit(n) =>
      if RemovedOnExit(run.state, n) then run.(removed := run.removed + [DeclarationOf(n).value])
      else run
  }

  function RunAll(es: seq<Event>): Run
    decreases |es|
  {
    if es == [] then Run(Cleared, []) else Step(RunAll(es[..|es| - 1]), es[|es| - 1])
  }

  /** The reference: every declaration the traversal exits, in exit order. */
  function ExitedDeclarations(es: seq<Event>): (ds: seq<Declaration>)
    ensures forall d :: d in ds <==> exists i :: 0 <= i < |es| && es[i].Exit? && DeclarationOf(es[i].node) == Some(d)
    decreases |es|
  {
    if es == [] then []
    else
      var rest := ExitedDeclarations(es[1..]);
      assert forall i :: 1 <= i < |es| ==> es[i] == es[1..][i - 1];
      (if es[0].Exit? && DeclarationOf(es[0].node).Some? then [DeclarationOf(es[0].node).value] else []) + rest
  }

  /** `deleteCode` removes every declaration it exits, whether or not its
      name is used anywhere. */
  function DeleteCode(es: seq<Event>): (removed: seq<Declaration>)
    ensures removed == ExitedDeclarations(es)
  {
    UsedAlwaysEmpty(es);
    RunAll(es).removed
  }

  lemma {:induction false} ExitedDeclarationsSnoc(es: seq<Event>, e: Event)
    ensures ExitedDeclarations(es + [e]) == ExitedDeclarations(es)
      + (if e.Exit? && DeclarationOf(e.node).Some? then [DeclarationOf(e.node).value] else [])
    decreases |es|
  {
    if es == [] {
      assert [e][1..] == [];
    } else {
      assert (es + [e])[1..] == es[1..] + [e];
      ExitedDeclarationsSnoc(es[1..], e);
    }
  }

  /** The heart of the machine: no identifier is ever marked used, so
      every exit of a declaration removes it. */
  lemma {:induction false} UsedAlwaysEmpty(es: seq<Event>)
    ensures RunAll(es).state.usedIdentifiers == {}
    ensures RunAll(es).removed == ExitedDeclarations(es)
    decreases |es|
  {
    if es != [] {
      var init, e := es[..|es| - 1], es[|es| - 1];
      UsedAlwaysEmpty(init);
      assert es == init + [e];
      ExitedDeclarationsSnoc(init, e);
    }
  }

  /** On a tree, `deleteCode` removes exactly the declarations the tree contains. */
  lemma DeleteCodeRemovesEveryDeclaration(t: Tree)
    ensures forall d :: d in DeleteCode(Events(t)) <==> d in Declarations(PreOrder(t))
  {
    ExitsArePreOrder(t);
    var es, ns := Events(t), PreOrder(t);
    forall d
      ensures d in DeleteCode(es) <==> d in Declarations(ns)
    {
      if d in DeleteCode(es) {
        var i :| 0 <= i < |es| && es[i].Exit? && DeclarationOf(es[i].node) == Some(d);
        assert Exit(es[i].node) in es;
        var j :| 0 <= j < |ns| && ns[j] == es[i].node;
      }
      if d in Declarations(ns) {
        var j :| 0 <= j < |ns| && DeclarationOf(ns[j]) == Some(d);
        assert ns[j] in ns;
        var i :| 0 <= i < |es| && es[i] == Exit(ns[j]);
      }
    }
  }

  /** A declaration the scanner does not report as unused is removed all the same. */
  lemma DeleteCodeRemovesUsed(t: Tree, x: Name, i: nat)
    requires i < |PreOrder(t)| && PreOrder(t)[i] == Declarator(x)
    ensures Declaration(Variable, x) in DeleteCode(Events(t))
  {
    DeleteCodeRemovesEveryDeclaration(t);
    assert DeclarationOf(PreOrder(t)[i]) == Some(Declaration(Variable, x));
  }

  /** The program body left by `deleteCode`: each removal takes the
      declaration's whole subtree with it. */
  function PruneForest(ts: seq<Tree>): seq<Tree>
    decreases ts
  {
    if ts == [] then []
    else if DeclarationOf(ts[0].node).Some? then PruneForest(ts[1..])
    else [Tree(ts[0].node, PruneForest(ts[0].children))] + PruneForest(ts[1..])
  }

  /** What is left has no declaration in it, and every node left was in the original. */
  lemma {:induction false} PruneForestShape(ts: seq<Tree>)
    ensures forall n :: n in PreOrderForest(PruneForest(ts)) ==> DeclarationOf(n).None? && n in PreOrderForest(ts)
    decreases ts
  {
    if ts != [] {
      PruneForestShape(ts[1..]);
      PruneForestShape(ts[0].children);
      assert PreOrder(ts[0]) == [ts[0].node] + PreOrderForest(ts[0].children);
      if DeclarationOf(ts[0].node).None? {
        var kept := Tree(ts[0].node, PruneForest(ts[0].children));
        assert PruneForest(ts) == [kept] + PruneForest(ts[1..]);
        assert PruneForest(ts)[1..] == PruneForest(ts[1..]);
        assert PreOrder(kept) == [ts[0].node] + PreOrderForest(PruneForest(ts[0].children));
      }
    }
  }

  /** A program body without declarations has nothing to report. */
  lemma PruneForestReportsNothing(ts: seq<Tree>)
    ensures Liveness.FindUnused(PreOrderForest(PruneForest(ts))).variables == []
    ensures Liveness.FindUnused(PreOrderForest(PruneForest(ts))).functions == []
  {
    var ns := PreOrderForest(PruneForest(ts));
    PruneForestShape(ts);
    forall i | 0 <= i < |ns|
      ensures DeclarationOf(ns[i]).None?
    {
      assert ns[i] in ns;
    }
    forall x
      ensures x !in Elems(Liveness.FindUnused(ns).variables) && x !in Elems(Liveness.FindUnused(ns).functions)
    {
      Liveness.UnusedVariablesIff(ns, x);
      Liveness.UnusedFunctionsIff(ns, x);
    }
    ElemsEmpty(Liveness.FindUnused(ns).variables);
    ElemsEmpty(Liveness.FindUnused(ns).functions);
  }

  /** The program body left once the declarations listed in `removed`
      are removed: `path.remove()` on a declaration takes its whole
      subtree with it. */
  function RemoveListed(ts: seq<Tree>, removed: seq<Declaration>): seq<Tree>
    decreases ts
  {
    if ts == [] then []
    else if DeclarationOf(ts[0].node).Some? && DeclarationOf(ts[0].node).value in removed then RemoveListed(ts[1..], removed)
    else [Tree(ts[0].node, RemoveListed(ts[0].children, removed))] + RemoveListed(ts[1..], removed)
  }

  /** Every node left was in the original, and none of them declares a listed declaration. */
  lemma {:induction false} RemoveListedShape(ts: seq<Tree>, removed: seq<Declaration>)
    ensures forall n :: n in PreOrderForest(RemoveListed(ts, removed)) ==>
      n in PreOrderForest(ts) && !(DeclarationOf(n).Some? && DeclarationOf(n).value in removed)
    decreases ts
  {
    if ts != [] {
      RemoveListedShape(ts[1..], removed);
      RemoveListedShape(ts[0].children, removed);
      assert PreOrder(ts[0]) == [ts[0].node] + PreOrderForest(ts[0].children);
      if !(DeclarationOf(ts[0].node).Some? && DeclarationOf(ts[0].node).value in removed) {
        var kept := Tree(ts[0].node, RemoveListed(ts[0].children, removed));
        assert RemoveListed(ts, removed) == [kept] + RemoveListed(ts[1..], removed);
        assert RemoveListed(ts, removed)[1..] == RemoveListed(ts[1..], removed);
        assert PreOrder(kept) == [ts[0].node] + PreOrderForest(RemoveListed(ts[0].children, removed));
      }
    }
  }

  /** Listing every declaration of the body removes them all. */
  lemma {:induction false} RemoveAllIsPrune(ts: seq<Tree>, removed: seq<Declaration>)
    requires forall n :: n in PreOrderForest(ts) && DeclarationOf(n).Some? ==> DeclarationOf(n).value in removed
    ensures RemoveListed(ts, removed) == PruneForest(ts)
    decreases ts
  {
    if ts != [] {
      assert PreOrderForest(ts) == PreOrder(ts[0]) + PreOrderForest(ts[1..]);
      assert PreOrder(ts[0]) == [ts[0].node] + PreOrderForest(ts[0].children);
      RemoveAllIsPrune(ts[1..], removed);
      if DeclarationOf(ts[0].node).None? {
        RemoveAllIsPrune(ts[0].children, removed);
      } else {
        assert ts[0].node in PreOrderForest(ts);
      }
    }
  }

  /** A listed declaration is not reported for its kind once the listed
      declarations are removed: every declarator or function declaration
      of that name and kind is gone. */
  lemma RemovedNotReported(ts: seq<Tree>, removed: seq<Declaration>, d: Declaration)
    requires d in removed
    ensures d.kind == Variable ==> d.name !in Liveness.FindUnused(PreOrderForest(RemoveListed(ts, removed))).variables
    ensures d.kind == Function ==> d.name !in Liveness.FindUnused(PreOrderForest(RemoveListed(ts, removed))).functions
  {
    var ns := PreOrderForest(RemoveListed(ts, removed));
    RemoveListedShape(ts, removed);
    forall i | 0 <= i < |ns|
      ensures DeclarationOf(ns[i]) != Some(d)
    {
      assert ns[i] in ns;
    }
    Liveness.UnusedVariablesIff(ns, d.name);
    Liveness.UnusedFunctionsIff(ns, d.name);
  }

  /** After `deleteCode` on a file, the body it leaves (what remains of
      the root's children) is the body with every declaration pruned, and
      the scanner reports no unused variable or function in it. */
  lemma NothingUnusedAfterDelete(t: Tree)
    ensures RemoveListed(t.children, DeleteCode(Events(t))) == PruneForest(t.children)
    ensures Liveness.FindUnused(PreOrderForest(RemoveListed(t.children, DeleteCode(Events(t))))).variables == []
    ensures Liveness.FindUnused(PreOrderForest(RemoveListed(t.children, DeleteCode(Events(t))))).functions == []
  {
    var removed := DeleteCode(Events(t));
    DeleteCodeRemovesEveryDeclaration(t);
    assert PreOrder(t) == [t.node] + PreOrderForest(t.children);
    forall n | n in PreOrderForest(t.children) && DeclarationOf(n).Some?
      ensures DeclarationOf(n).value in removed
    {
      var j :| 0 <= j < |PreOrderForest(t.children)| && PreOrderForest(t.children)[j] == n;
      assert PreOrder(t)[j + 1] == n;
    }
    RemoveAllIsPrune(t.children, removed);
    PruneForestReportsNothing(t.children);
  }

  /** The evidently intended `deleteCode`: remove an exited declaration
      only when the scanner reports its name as unused for its kind. */
  function DeleteUnused(es: seq<Event>, report: Liveness.Report): (removed: seq<Declaration>)
    ensures forall d :: d in removed <==> d in ExitedDeclarations(es) && Commenting.ReportedUnused(report, d)
    ensures IsSubsequence(removed, ExitedDeclarations(es))
  {
    FilterIsSubsequence(ExitedDeclarations(es), (d: Declaration) => Commenting.ReportedUnused(report, d));
    Filter(ExitedDeclarations(es), (d: Declaration) => Commenting.ReportedUnused(report, d))
  }

  /** On a tree, the intended deletion removes exactly what the intended
      commenting wraps. */
  lemma DeleteUnusedAgreesWithCommentUnused(t: Tree)
    ensures forall d ::
      d in DeleteUnused(Events(t), Liveness.FindUnused(PreOrder(t))) <==> d in Commenting.CommentUnused(PreOrder(t))
  {
    DeleteCodeRemovesEveryDeclaration(t);
  }

  /** The intended deletion keeps a variable that some identifier references. */
  lemma DeleteUnusedKeepsUsed(t: Tree, x: Name, i: nat)
    requires i < |PreOrder(t)| && Liveness.CountsAsReference(PreOrder(t)[i]) && PreOrder(t)[i].name == x
    ensures Declaration(Variable, x) !in DeleteUnused(Events(t), Liveness.FindUnused(PreOrder(t)))
    ensures Declaration(Function, x) !in DeleteUnused(Events(t), Liveness.FindUnused(PreOrder(t)))
  {
    Liveness.UnusedVariablesIff(PreOrder(t), x);
    Liveness.UnusedFunctionsIff(PreOrder(t), x);
  }

  /** After the intended deletion of a file's body, no declaration it
      removed is reported for its kind by a fresh scan of what is left. */
  lemma DeleteUnusedRemovedNotReported(t: Tree, d: Declaration)
    requires d in DeleteUnused(Events(t), Liveness.FindUnused(PreOrder(t)))
    ensures d.kind == Variable ==>
      d.name !in Liveness.FindUnused(PreOrderForest(RemoveListed(t.children, DeleteUnused(Events(t), Liveness.FindUnused(PreOrder(t)))))).variables
    ensures d.kind == Function ==>
      d.name !in Liveness.FindUnused(PreOrderForest(RemoveListed(t.children, DeleteUnused(Events(t), Liveness.FindUnused(PreOrder(t)))))).functions
  {
    RemovedNotReported(t.children, DeleteUnused(Events(t), Liveness.FindUnused(PreOrder(t))), d);
  }
}
