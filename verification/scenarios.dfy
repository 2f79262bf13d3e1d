/** Concrete programs: the sample file of the repository's test suite
    (__tests__/index.test.js:25-31) and two small programs that show how
    the scanner judges an initializer and a name declared in two scopes. */
module Scenarios {
  import opened OrderedSets
  import opened Syntax
  import opened Liveness
  import opened Commenting
  import opened Deletion

  function Leaf(n: Node): Tree { Tree(n, []) }

  // The sample file, statement by statement; `Other` stands for the
  // program, statement, literal and block nodes no visitor looks at.

  /** `const unusedVariable = 10;` */
  const UnusedVariableStmt := Tree(Other, [Tree(Declarator("unusedVariable"),
    [Leaf(Ident("unusedVariable", VariableDeclarator, true)), Leaf(Other)])])

  /** `function unusedFunction() {}` */
  const UnusedFunctionStmt := Tree(FunctionDecl("unusedFunction"),
    [Leaf(Ident("unusedFunction", FunctionDeclaration, true)), Leaf(Other)])

  /** `const usedVariable = 20;` */
  const UsedVariableStmt := Tree(Other, [Tree(Declarator("usedVariable"),
    [Leaf(Ident("usedVariable", VariableDeclarator, true)), Leaf(Other)])])

  /** `function usedFunction() { return usedVariable; }` */
  const UsedFunctionStmt := Tree(FunctionDecl("usedFunction"),
    [Leaf(Ident("usedFunction", FunctionDeclaration, true)),
     Tree(Other, [Tree(Other, [Leaf(Ident("usedVariable", OtherType, true))])])])

  /** `usedFunction()` */
  const CallStmt := Tree(Other, [Tree(Call(CalleeIdentifier("usedFunction")),
    [Leaf(Ident("usedFunction", CallExpression, true))])])

  const SampleFile := Tree(Other, [UnusedVariableStmt, UnusedFunctionStmt, UsedVariableStmt, UsedFunctionStmt, CallStmt])

  const SampleNodes := [
    Other,
    Other, Declarator("unusedVariable"), Ident("unusedVariable", VariableDeclarator, true), Other,
    FunctionDecl("unusedFunction"), Ident("unusedFunction", FunctionDeclaration, true), Other,
    Other, Declarator("usedVariable"), Ident("usedVariable", VariableDeclarator, true), Other,
    FunctionDecl("usedFunction"), Ident("usedFunction", FunctionDeclaration, true),
      Other, Other, Ident("usedVariable", OtherType, true),
    Other, Call(CalleeIdentifier("usedFunction")), Ident("usedFunction", CallExpression, true)
  ]

  lemma UnusedVariableStmtWellFormed() ensures WellFormed(UnusedVariableStmt) {
    assert WellFormed(UnusedVariableStmt.children[0]);
  }
  lemma UnusedFunctionStmtWellFormed() ensures WellFormed(UnusedFunctionStmt) { }
  lemma UsedVariableStmtWellFormed() ensures WellFormed(UsedVariableStmt) {
    assert WellFormed(UsedVariableStmt.children[0]);
  }
  lemma UsedFunctionStmtWellFormed() ensures WellFormed(UsedFunctionStmt) {
    assert WellFormed(UsedFunctionStmt.children[1].children[0]);
    assert WellFormed(UsedFunctionStmt.children[1]);
  }
  lemma CallStmtWellFormed() ensures WellFormed(CallStmt) {
    assert WellFormed(CallStmt.children[0]);
  }

  lemma UnusedVariableStmtPreOrder()
    ensures PreOrder(UnusedVariableStmt)
      == [Other, Declarator("unusedVariable"), Ident("unusedVariable", VariableDeclarator, true), Other]
  {
  }
  lemma UnusedFunctionStmtPreOrder()
    ensures PreOrder(UnusedFunctionStmt)
      == [FunctionDecl("unusedFunction"), Ident("unusedFunction", FunctionDeclaration, true), Other]
  {
  }
  lemma UsedVariableStmtPreOrder()
    ensures PreOrder(UsedVariableStmt)
      == [Other, Declarator("usedVariable"), Ident("usedVariable", VariableDeclarator, true), Other]
  {
  }
  lemma UsedFunctionStmtPreOrder()
    ensures PreOrder(UsedFunctionStmt)
      == [FunctionDecl("usedFunction"), Ident("usedFunction", FunctionDeclaration, true),
          Other, Other, Ident("usedVariable", OtherType, true)]
  {
  }
  lemma CallStmtPreOrder()
    ensures PreOrder(CallStmt)
      == [Other, Call(CalleeIdentifier("usedFunction")), Ident("usedFunction", CallExpression, true)]
  {
  }

  /** The sample file is a tree the parser could have produced ... */
  lemma SampleFileWellFormed()
    ensures WellFormed(SampleFile)
  {
    UnusedVariableStmtWellFormed();
    UnusedFunctionStmtWellFormed();
    UsedVariableStmtWellFormed();
    UsedFunctionStmtWellFormed();
    CallStmtWellFormed();
    assert forall i :: 0 <= i < |SampleFile.children| ==> WellFormed(SampleFile.children[i]);
  }

  /** ... and its pre-order is `SampleNodes`. */
  lemma SampleFilePreOrder()
    ensures PreOrder(SampleFile) == SampleNodes
  {
    UnusedVariableStmtPreOrder();
    UnusedFunctionStmtPreOrder();
    UsedVariableStmtPreOrder();
    UsedFunctionStmtPreOrder();
    CallStmtPreOrder();
    var cs := SampleFile.children;
    assert PreOrderForest(cs[4..]) == PreOrder(CallStmt);
    assert PreOrderForest(cs[3..]) == PreOrder(UsedFunctionStmt) + PreOrderForest(cs[4..]);
    assert PreOrderForest(cs[2..]) == PreOrder(UsedVariableStmt) + PreOrderForest(cs[3..]);
    assert PreOrderForest(cs[1..]) == PreOrder(UnusedFunctionStmt) + PreOrderForest(cs[2..]);
    assert PreOrderForest(cs) == PreOrder(UnusedVariableStmt) + PreOrderForest(cs[1..]);
  }

  lemma SampleUnreferenced(x: Name)
    requires x == "unusedVariable" || x == "unusedFunction"
    ensures forall j | 0 <= j < |SampleNodes| :: !(CountsAsReference(SampleNodes[j]) && SampleNodes[j].name == x)
    ensures forall j | 0 <= j < |SampleNodes| :: SampleNodes[j] != Call(CalleeIdentifier(x))
  {
    forall j | 0 <= j < |SampleNodes|
      ensures !(CountsAsReference(SampleNodes[j]) && SampleNodes[j].name == x)
      ensures SampleNodes[j] != Call(CalleeIdentifier(x))
    {
      assert SampleNodes[j] in SampleNodes;
    }
  }

  /** The scanner's verdict on the sample file: the two unused
      declarations are reported ... */
  lemma SampleFileReportsUnusedVariable()
    ensures "unusedVariable" in FindUnused(PreOrder(SampleFile)).variables
  {
    SampleFilePreOrder();
    SampleUnreferenced("unusedVariable");
    UnreferencedVariableReported(PreOrder(SampleFile), 2, "unusedVariable");
  }

  lemma SampleFileReportsUnusedFunction()
    ensures "unusedFunction" in FindUnused(PreOrder(SampleFile)).functions
  {
    SampleFilePreOrder();
    SampleUnreferenced("unusedFunction");
    UnreferencedFunctionReported(PreOrder(SampleFile), 5, "unusedFunction");
  }

  /** ... and the two used ones are not. */
  lemma SampleFileKeepsUsed()
    ensures "usedVariable" !in FindUnused(PreOrder(SampleFile)).variables
    ensures "usedFunction" !in FindUnused(PreOrder(SampleFile)).functions
  {
    SampleFilePreOrder();
    ReferenceCredits(PreOrder(SampleFile), 16, "usedVariable");
    CallCreditsFunction(PreOrder(SampleFile), 18, "usedFunction");
  }

  /** `commentCode` wraps nothing in the sample file, though
      `unusedVariable` and `unusedFunction` are reported unused. */
  lemma SampleFileCommentWrapsNothing()
    ensures CommentCode(PreOrder(SampleFile)) == []
    ensures "unusedVariable" in FindUnused(PreOrder(SampleFile)).variables
  {
    SampleFileWellFormed();
    CommentCodeWrapsNothingInTree(SampleFile);
    SampleFileReportsUnusedVariable();
  }

  /** Where the sample file's declarations sit in its pre-order. */
  lemma SampleFileDeclarationSites()
    ensures |PreOrder(SampleFile)| == 20
    ensures PreOrder(SampleFile)[2] == Declarator("unusedVariable")
    ensures PreOrder(SampleFile)[5] == FunctionDecl("unusedFunction")
  {
    SampleFilePreOrder();
  }

  /** The intended rewrite wraps the unused declarations ... */
  lemma SampleFileCommentUnusedWrapsVariable()
    ensures Declaration(Variable, "unusedVariable") in CommentUnused(PreOrder(SampleFile))
  {
    SampleFileDeclarationSites();
    SampleFileReportsUnusedVariable();
    ReportedDeclarationWrapped(PreOrder(SampleFile), 2);
  }

  lemma SampleFileCommentUnusedWrapsFunction()
    ensures Declaration(Function, "unusedFunction") in CommentUnused(PreOrder(SampleFile))
  {
    SampleFileDeclarationSites();
    SampleFileReportsUnusedFunction();
    ReportedDeclarationWrapped(PreOrder(SampleFile), 5);
  }

  /** ... and leaves the used ones alone. */
  lemma SampleFileCommentUnusedKeeps()
    ensures Declaration(Variable, "usedVariable") !in CommentUnused(PreOrder(SampleFile))
    ensures Declaration(Function, "usedFunction") !in CommentUnused(PreOrder(SampleFile))
  {
    SampleFileKeepsUsed();
  }

  /** `deleteCode` removes `usedVariable`, which `usedFunction` returns;
      in the body it leaves the scanner reports nothing, as the test
      suite expects. */
  lemma SampleFileDeleteRemovesUsed()
    ensures Declaration(Variable, "usedVariable") in DeleteCode(Events(SampleFile))
    ensures "usedVariable" !in FindUnused(PreOrder(SampleFile)).variables
    ensures FindUnused(PreOrderForest(RemoveListed(SampleFile.children, DeleteCode(Events(SampleFile))))).variables == []
    ensures FindUnused(PreOrderForest(RemoveListed(SampleFile.children, DeleteCode(Events(SampleFile))))).functions == []
  {
    SampleFilePreOrder();
    DeleteCodeRemovesUsed(SampleFile, "usedVariable", 9);
    SampleFileKeepsUsed();
    NothingUnusedAfterDelete(SampleFile);
  }

  /** The intended deletion removes `unusedVariable` and keeps
      `usedVariable`; a fresh scan of what it leaves no longer reports
      `unusedVariable`. */
  lemma SampleFileDeleteUnused()
    ensures Declaration(Variable, "unusedVariable") in DeleteUnused(Events(SampleFile), FindUnused(PreOrder(SampleFile)))
    ensures Declaration(Variable, "usedVariable") !in DeleteUnused(Events(SampleFile), FindUnused(PreOrder(SampleFile)))
    ensures "unusedVariable" !in
      FindUnused(PreOrderForest(RemoveListed(SampleFile.children, DeleteUnused(Events(SampleFile), FindUnused(PreOrder(SampleFile)))))).variables
  {
    SampleFileCommentUnusedWrapsVariable();
    SampleFileCommentUnusedKeeps();
    DeleteUnusedAgreesWithCommentUnused(SampleFile);
    DeleteUnusedRemovedNotReported(SampleFile, Declaration(Variable, "unusedVariable"));
  }

  /** `const b = 1; const a = b; console.log(a)`: the initializer of `a`
      is itself the bare identifier `b`, whose parent is therefore the
      declarator, so it does not count and `b` is reported unused. */
  const InitializerNodes := [
    Other,
    Other, Declarator("b"), Ident("b", VariableDeclarator, true), Other,
    Other, Declarator("a"), Ident("a", VariableDeclarator, true), Ident("b", VariableDeclarator, true),
    Other, Call(CalleeExpression), Other, Ident("console", OtherType, false), Ident("log", OtherType, false),
      Ident("a", CallExpression, true)
  ]

  lemma InitializerNotCounted()
    ensures "b" in FindUnused(InitializerNodes).variables
    ensures "a" !in FindUnused(InitializerNodes).variables
  {
    var ns := InitializerNodes;
    forall j | 0 <= j < |ns|
      ensures !(CountsAsReference(ns[j]) && ns[j].name == "b")
    {
      assert ns[j] in InitializerNodes;
    }
    UnreferencedVariableReported(ns, 2, "b");
    ReferenceCredits(ns, 14, "a");
  }

  /** `const b = 1; const a = b + 1; console.log(a)`: here the `b` in the
      initializer has the binary expression as its parent, so it counts
      and `b` is not reported. */
  const InitializerExpressionNodes := [
    Other,
    Other, Declarator("b"), Ident("b", VariableDeclarator, true), Other,
    Other, Declarator("a"), Ident("a", VariableDeclarator, true), Other, Ident("b", OtherType, true), Other,
    Other, Call(CalleeExpression), Other, Ident("console", OtherType, false), Ident("log", OtherType, false),
      Ident("a", CallExpression, true)
  ]

  lemma InitializerExpressionCounts()
    ensures "b" !in FindUnused(InitializerExpressionNodes).variables
  {
    ReferenceCredits(InitializerExpressionNodes, 9, "b");
  }

  /** `function f() { const x = 1 } function g() { const x = 2; console.log(x) }`:
      names are compared without regard to scope, so the `x` used in `g`
      keeps the unused `x` of `f` from being reported. */
  const TwoScopesNodes := [
    Other,
    FunctionDecl("f"), Ident("f", FunctionDeclaration, true), Other,
      Other, Declarator("x"), Ident("x", VariableDeclarator, true), Other,
    FunctionDecl("g"), Ident("g", FunctionDeclaration, true), Other,
      Other, Declarator("x"), Ident("x", VariableDeclarator, true), Other,
      Other, Call(CalleeExpression), Other, Ident("console", OtherType, false), Ident("log", OtherType, false),
        Ident("x", CallExpression, true)
  ]

  lemma TwoScopesShareAName()
    ensures "x" !in FindUnused(TwoScopesNodes).variables
  {
    ReferenceCredits(TwoScopesNodes, 20, "x");
  }

  lemma TwoScopesUnreferencedFunction()
    ensures "f" in FindUnused(TwoScopesNodes).functions
  {
    var ns := TwoScopesNodes;
    forall j | 0 <= j < |ns|
      ensures !(CountsAsReference(ns[j]) && ns[j].name == "f")
      ensures ns[j] != Call(CalleeIdentifier("f"))
    {
      assert ns[j] in TwoScopesNodes;
    }
    UnreferencedFunctionReported(ns, 1, "f");
  }
}
