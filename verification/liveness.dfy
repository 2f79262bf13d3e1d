/** `findUnused`: the two-pass liveness scan of one file (lib.js:34-135).
    Pass 1 records declared variable, function and JSX names, each both in
    a `declared` set and in an insertion-ordered `unused` set, together with
    the exported names and the local names of import specifiers. Pass 2
    deletes from the `unused` sets every name a qualifying reference
    credits. The report lists what is left, plus the exported names that
    are not among the imported ones. */
module Liveness {
  import opened OrderedSets
  import opened Syntax

  /** The five name collections pass 1 fills. */
  datatype Category = Variables | Functions | Components | Exports | Imports

  /** The names pass 1 records for one node in one collection, in the order it adds them. */
  function Recorded(n: Node, c: Category): seq<Name> {
    match n
    case Declarator(x) => if c == Variables then [x] else []
    case FunctionDecl(x) => if c == Functions then [x] else []
    case ExportNamed(shape) => if c == Exports then ExportedNames(shape) else []
    case ImportSpec(x) => if c == Imports then [x] else []
    case JsxName(x) => if c == Components then [x] else []
    case _ => []
  }

  /** Everything pass 1 records in one collection, over a whole pre-order sequence. */
  function RecordedAll(ns: seq<Node>, c: Category): seq<Name>
    decreases |ns|
  {
    if ns == [] then [] else RecordedAll(ns[..|ns| - 1], c) + Recorded(ns[|ns| - 1], c)
  }

  /** An identifier that counts as a reference: its parent is neither a
      variable declarator nor a function declaration, and the scope has
      a binding for its name. */
  predicate CountsAsReference(n: Node) {
    && n.Ident?
    && n.parentType != VariableDeclarator
    && n.parentType != FunctionDeclaration
    && n.hasBinding
  }

  /** The names one node credits as used in one collection during pass 2:
      a counting identifier credits variables and functions, a call whose
      callee is a plain identifier credits functions, a JSX identifier
      credits components. */
  function Credited(n: Node, c: Category): set<Name> {
    match c
    case Variables => if CountsAsReference(n) then {n.name} else {}
    case Functions =>
      (if CountsAsReference(n) then {n.name} else {})
      + (if n.Call? && n.callee.CalleeIdentifier? then {n.callee.name} else {})
    case Components => if n.JsxName? then {n.name} else {}
    case _ => {}
  }

  function CreditedAll(ns: seq<Node>, c: Category): set<Name>
    decreases |ns|
  {
    if ns == [] then {} else CreditedAll(ns[..|ns| - 1], c) + Credited(ns[|ns| - 1], c)
  }

  /** The scanner's state: the `declared` and `unused` sets per kind, and the export and import sets. */
  datatype Scan = Scan(
    declaredVariables: set<Name>,
    declaredFunctions: set<Name>,
    declaredComponents: set<Name>,
    unusedVariables: seq<Name>,
    unusedFunctions: seq<Name>,
    unusedComponents: seq<Name>,
    exported: seq<Name>,
    imported: set<Name>)

  const EmptyScan := Scan({}, {}, {}, [], [], [], [], {})

  /** The pass-1 visitors on one node. */
  function Declare(s: Scan, n: Node): Scan {
    match n
    case Declarator(x) =>
      s.(declaredVariables := s.declaredVariables + {x},
         unusedVariables := Add(s.unusedVariables, x))
    case FunctionDecl(x) =>
      s.(declaredFunctions := s.declaredFunctions + {x},
         unusedFunctions := Add(s.unusedFunctions, x))
    case ExportNamed(shape) =>
      s.(exported := AddAll(s.exported, ExportedNames(shape)))
    case ImportSpec(x) =>
      s.(imported := s.imported + {x})
    case JsxName(x) =>
      s.(declaredComponents := s.declaredComponents + {x},
         unusedComponents := Add(s.unusedComponents, x))
    case _ => s
  }

  /** Pass 1 over a pre-order sequence. */
  function DeclareAll(ns: seq<Node>): Scan
    decreases |ns|
  {
    if ns == [] then EmptyScan else Declare(DeclareAll(ns[..|ns| - 1]), ns[|ns| - 1])
  }

  /** The pass-2 visitors on one node; each deletion is guarded by a `has` on the declared set. */
  function Resolve(s: Scan, n: Node): Scan {
    match n
    case Ident(x, parent, bound) =>
      if parent != VariableDeclarator && parent != FunctionDeclaration && bound then
        s.(unusedVariables :=
             if x in s.declaredVariables then Delete(s.unusedVariables, x) else s.unusedVariables,
           unusedFunctions :=
             if x in s.declaredFunctions then Delete(s.unusedFunctions, x) else s.unusedFunctions)
      else s
    case Call(CalleeIdentifier(x)) =>
      if x in s.declaredFunctions then s.(unusedFunctions := Delete(s.unusedFunctions, x)) else s
    case JsxName(x) =>
      if x in s.declaredComponents then s.(unusedComponents := Delete(s.unusedComponents, x)) else s
    case _ => s
  }

  /** Pass 2 over a pre-order sequence, starting from the state pass 1 left. */
  function ResolveAll(s: Scan, ns: seq<Node>): Scan
    decreases |ns|
  {
    if ns == [] then s else Resolve(ResolveAll(s, ns[..|ns| - 1]), ns[|ns| - 1])
  }

  /** The returned object; the file path it also echoes is left out. */
  datatype Report = Report(
    variables: seq<Name>,
    functions: seq<Name>,
    components: seq<Name>,
    exports: seq<Name>)

  /** Each unused list is what pass 1 recorded, in first-insertion order,
      minus what pass 2 credited; the components list is always empty
      (every JSX name pass 1 records, pass 2 credits again); the unused
      exports are the exported names that no import specifier brings in. */
  function FindUnused(ns: seq<Node>): (r: Report)
    ensures r.variables == Without(Dedup(RecordedAll(ns, Variables)), CreditedAll(ns, Variables))
    ensures r.functions == Without(Dedup(RecordedAll(ns, Functions)), CreditedAll(ns, Functions))
    ensures r.components == []
    ensures r.exports == Without(Dedup(RecordedAll(ns, Exports)), Elems(RecordedAll(ns, Imports)))
  {
    var declared := DeclareAll(ns);
    DeclareAllRecords(ns);
    ResolveAllDeletes(declared, ns);
    ComponentsCreditedAsRecorded(ns);
    var resolved := ResolveAll(declared, ns);
    var comps := resolved.unusedComponents;
    WithoutAll(declared.unusedComponents, CreditedAll(ns, Components));
    Report(
      resolved.unusedVariables,
      resolved.unusedFunctions,
      comps,
      Without(resolved.exported, resolved.imported))
  }

  lemma AddAllSingle<T>(s: seq<T>, x: T)
    ensures AddAll(s, [x]) == Add(s, x)
  {
    assert [x][..0] == [];
  }

  /** Dedup after appending: the new names are added to the set built so far. */
  lemma DedupAppend<T>(a: seq<T>, b: seq<T>)
    ensures Dedup(a + b) == AddAll(Dedup(a), b)
  {
    AddAllAppend([], a, b);
  }

  /** One pass-1 visit adds the node's recorded names to each declared set and to the import set. */
  lemma DeclareStepDeclared(s: Scan, n: Node)
    ensures Declare(s, n).declaredVariables == s.declaredVariables + Elems(Recorded(n, Variables))
    ensures Declare(s, n).declaredFunctions == s.declaredFunctions + Elems(Recorded(n, Functions))
    ensures Declare(s, n).declaredComponents == s.declaredComponents + Elems(Recorded(n, Components))
    ensures Declare(s, n).imported == s.imported + Elems(Recorded(n, Imports))
  {
    assert Elems<Name>([]) == {};
    if n.Declarator? || n.FunctionDecl? || n.JsxName? || n.ImportSpec? {
      var x := if n.ImportSpec? then n.local else if n.JsxName? then n.name else n.id;
      assert Elems([x]) == {x};
    }
  }

  /** One pass-1 visit adds the node's recorded names, in order, to each unused set and to the export set. */
  lemma DeclareStepUnused(s: Scan, n: Node)
    ensures Declare(s, n).unusedVariables == AddAll(s.unusedVariables, Recorded(n, Variables))
    ensures Declare(s, n).unusedFunctions == AddAll(s.unusedFunctions, Recorded(n, Functions))
    ensures Declare(s, n).unusedComponents == AddAll(s.unusedComponents, Recorded(n, Components))
    ensures Declare(s, n).exported == AddAll(s.exported, Recorded(n, Exports))
  {
    var r := Declare(s, n);
    assert Elems<Name>([]) == {};
    forall c: Category | Recorded(n, c) == []
      ensures AddAll(s.exported, Recorded(n, c)) == s.exported
      ensures AddAll(s.unusedVariables, Recorded(n, c)) == s.unusedVariables
      ensures AddAll(s.unusedFunctions, Recorded(n, c)) == s.unusedFunctions
      ensures AddAll(s.unusedComponents, Recorded(n, c)) == s.unusedComponents
    {
    }
    match n {
      case Declarator(x) =>
        AddAllSingle(s.unusedVariables, x);
        assert Elems([x]) == {x};
      case FunctionDecl(x) =>
        AddAllSingle(s.unusedFunctions, x);
        assert Elems([x]) == {x};
      case JsxName(x) =>
        AddAllSingle(s.unusedComponents, x);
        assert Elems([x]) == {x};
      case ImportSpec(x) =>
        assert Elems([x]) == {x};
      case ExportNamed(shape) =>
        assert r == s.(exported := AddAll(s.exported, ExportedNames(shape)));
      case _ =>
        assert r == s;
    }
  }

  /** Pass 1 records each collection's names in first-insertion order. */
  lemma {:induction false} DeclareAllRecords(ns: seq<Node>)
    ensures DeclareAll(ns).declaredVariables == Elems(RecordedAll(ns, Variables))
    ensures DeclareAll(ns).declaredFunctions == Elems(RecordedAll(ns, Functions))
    ensures DeclareAll(ns).declaredComponents == Elems(RecordedAll(ns, Components))
    ensures DeclareAll(ns).unusedVariables == Dedup(RecordedAll(ns, Variables))
    ensures DeclareAll(ns).unusedFunctions == Dedup(RecordedAll(ns, Functions))
    ensures DeclareAll(ns).unusedComponents == Dedup(RecordedAll(ns, Components))
    ensures DeclareAll(ns).exported == Dedup(RecordedAll(ns, Exports))
    ensures DeclareAll(ns).imported == Elems(RecordedAll(ns, Imports))
    decreases |ns|
  {
    if ns == [] {
      assert Elems<Name>([]) == {};
    } else {
      var init, n := ns[..|ns| - 1], ns[|ns| - 1];
      DeclareAllRecords(init);
      DeclareStepDeclared(DeclareAll(init), n);
      DeclareStepUnused(DeclareAll(init), n);
      forall c: Category
        ensures Dedup(RecordedAll(ns, c)) == AddAll(Dedup(RecordedAll(init, c)), Recorded(n, c))
        ensures Elems(RecordedAll(ns, c)) == Elems(RecordedAll(init, c)) + Elems(Recorded(n, c))
      {
        DedupAppend(RecordedAll(init, c), Recorded(n, c));
        ElemsAppend(RecordedAll(init, c), Recorded(n, c));
      }
    }
  }

  /** A guarded deletion filters out the credited names (a name that was never declared is not in the set). */
  lemma GuardedDelete(u: seq<Name>, declared: set<Name>, x: Name)
    requires Elems(u) <= declared
    ensures (if x in declared then Delete(u, x) else u) == Without(u, {x})
  {
    if x !in declared {
      WithoutAgree(u, {x}, {});
      WithoutNothing(u);
    }
  }

  /** One pass-2 visit filters the unused variables by the name the node credits. */
  lemma ResolveStepVariables(s: Scan, n: Node)
    requires Elems(s.unusedVariables) <= s.declaredVariables
    ensures Resolve(s, n).unusedVariables == Without(s.unusedVariables, Credited(n, Variables))
  {
    if CountsAsReference(n) {
      GuardedDelete(s.unusedVariables, s.declaredVariables, n.name);
    } else {
      WithoutNothing(s.unusedVariables);
    }
  }

  /** One pass-2 visit filters the unused functions by the names the node credits. */
  lemma ResolveStepFunctions(s: Scan, n: Node)
    requires Elems(s.unusedFunctions) <= s.declaredFunctions
    ensures Resolve(s, n).unusedFunctions == Without(s.unusedFunctions, Credited(n, Functions))
  {
    if CountsAsReference(n) {
      assert Credited(n, Functions) == {n.name};
      GuardedDelete(s.unusedFunctions, s.declaredFunctions, n.name);
    } else if n.Call? && n.callee.CalleeIdentifier? {
      assert Credited(n, Functions) == {n.callee.name};
      GuardedDelete(s.unusedFunctions, s.declaredFunctions, n.callee.name);
    } else {
      assert Credited(n, Functions) == {};
      WithoutNothing(s.unusedFunctions);
    }
  }

  /** One pass-2 visit filters the unused components by the name the node credits. */
  lemma ResolveStepComponents(s: Scan, n: Node)
    requires Elems(s.unusedComponents) <= s.declaredComponents
    ensures Resolve(s, n).unusedComponents == Without(s.unusedComponents, Credited(n, Components))
  {
    if n.JsxName? {
      GuardedDelete(s.unusedComponents, s.declaredComponents, n.name);
    } else {
      WithoutNothing(s.unusedComponents);
    }
  }

  /** A pass-2 visit changes nothing but the unused sets. */
  lemma ResolveStepKeeps(s: Scan, n: Node)
    ensures Resolve(s, n).(unusedVariables := [], unusedFunctions := [], unusedComponents := [])
            == s.(unusedVariables := [], unusedFunctions := [], unusedComponents := [])
  {
  }

  /** Pass 2 only deletes: each unused set ends as its starting value
      filtered by what the sequence credits, and nothing else changes. */
  lemma {:induction false} ResolveAllDeletes(s: Scan, ns: seq<Node>)
    requires Elems(s.unusedVariables) <= s.declaredVariables
    requires Elems(s.unusedFunctions) <= s.declaredFunctions
    requires Elems(s.unusedComponents) <= s.declaredComponents
    ensures ResolveAll(s, ns).unusedVariables == Without(s.unusedVariables, CreditedAll(ns, Variables))
    ensures ResolveAll(s, ns).unusedFunctions == Without(s.unusedFunctions, CreditedAll(ns, Functions))
    ensures ResolveAll(s, ns).unusedComponents == Without(s.unusedComponents, CreditedAll(ns, Components))
    ensures ResolveAll(s, ns).(unusedVariables := [], unusedFunctions := [], unusedComponents := [])
            == s.(unusedVariables := [], unusedFunctions := [], unusedComponents := [])
    decreases |ns|
  {
    if ns == [] {
      WithoutNothing(s.unusedVariables);
      WithoutNothing(s.unusedFunctions);
      WithoutNothing(s.unusedComponents);
    } else {
      var init, n := ns[..|ns| - 1], ns[|ns| - 1];
      ResolveAllDeletes(s, init);
      var t := ResolveAll(s, init);
      ResolveStepVariables(t, n);
      ResolveStepFunctions(t, n);
      ResolveStepComponents(t, n);
      ResolveStepKeeps(t, n);
      WithoutWithout(s.unusedVariables, CreditedAll(init, Variables), Credited(n, Variables));
      WithoutWithout(s.unusedFunctions, CreditedAll(init, Functions), Credited(n, Functions));
      WithoutWithout(s.unusedComponents, CreditedAll(init, Components), Credited(n, Components));
    }
  }

  /** Pass 2 credits exactly the JSX names pass 1 recorded. */
  lemma {:induction false} ComponentsCreditedAsRecorded(ns: seq<Node>)
    ensures CreditedAll(ns, Components) == Elems(RecordedAll(ns, Components))
    decreases |ns|
  {
    if ns == [] {
      assert Elems<Name>([]) == {};
    } else {
      var init, n := ns[..|ns| - 1], ns[|ns| - 1];
      ComponentsCreditedAsRecorded(init);
      ElemsAppend(RecordedAll(init, Components), Recorded(n, Components));
      if n.JsxName? {
        assert Elems([n.name]) == {n.name};
      } else {
        assert Elems<Name>([]) == {};
      }
    }
  }

  lemma {:induction false} RecordedAllIff(ns: seq<Node>, c: Category, x: Name)
    ensures x in RecordedAll(ns, c) <==> exists i :: 0 <= i < |ns| && x in Recorded(ns[i], c)
    decreases |ns|
  {
    if ns != [] {
      var init, n := ns[..|ns| - 1], ns[|ns| - 1];
      RecordedAllIff(init, c, x);
      if x in RecordedAll(ns, c) {
        if x !in Recorded(n, c) {
          assert x in RecordedAll(init, c);
          var i :| 0 <= i < |init| && x in Recorded(init[i], c);
          assert ns[i] == init[i];
        }
      }
      if exists i :: 0 <= i < |ns| && x in Recorded(ns[i], c) {
        var i :| 0 <= i < |ns| && x in Recorded(ns[i], c);
        if i < |init| {
          assert init[i] == ns[i];
        }
      }
    }
  }

  lemma {:induction false} CreditedAllIff(ns: seq<Node>, c: Category, x: Name)
    ensures x in CreditedAll(ns, c) <==> exists i :: 0 <= i < |ns| && x in Credited(ns[i], c)
    decreases |ns|
  {
    if ns != [] {
      var init, n := ns[..|ns| - 1], ns[|ns| - 1];
      CreditedAllIff(init, c, x);
      if x in CreditedAll(ns, c) {
        if x !in Credited(n, c) {
          var i :| 0 <= i < |init| && x in Credited(init[i], c);
          assert ns[i] == init[i];
        }
      }
      if exists i :: 0 <= i < |ns| && x in Credited(ns[i], c) {
        var i :| 0 <= i < |ns| && x in Credited(ns[i], c);
        if i < |init| {
          assert init[i] == ns[i];
        }
      }
    }
  }

  /** Membership in the report, in terms of what pass 1 records and pass 2 credits. */
  lemma ReportMembership(ns: seq<Node>, x: Name)
    ensures x in FindUnused(ns).variables <==> x in RecordedAll(ns, Variables) && x !in CreditedAll(ns, Variables)
    ensures x in FindUnused(ns).functions <==> x in RecordedAll(ns, Functions) && x !in CreditedAll(ns, Functions)
    ensures x in FindUnused(ns).exports <==> x in RecordedAll(ns, Exports) && x !in RecordedAll(ns, Imports)
  {
    var r := FindUnused(ns);
    assert x in r.variables <==> x in Elems(r.variables);
    assert x in r.functions <==> x in Elems(r.functions);
    assert x in r.exports <==> x in Elems(r.exports);
  }

  /** What pass 1 records, in terms of the nodes of the sequence. */
  lemma {:induction false} DeclaresIff(ns: seq<Node>, x: Name)
    ensures x in RecordedAll(ns, Variables) <==> exists i :: 0 <= i < |ns| && ns[i] == Declarator(x)
    ensures x in RecordedAll(ns, Functions) <==> exists i :: 0 <= i < |ns| && ns[i] == FunctionDecl(x)
    ensures x in RecordedAll(ns, Components) <==> exists i :: 0 <= i < |ns| && ns[i] == JsxName(x)
    ensures x in RecordedAll(ns, Imports) <==> exists i :: 0 <= i < |ns| && ns[i] == ImportSpec(x)
    ensures x in RecordedAll(ns, Exports) <==>
      exists i :: 0 <= i < |ns| && ns[i].ExportNamed? && x in ExportedNames(ns[i].shape)
  {
    RecordedAllIff(ns, Variables, x);
    RecordedAllIff(ns, Functions, x);
    RecordedAllIff(ns, Components, x);
    RecordedAllIff(ns, Imports, x);
    RecordedAllIff(ns, Exports, x);
    forall i | 0 <= i < |ns|
      ensures x in Recorded(ns[i], Variables) <==> ns[i] == Declarator(x)
      ensures x in Recorded(ns[i], Functions) <==> ns[i] == FunctionDecl(x)
      ensures x in Recorded(ns[i], Components) <==> ns[i] == JsxName(x)
      ensures x in Recorded(ns[i], Imports) <==> ns[i] == ImportSpec(x)
      ensures x in Recorded(ns[i], Exports) <==> ns[i].ExportNamed? && x in ExportedNames(ns[i].shape)
    {
    }
  }

  /** What pass 2 credits, in terms of the nodes of the sequence. */
  lemma {:induction false} CreditsIff(ns: seq<Node>, x: Name)
    ensures x in CreditedAll(ns, Variables) <==>
      exists i :: 0 <= i < |ns| && CountsAsReference(ns[i]) && ns[i].name == x
    ensures x in CreditedAll(ns, Functions) <==>
      || (exists i :: 0 <= i < |ns| && CountsAsReference(ns[i]) && ns[i].name == x)
      || (exists i :: 0 <= i < |ns| && ns[i] == Call(CalleeIdentifier(x)))
  {
    CreditedAllIff(ns, Variables, x);
    CreditedAllIff(ns, Functions, x);
    forall i | 0 <= i < |ns|
      ensures x in Credited(ns[i], Variables) <==> CountsAsReference(ns[i]) && ns[i].name == x
      ensures x in Credited(ns[i], Functions) <==>
        (CountsAsReference(ns[i]) && ns[i].name == x) || ns[i] == Call(CalleeIdentifier(x))
    {
    }
  }

  /** A declared variable is reported exactly when no identifier of that
      name counts as a reference: a declarator's id, an initializer that is
      itself a bare identifier, and a function declaration's id and
      parameters never count. */
  lemma {:induction false} UnusedVariablesIff(ns: seq<Node>, x: Name)
    ensures x in FindUnused(ns).variables <==>
      && (exists i :: 0 <= i < |ns| && ns[i] == Declarator(x))
      && !(exists i :: 0 <= i < |ns| && CountsAsReference(ns[i]) && ns[i].name == x)
  {
    ReportMembership(ns, x);
    DeclaresIff(ns, x);
    CreditsIff(ns, x);
  }

  /** A declared function is reported exactly when no identifier of that
      name counts as a reference and no call has it as a plain-identifier
      callee; a call credits without any binding check. */
  lemma {:induction false} UnusedFunctionsIff(ns: seq<Node>, x: Name)
    ensures x in FindUnused(ns).functions <==>
      && (exists i :: 0 <= i < |ns| && ns[i] == FunctionDecl(x))
      && !(exists i :: 0 <= i < |ns| && CountsAsReference(ns[i]) && ns[i].name == x)
      && !(exists i :: 0 <= i < |ns| && ns[i] == Call(CalleeIdentifier(x)))
  {
    ReportMembership(ns, x);
    DeclaresIff(ns, x);
    CreditsIff(ns, x);
  }

  /** An exported name is reported exactly when no import specifier has it as its local name. */
  lemma {:induction false} UnusedExportsIff(ns: seq<Node>, x: Name)
    ensures x in FindUnused(ns).exports <==>
      && (exists i :: 0 <= i < |ns| && ns[i].ExportNamed? && x in ExportedNames(ns[i].shape))
      && !(exists i :: 0 <= i < |ns| && ns[i] == ImportSpec(x))
  {
    ReportMembership(ns, x);
    DeclaresIff(ns, x);
  }

  /** Each reported list is duplicate-free, in first-declaration (or
      first-export) order, drawn from the matching pass-1 declared set,
      and a subsequence of the list pass 1 built. */
  lemma {:induction false} ReportOrder(ns: seq<Node>)
    ensures FirstOccurrenceOrder(FindUnused(ns).variables, RecordedAll(ns, Variables))
    ensures FirstOccurrenceOrder(FindUnused(ns).functions, RecordedAll(ns, Functions))
    ensures FirstOccurrenceOrder(FindUnused(ns).exports, RecordedAll(ns, Exports))
    ensures Elems(FindUnused(ns).variables) <= DeclareAll(ns).declaredVariables
    ensures Elems(FindUnused(ns).functions) <= DeclareAll(ns).declaredFunctions
    ensures IsSubsequence(FindUnused(ns).variables, DeclareAll(ns).unusedVariables)
    ensures IsSubsequence(FindUnused(ns).functions, DeclareAll(ns).unusedFunctions)
  {
    DeclareAllRecords(ns);
    forall c | c in {Variables, Functions, Exports}
      ensures FirstOccurrenceOrder(Dedup(RecordedAll(ns, c)), RecordedAll(ns, c))
    {
      DedupFirstOccurrence(RecordedAll(ns, c));
    }
    WithoutKeepsOrder(Dedup(RecordedAll(ns, Variables)), RecordedAll(ns, Variables), CreditedAll(ns, Variables));
    WithoutKeepsOrder(Dedup(RecordedAll(ns, Functions)), RecordedAll(ns, Functions), CreditedAll(ns, Functions));
    WithoutKeepsOrder(Dedup(RecordedAll(ns, Exports)), RecordedAll(ns, Exports), Elems(RecordedAll(ns, Imports)));
    WithoutIsSubsequence(Dedup(RecordedAll(ns, Variables)), CreditedAll(ns, Variables));
    WithoutIsSubsequence(Dedup(RecordedAll(ns, Functions)), CreditedAll(ns, Functions));
  }

  /** A variable whose every same-named identifier is a direct child of
      a declarator or a function declaration (a declarator's id, an
      initializer that is itself a bare identifier, a function
      declaration's id or parameter) is reported. */
  lemma {:induction false} DeclarationSitesNeverCount(ns: seq<Node>, x: Name)
    requires exists i :: 0 <= i < |ns| && ns[i] == Declarator(x)
    requires forall i :: 0 <= i < |ns| && ns[i].Ident? && ns[i].name == x ==>
      ns[i].parentType == VariableDeclarator || ns[i].parentType == FunctionDeclaration
    ensures x in FindUnused(ns).variables
  {
    UnusedVariablesIff(ns, x);
  }

  /** A call `f(...)` whose callee is the plain identifier `f` keeps `f` out of the unused functions. */
  lemma {:induction false} CallCreditsFunction(ns: seq<Node>, i: nat, f: Name)
    requires i < |ns| && ns[i] == Call(CalleeIdentifier(f))
    ensures f !in FindUnused(ns).functions
  {
    UnusedFunctionsIff(ns, f);
  }

  /** A declared variable that no identifier references is reported. */
  lemma UnreferencedVariableReported(ns: seq<Node>, i: nat, x: Name)
    requires i < |ns| && ns[i] == Declarator(x)
    requires forall j | 0 <= j < |ns| :: !(CountsAsReference(ns[j]) && ns[j].name == x)
    ensures x in FindUnused(ns).variables
  {
    UnusedVariablesIff(ns, x);
  }

  /** A declared function that no identifier references and no call names is reported. */
  lemma UnreferencedFunctionReported(ns: seq<Node>, i: nat, f: Name)
    requires i < |ns| && ns[i] == FunctionDecl(f)
    requires forall j | 0 <= j < |ns| :: !(CountsAsReference(ns[j]) && ns[j].name == f)
    requires forall j | 0 <= j < |ns| :: ns[j] != Call(CalleeIdentifier(f))
    ensures f in FindUnused(ns).functions
  {
    UnusedFunctionsIff(ns, f);
  }

  /** One counting identifier keeps its name out of both the unused variables and the unused functions. */
  lemma ReferenceCredits(ns: seq<Node>, i: nat, x: Name)
    requires i < |ns| && CountsAsReference(ns[i]) && ns[i].name == x
    ensures x !in FindUnused(ns).variables
    ensures x !in FindUnused(ns).functions
  {
    UnusedVariablesIff(ns, x);
    UnusedFunctionsIff(ns, x);
  }
}
