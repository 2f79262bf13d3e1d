/** `commentCode` (lib.js:144-197): three traversals. Step 1 collects the
    declared variable and function names and counts every JSX name as
    used; step 2 counts as used every identifier whose name is declared;
    step 3 wraps each variable declarator or function declaration whose
    name was not counted in a `/* TODO: Unused ... */` comment. The
    rewrite itself belongs to Babel; the model returns the declarations
    that get wrapped, in traversal order, and the marker text. */
module Commenting {
  import opened OrderedSets
  import opened Syntax
  import Liveness

  datatype CommentState = CommentState(
    declaredVariables: set<Name>,
    declaredFunctions: set<Name>,
    usedIdentifiers: set<Name>)

  /** The step-1 visitors on one node. */
  function Collect(st: CommentState, n: Node): CommentState {
    match n
    case Declarator(x) => st.(declaredVariables := st.declaredVariables + {x})
    case FunctionDecl(x) => st.(declaredFunctions := st.declaredFunctions + {x})
    case JsxName(x) => st.(usedIdentifiers := st.usedIdentifiers + {x})
    case _ => st
  }

  function CollectAll(ns: seq<Node>): CommentState
    decreases |ns|
  {
    if ns == [] then CommentState({}, {}, {}) else Collect(CollectAll(ns[..|ns| - 1]), ns[|ns| - 1])
  }

  /** The step-2 visitor on one node. */
  function Track(st: CommentState, n: Node): CommentState {
    if n.Ident? && (n.name in st.declaredVariables || n.name in st.declaredFunctions) then
      st.(usedIdentifiers := st.usedIdentifiers + {n.name})
    else st
  }

  function TrackAll(st: CommentState, ns: seq<Node>): CommentState
    decreases |ns|
  {
    if ns == [] then st else Track(TrackAll(st, ns[..|ns| - 1]), ns[|ns| - 1])
  }

  /** The names steps 1 and 2 count as used. */
  function UsedIdentifiers(ns: seq<Node>): set<Name> {
    TrackAll(CollectAll(ns), ns).usedIdentifiers
  }

  /** A declaration is wrapped exactly when no JSX identifier and no
      identifier anywhere in the file carries its name. */
  function CommentCode(ns: seq<Node>): (wrapped: seq<Declaration>)
    ensures forall d :: d in wrapped <==>
      && (exists i :: 0 <= i < |ns| && DeclarationOf(ns[i]) == Some(d))
      && !(exists i :: 0 <= i < |ns| && ns[i] == JsxName(d.name))
      && !(exists i :: 0 <= i < |ns| && ns[i].Ident? && ns[i].name == d.name)
    ensures IsSubsequence(wrapped, Declarations(ns))
  {
    var used := UsedIdentifiers(ns);
    UsedIdentifiersIff(ns);
    FilterIsSubsequence(Declarations(ns), (d: Declaration) => d.name !in used);
    Filter(Declarations(ns), (d: Declaration) => d.name !in used)
  }

  /** The header of the marker step 3 substitutes for a declaration of `kind`. */
  function MarkerHeader(kind: DeclKind): string {
    match kind
    case Variable => "/* TODO: Unused Variable \n"
    case Function => "/* TODO: Unused Function \n"
  }

  // Whether a block-comment closer `*/` starts at position `j` of `s`.
  predicate ClosesAt(s: string, j: int) {
    0 <= j && j + 1 < |s| && s[j] == '*' && s[j + 1] == '/'
  }

  /** `s` contains no block-comment closer. */
  predicate NoCloser(s: string) {
    forall j :: 0 <= j < |s| ==> !ClosesAt(s, j)
  }

  /** The first block-comment closer at or after position `from`. */
  function FirstCloser(s: string, from: nat): (k: Option<nat>)
    ensures k.Some? ==> from <= k.value && ClosesAt(s, k.value)
    ensures forall j :: from <= j && (k.None? || j < k.value) ==> !ClosesAt(s, j)
    decreases |s| - from
  {
    if from + 1 >= |s| then None
    else if ClosesAt(s, from) then Some(from)
    else FirstCloser(s, from + 1)
  }

  /** Reading a marker back: the text opens with the header for `kind`,
      and the block comment it opens closes at the very end of the text,
      right after a line break. What lies between the header and that
      line break is the commented-out source. */
  function Unmark(kind: DeclKind, text: string): (source: Option<string>)
    ensures source.Some? ==> text == MarkerHeader(kind) + source.value + "\n*/" && NoCloser(source.value)
  {
    var h := MarkerHeader(kind);
    if |text| < |h| || text[..|h|] != h then None
    else match FirstCloser(text, |h|)
      case None => None
      case Some(k) =>
        if k + 2 == |text| && |h| < k && text[k - 1] == '\n' then
          UnmarkedSource(text, |h|, k);
          Some(text[|h|..k - 1])
        else None
  }

  lemma UnmarkedSource(text: string, h: nat, k: nat)
    requires h < k && k + 2 == |text| && text[k - 1] == '\n' && ClosesAt(text, k)
    requires forall j :: h <= j < k ==> !ClosesAt(text, j)
    ensures text == text[..h] + text[h..k - 1] + "\n*/"
    ensures NoCloser(text[h..k - 1])
  {
    var src := text[h..k - 1];
    forall j | ClosesAt(src, j)
      ensures false
    {
      assert text[h + j] == src[j] && text[h + j + 1] == src[j + 1];
      assert ClosesAt(text, h + j);
    }
    assert text[k..] == "*/";
  }

  // Step 3's marker for a declaration whose printed source is `source`:
  // reading it back gives the source exactly when the source holds no
  // `*/` of its own.
  function Marker(d: Declaration, source: string): (text: string)
    ensures Unmark(d.kind, text) == Some(source) <==> NoCloser(source)
  {
    MarkerRoundTrip(d.kind, source);
    MarkerHeader(d.kind) + source + "\n*/"
  }

  lemma MarkerRoundTrip(kind: DeclKind, source: string)
    ensures NoCloser(source) ==> Unmark(kind, MarkerHeader(kind) + source + "\n*/") == Some(source)
  {
    var h, text := MarkerHeader(kind), MarkerHeader(kind) + source + "\n*/";
    if NoCloser(source) {
      var k := |h| + |source| + 1;
      assert text[..|h|] == h;
      forall j | |h| <= j < k
        ensures !ClosesAt(text, j)
      {
        if j + 2 < k {
          assert text[j] == source[j - |h|] && text[j + 1] == source[j - |h| + 1];
          assert !ClosesAt(source, j - |h|);
        }
      }
      assert ClosesAt(text, k);
      assert FirstCloser(text, |h|) == Some(k);
      assert text[|h|..k - 1] == source;
    }
  }

  // A declaration whose printed source contains `*/` (a block comment
  // inside a function body, say) ends the marker's comment early: what
  // follows that closer is left outside the comment, and the marker no
  // longer reads back as any source.
  lemma MarkerClosesEarly(d: Declaration, source: string, j: nat)
    requires ClosesAt(source, j)
    ensures Unmark(d.kind, Marker(d, source)) == None
  {
  }

  lemma {:induction false} CollectAllRecords(ns: seq<Node>)
    ensures CollectAll(ns).declaredVariables == Elems(Liveness.RecordedAll(ns, Liveness.Variables))
    ensures CollectAll(ns).declaredFunctions == Elems(Liveness.RecordedAll(ns, Liveness.Functions))
    ensures CollectAll(ns).usedIdentifiers == Elems(Liveness.RecordedAll(ns, Liveness.Components))
    decreases |ns|
  {
    assert Elems<Name>([]) == {};
    if ns != [] {
      var init, n := ns[..|ns| - 1], ns[|ns| - 1];
      CollectAllRecords(init);
      ElemsAppend(Liveness.RecordedAll(init, Liveness.Variables), Liveness.Recorded(n, Liveness.Variables));
      ElemsAppend(Liveness.RecordedAll(init, Liveness.Functions), Liveness.Recorded(n, Liveness.Functions));
      ElemsAppend(Liveness.RecordedAll(init, Liveness.Components), Liveness.Recorded(n, Liveness.Components));
      if n.Declarator? || n.FunctionDecl? || n.JsxName? {
        var x := if n.JsxName? then n.name else n.id;
        assert Elems([x]) == {x};
      }
    }
  }

  /** Step 2 adds to the used names exactly the identifier names that were declared. */
  lemma {:induction false} TrackAllAdds(st: CommentState, ns: seq<Node>)
    ensures TrackAll(st, ns).declaredVariables == st.declaredVariables
    ensures TrackAll(st, ns).declaredFunctions == st.declaredFunctions
    ensures TrackAll(st, ns).usedIdentifiers
      == st.usedIdentifiers + IdentifierNames(ns) * (st.declaredVariables + st.declaredFunctions)
    decreases |ns|
  {
    if ns != [] {
      var init, n := ns[..|ns| - 1], ns[|ns| - 1];
      TrackAllAdds(st, init);
      forall x ensures x in IdentifierNames(ns) <==> x in IdentifierNames(init) || (n.Ident? && n.name == x) {
        if x in IdentifierNames(ns) && !(n.Ident? && n.name == x) {
          var i :| 0 <= i < |ns| && ns[i].Ident? && ns[i].name == x;
          assert init[i] == ns[i];
        }
        if x in IdentifierNames(init) {
          var i :| 0 <= i < |init| && init[i].Ident? && init[i].name == x;
          assert ns[i] == init[i];
        }
      }
    }
  }

  lemma UsedIdentifiersIff(ns: seq<Node>)
    ensures forall x :: x in UsedIdentifiers(ns) <==>
      || (exists i :: 0 <= i < |ns| && ns[i] == JsxName(x))
      || ((exists i :: 0 <= i < |ns| && ns[i].Ident? && ns[i].name == x)
          && exists i :: 0 <= i < |ns| && DeclarationOf(ns[i]).Some? && DeclarationOf(ns[i]).value.name == x)
  {
    CollectAllRecords(ns);
    TrackAllAdds(CollectAll(ns), ns);
    forall x
      ensures x in UsedIdentifiers(ns) <==>
        || (exists i :: 0 <= i < |ns| && ns[i] == JsxName(x))
        || ((exists i :: 0 <= i < |ns| && ns[i].Ident? && ns[i].name == x)
            && exists i :: 0 <= i < |ns| && DeclarationOf(ns[i]).Some? && DeclarationOf(ns[i]).value.name == x)
    {
      Liveness.DeclaresIff(ns, x);
      forall i | 0 <= i < |ns|
        ensures DeclarationOf(ns[i]).Some? && DeclarationOf(ns[i]).value.name == x <==>
          ns[i] == Declarator(x) || ns[i] == FunctionDecl(x)
      {
      }
    }
  }

  /** On a well-formed tree nothing is ever wrapped: each declaration's
      own binding identifier carries its name, so step 2 counts every
      declared name as used. */
  lemma {:induction false} CommentCodeWrapsNothing(ns: seq<Node>)
    requires BindingsFollow(ns)
    ensures CommentCode(ns) == []
  {
    var used := UsedIdentifiers(ns);
    UsedIdentifiersIff(ns);
    var ds := Declarations(ns);
    forall k | 0 <= k < |ds|
      ensures ds[k].name in used
    {
      assert ds[k] in ds;
      var i :| 0 <= i < |ns| && DeclarationOf(ns[i]) == Some(ds[k]);
      assert ns[i + 1].Ident? && ns[i + 1].name == ds[k].name;
    }
    FilterNone(ds, (d: Declaration) => d.name !in used);
  }

  lemma CommentCodeWrapsNothingInTree(t: Tree)
    requires WellFormed(t)
    ensures CommentCode(PreOrder(t)) == []
  {
    WellFormedBindingsFollow(t);
    CommentCodeWrapsNothing(PreOrder(t));
  }

  /** Whether the scanner reports a declaration's name as unused, in the list for its kind. */
  predicate ReportedUnused(r: Liveness.Report, d: Declaration) {
    match d.kind
    case Variable => d.name in r.variables
    case Function => d.name in r.functions
  }

  /** The evidently intended `commentCode`: wrap the declarations whose
      names the scanner reports as unused, judging use the way
      `findUnused` does, so a declaration's own binding identifier does
      not count. */
  function CommentUnused(ns: seq<Node>): (wrapped: seq<Declaration>)
    ensures IsSubsequence(wrapped, Declarations(ns))
    ensures forall d :: d in wrapped ==> exists i :: 0 <= i < |ns| && DeclarationOf(ns[i]) == Some(d)
  {
    var r := Liveness.FindUnused(ns);
    FilterIsSubsequence(Declarations(ns), (d: Declaration) => ReportedUnused(r, d));
    Filter(Declarations(ns), (d: Declaration) => ReportedUnused(r, d))
  }

  /** A variable declaration is wrapped exactly when no identifier of its
      name counts as a reference. */
  lemma CommentUnusedVariableIff(ns: seq<Node>, x: Name)
    ensures Declaration(Variable, x) in CommentUnused(ns) <==>
      && (exists i :: 0 <= i < |ns| && ns[i] == Declarator(x))
      && !(exists i :: 0 <= i < |ns| && Liveness.CountsAsReference(ns[i]) && ns[i].name == x)
  {
    Liveness.UnusedVariablesIff(ns, x);
    var d := Declaration(Variable, x);
    forall i | 0 <= i < |ns|
      ensures DeclarationOf(ns[i]) == Some(d) <==> ns[i] == Declarator(x)
    {
    }
  }

  /** A function declaration is wrapped exactly when no identifier of its
      name counts as a reference and no call names it as its callee. */
  lemma CommentUnusedFunctionIff(ns: seq<Node>, x: Name)
    ensures Declaration(Function, x) in CommentUnused(ns) <==>
      && (exists i :: 0 <= i < |ns| && ns[i] == FunctionDecl(x))
      && !(exists i :: 0 <= i < |ns| && Liveness.CountsAsReference(ns[i]) && ns[i].name == x)
      && !(exists i :: 0 <= i < |ns| && ns[i] == Call(CalleeIdentifier(x)))
  {
    Liveness.UnusedFunctionsIff(ns, x);
    var d := Declaration(Function, x);
    forall i | 0 <= i < |ns|
      ensures DeclarationOf(ns[i]) == Some(d) <==> ns[i] == FunctionDecl(x)
    {
    }
  }

  /** A declaration the scanner reports as unused is wrapped. */
  lemma ReportedDeclarationWrapped(ns: seq<Node>, i: nat)
    requires i < |ns| && DeclarationOf(ns[i]).Some?
    requires ReportedUnused(Liveness.FindUnused(ns), DeclarationOf(ns[i]).value)
    ensures DeclarationOf(ns[i]).value in CommentUnused(ns)
  {
    assert DeclarationOf(ns[i]).value in Declarations(ns);
  }
}
