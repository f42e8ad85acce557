/**
 * checkAbstractFunctions: walking the linearized bases from the most basic
 * contract to the contract itself, the functions of each name are grouped
 * into classes of equal parameter types; a class is implemented once one of
 * its functions is, and redeclaring an implemented function without a body
 * is reported. Afterwards the first unimplemented class of each name, in
 * name order, is listed as an unimplemented function of the contract.
 */
module AbstractFunctions {
  import opened Ast
  import opened Diagnostics
  import opened NameMap

  /** One class of functions of a name with equal parameter types: the
      function that opened it, and whether some function of it is implemented. */
  datatype OverloadClass = OverloadClass(representative: FunctionDefinition, implemented: bool)

  /** The find_if over a name's classes: the first class with f's parameter
      types, or |classes| when there is none. */
  function FindClass(classes: seq<OverloadClass>, f: FunctionDefinition): (i: nat)
    ensures i <= |classes|
    ensures i < |classes| ==> classes[i].representative.parameters == f.parameters
    ensures forall j :: 0 <= j < i ==> classes[j].representative.parameters != f.parameters
  {
    if classes == [] then 0
    else if classes[0].representative.parameters == f.parameters then 0
    else 1 + FindClass(classes[1..], f)
  }

  datatype AbstractState = AbstractState(functions: NameMap<seq<OverloadClass>>, diagnostics: seq<Diagnostic>)

  function RedeclarationError(f: FunctionDefinition): Diagnostic
  {
    Diagnostic(TypeError, f.location, [], RedeclaredAsAbstract)
  }

  /** One function of the walk; constructors are skipped. */
  function AbstractStep(st: AbstractState, f: FunctionDefinition): AbstractState
  {
    if f.kind == Constructor then st
    else
      var classes := GetSeq(st.functions, f.name);
      var i := FindClass(classes, f);
      if i == |classes| then
        st.(functions := Put(st.functions, f.name, classes + [OverloadClass(f, f.isImplemented)]))
      else if classes[i].implemented then
        if !f.isImplemented then st.(diagnostics := st.diagnostics + [RedeclarationError(f)]) else st
      else if f.isImplemented then
        st.(functions := Put(st.functions, f.name, classes[i := classes[i].(implemented := true)]))
      else st
  }

  /** The walk over `fs`, in order. */
  function AbstractFold(st: AbstractState, fs: seq<FunctionDefinition>): AbstractState
  {
    if fs == [] then st else AbstractStep(AbstractFold(st, fs[..|fs| - 1]), fs[|fs| - 1])
  }

  /** The map of classes stays in ascending name order, as a `std::map` does. */
  lemma {:induction false} AbstractFoldSorted(st: AbstractState, fs: seq<FunctionDefinition>)
    requires Sorted(st.functions)
    ensures Sorted(AbstractFold(st, fs).functions)
  {
    if fs != [] {
      var f := fs[|fs| - 1];
      var before := AbstractFold(st, fs[..|fs| - 1]);
      AbstractFoldSorted(st, fs[..|fs| - 1]);
      if f.kind != Constructor {
        var classes := GetSeq(before.functions, f.name);
        var i := FindClass(classes, f);
        if i == |classes| {
          PutSorted(before.functions, f.name, classes + [OverloadClass(f, f.isImplemented)]);
        } else {
          PutSorted(before.functions, f.name, classes[i := classes[i].(implemented := true)]);
        }
      }
    }
  }

  /** The functions of the contracts `lin`, from the last contract to the
      first: for a linearization, from the most basic contract to the most
      derived one. */
  function BaseToDerived(ast: Contracts, lin: seq<ContractId>): seq<FunctionDefinition>
    requires forall j :: 0 <= j < |lin| ==> lin[j] in ast
  {
    if lin == [] then [] else BaseToDerived(ast, lin[1..]) + ast[lin[0]].definedFunctions
  }

  const InitialAbstractState: AbstractState := AbstractState([], [])

  lemma AbstractFoldAppend(st: AbstractState, fs: seq<FunctionDefinition>, f: FunctionDefinition)
    ensures AbstractFold(st, fs + [f]) == AbstractStep(AbstractFold(st, fs), f)
  {
    assert (fs + [f])[..|fs|] == fs;
  }

  /** Walking from the base end, contract lin[i - 1] comes after lin[i..]. */
  lemma BaseToDerivedStep(ast: Contracts, lin: seq<ContractId>, i: nat)
    requires 0 < i <= |lin|
    requires forall j :: 0 <= j < |lin| ==> lin[j] in ast
    ensures BaseToDerived(ast, lin[i - 1..]) == BaseToDerived(ast, lin[i..]) + ast[lin[i - 1]].definedFunctions
  {
    assert lin[i - 1..][1..] == lin[i..];
  }

  /** Reports made before the walk stay in front of the walk's own. */
  lemma {:induction false} AbstractFoldShift(st: AbstractState, earlier: seq<Diagnostic>, fs: seq<FunctionDefinition>)
    ensures AbstractFold(st.(diagnostics := earlier + st.diagnostics), fs) ==
      AbstractFold(st, fs).(diagnostics := earlier + AbstractFold(st, fs).diagnostics)
  {
    if fs != [] {
      var f := fs[|fs| - 1];
      AbstractFoldShift(st, earlier, fs[..|fs| - 1]);
      Regroup(earlier, AbstractFold(st, fs[..|fs| - 1]).diagnostics, [RedeclarationError(f)]);
    }
  }

  // ---- the reference definitions ----

  /** f takes part in the overload hierarchy under name n with parameter types ps. */
  predicate Matches(f: FunctionDefinition, n: string, ps: seq<TypeId>)
  {
    f.kind != Constructor && f.name == n && f.parameters == ps
  }

  /** Some function of `fs` named n with parameter types ps is implemented. */
  predicate Implemented(fs: seq<FunctionDefinition>, n: string, ps: seq<TypeId>)
  {
    exists j :: 0 <= j < |fs| && Matches(fs[j], n, ps) && fs[j].isImplemented
  }

  /** Index of the first function of `fs` named n with parameter types ps, or |fs|. */
  function FirstMatch(fs: seq<FunctionDefinition>, n: string, ps: seq<TypeId>): (r: nat)
    ensures r <= |fs|
    ensures r < |fs| ==> Matches(fs[r], n, ps)
    ensures forall j :: 0 <= j < r ==> !Matches(fs[j], n, ps)
  {
    if fs == [] then 0
    else
      var p := FirstMatch(fs[..|fs| - 1], n, ps);
      if p < |fs| - 1 then p
      else if Matches(fs[|fs| - 1], n, ps) then |fs| - 1
      else |fs|
  }

  /** The redeclaration errors, stated without classes: a function without a
      body is reported when a function walked before it has its name and
      parameter types and a body. */
  function RedeclarationReports(fs: seq<FunctionDefinition>): (ds: seq<Diagnostic>)
    ensures AllErrors(ds)
  {
    if fs == [] then []
    else
      var f := fs[|fs| - 1];
      var prefix := fs[..|fs| - 1];
      RedeclarationReports(prefix)
        + (if f.kind != Constructor && !f.isImplemented && Implemented(prefix, f.name, f.parameters)
           then [RedeclarationError(f)] else [])
  }

  /** What one class of name n says about the functions `fs` walked so far:
      it was opened by the first function with its parameter types, and it
      is implemented exactly when one of those functions is. */
  ghost predicate ClassOk(c: OverloadClass, fs: seq<FunctionDefinition>, n: string)
  {
    && FirstMatch(fs, n, c.representative.parameters) < |fs|
    && fs[FirstMatch(fs, n, c.representative.parameters)] == c.representative
    && (c.implemented <==> Implemented(fs, n, c.representative.parameters))
  }

  /** What the classes of name n say about `fs`: each class is right, every
      walked function of the name has its class, and no two classes share
      parameter types. */
  ghost predicate ClassesOk(classes: seq<OverloadClass>, fs: seq<FunctionDefinition>, n: string)
  {
    && (forall i :: 0 <= i < |classes| ==> ClassOk(classes[i], fs, n))
    && (forall j :: 0 <= j < |fs| && fs[j].kind != Constructor && fs[j].name == n ==>
          exists i :: 0 <= i < |classes| && classes[i].representative.parameters == fs[j].parameters)
    && (forall i, k :: 0 <= i < k < |classes| ==>
          classes[i].representative.parameters != classes[k].representative.parameters)
  }

  lemma ImplementedExtend(fs: seq<FunctionDefinition>, f: FunctionDefinition, n: string, ps: seq<TypeId>)
    ensures Implemented(fs + [f], n, ps) <==> Implemented(fs, n, ps) || (Matches(f, n, ps) && f.isImplemented)
  {
    var fs' := fs + [f];
    if Implemented(fs, n, ps) {
      var j :| 0 <= j < |fs| && Matches(fs[j], n, ps) && fs[j].isImplemented;
      assert fs'[j] == fs[j];
    }
    if Implemented(fs', n, ps) && !(Matches(f, n, ps) && f.isImplemented) {
      var j :| 0 <= j < |fs'| && Matches(fs'[j], n, ps) && fs'[j].isImplemented;
      assert j < |fs| && fs[j] == fs'[j];
    }
    if Matches(f, n, ps) && f.isImplemented {
      assert fs'[|fs|] == f;
    }
  }

  lemma FirstMatchExtend(fs: seq<FunctionDefinition>, f: FunctionDefinition, n: string, ps: seq<TypeId>)
    ensures FirstMatch(fs + [f], n, ps) ==
      if FirstMatch(fs, n, ps) < |fs| then FirstMatch(fs, n, ps)
      else if Matches(f, n, ps) then |fs| else |fs| + 1
  {
    assert (fs + [f])[..|fs|] == fs;
  }

  /** A function that is not of the class leaves the class right. */
  lemma ClassOkOther(c: OverloadClass, fs: seq<FunctionDefinition>, n: string, f: FunctionDefinition)
    requires ClassOk(c, fs, n)
    requires !Matches(f, n, c.representative.parameters)
    ensures ClassOk(c, fs + [f], n)
  {
    var ps := c.representative.parameters;
    FirstMatchExtend(fs, f, n, ps);
    ImplementedExtend(fs, f, n, ps);
    assert (fs + [f])[FirstMatch(fs, n, ps)] == fs[FirstMatch(fs, n, ps)];
  }

  /** A function of the class marks it implemented when it is. */
  lemma ClassOkJoin(c: OverloadClass, fs: seq<FunctionDefinition>, f: FunctionDefinition)
    requires ClassOk(c, fs, f.name)
    requires Matches(f, f.name, c.representative.parameters)
    ensures ClassOk(c.(implemented := c.implemented || f.isImplemented), fs + [f], f.name)
  {
    var ps := c.representative.parameters;
    FirstMatchExtend(fs, f, f.name, ps);
    ImplementedExtend(fs, f, f.name, ps);
    assert (fs + [f])[FirstMatch(fs, f.name, ps)] == fs[FirstMatch(fs, f.name, ps)];
  }

  /** A function with parameter types not met before opens a right class. */
  lemma ClassOkNew(fs: seq<FunctionDefinition>, f: FunctionDefinition)
    requires f.kind != Constructor
    requires FirstMatch(fs, f.name, f.parameters) == |fs|
    ensures ClassOk(OverloadClass(f, f.isImplemented), fs + [f], f.name)
  {
    FirstMatchExtend(fs, f, f.name, f.parameters);
    ImplementedExtend(fs, f, f.name, f.parameters);
    assert !Implemented(fs, f.name, f.parameters);
    assert (fs + [f])[|fs|] == f;
  }

  /** Walked functions of name n other than f keep their classes. */
  lemma CoverExtend(classes: seq<OverloadClass>, cl': seq<OverloadClass>, fs: seq<FunctionDefinition>, f: FunctionDefinition, n: string)
    requires forall j :: 0 <= j < |fs| && fs[j].kind != Constructor && fs[j].name == n ==>
      exists i :: 0 <= i < |classes| && classes[i].representative.parameters == fs[j].parameters
    requires |classes| <= |cl'|
    requires forall i :: 0 <= i < |classes| ==> cl'[i].representative == classes[i].representative
    requires Matches(f, n, f.parameters) ==>
      exists i :: 0 <= i < |cl'| && cl'[i].representative.parameters == f.parameters
    ensures forall j :: 0 <= j < |fs + [f]| && (fs + [f])[j].kind != Constructor && (fs + [f])[j].name == n ==>
      exists i :: 0 <= i < |cl'| && cl'[i].representative.parameters == (fs + [f])[j].parameters
  {
    var fs' := fs + [f];
    forall j | 0 <= j < |fs'| && fs'[j].kind != Constructor && fs'[j].name == n
      ensures exists i :: 0 <= i < |cl'| && cl'[i].representative.parameters == fs'[j].parameters
    {
      if j < |fs| {
        assert fs'[j] == fs[j];
        var i :| 0 <= i < |classes| && classes[i].representative.parameters == fs[j].parameters;
        assert cl'[i].representative == classes[i].representative;
      } else {
        assert fs'[j] == f;
      }
    }
  }

  /** The classes of a name other than f's are untouched by f, and keep
      describing the walked functions. */
  lemma OtherNameKeepsClasses(classes: seq<OverloadClass>, fs: seq<FunctionDefinition>, n: string, f: FunctionDefinition)
    requires f.kind == Constructor || f.name != n
    requires ClassesOk(classes, fs, n)
    ensures ClassesOk(classes, fs + [f], n)
  {
    forall i | 0 <= i < |classes| ensures ClassOk(classes[i], fs + [f], n) {
      ClassOkOther(classes[i], fs, n, f);
    }
    CoverExtend(classes, classes, fs, f, n);
  }

  /** A function that opens a new class. */
  lemma NewClassKeepsClasses(classes: seq<OverloadClass>, fs: seq<FunctionDefinition>, f: FunctionDefinition)
    requires f.kind != Constructor
    requires ClassesOk(classes, fs, f.name)
    requires FindClass(classes, f) == |classes|
    ensures ClassesOk(classes + [OverloadClass(f, f.isImplemented)], fs + [f], f.name)
  {
    var n := f.name;
    var cl' := classes + [OverloadClass(f, f.isImplemented)];
    assert FirstMatch(fs, n, f.parameters) == |fs|;
    forall i | 0 <= i < |cl'| ensures ClassOk(cl'[i], fs + [f], n) {
      if i < |classes| {
        assert cl'[i] == classes[i];
        ClassOkOther(classes[i], fs, n, f);
      } else {
        ClassOkNew(fs, f);
      }
    }
    assert cl'[|classes|].representative == f;
    CoverExtend(classes, cl', fs, f, n);
  }

  /** A function that joins an existing class, possibly marking it implemented. */
  lemma JoinClassKeepsClasses(classes: seq<OverloadClass>, fs: seq<FunctionDefinition>, f: FunctionDefinition, cl': seq<OverloadClass>)
    requires f.kind != Constructor
    requires ClassesOk(classes, fs, f.name)
    requires FindClass(classes, f) < |classes|
    requires var i := FindClass(classes, f);
             cl' == if !classes[i].implemented && f.isImplemented
                    then classes[i := classes[i].(implemented := true)] else classes
    ensures ClassesOk(cl', fs + [f], f.name)
  {
    var n := f.name;
    var k := FindClass(classes, f);
    assert |cl'| == |classes|;
    forall i | 0 <= i < |cl'| ensures ClassOk(cl'[i], fs + [f], n) {
      if i == k {
        ClassOkJoin(classes[k], fs, f);
        assert cl'[k] == classes[k].(implemented := classes[k].implemented || f.isImplemented);
      } else {
        assert cl'[i] == classes[i];
        assert classes[i].representative.parameters != classes[k].representative.parameters;
        ClassOkOther(classes[i], fs, n, f);
      }
    }
    forall i | 0 <= i < |classes| ensures cl'[i].representative == classes[i].representative {
    }
    CoverExtend(classes, cl', fs, f, n);
    forall i, i' | 0 <= i < i' < |cl'|
      ensures cl'[i].representative.parameters != cl'[i'].representative.parameters
    {
      assert cl'[i].representative == classes[i].representative;
      assert cl'[i'].representative == classes[i'].representative;
    }
  }

  /** The walk keeps, for every name, classes that describe the functions walked. */
  ghost predicate AbstractInvariant(st: AbstractState, fs: seq<FunctionDefinition>)
  {
    && (forall n :: ClassesOk(GetSeq(st.functions, n), fs, n))
    && st.diagnostics == RedeclarationReports(fs)
  }

  lemma StepKeepsClasses(st: AbstractState, fs: seq<FunctionDefinition>, f: FunctionDefinition, n: string)
    requires forall n :: ClassesOk(GetSeq(st.functions, n), fs, n)
    ensures ClassesOk(GetSeq(AbstractStep(st, f).functions, n), fs + [f], n)
  {
    var st' := AbstractStep(st, f);
    var classes := GetSeq(st.functions, n);
    assert ClassesOk(classes, fs, n);
    if f.kind != Constructor {
      var own := GetSeq(st.functions, f.name);
      var i := FindClass(own, f);
      PutGet(st.functions, f.name, own + [OverloadClass(f, f.isImplemented)], n);
      if i < |own| {
        PutGet(st.functions, f.name, own[i := own[i].(implemented := true)], n);
      }
    }
    if f.kind == Constructor || f.name != n {
      assert GetSeq(st'.functions, n) == classes;
      OtherNameKeepsClasses(classes, fs, n, f);
    } else {
      var i := FindClass(classes, f);
      if i == |classes| {
        NewClassKeepsClasses(classes, fs, f);
      } else {
        JoinClassKeepsClasses(classes, fs, f, GetSeq(st'.functions, n));
      }
    }
  }

  lemma StepReports(st: AbstractState, fs: seq<FunctionDefinition>, f: FunctionDefinition)
    requires AbstractInvariant(st, fs)
    ensures AbstractStep(st, f).diagnostics == RedeclarationReports(fs + [f])
  {
    assert (fs + [f])[..|fs|] == fs;
    if f.kind != Constructor {
      var classes := GetSeq(st.functions, f.name);
      assert ClassesOk(classes, fs, f.name);
    }
  }

  lemma {:induction false} AbstractFoldInvariant(fs: seq<FunctionDefinition>)
    ensures AbstractInvariant(AbstractFold(InitialAbstractState, fs), fs)
  {
    if fs == [] {
      forall n ensures ClassesOk(GetSeq(InitialAbstractState.functions, n), fs, n) {
        assert GetSeq(InitialAbstractState.functions, n) == [];
      }
    } else {
      var prefix := fs[..|fs| - 1];
      var f := fs[|fs| - 1];
      assert prefix + [f] == fs;
      AbstractFoldInvariant(prefix);
      var st := AbstractFold(InitialAbstractState, prefix);
      forall n ensures ClassesOk(GetSeq(AbstractStep(st, f).functions, n), fs, n) {
        StepKeepsClasses(st, prefix, f, n);
      }
      StepReports(st, prefix, f);
    }
  }

  /** The redeclaration errors of the walk are exactly those of the
      class-free reference definition. */
  lemma RedeclarationErrorsExact(fs: seq<FunctionDefinition>)
    ensures AbstractFold(InitialAbstractState, fs).diagnostics == RedeclarationReports(fs)
  {
    AbstractFoldInvariant(fs);
  }

  /** One function of the walk keeps every class of every name where it is,
      with its representative, and never clears an implemented flag. */
  lemma StepKeepsFlags(st: AbstractState, f: FunctionDefinition, n: string, i: nat)
    requires i < |GetSeq(st.functions, n)|
    ensures var before := GetSeq(st.functions, n);
      var after := GetSeq(AbstractStep(st, f).functions, n);
      && i < |after|
      && after[i].representative == before[i].representative
      && (before[i].implemented ==> after[i].implemented)
  {
    if f.kind != Constructor {
      var own := GetSeq(st.functions, f.name);
      PutGet(st.functions, f.name, own + [OverloadClass(f, f.isImplemented)], n);
      var j := FindClass(own, f);
      if j < |own| {
        PutGet(st.functions, f.name, own[j := own[j].(implemented := true)], n);
      }
    }
  }

  /** The same over a whole walk: an implemented flag only ever moves from
      false to true. */
  lemma {:induction false} FoldKeepsFlags(st: AbstractState, fs: seq<FunctionDefinition>, n: string, i: nat)
    requires i < |GetSeq(st.functions, n)|
    ensures var before := GetSeq(st.functions, n);
      var after := GetSeq(AbstractFold(st, fs).functions, n);
      && i < |after|
      && after[i].representative == before[i].representative
      && (before[i].implemented ==> after[i].implemented)
  {
    if fs != [] {
      FoldKeepsFlags(st, fs[..|fs| - 1], n, i);
      StepKeepsFlags(AbstractFold(st, fs[..|fs| - 1]), fs[|fs| - 1], n, i);
    }
  }

  // ---- the order of the classes ----

  /** The classes of name n appear in the order their first functions were
      walked: the vector of a name only ever grows at its end. */
  ghost predicate ClassesInWalkOrder(classes: seq<OverloadClass>, fs: seq<FunctionDefinition>, n: string)
  {
    forall i, i' :: 0 <= i < i' < |classes| ==>
      FirstMatch(fs, n, classes[i].representative.parameters) < FirstMatch(fs, n, classes[i'].representative.parameters)
  }

  /** Walking one more function moves no class's first function. */
  lemma FirstMatchesKept(classes: seq<OverloadClass>, fs: seq<FunctionDefinition>, n: string, f: FunctionDefinition)
    requires forall i :: 0 <= i < |classes| ==> ClassOk(classes[i], fs, n)
    ensures forall i :: 0 <= i < |classes| ==>
      FirstMatch(fs + [f], n, classes[i].representative.parameters) == FirstMatch(fs, n, classes[i].representative.parameters)
  {
    forall i | 0 <= i < |classes|
      ensures FirstMatch(fs + [f], n, classes[i].representative.parameters) == FirstMatch(fs, n, classes[i].representative.parameters)
    {
      assert ClassOk(classes[i], fs, n);
      FirstMatchExtend(fs, f, n, classes[i].representative.parameters);
    }
  }

  /** One function of the walk either leaves the number of classes of n
      alone or opens a new class of n at the end. */
  lemma StepGrowsAtEnd(st: AbstractState, f: FunctionDefinition, n: string)
    ensures var before := GetSeq(st.functions, n);
      var after := GetSeq(AbstractStep(st, f).functions, n);
      || |after| == |before|
      || (f.kind != Constructor && f.name == n && FindClass(before, f) == |before| &&
          after == before + [OverloadClass(f, f.isImplemented)])
  {
    if f.kind != Constructor {
      var own := GetSeq(st.functions, f.name);
      PutGet(st.functions, f.name, own + [OverloadClass(f, f.isImplemented)], n);
      var j := FindClass(own, f);
      if j < |own| {
        PutGet(st.functions, f.name, own[j := own[j].(implemented := true)], n);
      }
    }
  }

  /** A function whose parameter types open a new class of its name is the
      first of its name with those parameter types. */
  lemma NewClassIsFirstMatch(classes: seq<OverloadClass>, fs: seq<FunctionDefinition>, f: FunctionDefinition)
    requires ClassesOk(classes, fs, f.name)
    requires f.kind != Constructor && FindClass(classes, f) == |classes|
    ensures FirstMatch(fs + [f], f.name, f.parameters) == |fs|
  {
    if FirstMatch(fs, f.name, f.parameters) < |fs| {
      assert false;
    }
    FirstMatchExtend(fs, f, f.name, f.parameters);
  }

  lemma StepKeepsWalkOrder(st: AbstractState, fs: seq<FunctionDefinition>, f: FunctionDefinition, n: string)
    requires ClassesOk(GetSeq(st.functions, n), fs, n)
    requires ClassesInWalkOrder(GetSeq(st.functions, n), fs, n)
    ensures ClassesInWalkOrder(GetSeq(AbstractStep(st, f).functions, n), fs + [f], n)
  {
    var classes := GetSeq(st.functions, n);
    var after := GetSeq(AbstractStep(st, f).functions, n);
    FirstMatchesKept(classes, fs, n, f);
    StepGrowsAtEnd(st, f, n);
    forall i | 0 <= i < |classes| ensures i < |after| && after[i].representative == classes[i].representative {
      StepKeepsFlags(st, f, n, i);
    }
    if |after| != |classes| {
      NewClassIsFirstMatch(classes, fs, f);
    }
  }

  /** Throughout the walk, each name's classes are in walk order. */
  lemma {:induction false} FoldKeepsWalkOrder(fs: seq<FunctionDefinition>, n: string)
    ensures ClassesInWalkOrder(GetSeq(AbstractFold(InitialAbstractState, fs).functions, n), fs, n)
  {
    if fs == [] {
      assert GetSeq(InitialAbstractState.functions, n) == [];
    } else {
      var prefix := fs[..|fs| - 1];
      assert prefix + [fs[|fs| - 1]] == fs;
      FoldKeepsWalkOrder(prefix, n);
      AbstractFoldInvariant(prefix);
      StepKeepsWalkOrder(AbstractFold(InitialAbstractState, prefix), prefix, fs[|fs| - 1], n);
    }
  }

  // ---- the unimplemented functions ----

  /** Index of the first class that is not implemented, or |classes|. */
  function FirstUnimplemented(classes: seq<OverloadClass>): (i: nat)
    ensures i <= |classes|
    ensures i < |classes| ==> !classes[i].implemented
    ensures forall j :: 0 <= j < i ==> classes[j].implemented
  {
    if classes == [] then 0
    else if !classes[0].implemented then 0
    else 1 + FirstUnimplemented(classes[1..])
  }

  /** The second loop of checkAbstractFunctions: for each name in order,
      the representative of its first unimplemented class. */
  function UnimplementedOf(m: NameMap<seq<OverloadClass>>): seq<FunctionDefinition>
  {
    if m == [] then []
    else
      var classes := m[|m| - 1].value;
      var i := FirstUnimplemented(classes);
      UnimplementedOf(m[..|m| - 1]) + (if i < |classes| then [classes[i].representative] else [])
  }

  lemma UnimplementedOfStep(m: NameMap<seq<OverloadClass>>, e: nat)
    requires e < |m|
    ensures UnimplementedOf(m[..e + 1]) == UnimplementedOf(m[..e]) +
      (if FirstUnimplemented(m[e].value) < |m[e].value| then [m[e].value[FirstUnimplemented(m[e].value)].representative] else [])
  {
    assert m[..e + 1][..e] == m[..e];
  }

  /** The functions checkAbstractFunctions appends to the unimplemented
      functions of a contract whose linearization is `lin`. */
  function AbstractWalk(ast: Contracts, lin: seq<ContractId>): AbstractState
    requires forall j :: 0 <= j < |lin| ==> lin[j] in ast
  {
    AbstractFold(InitialAbstractState, BaseToDerived(ast, lin))
  }

  /** The representative of the first unimplemented class of the entry, if any. */
  predicate ListsFrom(m: NameMap<seq<OverloadClass>>, i: nat, u: FunctionDefinition)
    requires i < |m|
  {
    FirstUnimplemented(m[i].value) < |m[i].value| && u == m[i].value[FirstUnimplemented(m[i].value)].representative
  }

  /** u is listed on behalf of some entry of `m`. */
  ghost predicate ListedByEntry(m: NameMap<seq<OverloadClass>>, u: FunctionDefinition)
  {
    exists i :: 0 <= i < |m| && ListsFrom(m, i, u)
  }

  /** Each listed function is the representative of the first unimplemented
      class of some entry, and every entry with an unimplemented class
      contributes its one. */
  lemma {:induction false} UnimplementedOfEntries(m: NameMap<seq<OverloadClass>>)
    ensures forall k :: 0 <= k < |UnimplementedOf(m)| ==> ListedByEntry(m, UnimplementedOf(m)[k])
    ensures forall i :: 0 <= i < |m| && FirstUnimplemented(m[i].value) < |m[i].value| ==>
      m[i].value[FirstUnimplemented(m[i].value)].representative in UnimplementedOf(m)
  {
    if m != [] {
      var prefix := m[..|m| - 1];
      UnimplementedOfEntries(prefix);
      var u := UnimplementedOf(m);
      var up := UnimplementedOf(prefix);
      assert u[..|up|] == up;
      forall k | 0 <= k < |u| ensures ListedByEntry(m, u[k]) {
        if k < |up| {
          assert ListedByEntry(prefix, up[k]);
          var i :| 0 <= i < |prefix| && ListsFrom(prefix, i, up[k]);
          assert m[i] == prefix[i];
          assert ListsFrom(m, i, u[k]);
        } else {
          assert ListsFrom(m, |m| - 1, u[k]);
        }
      }
      forall i | 0 <= i < |m| && FirstUnimplemented(m[i].value) < |m[i].value|
        ensures m[i].value[FirstUnimplemented(m[i].value)].representative in u
      {
        if i < |m| - 1 {
          assert m[i] == prefix[i];
        } else {
          assert u[|up|] == m[i].value[FirstUnimplemented(m[i].value)].representative;
        }
      }
    }
  }

  /** Every class stored under a key has a representative of that name. */
  ghost predicate NamesMatch(m: NameMap<seq<OverloadClass>>)
  {
    forall i, j :: 0 <= i < |m| && 0 <= j < |m[i].value| ==> m[i].value[j].representative.name == m[i].key
  }

  /** With names matching keys, the listed functions are in strictly
      ascending name order: one at most per name. */
  lemma {:induction false} UnimplementedOfSorted(m: NameMap<seq<OverloadClass>>)
    requires Sorted(m) && NamesMatch(m)
    ensures forall k :: 0 <= k < |UnimplementedOf(m)| ==> UnimplementedOf(m)[k].name in Keys(m)
    ensures forall a, b :: 0 <= a < b < |UnimplementedOf(m)| ==>
      StrLess(UnimplementedOf(m)[a].name, UnimplementedOf(m)[b].name)
  {
    if m != [] {
      var prefix := m[..|m| - 1];
      UnimplementedOfSorted(prefix);
      var u := UnimplementedOf(m);
      var up := UnimplementedOf(prefix);
      assert u[..|up|] == up;
      var last := m[|m| - 1];
      forall k | 0 <= k < |u| ensures u[k].name in Keys(m) {
        if k < |up| {
          assert up[k].name in Keys(prefix);
          var i :| 0 <= i < |prefix| && up[k].name == prefix[i].key;
          assert m[i] == prefix[i];
        } else {
          assert u[k].name == m[|m| - 1].key;
        }
      }
      forall a, b | 0 <= a < b < |u| ensures StrLess(u[a].name, u[b].name) {
        if b >= |up| {
          assert up[a].name in Keys(prefix);
          var i :| 0 <= i < |prefix| && up[a].name == prefix[i].key;
          assert m[i] == prefix[i];
          assert u[b].name == last.key;
        } else {
          assert u[a] == up[a] && u[b] == up[b];
        }
      }
    }
  }

  /** The classes a walk stores under each key are named by that key. */
  lemma WalkNamesMatch(fs: seq<FunctionDefinition>)
    ensures NamesMatch(AbstractFold(InitialAbstractState, fs).functions)
  {
    var m := AbstractFold(InitialAbstractState, fs).functions;
    AbstractFoldInvariant(fs);
    AbstractFoldSorted(InitialAbstractState, fs);
    forall i, j | 0 <= i < |m| && 0 <= j < |m[i].value| ensures m[i].value[j].representative.name == m[i].key {
      GetAt(m, i);
      assert GetSeq(m, m[i].key) == m[i].value;
      assert ClassesOk(m[i].value, fs, m[i].key);
      assert ClassOk(m[i].value[j], fs, m[i].key);
    }
  }

  /** Each function the walk over `fs` lists has no implemented function of
      its name and parameter types, and is the first of them walked. */
  lemma ListedAreUnimplemented(fs: seq<FunctionDefinition>, k: nat)
    requires k < |UnimplementedOf(AbstractFold(InitialAbstractState, fs).functions)|
    ensures var u := UnimplementedOf(AbstractFold(InitialAbstractState, fs).functions);
      && !Implemented(fs, u[k].name, u[k].parameters)
      && FirstMatch(fs, u[k].name, u[k].parameters) < |fs|
      && fs[FirstMatch(fs, u[k].name, u[k].parameters)] == u[k]
  {
    var m := AbstractFold(InitialAbstractState, fs).functions;
    var u := UnimplementedOf(m);
    AbstractFoldInvariant(fs);
    AbstractFoldSorted(InitialAbstractState, fs);
    WalkNamesMatch(fs);
    UnimplementedOfEntries(m);
    assert ListedByEntry(m, u[k]);
    var i :| 0 <= i < |m| && ListsFrom(m, i, u[k]);
    var n := m[i].key;
    GetAt(m, i);
    assert GetSeq(m, n) == m[i].value;
    assert ClassesOk(m[i].value, fs, n);
    var c := m[i].value[FirstUnimplemented(m[i].value)];
    assert ClassOk(c, fs, n);
    assert c.representative.name == n;
  }

  /** Among the classes of one name, kept in walk order, the first one not
      implemented starts no later than any function of that name whose
      parameter types no function implements. */
  lemma FirstOpenClassFirst(classes: seq<OverloadClass>, fs: seq<FunctionDefinition>, n: string, j: nat)
    requires ClassesOk(classes, fs, n) && ClassesInWalkOrder(classes, fs, n)
    requires FirstUnimplemented(classes) < |classes|
    requires j < |fs| && fs[j].kind != Constructor && fs[j].name == n && !Implemented(fs, n, fs[j].parameters)
    ensures FirstMatch(fs, n, classes[FirstUnimplemented(classes)].representative.parameters) <= j
  {
    var first := FirstUnimplemented(classes);
    var c :| 0 <= c < |classes| && classes[c].representative.parameters == fs[j].parameters;
    assert ClassOk(classes[c], fs, n);
    assert first <= c;
    assert Matches(fs[j], n, fs[j].parameters);
  }

  /** The function listed for a name stands for its first still-unimplemented
      class: it was walked no later than any function of that name whose
      parameter types no function implements. */
  lemma ListedIsFirstOpenClass(fs: seq<FunctionDefinition>, k: nat, j: nat)
    requires k < |UnimplementedOf(AbstractFold(InitialAbstractState, fs).functions)|
    requires j < |fs| && fs[j].kind != Constructor && !Implemented(fs, fs[j].name, fs[j].parameters)
    requires fs[j].name == UnimplementedOf(AbstractFold(InitialAbstractState, fs).functions)[k].name
    ensures var u := UnimplementedOf(AbstractFold(InitialAbstractState, fs).functions);
      FirstMatch(fs, u[k].name, u[k].parameters) <= j
  {
    var m := AbstractFold(InitialAbstractState, fs).functions;
    var u := UnimplementedOf(m);
    AbstractFoldInvariant(fs);
    AbstractFoldSorted(InitialAbstractState, fs);
    WalkNamesMatch(fs);
    UnimplementedOfEntries(m);
    assert ListedByEntry(m, u[k]);
    var i :| 0 <= i < |m| && ListsFrom(m, i, u[k]);
    var n := m[i].key;
    GetAt(m, i);
    var classes := m[i].value;
    assert GetSeq(m, n) == classes;
    assert ClassesOk(classes, fs, n);
    assert classes[FirstUnimplemented(classes)].representative.name == n;
    FoldKeepsWalkOrder(fs, n);
    FirstOpenClassFirst(classes, fs, n, j);
  }

  lemma ListedAreFirstOpenClasses(fs: seq<FunctionDefinition>)
    ensures var u := UnimplementedOf(AbstractFold(InitialAbstractState, fs).functions);
      forall k, j ::
        0 <= k < |u| && 0 <= j < |fs| && fs[j].kind != Constructor && fs[j].name == u[k].name &&
        !Implemented(fs, fs[j].name, fs[j].parameters)
        ==> FirstMatch(fs, u[k].name, u[k].parameters) <= j
  {
    var u := UnimplementedOf(AbstractFold(InitialAbstractState, fs).functions);
    forall k, j | 0 <= k < |u| && 0 <= j < |fs| && fs[j].kind != Constructor && fs[j].name == u[k].name &&
        !Implemented(fs, fs[j].name, fs[j].parameters)
      ensures FirstMatch(fs, u[k].name, u[k].parameters) <= j
    {
      ListedIsFirstOpenClass(fs, k, j);
    }
  }

  /** A name whose classes include one not implemented is listed. */
  lemma NameWithOpenClassListed(m: NameMap<seq<OverloadClass>>, n: string)
    requires Sorted(m) && NamesMatch(m)
    requires FirstUnimplemented(GetSeq(m, n)) < |GetSeq(m, n)|
    ensures exists k :: 0 <= k < |UnimplementedOf(m)| && UnimplementedOf(m)[k].name == n
  {
    var u := UnimplementedOf(m);
    var classes := GetSeq(m, n);
    GetFound(m, n);
    var i :| 0 <= i < |m| && m[i] == Entry(n, Get(m, n).value);
    assert m[i].value == classes;
    UnimplementedOfEntries(m);
    var r := classes[FirstUnimplemented(classes)].representative;
    assert r in u;
    var k :| 0 <= k < |u| && u[k] == r;
    assert u[k].name == n;
  }

  /** A walked function that no function of its name and parameter types
      implements leaves a class of its name not implemented. */
  lemma UnimplementedLeavesOpenClass(fs: seq<FunctionDefinition>, j: nat)
    requires j < |fs| && fs[j].kind != Constructor && !Implemented(fs, fs[j].name, fs[j].parameters)
    ensures var classes := GetSeq(AbstractFold(InitialAbstractState, fs).functions, fs[j].name);
      FirstUnimplemented(classes) < |classes|
  {
    var n := fs[j].name;
    var classes := GetSeq(AbstractFold(InitialAbstractState, fs).functions, n);
    AbstractFoldInvariant(fs);
    assert ClassesOk(classes, fs, n);
    var c :| 0 <= c < |classes| && classes[c].representative.parameters == fs[j].parameters;
    assert ClassOk(classes[c], fs, n);
  }

  /** Every walked function that no function of its name and parameter types
      implements has its name listed. */
  lemma UnimplementedNameListed(fs: seq<FunctionDefinition>, j: nat)
    requires j < |fs| && fs[j].kind != Constructor && !Implemented(fs, fs[j].name, fs[j].parameters)
    ensures var u := UnimplementedOf(AbstractFold(InitialAbstractState, fs).functions);
      exists k :: 0 <= k < |u| && u[k].name == fs[j].name
  {
    UnimplementedLeavesOpenClass(fs, j);
    AbstractFoldSorted(InitialAbstractState, fs);
    WalkNamesMatch(fs);
    NameWithOpenClassListed(AbstractFold(InitialAbstractState, fs).functions, fs[j].name);
  }

  /** What checkAbstractFunctions lists, stated on the walked functions
      alone: each listed function has no implemented function of its name and
      parameter types and is the first of them walked; the list is in
      strictly ascending name order, so names one function at most; every
      name with a signature that no function implements is listed; and the
      one listed for a name is its first such signature in walk order. */
  lemma UnimplementedFunctionsListed(fs: seq<FunctionDefinition>)
    ensures var u := UnimplementedOf(AbstractFold(InitialAbstractState, fs).functions);
      && (forall k :: 0 <= k < |u| ==>
            !Implemented(fs, u[k].name, u[k].parameters) &&
            FirstMatch(fs, u[k].name, u[k].parameters) < |fs| &&
            fs[FirstMatch(fs, u[k].name, u[k].parameters)] == u[k])
      && (forall a, b :: 0 <= a < b < |u| ==> StrLess(u[a].name, u[b].name))
      && (forall j :: 0 <= j < |fs| && fs[j].kind != Constructor && !Implemented(fs, fs[j].name, fs[j].parameters) ==>
            exists k :: 0 <= k < |u| && u[k].name == fs[j].name)
      && (forall k, j ::
            0 <= k < |u| && 0 <= j < |fs| && fs[j].kind != Constructor && fs[j].name == u[k].name &&
            !Implemented(fs, fs[j].name, fs[j].parameters)
            ==> FirstMatch(fs, u[k].name, u[k].parameters) <= j)
  {
    var m := AbstractFold(InitialAbstractState, fs).functions;
    var u := UnimplementedOf(m);
    AbstractFoldSorted(InitialAbstractState, fs);
    WalkNamesMatch(fs);
    UnimplementedOfSorted(m);
    forall k | 0 <= k < |u|
      ensures !Implemented(fs, u[k].name, u[k].parameters)
      ensures FirstMatch(fs, u[k].name, u[k].parameters) < |fs|
      ensures fs[FirstMatch(fs, u[k].name, u[k].parameters)] == u[k]
    {
      ListedAreUnimplemented(fs, k);
    }
    forall j | 0 <= j < |fs| && fs[j].kind != Constructor && !Implemented(fs, fs[j].name, fs[j].parameters)
      ensures exists k :: 0 <= k < |u| && u[k].name == fs[j].name
    {
      UnimplementedNameListed(fs, j);
    }
    ListedAreFirstOpenClasses(fs);
  }
}
