/** checkConstructor: what a contract's constructor may declare. */
module ConstructorCheck {
  import opened Ast
  import opened Diagnostics

  predicate MutabilityAllowed(m: StateMutability)
  {
    m == NonPayable || m == Payable
  }

  predicate VisibilityAllowed(v: Visibility)
  {
    v == Public || v == Internal
  }

  /** The reports of checkConstructor. A contract without a constructor has
      none; otherwise return parameters, a mutability other than payable or
      non-payable, and a visibility other than public or internal are each
      reported, independently, as type errors, and nothing else is. */
  function ConstructorDiagnostics(c: ContractDefinition): (ds: seq<Diagnostic>)
    ensures ConstructorOf(c).None? ==> ds == []
    ensures ConstructorOf(c).Some? ==> var ctor := ConstructorOf(c).value;
      && ((Diagnostic(TypeError, ctor.returnParameterListLocation, [], ConstructorReturns) in ds) <==>
            |ctor.returnParameters| > 0)
      && ((Diagnostic(TypeError, ctor.location, [], ConstructorMutability(ctor.stateMutability)) in ds) <==>
            !MutabilityAllowed(ctor.stateMutability))
      && ((Diagnostic(TypeError, ctor.location, [], ConstructorVisibility) in ds) <==>
            !VisibilityAllowed(ctor.visibility))
      && (forall d :: d in ds ==>
            || d == Diagnostic(TypeError, ctor.returnParameterListLocation, [], ConstructorReturns)
            || d == Diagnostic(TypeError, ctor.location, [], ConstructorMutability(ctor.stateMutability))
            || d == Diagnostic(TypeError, ctor.location, [], ConstructorVisibility))
    ensures AllErrors(ds) && |ds| <= 3
  {
    match ConstructorOf(c)
    case None => []
    case Some(ctor) =>
      (if |ctor.returnParameters| > 0
       then [Diagnostic(TypeError, ctor.returnParameterListLocation, [], ConstructorReturns)] else [])
      + (if !MutabilityAllowed(ctor.stateMutability)
         then [Diagnostic(TypeError, ctor.location, [], ConstructorMutability(ctor.stateMutability))] else [])
      + (if !VisibilityAllowed(ctor.visibility)
         then [Diagnostic(TypeError, ctor.location, [], ConstructorVisibility)] else [])
  }

  /** A constructor passes exactly when it returns nothing, is payable or
      non-payable, and is public or internal. */
  lemma ConstructorAccepted(c: ContractDefinition)
    requires ConstructorOf(c).Some?
    ensures var ctor := ConstructorOf(c).value;
      ConstructorDiagnostics(c) == [] <==>
        |ctor.returnParameters| == 0 && MutabilityAllowed(ctor.stateMutability) && VisibilityAllowed(ctor.visibility)
  {
    var ctor := ConstructorOf(c).value;
    var ds := ConstructorDiagnostics(c);
    if |ctor.returnParameters| > 0 {
      assert Diagnostic(TypeError, ctor.returnParameterListLocation, [], ConstructorReturns) in ds;
    } else if !MutabilityAllowed(ctor.stateMutability) {
      assert Diagnostic(TypeError, ctor.location, [], ConstructorMutability(ctor.stateMutability)) in ds;
    } else if !VisibilityAllowed(ctor.visibility) {
      assert Diagnostic(TypeError, ctor.location, [], ConstructorVisibility) in ds;
    }
  }
}
