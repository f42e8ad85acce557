/**
 * The contract-level checker: one object holding the error list it reports
 * into and the annotation slots it writes (the function a function
 * overrides, the unimplemented functions of a contract, and the nodes that
 * supply base constructor arguments). Each check is a method proved against
 * the specification function of its module.
 */
module Checker {
  import opened Ast
  import opened Diagnostics
  import opened NameMap
  import opened Duplicates
  import opened Overrides
  import opened AbstractFunctions
  import opened BaseConstructors
  import opened ConstructorCheck

  /** The error reporter the checker reports into: the errors and warnings
      reported so far, in order. */
  class ErrorReporter {
    var errors: seq<Diagnostic>

    constructor(reported: seq<Diagnostic>)
      ensures errors == reported
    {
      errors := reported;
    }
  }

  /** The annotation slot of function definitions the checker writes:
      FunctionDefinitionAnnotation::superFunction, by function identity. */
  class FunctionAnnotations {
    var superFunction: map<DeclId, DeclId>

    constructor()
      ensures superFunction == map[]
    {
      superFunction := map[];
    }
  }

  /** The annotation slots of contract definitions the checker writes
      (ContractDefinitionAnnotation::unimplementedFunctions and
      ::baseConstructorArguments), by contract identity. */
  class ContractAnnotations {
    var unimplementedFunctions: map<ContractId, seq<FunctionDefinition>>
    var baseConstructorArguments: map<ContractId, ArgumentMap>

    constructor()
      ensures unimplementedFunctions == map[] && baseConstructorArguments == map[]
    {
      unimplementedFunctions := map[];
      baseConstructorArguments := map[];
    }

    function Unimplemented(c: ContractId): seq<FunctionDefinition>
      reads this
    {
      if c in unimplementedFunctions then unimplementedFunctions[c] else []
    }

    function Arguments(c: ContractId): ArgumentMap
      reads this
    {
      if c in baseConstructorArguments then baseConstructorArguments[c] else map[]
    }
  }

  /** One more bucket of findDuplicateDefinitions, appended to what was reported. */
  lemma BucketAppended(m: NameMap<seq<Overload>>, e: nat, msg: Message, start: seq<Diagnostic>, now: seq<Diagnostic>)
    requires e < |m|
    requires now == start + DuplicateDiagnostics(m[..e], msg)
    ensures now + ScanBucket(m[e].value, 0, {}, msg) == start + DuplicateDiagnostics(m[..e + 1], msg)
  {
    DuplicateDiagnosticsStep(m, e, msg);
    Regroup(start, DuplicateDiagnostics(m[..e], msg), ScanBucket(m[e].value, 0, {}, msg));
  }

  /** One round of the outer loop of findDuplicateDefinitions, seen from the
      reporter: what it reported, followed by the rest of the scan, is the
      scan from i. */
  lemma ScanRound(ov: seq<Overload>, i: nat, reported: set<nat>, msg: Message, before: seq<Diagnostic>, now: seq<Diagnostic>)
    requires i < |ov| && i !in reported
    requires var ps := Peers(ov, i, |ov|);
      now == if |ps| > 0 then before + [Diagnostic(DeclarationError, ov[i].location, Secondaries(ov, ps), msg)] else before
    ensures now + ScanBucket(ov, i + 1, reported + Elements(Peers(ov, i, |ov|)), msg) == before + ScanBucket(ov, i, reported, msg)
  {
    var ps := Peers(ov, i, |ov|);
    var report := if |ps| > 0 then [Diagnostic(DeclarationError, ov[i].location, Secondaries(ov, ps), msg)] else [];
    ScanBucketStep(ov, i, reported, msg);
    assert now == before + report;
    Regroup(before, report, ScanBucket(ov, i + 1, reported + Elements(ps), msg));
  }

  /** The outer loop stops at the end of the bucket or at an index already reported. */
  lemma ScanDone(ov: seq<Overload>, i: nat, reported: set<nat>, msg: Message)
    requires !(i < |ov| && i !in reported)
    ensures ScanBucket(ov, i, reported, msg) == []
  {
  }

  /** One call of checkFunctionOverride inside checkIllegalOverrides: the
      reports and the superFunction annotation after checking one more
      overriding function against g. */
  lemma OverrideRound(ov: seq<FunctionDefinition>, k: nat, g: FunctionDefinition, sf: map<DeclId, DeclId>,
                      clashed: seq<Diagnostic>, now: seq<Diagnostic>)
    requires k < |ov|
    requires now == clashed + ReportsAgainst(ov[..k], g)
    ensures now + OverrideDiagnostics(ov[k], g) == clashed + ReportsAgainst(ov[..k + 1], g)
    ensures SuperAfter(ov[..k + 1], g, sf) == RecordSuper(SuperAfter(ov[..k], g, sf), ov[k], g)
  {
    assert ov[..k + 1][..k] == ov[..k];
    Regroup(clashed, ReportsAgainst(ov[..k], g), OverrideDiagnostics(ov[k], g));
  }

  // ---- the whole check ----

  /** The annotation baseConstructorArguments of contract c after the check,
      starting from `args0`. */
  function BaseArgumentsAfter(ast: Contracts, c: ContractId, args0: ArgumentMap): ArgumentMap
    requires WellFormed(ast, c)
  {
    SiteFold(ast, ast[c], BaseState(args0, []), LinearizationSites(ast, ast[c].linearizedBaseContracts)).arguments
  }

  /** The unimplemented functions of contract c after the check, starting
      from `listed` and the baseConstructorArguments annotation `args0`:
      the representatives of unimplemented classes, then the base
      constructors left without arguments. */
  function UnimplementedAfter(ast: Contracts, c: ContractId, listed: seq<FunctionDefinition>, args0: ArgumentMap): seq<FunctionDefinition>
    requires WellFormed(ast, c)
  {
    var lin := ast[c].linearizedBaseContracts;
    (listed + UnimplementedOf(AbstractWalk(ast, lin).functions)) + MissingBaseConstructors(ast, c, lin, BaseArgumentsAfter(ast, c, args0))
  }

  /** What the first three checks of ContractLevelChecker::check report for
      contract c (duplicate functions, duplicate events, illegal overrides),
      given the superFunction annotation `sf0` beforehand. */
  function DeclarationReports(ast: Contracts, c: ContractId, sf0: map<DeclId, DeclId>): seq<Diagnostic>
    requires WellFormed(ast, c)
  {
    (DuplicateFunctionDiagnostics(ast[c].definedFunctions)
      + DuplicateEventDiagnostics(ast[c].events))
      + IllegalOverrides(ast, ast[c].linearizedBaseContracts, sf0).diagnostics
  }

  /** What the last three checks of ContractLevelChecker::check report for
      contract c (abstract functions, base constructor arguments, the
      constructor), given the baseConstructorArguments annotation `args0`
      of c beforehand. */
  function InheritanceReports(ast: Contracts, c: ContractId, args0: ArgumentMap): seq<Diagnostic>
    requires WellFormed(ast, c)
  {
    var lin := ast[c].linearizedBaseContracts;
    (AbstractWalk(ast, lin).diagnostics
      + SiteReports(ast, ast[c], args0, LinearizationSites(ast, lin)))
      + ConstructorDiagnostics(ast[c])
  }

  /** Everything ContractLevelChecker::check reports for contract c, in
      order, given the superFunction annotation `sf0` and the
      baseConstructorArguments annotation `args0` of c beforehand. */
  function CheckReports(ast: Contracts, c: ContractId, sf0: map<DeclId, DeclId>, args0: ArgumentMap): seq<Diagnostic>
    requires WellFormed(ast, c)
  {
    DeclarationReports(ast, c, sf0) + InheritanceReports(ast, c, args0)
  }

  /** Everything the contract-level checker reports is an error. */
  lemma CheckReportsAreErrors(ast: Contracts, c: ContractId, sf0: map<DeclId, DeclId>, args0: ArgumentMap)
    requires WellFormed(ast, c)
    ensures AllErrors(CheckReports(ast, c, sf0, args0))
  {
    var lin := ast[c].linearizedBaseContracts;
    var d1 := DuplicateFunctionDiagnostics(ast[c].definedFunctions);
    var d2 := DuplicateEventDiagnostics(ast[c].events);
    var d3 := IllegalOverrides(ast, lin, sf0).diagnostics;
    var d4 := AbstractWalk(ast, lin).diagnostics;
    var d5 := SiteReports(ast, ast[c], args0, LinearizationSites(ast, lin));
    var d6 := ConstructorDiagnostics(ast[c]);
    WalkReportsOnlyErrors(InitialOverrideState(sf0), LinearizationItems(ast, lin));
    RedeclarationErrorsExact(BaseToDerived(ast, lin));
    AllErrorsAppend(d1, d2);
    AllErrorsAppend(d1 + d2, d3);
    AllErrorsAppend(d4, d5);
    AllErrorsAppend(d4 + d5, d6);
    AllErrorsAppend((d1 + d2) + d3, (d4 + d5) + d6);
  }

  /** check() passes exactly when the reporter held only warnings before and
      the checker reported nothing. */
  lemma CheckPassesIffNothingReported(ast: Contracts, c: ContractId, sf0: map<DeclId, DeclId>, args0: ArgumentMap, before: seq<Diagnostic>)
    requires WellFormed(ast, c)
    ensures ContainsOnlyWarnings(before + CheckReports(ast, c, sf0, args0)) <==>
      ContainsOnlyWarnings(before) && CheckReports(ast, c, sf0, args0) == []
  {
    CheckReportsAreErrors(ast, c, sf0, args0);
    OnlyWarningsAfterErrors(before, CheckReports(ast, c, sf0, args0));
  }

  class ContractLevelChecker {
    const reporter: ErrorReporter
    const functions: FunctionAnnotations
    const contracts: ContractAnnotations

    constructor(reporter: ErrorReporter, functions: FunctionAnnotations, contracts: ContractAnnotations)
      ensures this.reporter == reporter && this.functions == functions && this.contracts == contracts
    {
      this.reporter := reporter;
      this.functions := functions;
      this.contracts := contracts;
    }

    // ---- check ----

    /** ContractLevelChecker::check: runs the six checks in order and passes
        when the reporter holds only warnings afterwards. */
    method Check(ast: Contracts, c: ContractId) returns (ok: bool)
      requires WellFormed(ast, c)
      modifies reporter, functions, contracts
      ensures var reports := CheckReports(ast, c, old(functions.superFunction), old(contracts.Arguments(c)));
        && reporter.errors == old(reporter.errors) + reports
        && (ok <==> ContainsOnlyWarnings(old(reporter.errors)) && reports == [])
      ensures functions.superFunction == IllegalOverrides(ast, ast[c].linearizedBaseContracts, old(functions.superFunction)).superFunction
      ensures contracts.unimplementedFunctions == old(contracts.unimplementedFunctions)[c := UnimplementedAfter(ast, c, old(contracts.Unimplemented(c)), old(contracts.Arguments(c)))]
      ensures contracts.Arguments(c) == BaseArgumentsAfter(ast, c, old(contracts.Arguments(c)))
      ensures forall d :: d != c ==> contracts.Arguments(d) == old(contracts.Arguments(d))
    {
      ghost var e0 := reporter.errors;
      ghost var sf0 := functions.superFunction;
      ghost var args0 := contracts.Arguments(c);
      CheckDeclarations(ast, c);
      CheckInheritance(ast, c);
      Regroup(e0, DeclarationReports(ast, c, sf0), InheritanceReports(ast, c, args0));
      CheckPassesIffNothingReported(ast, c, sf0, args0, e0);
      ok := ContainsOnlyWarnings(reporter.errors);
    }

    /** The first three checks of check(), in order. */
    method CheckDeclarations(ast: Contracts, c: ContractId)
      requires WellFormed(ast, c)
      modifies reporter, functions
      ensures reporter.errors == old(reporter.errors) + DeclarationReports(ast, c, old(functions.superFunction))
      ensures functions.superFunction == IllegalOverrides(ast, ast[c].linearizedBaseContracts, old(functions.superFunction)).superFunction
    {
      ghost var e0 := reporter.errors;
      ghost var d1 := DuplicateFunctionDiagnostics(ast[c].definedFunctions);
      ghost var d2 := DuplicateEventDiagnostics(ast[c].events);
      ghost var d3 := IllegalOverrides(ast, ast[c].linearizedBaseContracts, functions.superFunction).diagnostics;
      CheckDuplicateFunctions(ast[c]);
      CheckDuplicateEvents(ast[c]);
      Regroup(e0, d1, d2);
      CheckIllegalOverrides(ast, c);
      Regroup(e0, d1 + d2, d3);
    }

    /** The last three checks of check(), in order. */
    method CheckInheritance(ast: Contracts, c: ContractId)
      requires WellFormed(ast, c)
      modifies reporter, contracts
      ensures reporter.errors == old(reporter.errors) + InheritanceReports(ast, c, old(contracts.Arguments(c)))
      ensures contracts.unimplementedFunctions == old(contracts.unimplementedFunctions)[c := UnimplementedAfter(ast, c, old(contracts.Unimplemented(c)), old(contracts.Arguments(c)))]
      ensures contracts.Arguments(c) == BaseArgumentsAfter(ast, c, old(contracts.Arguments(c)))
      ensures forall d :: d != c ==> contracts.Arguments(d) == old(contracts.Arguments(d))
    {
      var lin := ast[c].linearizedBaseContracts;
      ghost var e0 := reporter.errors;
      ghost var args0 := contracts.Arguments(c);
      ghost var d4 := AbstractWalk(ast, lin).diagnostics;
      ghost var d5 := SiteReports(ast, ast[c], args0, LinearizationSites(ast, lin));
      ghost var d6 := ConstructorDiagnostics(ast[c]);
      CheckAbstractFunctions(ast, c);
      ghost var e4 := reporter.errors;
      assert contracts.Arguments(c) == args0;
      assert contracts.Unimplemented(c) == old(contracts.Unimplemented(c)) + UnimplementedOf(AbstractWalk(ast, lin).functions);
      CheckBaseConstructorArguments(ast, c);
      SiteFoldReports(ast, ast[c], args0, e4, LinearizationSites(ast, lin));
      SiteFoldArguments(ast, ast[c], args0, e4, [], LinearizationSites(ast, lin));
      ghost var e5 := reporter.errors;
      CheckConstructor(ast[c]);
      assert e5 == (e0 + d4) + d5;
      Regroup(e0, d4, d5);
      Regroup(e0, d4 + d5, d6);
    }

    // ---- checkDuplicateFunctions, checkDuplicateEvents, findDuplicateDefinitions ----

    method FindDuplicateDefinitions(definitions: NameMap<seq<Overload>>, msg: Message)
      modifies reporter
      ensures reporter.errors == old(reporter.errors) + DuplicateDiagnostics(definitions, msg)
    {
      var e := 0;
      while e < |definitions|
        invariant 0 <= e <= |definitions|
        invariant reporter.errors == old(reporter.errors) + DuplicateDiagnostics(definitions[..e], msg)
      {
        BucketAppended(definitions, e, msg, old(reporter.errors), reporter.errors);
        ReportDuplicatesIn(definitions[e].value, msg);
        e := e + 1;
      }
      assert definitions[..e] == definitions;
    }

    /** The outer loop of findDuplicateDefinitions for one name. */
    method ReportDuplicatesIn(overloads: seq<Overload>, msg: Message)
      modifies reporter
      ensures reporter.errors == old(reporter.errors) + ScanBucket(overloads, 0, {}, msg)
    {
      var reported: set<nat> := {};
      var i := 0;
      while i < |overloads| && i !in reported
        invariant 0 <= i <= |overloads|
        invariant reporter.errors + ScanBucket(overloads, i, reported, msg) == old(reporter.errors) + ScanBucket(overloads, 0, {}, msg)
      {
        ghost var before := reporter.errors;
        var peers, secondary := SameParameters(overloads, i);
        if |secondary| > 0 {
          reporter.errors := reporter.errors + [Diagnostic(DeclarationError, overloads[i].location, secondary, msg)];
        }
        ScanRound(overloads, i, reported, msg, before, reporter.errors);
        reported := reported + Elements(peers);
        i := i + 1;
      }
      ScanDone(overloads, i, reported, msg);
      assert reporter.errors + [] == reporter.errors;
    }

    /** The inner loop of findDuplicateDefinitions: the later overloads with
        the parameter types of overloads[i], and their locations. */
    static method SameParameters(overloads: seq<Overload>, i: nat) returns (peers: seq<nat>, secondary: seq<Secondary>)
      requires i < |overloads|
      ensures peers == Peers(overloads, i, |overloads|)
      ensures secondary == Secondaries(overloads, peers)
    {
      peers := [];
      secondary := [];
      var j := i + 1;
      while j < |overloads|
        invariant i + 1 <= j <= |overloads|
        invariant peers == Peers(overloads, i, j)
        invariant secondary == Secondaries(overloads, peers)
      {
        if overloads[j].parameters == overloads[i].parameters {
          secondary := secondary + [Secondary(OtherDeclaration, overloads[j].location)];
          peers := peers + [j];
        }
        j := j + 1;
      }
    }

    method CheckDuplicateFunctions(contract: ContractDefinition)
      modifies reporter
      ensures reporter.errors == old(reporter.errors) + DuplicateFunctionDiagnostics(contract.definedFunctions)
    {
      var fs := contract.definedFunctions;
      var functions: NameMap<seq<Overload>> := [];
      var lastConstructor: Option<FunctionDefinition> := None;
      var lastFallback: Option<FunctionDefinition> := None;
      var j := 0;
      while j < |fs|
        invariant 0 <= j <= |fs|
        invariant functions == ScanFunctions(fs[..j]).functions
        invariant lastConstructor == ScanFunctions(fs[..j]).lastConstructor
        invariant lastFallback == ScanFunctions(fs[..j]).lastFallback
        invariant reporter.errors == old(reporter.errors) + ScanFunctions(fs[..j]).diagnostics
      {
        var f := fs[j];
        ghost var reported := ScanFunctions(fs[..j]).diagnostics;
        ScanPrefixStep(fs, j);
        if f.kind == Constructor {
          if lastConstructor.Some? {
            reporter.errors := reporter.errors + [Diagnostic(DeclarationError, f.location,
              [Secondary(AnotherDeclaration, lastConstructor.value.location)], MoreThanOneConstructor)];
          }
          Regroup(old(reporter.errors), reported, RepeatReport(f, lastConstructor, MoreThanOneConstructor));
          lastConstructor := Some(f);
        } else if f.kind == Fallback {
          if lastFallback.Some? {
            reporter.errors := reporter.errors + [Diagnostic(DeclarationError, f.location,
              [Secondary(AnotherDeclaration, lastFallback.value.location)], OnlyOneFallback)];
          }
          Regroup(old(reporter.errors), reported, RepeatReport(f, lastFallback, OnlyOneFallback));
          lastFallback := Some(f);
        } else {
          functions := Append(functions, f.name, FunctionOverload(f));
        }
        j := j + 1;
      }
      assert fs[..j] == fs;
      ghost var scanned := ScanFunctions(fs).diagnostics;
      FindDuplicateDefinitions(functions, DuplicateFunction);
      Regroup(old(reporter.errors), scanned, DuplicateDiagnostics(functions, DuplicateFunction));
    }

    method CheckDuplicateEvents(contract: ContractDefinition)
      modifies reporter
      ensures reporter.errors == old(reporter.errors) + DuplicateEventDiagnostics(contract.events)
    {
      var es := contract.events;
      var events: NameMap<seq<Overload>> := [];
      var j := 0;
      while j < |es|
        invariant 0 <= j <= |es|
        invariant events == EventBuckets(es[..j])
      {
        assert es[..j + 1][..j] == es[..j];
        events := Append(events, es[j].name, EventOverload(es[j]));
        j := j + 1;
      }
      assert es[..j] == es;
      FindDuplicateDefinitions(events, DuplicateEvent);
    }

    // ---- checkConstructor ----

    method CheckConstructor(contract: ContractDefinition)
      modifies reporter
      ensures reporter.errors == old(reporter.errors) + ConstructorDiagnostics(contract)
    {
      var found := ConstructorOf(contract);
      if found.None? {
        return;
      }
      var ctor := found.value;
      if |ctor.returnParameters| > 0 {
        reporter.errors := reporter.errors + [Diagnostic(TypeError, ctor.returnParameterListLocation, [], ConstructorReturns)];
      }
      if ctor.stateMutability != NonPayable && ctor.stateMutability != Payable {
        reporter.errors := reporter.errors + [Diagnostic(TypeError, ctor.location, [], ConstructorMutability(ctor.stateMutability))];
      }
      if ctor.visibility != Public && ctor.visibility != Internal {
        reporter.errors := reporter.errors + [Diagnostic(TypeError, ctor.location, [], ConstructorVisibility)];
      }
    }

    // ---- checkFunctionOverride, overrideError ----

    method OverrideError(f: FunctionDefinition, super: FunctionDefinition, msg: Message)
      modifies reporter
      ensures reporter.errors == old(reporter.errors) + [Overrides.OverrideError(f, super, msg)]
    {
      reporter.errors := reporter.errors + [Diagnostic(TypeError, f.location, [Secondary(OverriddenFunction, super.location)], msg)];
    }

    method CheckFunctionOverride(f: FunctionDefinition, super: FunctionDefinition)
      modifies reporter, functions
      ensures reporter.errors == old(reporter.errors) + OverrideDiagnostics(f, super)
      ensures functions.superFunction == RecordSuper(old(functions.superFunction), f, super)
    {
      if f.parameters != super.parameters {
        return;
      }
      ghost var start := reporter.errors;
      ghost var returned := if f.returnParameters != super.returnParameters then [Overrides.OverrideError(f, super, ReturnTypesDiffer)] else [];
      ghost var visibility := if f.visibility != super.visibility && !VisibilityChangeAllowed(super.visibility, f.visibility)
        then [Overrides.OverrideError(f, super, VisibilityDiffers)] else [];
      ghost var mutability := if f.stateMutability != super.stateMutability
        then [Overrides.OverrideError(f, super, MutabilityChanged(super.stateMutability, f.stateMutability))] else [];
      if f.returnParameters != super.returnParameters {
        OverrideError(f, super, ReturnTypesDiffer);
      }
      assert reporter.errors == start + returned;
      if f.id !in functions.superFunction {
        functions.superFunction := functions.superFunction[f.id := super.id];
      }
      if f.visibility != super.visibility {
        if !(super.visibility == External && f.visibility == Public) {
          OverrideError(f, super, VisibilityDiffers);
        }
      }
      assert reporter.errors == (start + returned) + visibility;
      if f.stateMutability != super.stateMutability {
        OverrideError(f, super, MutabilityChanged(super.stateMutability, f.stateMutability));
      }
      assert reporter.errors == ((start + returned) + visibility) + mutability;
      Regroup(start, returned, visibility);
      Regroup(start, returned + visibility, mutability);
    }

    // ---- checkIllegalOverrides ----

    method CheckIllegalOverrides(ast: Contracts, c: ContractId)
      requires WellFormed(ast, c)
      modifies reporter, functions
      ensures var st := IllegalOverrides(ast, ast[c].linearizedBaseContracts, old(functions.superFunction));
        reporter.errors == old(reporter.errors) + st.diagnostics && functions.superFunction == st.superFunction
    {
      var lin := ast[c].linearizedBaseContracts;
      ghost var start := OverrideState(map[], map[], functions.superFunction, reporter.errors);
      var functionsByName: map<string, seq<FunctionDefinition>> := map[];
      var modifiersByName: map<string, ModifierDefinition> := map[];
      var i := 0;
      while i < |lin|
        invariant 0 <= i <= |lin|
        invariant Walk(start, LinearizationItems(ast, lin[..i])) ==
          OverrideState(functionsByName, modifiersByName, functions.superFunction, reporter.errors)
      {
        var contract := ast[lin[i]];
        ghost var before := LinearizationItems(ast, lin[..i]);
        functionsByName := VisitFunctions(contract.definedFunctions, start, before, functionsByName, modifiersByName);
        modifiersByName := VisitModifiers(contract.functionModifiers, start, before + FunctionItems(contract.definedFunctions),
          functionsByName, modifiersByName);
        LinearizationItemsStep(ast, lin, i);
        i := i + 1;
      }
      assert lin[..i] == lin;
      WalkShift(InitialOverrideState(start.superFunction), start.diagnostics, LinearizationItems(ast, lin));
      assert start.diagnostics + [] == start.diagnostics;
    }

    /** The loop of checkIllegalOverrides over the functions of one contract,
        continuing the walk `before` from `start`. */
    method VisitFunctions(fs: seq<FunctionDefinition>, ghost start: OverrideState, ghost before: seq<WalkItem>,
                          functionsByName: map<string, seq<FunctionDefinition>>, modifiersByName: map<string, ModifierDefinition>)
      returns (byName: map<string, seq<FunctionDefinition>>)
      requires Walk(start, before) == OverrideState(functionsByName, modifiersByName, functions.superFunction, reporter.errors)
      modifies reporter, functions
      ensures Walk(start, before + FunctionItems(fs)) == OverrideState(byName, modifiersByName, functions.superFunction, reporter.errors)
    {
      byName := functionsByName;
      assert before + FunctionItems(fs[..0]) == before;
      var j := 0;
      while j < |fs|
        invariant 0 <= j <= |fs|
        invariant Walk(start, before + FunctionItems(fs[..j])) ==
          OverrideState(byName, modifiersByName, functions.superFunction, reporter.errors)
      {
        WalkFunctionStep(start, before, fs, j);
        byName := VisitFunction(fs[j], byName, modifiersByName);
        j := j + 1;
      }
      assert fs[..j] == fs;
    }

    /** The body of the function loop of checkIllegalOverrides for one function. */
    method VisitFunction(f: FunctionDefinition, functionsByName: map<string, seq<FunctionDefinition>>,
                         modifiersByName: map<string, ModifierDefinition>)
      returns (byName: map<string, seq<FunctionDefinition>>)
      modifies reporter, functions
      ensures OverrideState(byName, modifiersByName, functions.superFunction, reporter.errors) ==
        Overrides.VisitFunction(OverrideState(functionsByName, modifiersByName, old(functions.superFunction), old(reporter.errors)), f)
    {
      byName := functionsByName;
      if f.kind != Constructor {
        var name := f.name;
        if name in modifiersByName {
          reporter.errors := reporter.errors + [Diagnostic(TypeError, modifiersByName[name].location, [], FunctionToModifier)];
        }
        var overriding := if name in byName then byName[name] else [];
        CheckAgainstOverriding(overriding, f);
        byName := byName[name := overriding + [f]];
      }
    }

    /** The innermost loop of checkIllegalOverrides: every function met so
        far under the name of `base` is checked as overriding it. */
    method CheckAgainstOverriding(overriding: seq<FunctionDefinition>, base: FunctionDefinition)
      modifies reporter, functions
      ensures reporter.errors == old(reporter.errors) + ReportsAgainst(overriding, base)
      ensures functions.superFunction == SuperAfter(overriding, base, old(functions.superFunction))
    {
      var k := 0;
      while k < |overriding|
        invariant 0 <= k <= |overriding|
        invariant reporter.errors == old(reporter.errors) + ReportsAgainst(overriding[..k], base)
        invariant functions.superFunction == SuperAfter(overriding[..k], base, old(functions.superFunction))
      {
        OverrideRound(overriding, k, base, old(functions.superFunction), old(reporter.errors), reporter.errors);
        CheckFunctionOverride(overriding[k], base);
        k := k + 1;
      }
      assert overriding[..k] == overriding;
    }

    /** The loop of checkIllegalOverrides over the modifiers of one contract. */
    method VisitModifiers(ms: seq<ModifierDefinition>, ghost start: OverrideState, ghost before: seq<WalkItem>,
                          functionsByName: map<string, seq<FunctionDefinition>>, modifiersByName: map<string, ModifierDefinition>)
      returns (byName: map<string, ModifierDefinition>)
      requires Walk(start, before) == OverrideState(functionsByName, modifiersByName, functions.superFunction, reporter.errors)
      modifies reporter
      ensures Walk(start, before + ModifierItems(ms)) == OverrideState(functionsByName, byName, functions.superFunction, reporter.errors)
    {
      byName := modifiersByName;
      assert before + ModifierItems(ms[..0]) == before;
      var j := 0;
      while j < |ms|
        invariant 0 <= j <= |ms|
        invariant Walk(start, before + ModifierItems(ms[..j])) ==
          OverrideState(functionsByName, byName, functions.superFunction, reporter.errors)
      {
        WalkModifierStep(start, before, ms, j);
        byName := VisitModifier(ms[j], functionsByName, byName);
        j := j + 1;
      }
      assert ms[..j] == ms;
    }

    /** The body of the modifier loop of checkIllegalOverrides for one modifier. */
    method VisitModifier(m: ModifierDefinition, functionsByName: map<string, seq<FunctionDefinition>>,
                         modifiersByName: map<string, ModifierDefinition>)
      returns (byName: map<string, ModifierDefinition>)
      modifies reporter
      ensures OverrideState(functionsByName, byName, functions.superFunction, reporter.errors) ==
        Overrides.VisitModifier(OverrideState(functionsByName, modifiersByName, functions.superFunction, old(reporter.errors)), m)
    {
      byName := modifiersByName;
      var name := m.name;
      if name !in byName {
        byName := byName[name := m];
      } else if byName[name].parameters != m.parameters {
        reporter.errors := reporter.errors + [Diagnostic(TypeError, byName[name].location, [], ModifierSignatureChanged)];
      }
      if name in functionsByName && functionsByName[name] != [] {
        reporter.errors := reporter.errors + [Diagnostic(TypeError, byName[name].location, [], ModifierToFunction)];
      }
    }

    // ---- checkAbstractFunctions ----

    method CheckAbstractFunctions(ast: Contracts, c: ContractId)
      requires WellFormed(ast, c)
      modifies reporter, contracts
      ensures var st := AbstractWalk(ast, ast[c].linearizedBaseContracts);
        && reporter.errors == old(reporter.errors) + st.diagnostics
        && contracts.unimplementedFunctions ==
             old(contracts.unimplementedFunctions)[c := old(contracts.Unimplemented(c)) + UnimplementedOf(st.functions)]
        && contracts.baseConstructorArguments == old(contracts.baseConstructorArguments)
    {
      var lin := ast[c].linearizedBaseContracts;
      ghost var start := AbstractState([], reporter.errors);
      var functionsByName: NameMap<seq<OverloadClass>> := [];
      var i := |lin|;
      while i > 0
        invariant 0 <= i <= |lin|
        invariant AbstractFold(start, BaseToDerived(ast, lin[i..])) == AbstractState(functionsByName, reporter.errors)
        modifies reporter
      {
        BaseToDerivedStep(ast, lin, i);
        functionsByName := GroupOverloads(ast[lin[i - 1]].definedFunctions, start, BaseToDerived(ast, lin[i..]), functionsByName);
        i := i - 1;
      }
      assert lin[0..] == lin;
      AbstractFoldShift(InitialAbstractState, start.diagnostics, BaseToDerived(ast, lin));
      assert start.diagnostics + [] == start.diagnostics;
      ListUnimplemented(c, functionsByName);
    }

    /** The loop of checkAbstractFunctions over the functions of one
        contract, continuing the walk over `walked` from `start`. */
    method GroupOverloads(fs: seq<FunctionDefinition>, ghost start: AbstractState, ghost walked: seq<FunctionDefinition>,
                          functionsByName: NameMap<seq<OverloadClass>>)
      returns (byName: NameMap<seq<OverloadClass>>)
      requires AbstractFold(start, walked) == AbstractState(functionsByName, reporter.errors)
      modifies reporter
      ensures AbstractFold(start, walked + fs) == AbstractState(byName, reporter.errors)
    {
      byName := functionsByName;
      var j := 0;
      assert walked + fs[..0] == walked;
      while j < |fs|
        invariant 0 <= j <= |fs|
        invariant AbstractFold(start, walked + fs[..j]) == AbstractState(byName, reporter.errors)
      {
        AbstractFoldAppend(start, walked + fs[..j], fs[j]);
        assert (walked + fs[..j]) + [fs[j]] == walked + fs[..j + 1];
        byName := GroupOverload(fs[j], byName);
        j := j + 1;
      }
      assert fs[..j] == fs;
    }

    /** The body of the first loop of checkAbstractFunctions for one function. */
    method GroupOverload(f: FunctionDefinition, functionsByName: NameMap<seq<OverloadClass>>)
      returns (byName: NameMap<seq<OverloadClass>>)
      modifies reporter
      ensures AbstractState(byName, reporter.errors) == AbstractStep(AbstractState(functionsByName, old(reporter.errors)), f)
    {
      byName := functionsByName;
      if f.kind == Constructor {
        return;
      }
      var overloads := GetSeq(byName, f.name);
      var it := FindOverload(overloads, f);
      if it == |overloads| {
        byName := Put(byName, f.name, overloads + [OverloadClass(f, f.isImplemented)]);
      } else if overloads[it].implemented {
        if !f.isImplemented {
          reporter.errors := reporter.errors + [RedeclarationError(f)];
        }
      } else if f.isImplemented {
        byName := Put(byName, f.name, overloads[it := overloads[it].(implemented := true)]);
      }
    }

    /** The find_if of checkAbstractFunctions. */
    static method FindOverload(overloads: seq<OverloadClass>, f: FunctionDefinition) returns (it: nat)
      ensures it == FindClass(overloads, f)
    {
      it := 0;
      while it < |overloads| && overloads[it].representative.parameters != f.parameters
        invariant 0 <= it <= |overloads|
        invariant FindClass(overloads, f) == it + FindClass(overloads[it..], f)
      {
        assert overloads[it..][1..] == overloads[it + 1..];
        it := it + 1;
      }
    }

    /** The second loop of checkAbstractFunctions: for each name, in order,
        the first class not implemented is appended to the unimplemented
        functions of contract c. */
    method ListUnimplemented(c: ContractId, functionsByName: NameMap<seq<OverloadClass>>)
      modifies contracts
      ensures contracts.unimplementedFunctions ==
        old(contracts.unimplementedFunctions)[c := old(contracts.Unimplemented(c)) + UnimplementedOf(functionsByName)]
      ensures contracts.baseConstructorArguments == old(contracts.baseConstructorArguments)
    {
      ghost var listed := contracts.Unimplemented(c);
      contracts.unimplementedFunctions := contracts.unimplementedFunctions[c := contracts.Unimplemented(c)];
      assert functionsByName[..0] == [];
      assert listed + UnimplementedOf(functionsByName[..0]) == listed;
      var e := 0;
      while e < |functionsByName|
        invariant 0 <= e <= |functionsByName|
        invariant c in contracts.unimplementedFunctions
        invariant contracts.unimplementedFunctions[c] == listed + UnimplementedOf(functionsByName[..e])
        invariant forall d :: d != c ==> (d in contracts.unimplementedFunctions <==> d in old(contracts.unimplementedFunctions))
        invariant forall d :: d != c && d in contracts.unimplementedFunctions ==>
          contracts.unimplementedFunctions[d] == old(contracts.unimplementedFunctions)[d]
        invariant contracts.baseConstructorArguments == old(contracts.baseConstructorArguments)
      {
        var classes := functionsByName[e].value;
        var k := FirstNotImplemented(classes);
        ghost var before := contracts.unimplementedFunctions[c];
        if k < |classes| {
          contracts.unimplementedFunctions := contracts.unimplementedFunctions[c := contracts.unimplementedFunctions[c] + [classes[k].representative]];
        }
        UnimplementedOfStep(functionsByName, e);
        Regroup(listed, UnimplementedOf(functionsByName[..e]), if k < |classes| then [classes[k].representative] else []);
        e := e + 1;
      }
      assert functionsByName[..e] == functionsByName;
    }

    /** The inner loop of the second loop of checkAbstractFunctions, up to its `break`. */
    static method FirstNotImplemented(classes: seq<OverloadClass>) returns (k: nat)
      ensures k == FirstUnimplemented(classes)
    {
      k := 0;
      while k < |classes| && classes[k].implemented
        invariant 0 <= k <= |classes|
        invariant FirstUnimplemented(classes) == k + FirstUnimplemented(classes[k..])
      {
        assert classes[k..][1..] == classes[k + 1..];
        k := k + 1;
      }
    }

    // ---- checkBaseConstructorArguments ----

    method CheckBaseConstructorArguments(ast: Contracts, c: ContractId)
      requires c in ast && ast[c].id == c
      requires forall j :: 0 <= j < |ast[c].linearizedBaseContracts| ==> ast[c].linearizedBaseContracts[j] in ast
      modifies reporter, contracts
      ensures var st := SiteFold(ast, ast[c], BaseState(old(contracts.Arguments(c)), old(reporter.errors)),
                                 LinearizationSites(ast, ast[c].linearizedBaseContracts));
        && reporter.errors == st.diagnostics
        && contracts.Arguments(c) == st.arguments
        && contracts.unimplementedFunctions == old(contracts.unimplementedFunctions)[c :=
             old(contracts.Unimplemented(c)) + MissingBaseConstructors(ast, c, ast[c].linearizedBaseContracts, st.arguments)]
      ensures forall d :: d != c ==> contracts.Arguments(d) == old(contracts.Arguments(d))
    {
      SupplyFromBases(ast, ast[c], ast[c].linearizedBaseContracts);
      ListMissingBaseConstructors(ast, c, ast[c].linearizedBaseContracts);
    }

    /** The first loop of checkBaseConstructorArguments: the sites of the
        bases `lin`, from the most derived contract on. */
    method SupplyFromBases(ast: Contracts, current: ContractDefinition, lin: seq<ContractId>)
      requires forall j :: 0 <= j < |lin| ==> lin[j] in ast
      modifies reporter, contracts
      ensures SiteFold(ast, current, BaseState(old(contracts.Arguments(current.id)), old(reporter.errors)), LinearizationSites(ast, lin))
        == BaseState(contracts.Arguments(current.id), reporter.errors)
      ensures forall d :: d != current.id ==> contracts.Arguments(d) == old(contracts.Arguments(d))
      ensures contracts.unimplementedFunctions == old(contracts.unimplementedFunctions)
    {
      ghost var start := BaseState(contracts.Arguments(current.id), reporter.errors);
      var i := 0;
      while i < |lin|
        invariant 0 <= i <= |lin|
        invariant SiteFold(ast, current, start, LinearizationSites(ast, lin[..i])) == BaseState(contracts.Arguments(current.id), reporter.errors)
        invariant forall d :: d != current.id ==> contracts.Arguments(d) == old(contracts.Arguments(d))
        invariant contracts.unimplementedFunctions == old(contracts.unimplementedFunctions)
      {
        LinearizationSitesStep(ast, lin, i);
        SupplyFromContract(ast, current, ast[lin[i]], start, LinearizationSites(ast, lin[..i]));
        i := i + 1;
      }
      assert lin[..i] == lin;
    }

    /** The body of the first loop of checkBaseConstructorArguments for one
        base: the modifier invocations of its constructor, then its
        inheritance specifiers. */
    method SupplyFromContract(ast: Contracts, current: ContractDefinition, contract: ContractDefinition,
                              ghost start: BaseState, ghost before: seq<Site>)
      requires SiteFold(ast, current, start, before) == BaseState(contracts.Arguments(current.id), reporter.errors)
      modifies reporter, contracts
      ensures var own := match ConstructorOf(contract) case Some(ctor) => ModifierSites(ctor.modifiers) case None => [];
        SiteFold(ast, current, start, (before + own) + SpecifierSites(contract.baseContracts)) ==
          BaseState(contracts.Arguments(current.id), reporter.errors)
      ensures forall d :: d != current.id ==> contracts.Arguments(d) == old(contracts.Arguments(d))
      ensures contracts.unimplementedFunctions == old(contracts.unimplementedFunctions)
    {
      var found := ConstructorOf(contract);
      if found.Some? {
        SupplyFrom(ast, current, ModifierSites(found.value.modifiers), start, before);
      } else {
        assert before + [] == before;
      }
      ghost var own := match found case Some(ctor) => ModifierSites(ctor.modifiers) case None => [];
      SupplyFrom(ast, current, SpecifierSites(contract.baseContracts), start, before + own);
    }

    /** One of the two inner loops of the first loop of
        checkBaseConstructorArguments, over the modifier invocations of a
        base's constructor or over a base's inheritance specifiers. */
    method SupplyFrom(ast: Contracts, current: ContractDefinition, sites: seq<Site>, ghost start: BaseState, ghost before: seq<Site>)
      requires SiteFold(ast, current, start, before) == BaseState(contracts.Arguments(current.id), reporter.errors)
      modifies reporter, contracts
      ensures SiteFold(ast, current, start, before + sites) == BaseState(contracts.Arguments(current.id), reporter.errors)
      ensures forall d :: d != current.id ==> contracts.Arguments(d) == old(contracts.Arguments(d))
      ensures contracts.unimplementedFunctions == old(contracts.unimplementedFunctions)
    {
      assert before + sites[..0] == before;
      var j := 0;
      while j < |sites|
        invariant 0 <= j <= |sites|
        invariant SiteFold(ast, current, start, before + sites[..j]) == BaseState(contracts.Arguments(current.id), reporter.errors)
        invariant forall d :: d != current.id ==> contracts.Arguments(d) == old(contracts.Arguments(d))
        invariant contracts.unimplementedFunctions == old(contracts.unimplementedFunctions)
      {
        SiteFoldAppend(ast, current, start, before, sites, j);
        SupplyAt(ast, current, sites[j]);
        j := j + 1;
      }
      assert sites[..j] == sites;
    }

    /** The body of those loops for one modifier invocation or inheritance specifier. */
    method SupplyAt(ast: Contracts, current: ContractDefinition, s: Site)
      modifies reporter, contracts
      ensures BaseState(contracts.Arguments(current.id), reporter.errors) ==
        SiteStep(ast, current, BaseState(old(contracts.Arguments(current.id)), old(reporter.errors)), s)
      ensures forall d :: d != current.id ==> contracts.Arguments(d) == old(contracts.Arguments(d))
      ensures contracts.unimplementedFunctions == old(contracts.unimplementedFunctions)
    {
      match s
      case ModifierSite(mi) =>
        if mi.target.ContractTarget? {
          if mi.arguments.Some? {
            var ctor := ConstructorIn(ast, mi.target.contract);
            if ctor.Some? {
              AnnotateBaseConstructorArguments(current, ctor.value.id, mi.node);
            }
          } else {
            reporter.errors := reporter.errors + [Diagnostic(DeclarationError, mi.node.location, [], ModifierStyleCallWithoutArguments)];
          }
        }
      case SpecifierSite(sp) =>
        var ctor := ConstructorIn(ast, sp.base);
        if ctor.Some? && sp.arguments.Some? && |sp.arguments.value| > 0 {
          AnnotateBaseConstructorArguments(current, ctor.value.id, sp.node);
        }
    }

    /** The second loop of checkBaseConstructorArguments: every base other
        than c whose constructor takes parameters and was given no arguments
        has that constructor appended to the unimplemented functions of c. */
    method ListMissingBaseConstructors(ast: Contracts, c: ContractId, lin: seq<ContractId>)
      requires forall j :: 0 <= j < |lin| ==> lin[j] in ast
      modifies contracts
      ensures contracts.unimplementedFunctions == old(contracts.unimplementedFunctions)[c :=
        old(contracts.Unimplemented(c)) + MissingBaseConstructors(ast, c, lin, contracts.Arguments(c))]
      ensures contracts.baseConstructorArguments == old(contracts.baseConstructorArguments)
    {
      var args := contracts.Arguments(c);
      ghost var others := old(contracts.unimplementedFunctions);
      ghost var listed := contracts.Unimplemented(c);
      contracts.unimplementedFunctions := contracts.unimplementedFunctions[c := contracts.Unimplemented(c)];
      assert listed + MissingBaseConstructors(ast, c, lin[..0], args) == listed;
      var j := 0;
      while j < |lin|
        invariant 0 <= j <= |lin|
        invariant contracts.unimplementedFunctions == others[c := listed + MissingBaseConstructors(ast, c, lin[..j], args)]
        invariant contracts.baseConstructorArguments == old(contracts.baseConstructorArguments)
      {
        var found := ConstructorOf(ast[lin[j]]);
        MissingBaseConstructorsStep(ast, c, lin, args, j);
        ghost var before := listed + MissingBaseConstructors(ast, c, lin[..j], args);
        ghost var added: seq<FunctionDefinition> := [];
        if found.Some? {
          if lin[j] != c && |found.value.parameters| > 0 {
            if found.value.id !in args {
              contracts.unimplementedFunctions := contracts.unimplementedFunctions[c := contracts.unimplementedFunctions[c] + [found.value]];
              added := [found.value];
              assert contracts.unimplementedFunctions == others[c := before + added];
            }
          }
        }
        assert MissingBaseConstructors(ast, c, lin[..j + 1], args) == MissingBaseConstructors(ast, c, lin[..j], args) + added;
        Regroup(listed, MissingBaseConstructors(ast, c, lin[..j], args), added);
        assert before + [] == before;
        j := j + 1;
      }
      assert lin[..j] == lin;
    }

    // ---- annotateBaseConstructorArguments ----

    method AnnotateBaseConstructorArguments(current: ContractDefinition, baseConstructor: DeclId, argumentNode: ArgumentNode)
      modifies reporter, contracts
      ensures var st := Annotate(BaseState(old(contracts.Arguments(current.id)), old(reporter.errors)), current, baseConstructor, argumentNode);
        contracts.Arguments(current.id) == st.arguments && reporter.errors == st.diagnostics
      ensures forall c :: c != current.id ==> contracts.Arguments(c) == old(contracts.Arguments(c))
      ensures contracts.unimplementedFunctions == old(contracts.unimplementedFunctions)
    {
      var args: ArgumentMap := contracts.Arguments(current.id);
      if baseConstructor !in args {
        var updated: ArgumentMap := args[baseConstructor := argumentNode];
        contracts.baseConstructorArguments := contracts.baseConstructorArguments[current.id := updated];
      } else {
        var previous := args[baseConstructor];
        var d: Diagnostic;
        if Contains(current.location, previous.location) || Contains(current.location, argumentNode.location) {
          d := Diagnostic(DeclarationError, previous.location,
            [Secondary(SecondConstructorCall, argumentNode.location)], ArgumentsGivenTwice);
        } else {
          d := Diagnostic(DeclarationError, current.location,
            [Secondary(FirstConstructorCall, argumentNode.location), Secondary(SecondConstructorCall, previous.location)],
            ArgumentsGivenTwice);
        }
        reporter.errors := reporter.errors + [d];
      }
    }
  }
}
