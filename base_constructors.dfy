/**
 * checkBaseConstructorArguments and annotateBaseConstructorArguments: which
 * node supplies the arguments of each base constructor of a contract, the
 * errors for arguments given twice or for a modifier-style call without
 * arguments, and the base constructors left without arguments.
 */
module BaseConstructors {
  import opened Ast
  import opened Diagnostics

  /** The baseConstructorArguments annotation of a contract: base constructor to argument node. */
  type ArgumentMap = map<DeclId, ArgumentNode>

  /** The constructor of a contract known by identity. The contracts named
      by a well-formed linearization are always known (see Ast.WellFormed). */
  function ConstructorIn(ast: Contracts, b: ContractId): Option<FunctionDefinition>
  {
    if b in ast then ConstructorOf(ast[b]) else None
  }

  /** The error for a base constructor given arguments by `node` after
      `previous` did. When the current contract's location contains either
      node, the error is placed at the earlier node; otherwise at the
      contract, with both nodes as secondary locations. */
  function TwiceError(current: ContractDefinition, previous: ArgumentNode, node: ArgumentNode): (d: Diagnostic)
    ensures d.severity == DeclarationError && d.message == ArgumentsGivenTwice
    ensures Contains(current.location, previous.location) || Contains(current.location, node.location) ==>
      d.location == previous.location && d.secondary == [Secondary(SecondConstructorCall, node.location)]
    ensures !(Contains(current.location, previous.location) || Contains(current.location, node.location)) ==>
      d.location == current.location &&
      d.secondary == [Secondary(FirstConstructorCall, node.location), Secondary(SecondConstructorCall, previous.location)]
  {
    if Contains(current.location, previous.location) || Contains(current.location, node.location) then
      Diagnostic(DeclarationError, previous.location, [Secondary(SecondConstructorCall, node.location)], ArgumentsGivenTwice)
    else
      Diagnostic(DeclarationError, current.location,
        [Secondary(FirstConstructorCall, node.location), Secondary(SecondConstructorCall, previous.location)],
        ArgumentsGivenTwice)
  }

  datatype BaseState = BaseState(arguments: ArgumentMap, diagnostics: seq<Diagnostic>)

  /** annotateBaseConstructorArguments: the first node to supply a base
      constructor is kept; a later one is reported and changes nothing else. */
  function Annotate(st: BaseState, current: ContractDefinition, ctor: DeclId, node: ArgumentNode): (r: BaseState)
    ensures ctor !in st.arguments ==> r == BaseState(st.arguments[ctor := node], st.diagnostics)
    ensures ctor in st.arguments ==>
      r == BaseState(st.arguments, st.diagnostics + [TwiceError(current, st.arguments[ctor], node)])
  {
    if ctor !in st.arguments then st.(arguments := st.arguments[ctor := node])
    else st.(diagnostics := st.diagnostics + [TwiceError(current, st.arguments[ctor], node)])
  }

  /** A place that may supply base constructor arguments: a modifier
      invocation in a constructor header, or an inheritance specifier. */
  datatype Site = ModifierSite(invocation: ModifierInvocation) | SpecifierSite(specifier: InheritanceSpecifier)

  function SiteNode(s: Site): ArgumentNode
  {
    match s
    case ModifierSite(mi) => mi.node
    case SpecifierSite(sp) => sp.node
  }

  /** A modifier-style call of a base constructor written without parentheses. */
  predicate CallWithoutArguments(s: Site)
  {
    s.ModifierSite? && s.invocation.target.ContractTarget? && s.invocation.arguments.None?
  }

  /** The base constructor a site supplies arguments to, if any: a
      modifier-style call with an argument list (possibly empty), or an
      inheritance specifier with a non-empty argument list, naming a
      contract that has a constructor. */
  function Supplied(ast: Contracts, s: Site): Option<DeclId>
  {
    match s
    case ModifierSite(mi) =>
      if mi.target.ContractTarget? && mi.arguments.Some? && ConstructorIn(ast, mi.target.contract).Some?
      then Some(ConstructorIn(ast, mi.target.contract).value.id) else None
    case SpecifierSite(sp) =>
      if ConstructorIn(ast, sp.base).Some? && sp.arguments.Some? && |sp.arguments.value| > 0
      then Some(ConstructorIn(ast, sp.base).value.id) else None
  }

  function MissingArgumentsError(mi: ModifierInvocation): Diagnostic
  {
    Diagnostic(DeclarationError, mi.node.location, [], ModifierStyleCallWithoutArguments)
  }

  /** One site of the first loop of checkBaseConstructorArguments. */
  function SiteStep(ast: Contracts, current: ContractDefinition, st: BaseState, s: Site): BaseState
  {
    if CallWithoutArguments(s) then st.(diagnostics := st.diagnostics + [MissingArgumentsError(s.invocation)])
    else match Supplied(ast, s)
      case Some(k) => Annotate(st, current, k, SiteNode(s))
      case None => st
  }

  function SiteFold(ast: Contracts, current: ContractDefinition, st: BaseState, sites: seq<Site>): BaseState
  {
    if sites == [] then st
    else SiteStep(ast, current, SiteFold(ast, current, st, sites[..|sites| - 1]), sites[|sites| - 1])
  }

  function ModifierSites(ms: seq<ModifierInvocation>): (r: seq<Site>)
    ensures |r| == |ms|
    ensures forall k :: 0 <= k < |r| ==> r[k] == ModifierSite(ms[k])
  {
    if ms == [] then [] else ModifierSites(ms[..|ms| - 1]) + [ModifierSite(ms[|ms| - 1])]
  }

  function SpecifierSites(ss: seq<InheritanceSpecifier>): (r: seq<Site>)
    ensures |r| == |ss|
    ensures forall k :: 0 <= k < |r| ==> r[k] == SpecifierSite(ss[k])
  {
    if ss == [] then [] else SpecifierSites(ss[..|ss| - 1]) + [SpecifierSite(ss[|ss| - 1])]
  }

  /** The sites of one contract: the modifier invocations of its
      constructor, then its inheritance specifiers. */
  function ContractSites(b: ContractDefinition): seq<Site>
  {
    (match ConstructorOf(b)
     case Some(ctor) => ModifierSites(ctor.modifiers)
     case None => [])
    + SpecifierSites(b.baseContracts)
  }

  /** The sites of the contracts `lin`, in that order. */
  function LinearizationSites(ast: Contracts, lin: seq<ContractId>): seq<Site>
    requires forall j :: 0 <= j < |lin| ==> lin[j] in ast
  {
    if lin == [] then [] else LinearizationSites(ast, lin[..|lin| - 1]) + ContractSites(ast[lin[|lin| - 1]])
  }

  lemma SiteFoldAppend(ast: Contracts, current: ContractDefinition, st: BaseState, before: seq<Site>, sites: seq<Site>, j: nat)
    requires j < |sites|
    ensures SiteFold(ast, current, st, before + sites[..j + 1]) ==
      SiteStep(ast, current, SiteFold(ast, current, st, before + sites[..j]), sites[j])
  {
    PrefixSnoc(before, sites, j);
  }

  lemma PrefixSnoc<T>(a: seq<T>, b: seq<T>, j: nat)
    requires j < |b|
    ensures var s := a + b[..j + 1]; s != [] && s[..|s| - 1] == a + b[..j] && s[|s| - 1] == b[j]
  {
    var s := a + b[..j + 1];
    assert s[..|s| - 1] == a + b[..j];
  }

  /** The sites of the first i + 1 contracts are those of the first i, then
      the constructor's modifier invocations and then the inheritance
      specifiers of contract lin[i]. */
  lemma LinearizationSitesStep(ast: Contracts, lin: seq<ContractId>, i: nat)
    requires i < |lin|
    requires forall j :: 0 <= j < |lin| ==> lin[j] in ast
    ensures var b := ast[lin[i]];
      var own := match ConstructorOf(b) case Some(ctor) => ModifierSites(ctor.modifiers) case None => [];
      LinearizationSites(ast, lin[..i + 1]) == (LinearizationSites(ast, lin[..i]) + own) + SpecifierSites(b.baseContracts)
  {
    assert lin[..i + 1][..i] == lin[..i];
    var b := ast[lin[i]];
    var own := match ConstructorOf(b) case Some(ctor) => ModifierSites(ctor.modifiers) case None => [];
    Regroup(LinearizationSites(ast, lin[..i]), own, SpecifierSites(b.baseContracts));
  }

  lemma MissingBaseConstructorsStep(ast: Contracts, current: ContractId, lin: seq<ContractId>, args: ArgumentMap, j: nat)
    requires j < |lin|
    requires forall k :: 0 <= k < |lin| ==> lin[k] in ast
    ensures MissingBaseConstructors(ast, current, lin[..j + 1], args) == MissingBaseConstructors(ast, current, lin[..j], args) +
      (match ConstructorOf(ast[lin[j]])
       case Some(ctor) => if lin[j] != current && |ctor.parameters| > 0 && ctor.id !in args then [ctor] else []
       case None => [])
  {
    assert lin[..j + 1][..j] == lin[..j];
  }

  /** The second loop: the constructors of bases other than the contract
      itself that take parameters and were given no arguments. */
  function MissingBaseConstructors(ast: Contracts, current: ContractId, lin: seq<ContractId>, args: ArgumentMap): seq<FunctionDefinition>
    requires forall j :: 0 <= j < |lin| ==> lin[j] in ast
  {
    if lin == [] then []
    else
      MissingBaseConstructors(ast, current, lin[..|lin| - 1], args)
        + (match ConstructorOf(ast[lin[|lin| - 1]])
           case Some(ctor) => if lin[|lin| - 1] != current && |ctor.parameters| > 0 && ctor.id !in args then [ctor] else []
           case None => [])
  }

  /** Each listed constructor takes parameters and has no argument node on record. */
  lemma {:induction false} MissingNeedArguments(ast: Contracts, current: ContractId, lin: seq<ContractId>, args: ArgumentMap)
    requires forall j :: 0 <= j < |lin| ==> lin[j] in ast
    ensures forall f :: f in MissingBaseConstructors(ast, current, lin, args) ==>
      f.kind == Constructor && |f.parameters| > 0 && f.id !in args
  {
    if lin != [] {
      var prefix := lin[..|lin| - 1];
      MissingNeedArguments(ast, current, prefix, args);
      var rest := MissingBaseConstructors(ast, current, prefix, args);
      var r := MissingBaseConstructors(ast, current, lin, args);
      assert r == rest + (match ConstructorOf(ast[lin[|lin| - 1]])
        case Some(ctor) => if lin[|lin| - 1] != current && |ctor.parameters| > 0 && ctor.id !in args then [ctor] else []
        case None => []);
    }
  }

  /** Each listed constructor is that of a base other than the contract itself. */
  lemma {:induction false} MissingAreOfBases(ast: Contracts, current: ContractId, lin: seq<ContractId>, args: ArgumentMap)
    requires forall j :: 0 <= j < |lin| ==> lin[j] in ast
    ensures forall f :: f in MissingBaseConstructors(ast, current, lin, args) ==>
      exists j :: 0 <= j < |lin| && lin[j] != current && ConstructorOf(ast[lin[j]]) == Some(f)
  {
    if lin != [] {
      var prefix := lin[..|lin| - 1];
      MissingAreOfBases(ast, current, prefix, args);
      var rest := MissingBaseConstructors(ast, current, prefix, args);
      var r := MissingBaseConstructors(ast, current, lin, args);
      assert r == rest + (match ConstructorOf(ast[lin[|lin| - 1]])
        case Some(ctor) => if lin[|lin| - 1] != current && |ctor.parameters| > 0 && ctor.id !in args then [ctor] else []
        case None => []);
      forall f | f in r
        ensures exists j :: 0 <= j < |lin| && lin[j] != current && ConstructorOf(ast[lin[j]]) == Some(f)
      {
        if f in rest {
          var j :| 0 <= j < |prefix| && prefix[j] != current && ConstructorOf(ast[prefix[j]]) == Some(f);
          assert lin[j] == prefix[j];
        } else {
          assert lin[|lin| - 1] != current && ConstructorOf(ast[lin[|lin| - 1]]) == Some(f);
        }
      }
    }
  }

  /** Every base other than the contract itself whose constructor takes
      parameters and has no argument node on record has it listed. */
  lemma {:induction false} NeedingArgumentsListed(ast: Contracts, current: ContractId, lin: seq<ContractId>, args: ArgumentMap)
    requires forall j :: 0 <= j < |lin| ==> lin[j] in ast
    ensures forall j :: (0 <= j < |lin| && lin[j] != current && ConstructorOf(ast[lin[j]]).Some? &&
                         |ConstructorOf(ast[lin[j]]).value.parameters| > 0 &&
                         ConstructorOf(ast[lin[j]]).value.id !in args) ==>
      ConstructorOf(ast[lin[j]]).value in MissingBaseConstructors(ast, current, lin, args)
  {
    if lin != [] {
      var prefix := lin[..|lin| - 1];
      NeedingArgumentsListed(ast, current, prefix, args);
      assert forall j :: 0 <= j < |prefix| ==> prefix[j] == lin[j];
    }
  }

  /** Exactly the constructors that need arguments and got none are listed:
      each listed one belongs to a base other than the contract itself,
      takes parameters and has no argument node on record, and every such
      constructor is listed. */
  lemma MissingBaseConstructorsExact(ast: Contracts, current: ContractId, lin: seq<ContractId>, args: ArgumentMap)
    requires forall j :: 0 <= j < |lin| ==> lin[j] in ast
    ensures var r := MissingBaseConstructors(ast, current, lin, args);
      && (forall k :: 0 <= k < |r| ==> r[k].kind == Constructor && |r[k].parameters| > 0 && r[k].id !in args)
      && (forall k :: 0 <= k < |r| ==> exists j :: 0 <= j < |lin| && lin[j] != current && ConstructorOf(ast[lin[j]]) == Some(r[k]))
      && (forall j :: (0 <= j < |lin| && lin[j] != current && ConstructorOf(ast[lin[j]]).Some? &&
                       |ConstructorOf(ast[lin[j]]).value.parameters| > 0 &&
                       ConstructorOf(ast[lin[j]]).value.id !in args) ==>
           ConstructorOf(ast[lin[j]]).value in r)
  {
    MissingNeedArguments(ast, current, lin, args);
    MissingAreOfBases(ast, current, lin, args);
    NeedingArgumentsListed(ast, current, lin, args);
    var r := MissingBaseConstructors(ast, current, lin, args);
    assert forall k :: 0 <= k < |r| ==> r[k] in r;
  }

  // ---- the reference definitions ----

  /** Index of the first site that supplies constructor k, or |sites|. */
  function FirstSupply(ast: Contracts, sites: seq<Site>, k: DeclId): (r: nat)
    ensures r <= |sites|
    ensures r < |sites| ==> Supplied(ast, sites[r]) == Some(k)
  {
    if sites == [] then 0
    else
      var p := FirstSupply(ast, sites[..|sites| - 1], k);
      if p < |sites| - 1 then
        assert sites[..|sites| - 1][p] == sites[p];
        p
      else if Supplied(ast, sites[|sites| - 1]) == Some(k) then |sites| - 1
      else |sites|
  }

  /** No site before the first supply of k supplies it. */
  lemma {:induction false} FirstSupplyIsFirst(ast: Contracts, sites: seq<Site>, k: DeclId)
    ensures forall j :: 0 <= j < FirstSupply(ast, sites, k) ==> Supplied(ast, sites[j]) != Some(k)
  {
    if sites != [] {
      var prefix := sites[..|sites| - 1];
      FirstSupplyIsFirst(ast, prefix, k);
      assert forall j :: 0 <= j < |prefix| ==> prefix[j] == sites[j];
    }
  }

  /** The argument node on record for constructor k after `sites`, starting from `args0`. */
  function Recorded(ast: Contracts, args0: ArgumentMap, sites: seq<Site>, k: DeclId): Option<ArgumentNode>
  {
    if k in args0 then Some(args0[k])
    else if FirstSupply(ast, sites, k) < |sites| then Some(SiteNode(sites[FirstSupply(ast, sites, k)]))
    else None
  }

  /** The reports, stated through first supplies rather than the map: a call
      without arguments is reported, and so is every supply of a
      constructor that already had its arguments, against the node on record. */
  function SiteReports(ast: Contracts, current: ContractDefinition, args0: ArgumentMap, sites: seq<Site>): (ds: seq<Diagnostic>)
    ensures AllErrors(ds)
  {
    if sites == [] then []
    else
      var prefix := sites[..|sites| - 1];
      var s := sites[|sites| - 1];
      SiteReports(ast, current, args0, prefix)
        + (if CallWithoutArguments(s) then [MissingArgumentsError(s.invocation)]
           else if Supplied(ast, s).Some? && Recorded(ast, args0, prefix, Supplied(ast, s).value).Some?
           then [TwiceError(current, Recorded(ast, args0, prefix, Supplied(ast, s).value).value, SiteNode(s))]
           else [])
  }

  lemma FirstSupplyExtend(ast: Contracts, sites: seq<Site>, s: Site, k: DeclId)
    ensures FirstSupply(ast, sites + [s], k) ==
      if FirstSupply(ast, sites, k) < |sites| then FirstSupply(ast, sites, k)
      else if Supplied(ast, s) == Some(k) then |sites| else |sites| + 1
  {
    assert (sites + [s])[..|sites|] == sites;
  }

  lemma RecordedExtend(ast: Contracts, args0: ArgumentMap, sites: seq<Site>, s: Site, k: DeclId)
    ensures Recorded(ast, args0, sites + [s], k) ==
      if Recorded(ast, args0, sites, k).Some? then Recorded(ast, args0, sites, k)
      else if Supplied(ast, s) == Some(k) then Some(SiteNode(s)) else None
  {
    FirstSupplyExtend(ast, sites, s, k);
    var sites' := sites + [s];
    if FirstSupply(ast, sites, k) < |sites| {
      assert sites'[FirstSupply(ast, sites, k)] == sites[FirstSupply(ast, sites, k)];
    } else {
      assert sites'[|sites|] == s;
    }
  }

  /** The annotation after the walk records, for each constructor, the node
      on record: the one it had before, or else the first site to supply it.
      A constructor already on record is never overwritten. */
  lemma {:induction false} SiteFoldRecords(ast: Contracts, current: ContractDefinition, args0: ArgumentMap, ds0: seq<Diagnostic>, sites: seq<Site>, k: DeclId)
    ensures var args := SiteFold(ast, current, BaseState(args0, ds0), sites).arguments;
      (k in args <==> Recorded(ast, args0, sites, k).Some?) &&
      (k in args ==> args[k] == Recorded(ast, args0, sites, k).value)
  {
    if sites != [] {
      var prefix := sites[..|sites| - 1];
      var s := sites[|sites| - 1];
      assert prefix + [s] == sites;
      SiteFoldRecords(ast, current, args0, ds0, prefix, k);
      RecordedExtend(ast, args0, prefix, s, k);
    }
  }

  /** The annotation the walk leaves does not depend on what was reported before it. */
  lemma SiteFoldArguments(ast: Contracts, current: ContractDefinition, args0: ArgumentMap, ds0: seq<Diagnostic>, ds1: seq<Diagnostic>, sites: seq<Site>)
    ensures SiteFold(ast, current, BaseState(args0, ds0), sites).arguments == SiteFold(ast, current, BaseState(args0, ds1), sites).arguments
  {
    var a0 := SiteFold(ast, current, BaseState(args0, ds0), sites).arguments;
    var a1 := SiteFold(ast, current, BaseState(args0, ds1), sites).arguments;
    forall k ensures (k in a0 <==> k in a1) && (k in a0 ==> a0[k] == a1[k]) {
      SiteFoldRecords(ast, current, args0, ds0, sites, k);
      SiteFoldRecords(ast, current, args0, ds1, sites, k);
    }
  }

  /** The reports of the walk are those of the reference definition. */
  lemma {:induction false} SiteFoldReports(ast: Contracts, current: ContractDefinition, args0: ArgumentMap, ds0: seq<Diagnostic>, sites: seq<Site>)
    ensures SiteFold(ast, current, BaseState(args0, ds0), sites).diagnostics == ds0 + SiteReports(ast, current, args0, sites)
  {
    if sites != [] {
      var prefix := sites[..|sites| - 1];
      var s := sites[|sites| - 1];
      SiteFoldReports(ast, current, args0, ds0, prefix);
      if !CallWithoutArguments(s) && Supplied(ast, s).Some? {
        SiteFoldRecords(ast, current, args0, ds0, prefix, Supplied(ast, s).value);
      }
    }
  }

  /** Every supply after the first of the same constructor is reported
      exactly once: the walk reports as many "given twice" errors as there
      are supplies of constructors already on record. */
  function RepeatedSupplies(ast: Contracts, args0: ArgumentMap, sites: seq<Site>): nat
  {
    if sites == [] then 0
    else
      var prefix := sites[..|sites| - 1];
      var s := sites[|sites| - 1];
      RepeatedSupplies(ast, args0, prefix)
        + (if !CallWithoutArguments(s) && Supplied(ast, s).Some? && Recorded(ast, args0, prefix, Supplied(ast, s).value).Some?
           then 1 else 0)
  }

  lemma {:induction false} TwiceErrorsCounted(ast: Contracts, current: ContractDefinition, args0: ArgumentMap, sites: seq<Site>)
    ensures CountMessage(SiteReports(ast, current, args0, sites), ArgumentsGivenTwice) == RepeatedSupplies(ast, args0, sites)
  {
    if sites != [] {
      var prefix := sites[..|sites| - 1];
      var s := sites[|sites| - 1];
      TwiceErrorsCounted(ast, current, args0, prefix);
      var tail := if CallWithoutArguments(s) then [MissingArgumentsError(s.invocation)]
           else if Supplied(ast, s).Some? && Recorded(ast, args0, prefix, Supplied(ast, s).value).Some?
           then [TwiceError(current, Recorded(ast, args0, prefix, Supplied(ast, s).value).value, SiteNode(s))]
           else [];
      CountMessageAppend(SiteReports(ast, current, args0, prefix), tail, ArgumentsGivenTwice);
    }
  }
}
