/**
 * Override compatibility: checkIllegalOverrides walks the linearized bases
 * from the most derived contract to the most basic one, comparing each
 * function with the same-named functions met before it (checkFunctionOverride)
 * and keeping functions and modifiers apart.
 */
module Overrides {
  import opened Ast
  import opened Diagnostics

  /** overrideError: a type error at the overriding function pointing at the overridden one. */
  function OverrideError(f: FunctionDefinition, super: FunctionDefinition, msg: Message): Diagnostic
  {
    Diagnostic(TypeError, f.location, [Secondary(OverriddenFunction, super.location)], msg)
  }

  /** The only visibility change an override may make is from external in
      the overridden function to public in the overriding one. */
  predicate VisibilityChangeAllowed(super: Visibility, overriding: Visibility)
  {
    super == External && overriding == Public
  }

  /** The reports of checkFunctionOverride(f, super): nothing when the
      parameter types differ (then f does not override super); otherwise an
      error for differing return types, one for a disallowed visibility
      change and one for a change of state mutability, each independent of
      the others, and no other report. */
  function OverrideDiagnostics(f: FunctionDefinition, super: FunctionDefinition): (ds: seq<Diagnostic>)
    ensures f.parameters != super.parameters ==> ds == []
    ensures f.parameters == super.parameters ==>
      (OverrideError(f, super, ReturnTypesDiffer) in ds <==> f.returnParameters != super.returnParameters)
    ensures f.parameters == super.parameters ==>
      (OverrideError(f, super, VisibilityDiffers) in ds <==>
         f.visibility != super.visibility && !VisibilityChangeAllowed(super.visibility, f.visibility))
    ensures f.parameters == super.parameters ==>
      (OverrideError(f, super, MutabilityChanged(super.stateMutability, f.stateMutability)) in ds <==>
         f.stateMutability != super.stateMutability)
    ensures forall d :: d in ds ==>
      || d == OverrideError(f, super, ReturnTypesDiffer)
      || d == OverrideError(f, super, VisibilityDiffers)
      || d == OverrideError(f, super, MutabilityChanged(super.stateMutability, f.stateMutability))
    ensures |ds| <= 3
    ensures forall k :: 0 <= k < |ds| ==>
      ds[k].severity == TypeError && ds[k].location == f.location &&
      ds[k].secondary == [Secondary(OverriddenFunction, super.location)]
  {
    if f.parameters != super.parameters then []
    else
      (if f.returnParameters != super.returnParameters then [OverrideError(f, super, ReturnTypesDiffer)] else [])
      + (if f.visibility != super.visibility && !VisibilityChangeAllowed(super.visibility, f.visibility)
         then [OverrideError(f, super, VisibilityDiffers)] else [])
      + (if f.stateMutability != super.stateMutability
         then [OverrideError(f, super, MutabilityChanged(super.stateMutability, f.stateMutability))] else [])
  }

  /** The superFunction annotation after checkFunctionOverride(f, super). */
  function RecordSuper(sf: map<DeclId, DeclId>, f: FunctionDefinition, super: FunctionDefinition): map<DeclId, DeclId>
  {
    if f.parameters == super.parameters && f.id !in sf then sf[f.id := super.id] else sf
  }

  /** The superFunction annotation after checking every function of `seen`
      against the base function g, in order. */
  function SuperAfter(seen: seq<FunctionDefinition>, g: FunctionDefinition, sf: map<DeclId, DeclId>): map<DeclId, DeclId>
  {
    if seen == [] then sf
    else RecordSuper(SuperAfter(seen[..|seen| - 1], g, sf), seen[|seen| - 1], g)
  }

  /** The reports of checking every function of `seen` against g, in order. */
  function ReportsAgainst(seen: seq<FunctionDefinition>, g: FunctionDefinition): (ds: seq<Diagnostic>)
    ensures AllErrors(ds)
  {
    if seen == [] then []
    else ReportsAgainst(seen[..|seen| - 1], g) + OverrideDiagnostics(seen[|seen| - 1], g)
  }

  /** The superFunction annotation is written once: an existing entry is kept;
      a new entry is made exactly for each function of `seen` with g's
      parameter types, and it names g. */
  lemma {:induction false} SuperAfterWritesOnce(seen: seq<FunctionDefinition>, g: FunctionDefinition, sf: map<DeclId, DeclId>)
    ensures forall k :: k in sf ==> k in SuperAfter(seen, g, sf) && SuperAfter(seen, g, sf)[k] == sf[k]
    ensures forall k :: k in SuperAfter(seen, g, sf) && k !in sf ==>
      SuperAfter(seen, g, sf)[k] == g.id &&
      exists i :: 0 <= i < |seen| && seen[i].id == k && seen[i].parameters == g.parameters
    ensures forall i :: 0 <= i < |seen| && seen[i].parameters == g.parameters ==> seen[i].id in SuperAfter(seen, g, sf)
  {
    if seen != [] {
      var prefix := seen[..|seen| - 1];
      SuperAfterWritesOnce(prefix, g, sf);
      forall k | k in SuperAfter(seen, g, sf) && k !in sf
        ensures exists i :: 0 <= i < |seen| && seen[i].id == k && seen[i].parameters == g.parameters
      {
        if k in SuperAfter(prefix, g, sf) {
          var i :| 0 <= i < |prefix| && prefix[i].id == k && prefix[i].parameters == g.parameters;
          assert seen[i] == prefix[i];
        } else {
          assert seen[|seen| - 1].id == k;
        }
      }
      forall i | 0 <= i < |seen| && seen[i].parameters == g.parameters
        ensures seen[i].id in SuperAfter(seen, g, sf)
      {
        if i < |seen| - 1 {
          assert prefix[i] == seen[i];
        }
      }
    }
  }

  /** The locals of checkIllegalOverrides (functions and modifiers met so
      far, by name), the superFunction annotation and the reports. */
  datatype OverrideState = OverrideState(
    functions: map<string, seq<FunctionDefinition>>,
    modifiers: map<string, ModifierDefinition>,
    superFunction: map<DeclId, DeclId>,
    diagnostics: seq<Diagnostic>)

  /** `functions[name]`: the functions of that name met so far, most derived first. */
  function Seen(st: OverrideState, name: string): seq<FunctionDefinition>
  {
    if name in st.functions then st.functions[name] else []
  }

  /** One function of the walk. Constructors neither override nor are
      overridden; any other function is reported against a modifier of its
      name met before, checked against every function of its name met
      before, and then remembered. */
  function VisitFunction(st: OverrideState, f: FunctionDefinition): OverrideState
  {
    if f.kind == Constructor then st
    else
      var clashed := if f.name in st.modifiers
        then st.diagnostics + [Diagnostic(TypeError, st.modifiers[f.name].location, [], FunctionToModifier)]
        else st.diagnostics;
      var seen := Seen(st, f.name);
      st.(functions := st.functions[f.name := seen + [f]],
          superFunction := SuperAfter(seen, f, st.superFunction),
          diagnostics := clashed + ReportsAgainst(seen, f))
  }

  /** One modifier of the walk. The first modifier of a name met is kept as
      that name's modifier; a later one with other parameter types is
      reported at it, and so is a function of the same name met before. */
  function VisitModifier(st: OverrideState, m: ModifierDefinition): OverrideState
  {
    var known := m.name in st.modifiers;
    var kept := if known then st.modifiers[m.name] else m;
    var changed := ReportIf(st.diagnostics, known && kept.parameters != m.parameters,
      Diagnostic(TypeError, kept.location, [], ModifierSignatureChanged));
    var clashed := ReportIf(changed, Seen(st, m.name) != [],
      Diagnostic(TypeError, kept.location, [], ModifierToFunction));
    st.(modifiers := st.modifiers[m.name := kept], diagnostics := clashed)
  }

  /** A step of the walk: a function or a modifier of some contract. */
  datatype WalkItem = FunctionItem(f: FunctionDefinition) | ModifierItem(m: ModifierDefinition)

  function Visit(st: OverrideState, item: WalkItem): OverrideState
  {
    match item
    case FunctionItem(f) => VisitFunction(st, f)
    case ModifierItem(m) => VisitModifier(st, m)
  }

  function Walk(st: OverrideState, items: seq<WalkItem>): OverrideState
  {
    if items == [] then st else Visit(Walk(st, items[..|items| - 1]), items[|items| - 1])
  }

  function FunctionItems(fs: seq<FunctionDefinition>): (r: seq<WalkItem>)
    ensures |r| == |fs|
  {
    if fs == [] then [] else FunctionItems(fs[..|fs| - 1]) + [FunctionItem(fs[|fs| - 1])]
  }

  function ModifierItems(ms: seq<ModifierDefinition>): (r: seq<WalkItem>)
    ensures |r| == |ms|
  {
    if ms == [] then [] else ModifierItems(ms[..|ms| - 1]) + [ModifierItem(ms[|ms| - 1])]
  }

  /** The steps for one contract: its functions, then its modifiers. */
  function ContractItems(c: ContractDefinition): seq<WalkItem>
  {
    FunctionItems(c.definedFunctions) + ModifierItems(c.functionModifiers)
  }

  /** The steps for the contracts `lin`, in that order. */
  function LinearizationItems(ast: Contracts, lin: seq<ContractId>): seq<WalkItem>
    requires forall j :: 0 <= j < |lin| ==> lin[j] in ast
  {
    if lin == [] then []
    else LinearizationItems(ast, lin[..|lin| - 1]) + ContractItems(ast[lin[|lin| - 1]])
  }

  function InitialOverrideState(sf: map<DeclId, DeclId>): OverrideState
  {
    OverrideState(map[], map[], sf, [])
  }

  /** checkIllegalOverrides on a contract whose linearization is `lin`,
      starting from the superFunction annotation `sf`. */
  function IllegalOverrides(ast: Contracts, lin: seq<ContractId>, sf: map<DeclId, DeclId>): OverrideState
    requires forall j :: 0 <= j < |lin| ==> lin[j] in ast
  {
    Walk(InitialOverrideState(sf), LinearizationItems(ast, lin))
  }

  lemma {:induction false} WalkReportsOnlyErrors(st: OverrideState, items: seq<WalkItem>)
    requires AllErrors(st.diagnostics)
    ensures AllErrors(Walk(st, items).diagnostics)
  {
    if items != [] {
      WalkReportsOnlyErrors(st, items[..|items| - 1]);
    }
  }

  // ---- the walk, one step at a time ----

  lemma WalkAppend(st: OverrideState, items: seq<WalkItem>, x: WalkItem)
    ensures Walk(st, items + [x]) == Visit(Walk(st, items), x)
  {
    assert (items + [x])[..|items|] == items;
  }

  /** The walk through the first j + 1 functions of a contract after the
      items `before` is one more function visit. */
  lemma WalkFunctionStep(st: OverrideState, before: seq<WalkItem>, fs: seq<FunctionDefinition>, j: nat)
    requires j < |fs|
    ensures Walk(st, before + FunctionItems(fs[..j + 1])) == VisitFunction(Walk(st, before + FunctionItems(fs[..j])), fs[j])
  {
    assert fs[..j + 1][..j] == fs[..j];
    assert FunctionItems(fs[..j + 1]) == FunctionItems(fs[..j]) + [FunctionItem(fs[j])];
    Regroup(before, FunctionItems(fs[..j]), [FunctionItem(fs[j])]);
    WalkAppend(st, before + FunctionItems(fs[..j]), FunctionItem(fs[j]));
  }

  /** The same for the first j + 1 modifiers of a contract. */
  lemma WalkModifierStep(st: OverrideState, before: seq<WalkItem>, ms: seq<ModifierDefinition>, j: nat)
    requires j < |ms|
    ensures Walk(st, before + ModifierItems(ms[..j + 1])) == VisitModifier(Walk(st, before + ModifierItems(ms[..j])), ms[j])
  {
    assert ms[..j + 1][..j] == ms[..j];
    assert ModifierItems(ms[..j + 1]) == ModifierItems(ms[..j]) + [ModifierItem(ms[j])];
    Regroup(before, ModifierItems(ms[..j]), [ModifierItem(ms[j])]);
    WalkAppend(st, before + ModifierItems(ms[..j]), ModifierItem(ms[j]));
  }

  /** The items of the first i + 1 contracts are those of the first i, then
      the functions and then the modifiers of contract lin[i]. */
  lemma LinearizationItemsStep(ast: Contracts, lin: seq<ContractId>, i: nat)
    requires i < |lin|
    requires forall j :: 0 <= j < |lin| ==> lin[j] in ast
    ensures LinearizationItems(ast, lin[..i + 1]) ==
      (LinearizationItems(ast, lin[..i]) + FunctionItems(ast[lin[i]].definedFunctions))
        + ModifierItems(ast[lin[i]].functionModifiers)
  {
    assert lin[..i + 1][..i] == lin[..i];
    Regroup(LinearizationItems(ast, lin[..i]), FunctionItems(ast[lin[i]].definedFunctions), ModifierItems(ast[lin[i]].functionModifiers));
  }

  /** Reports already made before the walk stay in front of the walk's own. */
  lemma VisitShift(st: OverrideState, earlier: seq<Diagnostic>, x: WalkItem)
    ensures Visit(st.(diagnostics := earlier + st.diagnostics), x) ==
      Visit(st, x).(diagnostics := earlier + Visit(st, x).diagnostics)
  {
    match x
    case FunctionItem(f) =>
      if f.kind != Constructor {
        var clashed := if f.name in st.modifiers
          then st.diagnostics + [Diagnostic(TypeError, st.modifiers[f.name].location, [], FunctionToModifier)]
          else st.diagnostics;
        if f.name in st.modifiers {
          Regroup(earlier, st.diagnostics, [Diagnostic(TypeError, st.modifiers[f.name].location, [], FunctionToModifier)]);
        }
        Regroup(earlier, clashed, ReportsAgainst(Seen(st, f.name), f));
      }
    case ModifierItem(m) =>
      var known := m.name in st.modifiers;
      var kept := if known then st.modifiers[m.name] else m;
      var changed := ReportIf(st.diagnostics, known && kept.parameters != m.parameters,
        Diagnostic(TypeError, kept.location, [], ModifierSignatureChanged));
      Regroup(earlier, st.diagnostics, [Diagnostic(TypeError, kept.location, [], ModifierSignatureChanged)]);
      Regroup(earlier, changed, [Diagnostic(TypeError, kept.location, [], ModifierToFunction)]);
  }

  lemma {:induction false} WalkShift(st: OverrideState, earlier: seq<Diagnostic>, items: seq<WalkItem>)
    ensures Walk(st.(diagnostics := earlier + st.diagnostics), items) ==
      Walk(st, items).(diagnostics := earlier + Walk(st, items).diagnostics)
  {
    if items != [] {
      WalkShift(st, earlier, items[..|items| - 1]);
      VisitShift(Walk(st, items[..|items| - 1]), earlier, items[|items| - 1]);
    }
  }

  // ---- which function the superFunction annotation names ----

  /** The functions the walk compares, in walk order: all but constructors. */
  function WalkedFunctions(items: seq<WalkItem>): seq<FunctionDefinition>
  {
    if items == [] then []
    else
      var last := items[|items| - 1];
      WalkedFunctions(items[..|items| - 1])
        + (if last.FunctionItem? && last.f.kind != Constructor then [last.f] else [])
  }

  /** The functions of `fs` named n, in order. */
  function Named(fs: seq<FunctionDefinition>, n: string): seq<FunctionDefinition>
  {
    if fs == [] then []
    else Named(fs[..|fs| - 1], n) + (if fs[|fs| - 1].name == n then [fs[|fs| - 1]] else [])
  }

  lemma {:induction false} NamedMembers(fs: seq<FunctionDefinition>, n: string, o: FunctionDefinition)
    ensures o in Named(fs, n) <==> o.name == n && o in fs
  {
    if fs != [] {
      NamedMembers(fs[..|fs| - 1], n, o);
      assert fs == fs[..|fs| - 1] + [fs[|fs| - 1]];
    }
  }

  /** The first function after fs[q], from index `from` on, with its name and
      parameter types: the one it overrides most closely. */
  function NearestFrom(fs: seq<FunctionDefinition>, q: nat, from: nat): (p: Option<nat>)
    requires q < from <= |fs|
    ensures p.Some? ==> from <= p.value < |fs| && fs[p.value].name == fs[q].name && fs[p.value].parameters == fs[q].parameters
    ensures p.Some? ==> forall r :: from <= r < p.value ==> !(fs[r].name == fs[q].name && fs[r].parameters == fs[q].parameters)
    ensures p.None? ==> forall r :: from <= r < |fs| ==> !(fs[r].name == fs[q].name && fs[r].parameters == fs[q].parameters)
    decreases |fs| - from
  {
    if from == |fs| then None
    else if fs[from].name == fs[q].name && fs[from].parameters == fs[q].parameters then Some(from)
    else NearestFrom(fs, q, from + 1)
  }

  function NearestSuper(fs: seq<FunctionDefinition>, q: nat): Option<nat>
    requires q < |fs|
  {
    NearestFrom(fs, q, q + 1)
  }

  predicate DistinctIds(fs: seq<FunctionDefinition>)
  {
    forall a, b :: 0 <= a < b < |fs| ==> fs[a].id != fs[b].id
  }

  lemma {:induction false} NearestFromExtend(fs: seq<FunctionDefinition>, g: FunctionDefinition, q: nat, from: nat)
    requires q < from <= |fs|
    ensures NearestFrom(fs + [g], q, from) ==
      if NearestFrom(fs, q, from).Some? then NearestFrom(fs, q, from)
      else if g.name == fs[q].name && g.parameters == fs[q].parameters then Some(|fs|)
      else None
    decreases |fs| - from
  {
    var fs' := fs + [g];
    assert fs'[q] == fs[q];
    if from < |fs| {
      assert fs'[from] == fs[from];
      NearestFromExtend(fs, g, q, from + 1);
    } else {
      assert fs'[from] == g;
    }
  }

  /** Appending g does not move an existing nearest match, and makes g the
      nearest one of a function that had none and matches g. */
  lemma NearestSuperExtend(fs: seq<FunctionDefinition>, g: FunctionDefinition, q: nat)
    requires q < |fs|
    ensures NearestSuper(fs + [g], q) ==
      if NearestSuper(fs, q).Some? then NearestSuper(fs, q)
      else if g.name == fs[q].name && g.parameters == fs[q].parameters then Some(|fs|)
      else None
  {
    NearestFromExtend(fs, g, q, q + 1);
  }

  // What the walk maintains, in four parts.

  /** The seen lists are the walked functions, by name. */
  ghost predicate SeenAreWalked(st: OverrideState, fs: seq<FunctionDefinition>)
  {
    forall n :: Seen(st, n) == Named(fs, n)
  }

  /** Entries present at the start are kept. */
  ghost predicate KeepsInitial(st: OverrideState, sf0: map<DeclId, DeclId>)
  {
    forall k :: k in sf0 ==> k in st.superFunction && st.superFunction[k] == sf0[k]
  }

  /** Every new entry belongs to a walked function. */
  ghost predicate NewEntriesWalked(st: OverrideState, fs: seq<FunctionDefinition>, sf0: map<DeclId, DeclId>)
  {
    forall k :: k in st.superFunction && k !in sf0 ==> exists q :: 0 <= q < |fs| && fs[q].id == k
  }

  /** The entry of walked function q, when it had none at the start. */
  ghost predicate RecordsNearestAt(sf: map<DeclId, DeclId>, fs: seq<FunctionDefinition>, sf0: map<DeclId, DeclId>, q: nat)
    requires q < |fs|
  {
    fs[q].id !in sf0 ==>
      (fs[q].id in sf <==> NearestSuper(fs, q).Some?) &&
      (NearestSuper(fs, q).Some? ==> sf[fs[q].id] == fs[NearestSuper(fs, q).value].id)
  }

  ghost predicate RecordsNearest(st: OverrideState, fs: seq<FunctionDefinition>, sf0: map<DeclId, DeclId>)
  {
    forall q :: 0 <= q < |fs| ==> RecordsNearestAt(st.superFunction, fs, sf0, q)
  }

  ghost predicate SuperInvariant(st: OverrideState, fs: seq<FunctionDefinition>, sf0: map<DeclId, DeclId>)
  {
    SeenAreWalked(st, fs) && KeepsInitial(st, sf0) && NewEntriesWalked(st, fs, sf0) && RecordsNearest(st, fs, sf0)
  }

  /** An id of a function seen under g's name, other than a new entry's,
      is the id of a walked function. */
  lemma SeenIsWalked(st: OverrideState, fs: seq<FunctionDefinition>, g: FunctionDefinition, i: nat)
    requires SeenAreWalked(st, fs)
    requires i < |Seen(st, g.name)|
    ensures Seen(st, g.name)[i].name == g.name
    ensures exists r :: 0 <= r < |fs| && fs[r] == Seen(st, g.name)[i]
  {
    assert Seen(st, g.name) == Named(fs, g.name);
    NamedMembers(fs, g.name, Seen(st, g.name)[i]);
  }

  lemma VisitKeepsNewEntriesWalked(st: OverrideState, fs: seq<FunctionDefinition>, sf0: map<DeclId, DeclId>, g: FunctionDefinition)
    requires g.kind != Constructor
    requires SeenAreWalked(st, fs) && NewEntriesWalked(st, fs, sf0)
    ensures NewEntriesWalked(VisitFunction(st, g), fs + [g], sf0)
  {
    var st' := VisitFunction(st, g);
    var fs' := fs + [g];
    var seen := Seen(st, g.name);
    SuperAfterWritesOnce(seen, g, st.superFunction);
    forall k | k in st'.superFunction && k !in sf0 ensures exists q :: 0 <= q < |fs'| && fs'[q].id == k {
      if k in st.superFunction {
        var q :| 0 <= q < |fs| && fs[q].id == k;
        assert fs'[q].id == k;
      } else {
        var i :| 0 <= i < |seen| && seen[i].id == k && seen[i].parameters == g.parameters;
        SeenIsWalked(st, fs, g, i);
        var q :| 0 <= q < |fs| && fs[q] == seen[i];
        assert fs'[q].id == k;
      }
    }
  }

  lemma VisitRecordsNearestAtOld(st: OverrideState, fs: seq<FunctionDefinition>, sf0: map<DeclId, DeclId>, g: FunctionDefinition, q: nat)
    requires g.kind != Constructor
    requires q < |fs|
    requires SeenAreWalked(st, fs) && RecordsNearestAt(st.superFunction, fs, sf0, q)
    requires DistinctIds(fs)
    ensures RecordsNearestAt(VisitFunction(st, g).superFunction, fs + [g], sf0, q)
  {
    var sf' := VisitFunction(st, g).superFunction;
    var fs' := fs + [g];
    var seen := Seen(st, g.name);
    var o := fs[q];
    assert fs'[q] == o;
    if o.id !in sf0 {
      SuperAfterWritesOnce(seen, g, st.superFunction);
      NearestSuperExtend(fs, g, q);
      if NearestSuper(fs, q).Some? {
        var p := NearestSuper(fs, q).value;
        assert fs'[p] == fs[p];
      } else {
        assert o.id !in st.superFunction;
        if o.name == g.name && o.parameters == g.parameters {
          assert seen == Named(fs, g.name);
          NamedMembers(fs, g.name, o);
          var i :| 0 <= i < |seen| && seen[i] == o;
          assert fs'[|fs|] == g;
        } else {
          forall i | 0 <= i < |seen| && seen[i].parameters == g.parameters
            ensures seen[i].id != o.id
          {
            SeenIsWalked(st, fs, g, i);
            var r :| 0 <= r < |fs| && fs[r] == seen[i];
            assert r != q ==> fs[r].id != fs[q].id;
          }
        }
      }
    }
  }

  lemma VisitRecordsNearestAtNew(st: OverrideState, fs: seq<FunctionDefinition>, sf0: map<DeclId, DeclId>, g: FunctionDefinition)
    requires g.kind != Constructor
    requires SeenAreWalked(st, fs) && NewEntriesWalked(st, fs, sf0)
    requires DistinctIds(fs + [g])
    ensures RecordsNearestAt(VisitFunction(st, g).superFunction, fs + [g], sf0, |fs|)
  {
    var sf' := VisitFunction(st, g).superFunction;
    var fs' := fs + [g];
    var seen := Seen(st, g.name);
    assert fs'[|fs|] == g;
    if g.id !in sf0 {
      SuperAfterWritesOnce(seen, g, st.superFunction);
      forall r | 0 <= r < |fs| ensures fs[r].id != g.id {
        assert fs'[r] == fs[r];
      }
      forall i | 0 <= i < |seen| ensures seen[i].id != g.id {
        SeenIsWalked(st, fs, g, i);
      }
    }
  }

  lemma VisitKeepsSeenWalked(st: OverrideState, fs: seq<FunctionDefinition>, g: FunctionDefinition)
    requires g.kind != Constructor
    requires SeenAreWalked(st, fs)
    ensures SeenAreWalked(VisitFunction(st, g), fs + [g])
  {
    var st' := VisitFunction(st, g);
    var fs' := fs + [g];
    assert fs'[..|fs'| - 1] == fs;
    forall n ensures Seen(st', n) == Named(fs', n) {
    }
  }

  lemma VisitKeepsInitial(st: OverrideState, sf0: map<DeclId, DeclId>, g: FunctionDefinition)
    requires g.kind != Constructor
    requires KeepsInitial(st, sf0)
    ensures KeepsInitial(VisitFunction(st, g), sf0)
  {
    SuperAfterWritesOnce(Seen(st, g.name), g, st.superFunction);
  }

  lemma VisitFunctionKeepsInvariant(st: OverrideState, fs: seq<FunctionDefinition>, sf0: map<DeclId, DeclId>, g: FunctionDefinition)
    requires g.kind != Constructor
    requires SuperInvariant(st, fs, sf0)
    requires DistinctIds(fs + [g])
    ensures SuperInvariant(VisitFunction(st, g), fs + [g], sf0)
  {
    var st' := VisitFunction(st, g);
    var fs' := fs + [g];
    VisitKeepsSeenWalked(st, fs, g);
    VisitKeepsInitial(st, sf0, g);
    VisitKeepsNewEntriesWalked(st, fs, sf0, g);
    assert DistinctIds(fs) by {
      assert forall a :: 0 <= a < |fs| ==> fs'[a] == fs[a];
    }
    forall q | 0 <= q < |fs'| ensures RecordsNearestAt(st'.superFunction, fs', sf0, q) {
      if q < |fs| {
        VisitRecordsNearestAtOld(st, fs, sf0, g, q);
      } else {
        VisitRecordsNearestAtNew(st, fs, sf0, g);
      }
    }
  }

  lemma VisitModifierKeepsInvariant(st: OverrideState, fs: seq<FunctionDefinition>, sf0: map<DeclId, DeclId>, m: ModifierDefinition)
    requires SuperInvariant(st, fs, sf0)
    ensures SuperInvariant(VisitModifier(st, m), fs, sf0)
  {
    var st' := VisitModifier(st, m);
    assert st'.functions == st.functions && st'.superFunction == st.superFunction;
    assert forall n :: Seen(st', n) == Seen(st, n);
  }

  lemma {:induction false} WalkKeepsInvariant(sf0: map<DeclId, DeclId>, items: seq<WalkItem>)
    requires DistinctIds(WalkedFunctions(items))
    ensures SuperInvariant(Walk(InitialOverrideState(sf0), items), WalkedFunctions(items), sf0)
  {
    if items == [] {
      assert forall n :: Named([], n) == [];
    } else {
      var prefix := items[..|items| - 1];
      var last := items[|items| - 1];
      var fs := WalkedFunctions(prefix);
      var all := WalkedFunctions(items);
      assert DistinctIds(fs) by {
        assert fs == all[..|fs|];
      }
      WalkKeepsInvariant(sf0, prefix);
      var st := Walk(InitialOverrideState(sf0), prefix);
      assert Walk(InitialOverrideState(sf0), items) == Visit(st, last);
      if last.FunctionItem? {
        if last.f.kind != Constructor {
          assert all == fs + [last.f];
          VisitFunctionKeepsInvariant(st, fs, sf0, last.f);
        } else {
          assert all == fs;
        }
      } else {
        assert all == fs;
        VisitModifierKeepsInvariant(st, fs, sf0, last.m);
      }
    }
  }

  /** After the walk, a function that had no superFunction annotation before
      has one exactly when a function after it in the walk (toward the most
      basic contract) has its name and parameter types, and the annotation
      names the nearest such function. */
  lemma SuperFunctionIsNearest(sf0: map<DeclId, DeclId>, items: seq<WalkItem>, q: nat)
    requires DistinctIds(WalkedFunctions(items))
    requires q < |WalkedFunctions(items)| && WalkedFunctions(items)[q].id !in sf0
    ensures var fs := WalkedFunctions(items);
            var sf := Walk(InitialOverrideState(sf0), items).superFunction;
            (fs[q].id in sf <==> NearestSuper(fs, q).Some?) &&
            (NearestSuper(fs, q).Some? ==> sf[fs[q].id] == fs[NearestSuper(fs, q).value].id)
  {
    WalkKeepsInvariant(sf0, items);
    assert RecordsNearestAt(Walk(InitialOverrideState(sf0), items).superFunction, WalkedFunctions(items), sf0, q);
  }

  /** The walk never changes an existing superFunction entry, and every entry
      it adds belongs to a walked function (never to a constructor). */
  lemma SuperFunctionWrittenOnce(sf0: map<DeclId, DeclId>, items: seq<WalkItem>, k: DeclId)
    requires DistinctIds(WalkedFunctions(items))
    ensures k in sf0 ==>
      k in Walk(InitialOverrideState(sf0), items).superFunction &&
      Walk(InitialOverrideState(sf0), items).superFunction[k] == sf0[k]
    ensures k in Walk(InitialOverrideState(sf0), items).superFunction && k !in sf0 ==>
      exists q :: 0 <= q < |WalkedFunctions(items)| && WalkedFunctions(items)[q].id == k
  {
    WalkKeepsInvariant(sf0, items);
    var st := Walk(InitialOverrideState(sf0), items);
    assert NewEntriesWalked(st, WalkedFunctions(items), sf0);
  }

  // ---- a function and a modifier of one name ----

  /** items[f] is the first modifier named n that the walk meets: the most
      derived one, which checkIllegalOverrides keeps under n. */
  predicate IsFirstModifier(items: seq<WalkItem>, f: nat, n: string)
  {
    && f < |items| && items[f].ModifierItem? && items[f].m.name == n
    && forall j :: 0 <= j < f ==> !(items[j].ModifierItem? && items[j].m.name == n)
  }

  /** A step keeps every report made, the modifier kept for every name and
      every function name met. */
  lemma VisitGrows(st: OverrideState, x: WalkItem, n: string)
    ensures st.diagnostics <= Visit(st, x).diagnostics
    ensures n in st.modifiers ==> n in Visit(st, x).modifiers && Visit(st, x).modifiers[n] == st.modifiers[n]
    ensures Seen(st, n) != [] ==> Seen(Visit(st, x), n) != []
  {
    match x
    case FunctionItem(f) =>
      if f.kind != Constructor {
        var clashed := if f.name in st.modifiers
          then st.diagnostics + [Diagnostic(TypeError, st.modifiers[f.name].location, [], FunctionToModifier)]
          else st.diagnostics;
        Regroup(st.diagnostics, clashed[|st.diagnostics|..], ReportsAgainst(Seen(st, f.name), f));
        assert clashed == st.diagnostics + clashed[|st.diagnostics|..];
      }
    case ModifierItem(m) =>
  }

  /** So does every stretch of the walk. */
  lemma {:induction false} WalkGrows(st: OverrideState, items: seq<WalkItem>, i: nat, n: string)
    requires i <= |items|
    ensures var before := Walk(st, items[..i]);
      var after := Walk(st, items);
      && before.diagnostics <= after.diagnostics
      && (n in before.modifiers ==> n in after.modifiers && after.modifiers[n] == before.modifiers[n])
      && (Seen(before, n) != [] ==> Seen(after, n) != [])
    decreases |items|
  {
    if i < |items| {
      var init := items[..|items| - 1];
      assert items[..i] == init[..i];
      WalkGrows(st, init, i, n);
      VisitGrows(Walk(st, init), items[|items| - 1], n);
    } else {
      assert items[..i] == items;
    }
  }

  /** A report made by the first i steps is a report of the whole walk. */
  lemma ReportStays(st: OverrideState, items: seq<WalkItem>, i: nat, d: Diagnostic)
    requires i <= |items| && d in Walk(st, items[..i]).diagnostics
    ensures d in Walk(st, items).diagnostics
  {
    WalkGrows(st, items, i, "");
    var before := Walk(st, items[..i]).diagnostics;
    var k :| 0 <= k < |before| && before[k] == d;
    assert Walk(st, items).diagnostics[k] == d;
  }

  /** The modifier kept under n after the first i steps is kept to the end. */
  lemma ModifierStays(st: OverrideState, items: seq<WalkItem>, i: nat, n: string)
    requires i <= |items| && n in Walk(st, items[..i]).modifiers
    ensures n in Walk(st, items).modifiers && Walk(st, items).modifiers[n] == Walk(st, items[..i]).modifiers[n]
  {
    WalkGrows(st, items, i, n);
  }

  /** The walk over one more item is one more step. */
  lemma WalkStep(st: OverrideState, items: seq<WalkItem>, i: nat)
    requires i < |items|
    ensures Walk(st, items[..i + 1]) == Visit(Walk(st, items[..i]), items[i])
  {
    assert items[..i + 1][..i] == items[..i];
  }

  /** A function (not a constructor) met after a modifier of its name is
      reported at the kept modifier. */
  lemma VisitReportsFunctionToModifier(st: OverrideState, f: FunctionDefinition)
    requires f.kind != Constructor && f.name in st.modifiers
    ensures Diagnostic(TypeError, st.modifiers[f.name].location, [], FunctionToModifier) in VisitFunction(st, f).diagnostics
  {
    var d := Diagnostic(TypeError, st.modifiers[f.name].location, [], FunctionToModifier);
    var after := VisitFunction(st, f);
    assert after.diagnostics == (st.diagnostics + [d]) + ReportsAgainst(Seen(st, f.name), f);
    assert after.diagnostics[|st.diagnostics|] == d;
  }

  /** A modifier met after a function of its name is reported at the kept
      modifier: the one met before under that name, or else itself. */
  lemma VisitReportsModifierToFunction(st: OverrideState, m: ModifierDefinition, kept: ModifierDefinition)
    requires Seen(st, m.name) != []
    requires m.name in st.modifiers ==> st.modifiers[m.name] == kept
    requires m.name !in st.modifiers ==> kept == m
    ensures Diagnostic(TypeError, kept.location, [], ModifierToFunction) in VisitModifier(st, m).diagnostics
  {
    var d := Diagnostic(TypeError, kept.location, [], ModifierToFunction);
    var changed := ReportIf(st.diagnostics, m.name in st.modifiers && kept.parameters != m.parameters,
      Diagnostic(TypeError, kept.location, [], ModifierSignatureChanged));
    var after := VisitModifier(st, m);
    assert after.diagnostics == changed + [d];
    assert after.diagnostics[|changed|] == d;
  }

  /** Step i reports a function (not a constructor) at the modifier kept under its name. */
  lemma FunctionToModifierAt(st: OverrideState, items: seq<WalkItem>, i: nat, kept: ModifierDefinition)
    requires i < |items| && items[i].FunctionItem? && items[i].f.kind != Constructor
    requires items[i].f.name in Walk(st, items[..i]).modifiers
    requires Walk(st, items[..i]).modifiers[items[i].f.name] == kept
    ensures Diagnostic(TypeError, kept.location, [], FunctionToModifier) in Walk(st, items[..i + 1]).diagnostics
  {
    VisitReportsFunctionToModifier(Walk(st, items[..i]), items[i].f);
    WalkStep(st, items, i);
  }

  /** Step i reports a modifier met after a function of its name at the kept modifier. */
  lemma ModifierToFunctionAt(st: OverrideState, items: seq<WalkItem>, i: nat, kept: ModifierDefinition)
    requires i < |items| && items[i].ModifierItem?
    requires Seen(Walk(st, items[..i]), items[i].m.name) != []
    requires items[i].m.name in Walk(st, items[..i]).modifiers ==>
      Walk(st, items[..i]).modifiers[items[i].m.name] == kept
    requires items[i].m.name !in Walk(st, items[..i]).modifiers ==> kept == items[i].m
    ensures Diagnostic(TypeError, kept.location, [], ModifierToFunction) in Walk(st, items[..i + 1]).diagnostics
  {
    VisitReportsModifierToFunction(Walk(st, items[..i]), items[i].m, kept);
    WalkStep(st, items, i);
  }

  /** A function (not a constructor) or modifier met at `e` is still known
      when the walk reaches `later`. */
  lemma EarlierItemRemembered(st: OverrideState, items: seq<WalkItem>, e: nat, later: nat, n: string)
    requires e < later <= |items|
    requires items[e].FunctionItem? ==> items[e].f.kind != Constructor && items[e].f.name == n
    requires items[e].ModifierItem? ==> items[e].m.name == n
    ensures var pre := Walk(st, items[..later]);
      items[e].FunctionItem? ==> Seen(pre, n) != []
    ensures var pre := Walk(st, items[..later]);
      items[e].ModifierItem? ==> n in pre.modifiers
  {
    WalkStep(st, items, e);
    var init := items[..later];
    assert init[..e + 1] == items[..e + 1];
    WalkGrows(st, init, e + 1, n);
  }

  /** Whenever the walk meets a function (not a constructor) and a modifier of
      the same name, it reports the clash at the first modifier of that name:
      as a modifier overriding a function when the function comes first, and
      as a function overriding a modifier when the modifier comes first. */
  lemma NameClashReported(sf0: map<DeclId, DeclId>, items: seq<WalkItem>, a: nat, b: nat, f: nat)
    requires a < |items| && b < |items|
    requires items[a].FunctionItem? && items[a].f.kind != Constructor
    requires items[b].ModifierItem? && items[b].m.name == items[a].f.name
    requires IsFirstModifier(items, f, items[a].f.name)
    ensures a < b ==>
      Diagnostic(TypeError, items[f].m.location, [], ModifierToFunction) in Walk(InitialOverrideState(sf0), items).diagnostics
    ensures b < a ==>
      Diagnostic(TypeError, items[f].m.location, [], FunctionToModifier) in Walk(InitialOverrideState(sf0), items).diagnostics
  {
    var st := InitialOverrideState(sf0);
    var n := items[a].f.name;
    var kept := items[f].m;
    if a < b {
      EarlierItemRemembered(st, items, a, b, n);
      if f < b {
        FirstModifierKeptUntil(st, items, f, b);
      } else {
        NoModifierYet(st, items, b, n);
      }
      ModifierToFunctionAt(st, items, b, kept);
      ReportStays(st, items, b + 1, Diagnostic(TypeError, kept.location, [], ModifierToFunction));
    } else {
      FirstModifierKeptUntil(st, items, f, a);
      FunctionToModifierAt(st, items, a, kept);
      ReportStays(st, items, a + 1, Diagnostic(TypeError, kept.location, [], FunctionToModifier));
    }
  }

  // ---- two modifiers of one name ----

  /** Before the first modifier named n, the walk keeps no modifier under n. */
  lemma {:induction false} NoModifierYet(st: OverrideState, items: seq<WalkItem>, i: nat, n: string)
    requires i <= |items| && n !in st.modifiers
    requires forall j :: 0 <= j < i ==> !(items[j].ModifierItem? && items[j].m.name == n)
    ensures n !in Walk(st, items[..i]).modifiers
  {
    if i > 0 {
      WalkStep(st, items, i - 1);
      NoModifierYet(st, items, i - 1, n);
    }
  }

  /** A modifier whose parameter types differ from the kept one of its name
      is reported at the kept one. */
  lemma VisitReportsSignatureChange(st: OverrideState, m: ModifierDefinition)
    requires m.name in st.modifiers && st.modifiers[m.name].parameters != m.parameters
    ensures Diagnostic(TypeError, st.modifiers[m.name].location, [], ModifierSignatureChanged) in VisitModifier(st, m).diagnostics
  {
    var d := Diagnostic(TypeError, st.modifiers[m.name].location, [], ModifierSignatureChanged);
    var changed := st.diagnostics + [d];
    assert changed[|st.diagnostics|] == d;
    var after := VisitModifier(st, m).diagnostics;
    assert after == changed || after == changed + [Diagnostic(TypeError, st.modifiers[m.name].location, [], ModifierToFunction)];
    assert after[|st.diagnostics|] == d;
  }

  /** The first modifier met under its name is the one kept. */
  lemma FirstModifierKept(st: OverrideState, items: seq<WalkItem>, a: nat)
    requires a < |items| && items[a].ModifierItem? && items[a].m.name !in st.modifiers
    requires forall j :: 0 <= j < a ==> !(items[j].ModifierItem? && items[j].m.name == items[a].m.name)
    ensures var after := Walk(st, items[..a + 1]);
      items[a].m.name in after.modifiers && after.modifiers[items[a].m.name] == items[a].m
  {
    NoModifierYet(st, items, a, items[a].m.name);
    WalkStep(st, items, a);
  }

  /** ... and stays kept for the rest of the walk. */
  lemma FirstModifierKeptUntil(st: OverrideState, items: seq<WalkItem>, a: nat, b: nat)
    requires a < b <= |items| && items[a].ModifierItem? && items[a].m.name !in st.modifiers
    requires forall j :: 0 <= j < a ==> !(items[j].ModifierItem? && items[j].m.name == items[a].m.name)
    ensures var pre := Walk(st, items[..b]);
      items[a].m.name in pre.modifiers && pre.modifiers[items[a].m.name] == items[a].m
  {
    FirstModifierKept(st, items, a);
    var init := items[..b];
    assert init[..a + 1] == items[..a + 1];
    ModifierStays(st, init, a + 1, items[a].m.name);
  }

  /** Step i reports a modifier whose parameter types differ from the kept one. */
  lemma SignatureChangeAt(st: OverrideState, items: seq<WalkItem>, i: nat, kept: ModifierDefinition)
    requires i < |items| && items[i].ModifierItem?
    requires items[i].m.name in Walk(st, items[..i]).modifiers
    requires Walk(st, items[..i]).modifiers[items[i].m.name] == kept && kept.parameters != items[i].m.parameters
    ensures Diagnostic(TypeError, kept.location, [], ModifierSignatureChanged) in Walk(st, items[..i + 1]).diagnostics
  {
    VisitReportsSignatureChange(Walk(st, items[..i]), items[i].m);
    WalkStep(st, items, i);
  }

  /** The walk keeps the first modifier it meets under a name (the most
      derived one) and reports a later modifier of that name with other
      parameter types at the kept one. */
  lemma ModifierSignatureReported(sf0: map<DeclId, DeclId>, items: seq<WalkItem>, a: nat, b: nat)
    requires a < b < |items|
    requires items[a].ModifierItem? && items[b].ModifierItem? && items[b].m.name == items[a].m.name
    requires forall j :: 0 <= j < a ==> !(items[j].ModifierItem? && items[j].m.name == items[a].m.name)
    requires items[a].m.parameters != items[b].m.parameters
    ensures Diagnostic(TypeError, items[a].m.location, [], ModifierSignatureChanged) in Walk(InitialOverrideState(sf0), items).diagnostics
  {
    var st := InitialOverrideState(sf0);
    FirstModifierKeptUntil(st, items, a, b);
    SignatureChangeAt(st, items, b, items[a].m);
    ReportStays(st, items, b + 1, Diagnostic(TypeError, items[a].m.location, [], ModifierSignatureChanged));
  }

  // ---- every report about modifiers has its cause ----

  /** The reports of checkIllegalOverrides that concern modifiers. */
  predicate ModifierReport(d: Diagnostic)
  {
    d.message == ModifierSignatureChanged || d.message == FunctionToModifier || d.message == ModifierToFunction
  }

  /** d reports, at the first modifier named n, a later modifier of that
      name with other parameter types. */
  predicate ShowsSignatureChange(items: seq<WalkItem>, n: string, f: nat, b: nat, d: Diagnostic)
  {
    && IsFirstModifier(items, f, n) && f < b < |items|
    && items[b].ModifierItem? && items[b].m.name == n && items[b].m.parameters != items[f].m.parameters
    && d == Diagnostic(TypeError, items[f].m.location, [], ModifierSignatureChanged)
  }

  /** d reports, at the first modifier named n, a function of that name met after it. */
  predicate ShowsFunctionToModifier(items: seq<WalkItem>, n: string, f: nat, a: nat, d: Diagnostic)
  {
    && IsFirstModifier(items, f, n) && f < a < |items|
    && items[a].FunctionItem? && items[a].f.kind != Constructor && items[a].f.name == n
    && d == Diagnostic(TypeError, items[f].m.location, [], FunctionToModifier)
  }

  /** d reports, at the first modifier named n, a modifier of that name met
      after a function of that name. */
  predicate ShowsModifierToFunction(items: seq<WalkItem>, n: string, f: nat, a: nat, b: nat, d: Diagnostic)
  {
    && IsFirstModifier(items, f, n) && a < b < |items|
    && items[a].FunctionItem? && items[a].f.kind != Constructor && items[a].f.name == n
    && items[b].ModifierItem? && items[b].m.name == n
    && d == Diagnostic(TypeError, items[f].m.location, [], ModifierToFunction)
  }

  /** Each report about modifiers is explained by the items of the walk. */
  ghost predicate HasCause(items: seq<WalkItem>, d: Diagnostic)
  {
    && (d.message == ModifierSignatureChanged ==> exists n: string, f: nat, b: nat :: ShowsSignatureChange(items, n, f, b, d))
    && (d.message == FunctionToModifier ==> exists n: string, f: nat, a: nat :: ShowsFunctionToModifier(items, n, f, a, d))
    && (d.message == ModifierToFunction ==> exists n: string, f: nat, a: nat, b: nat :: ShowsModifierToFunction(items, n, f, a, b, d))
  }

  /** Checking functions against each other reports nothing about modifiers. */
  lemma {:induction false} ReportsAgainstNoModifierReport(seen: seq<FunctionDefinition>, g: FunctionDefinition)
    ensures forall d :: d in ReportsAgainst(seen, g) ==> !ModifierReport(d)
  {
    if seen != [] {
      ReportsAgainstNoModifierReport(seen[..|seen| - 1], g);
    }
  }

  /** A step keeps a modifier under n only when it is a modifier named n or
      one was kept before, and likewise for the functions of name n. */
  lemma VisitAdds(st: OverrideState, x: WalkItem, n: string)
    ensures n in Visit(st, x).modifiers ==> n in st.modifiers || (x.ModifierItem? && x.m.name == n)
    ensures Seen(Visit(st, x), n) != [] ==>
      Seen(st, n) != [] || (x.FunctionItem? && x.f.kind != Constructor && x.f.name == n)
  {
  }

  /** A modifier kept under n after i steps was met among them. */
  lemma {:induction false} ModifierCameFromItem(st: OverrideState, items: seq<WalkItem>, i: nat, n: string)
    requires i <= |items| && n !in st.modifiers
    ensures n in Walk(st, items[..i]).modifiers ==>
      exists j :: 0 <= j < i && items[j].ModifierItem? && items[j].m.name == n
  {
    if i > 0 {
      ModifierCameFromItem(st, items, i - 1, n);
      WalkStep(st, items, i - 1);
      VisitAdds(Walk(st, items[..i - 1]), items[i - 1], n);
    } else {
      assert items[..i] == [];
    }
  }

  /** A function of name n known after i steps was met among them. */
  lemma {:induction false} SeenCameFromItem(st: OverrideState, items: seq<WalkItem>, i: nat, n: string)
    requires i <= |items| && Seen(st, n) == []
    ensures Seen(Walk(st, items[..i]), n) != [] ==>
      exists a :: 0 <= a < i && items[a].FunctionItem? && items[a].f.kind != Constructor && items[a].f.name == n
  {
    if i > 0 {
      SeenCameFromItem(st, items, i - 1, n);
      WalkStep(st, items, i - 1);
      VisitAdds(Walk(st, items[..i - 1]), items[i - 1], n);
    } else {
      assert items[..i] == [];
    }
  }

  /** Every modifier named n is preceded, or is itself, the first one. */
  lemma {:induction false} FirstModifierExists(items: seq<WalkItem>, j: nat, n: string)
    requires j < |items| && items[j].ModifierItem? && items[j].m.name == n
    ensures exists f: nat :: f <= j && IsFirstModifier(items, f, n)
    decreases j
  {
    if exists j' :: 0 <= j' < j && items[j'].ModifierItem? && items[j'].m.name == n {
      var j' :| 0 <= j' < j && items[j'].ModifierItem? && items[j'].m.name == n;
      FirstModifierExists(items, j', n);
    } else {
      assert IsFirstModifier(items, j, n);
    }
  }

  /** The modifier kept under n after i steps is the first one named n. */
  lemma KeptIsFirst(sf0: map<DeclId, DeclId>, items: seq<WalkItem>, i: nat, n: string)
    requires i <= |items| && n in Walk(InitialOverrideState(sf0), items[..i]).modifiers
    ensures exists f: nat ::
      f < i && IsFirstModifier(items, f, n) && Walk(InitialOverrideState(sf0), items[..i]).modifiers[n] == items[f].m
  {
    var st := InitialOverrideState(sf0);
    ModifierCameFromItem(st, items, i, n);
    var j :| 0 <= j < i && items[j].ModifierItem? && items[j].m.name == n;
    FirstModifierExists(items, j, n);
    var f: nat :| f <= j && IsFirstModifier(items, f, n);
    FirstModifierKeptUntil(st, items, f, i);
  }

  /** No modifier is kept under n after i steps only when none named n was met. */
  lemma UnknownMeansUnmet(sf0: map<DeclId, DeclId>, items: seq<WalkItem>, i: nat, n: string)
    requires i <= |items| && n !in Walk(InitialOverrideState(sf0), items[..i]).modifiers
    ensures forall j :: 0 <= j < i ==> !(items[j].ModifierItem? && items[j].m.name == n)
  {
    forall j | 0 <= j < i ensures !(items[j].ModifierItem? && items[j].m.name == n) {
      if items[j].ModifierItem? && items[j].m.name == n {
        EarlierItemRemembered(InitialOverrideState(sf0), items, j, i, n);
      }
    }
  }

  /** The reports a function adds at step i have their cause. */
  lemma FunctionStepHasCause(sf0: map<DeclId, DeclId>, items: seq<WalkItem>, i: nat)
    requires i < |items| && items[i].FunctionItem?
    ensures var pre := Walk(InitialOverrideState(sf0), items[..i]);
      forall d :: d in VisitFunction(pre, items[i].f).diagnostics ==> d in pre.diagnostics || HasCause(items, d)
  {
    var pre := Walk(InitialOverrideState(sf0), items[..i]);
    var g := items[i].f;
    if g.kind != Constructor {
      var n := g.name;
      var seen := Seen(pre, n);
      ReportsAgainstNoModifierReport(seen, g);
      var clashed := pre.diagnostics;
      if n in pre.modifiers {
        var d := Diagnostic(TypeError, pre.modifiers[n].location, [], FunctionToModifier);
        KeptIsFirst(sf0, items, i, n);
        var f: nat :| f < i && IsFirstModifier(items, f, n) && pre.modifiers[n] == items[f].m;
        assert ShowsFunctionToModifier(items, n, f, i, d);
        clashed := pre.diagnostics + [d];
      }
      assert VisitFunction(pre, g).diagnostics == clashed + ReportsAgainst(seen, g);
    }
  }

  /** The modifier that step i, a modifier, reports at is the first one of
      its name: the one kept before, or else itself. */
  lemma ReportedAtFirst(sf0: map<DeclId, DeclId>, items: seq<WalkItem>, i: nat)
    requires i < |items| && items[i].ModifierItem?
    ensures var pre := Walk(InitialOverrideState(sf0), items[..i]);
      var n := items[i].m.name;
      exists f: nat :: f <= i && IsFirstModifier(items, f, n) &&
        (if n in pre.modifiers then pre.modifiers[n] == items[f].m else f == i)
  {
    var pre := Walk(InitialOverrideState(sf0), items[..i]);
    var n := items[i].m.name;
    if n in pre.modifiers {
      KeptIsFirst(sf0, items, i, n);
    } else {
      UnknownMeansUnmet(sf0, items, i, n);
      assert IsFirstModifier(items, i, n);
    }
  }

  /** Proof helper: two conditional reports add nothing but those two. */
  lemma ReportIfTwice(ds: seq<Diagnostic>, c1: bool, d1: Diagnostic, c2: bool, d2: Diagnostic)
    ensures forall d :: d in ReportIf(ReportIf(ds, c1, d1), c2, d2) ==> d in ds || (c1 && d == d1) || (c2 && d == d2)
  {
  }

  /** The reports a modifier adds at step i have their cause. */
  lemma ModifierStepHasCause(sf0: map<DeclId, DeclId>, items: seq<WalkItem>, i: nat)
    requires i < |items| && items[i].ModifierItem?
    ensures var pre := Walk(InitialOverrideState(sf0), items[..i]);
      forall d :: d in VisitModifier(pre, items[i].m).diagnostics ==> d in pre.diagnostics || HasCause(items, d)
  {
    var pre := Walk(InitialOverrideState(sf0), items[..i]);
    var m := items[i].m;
    var n := m.name;
    ReportedAtFirst(sf0, items, i);
    var f: nat :| f <= i && IsFirstModifier(items, f, n) &&
      (if n in pre.modifiers then pre.modifiers[n] == items[f].m else f == i);
    var kept := items[f].m;
    var changedReport := Diagnostic(TypeError, kept.location, [], ModifierSignatureChanged);
    var clashReport := Diagnostic(TypeError, kept.location, [], ModifierToFunction);
    var signatureChanged := n in pre.modifiers && kept.parameters != m.parameters;
    var clash := Seen(pre, n) != [];
    assert VisitModifier(pre, m).diagnostics ==
      ReportIf(ReportIf(pre.diagnostics, signatureChanged, changedReport), clash, clashReport);
    ReportIfTwice(pre.diagnostics, signatureChanged, changedReport, clash, clashReport);
    if signatureChanged {
      assert ShowsSignatureChange(items, n, f, i, changedReport);
    }
    if clash {
      SeenCameFromItem(InitialOverrideState(sf0), items, i, n);
      var a: nat :| a < i && items[a].FunctionItem? && items[a].f.kind != Constructor && items[a].f.name == n;
      assert ShowsModifierToFunction(items, n, f, a, i, clashReport);
    }
  }

  /** So every report of the first i steps has its cause. */
  lemma {:induction false} ModifierReportsHaveCauseUpTo(sf0: map<DeclId, DeclId>, items: seq<WalkItem>, i: nat)
    requires i <= |items|
    ensures forall d :: d in Walk(InitialOverrideState(sf0), items[..i]).diagnostics ==> HasCause(items, d)
  {
    if i > 0 {
      ModifierReportsHaveCauseUpTo(sf0, items, i - 1);
      WalkStep(InitialOverrideState(sf0), items, i - 1);
      if items[i - 1].FunctionItem? {
        FunctionStepHasCause(sf0, items, i - 1);
      } else {
        ModifierStepHasCause(sf0, items, i - 1);
      }
    } else {
      assert items[..i] == [];
    }
  }

  /** The converse of NameClashReported and ModifierSignatureReported: the walk
      reports a changed modifier signature, a function overriding a modifier
      or a modifier overriding a function only at the first modifier of a
      name, and only when the walk met what the report says. */
  lemma ModifierReportsHaveCause(sf0: map<DeclId, DeclId>, items: seq<WalkItem>)
    ensures forall d :: d in Walk(InitialOverrideState(sf0), items).diagnostics ==> HasCause(items, d)
  {
    ModifierReportsHaveCauseUpTo(sf0, items, |items|);
    assert items[..|items|] == items;
  }
}
