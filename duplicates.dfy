/**
 * Duplicate declarations within one contract: checkDuplicateFunctions,
 * checkDuplicateEvents and the shared findDuplicateDefinitions, as pure
 * definitions with the properties they have.
 */
module Duplicates {
  import opened Ast
  import opened Diagnostics
  import opened NameMap

  /** What findDuplicateDefinitions reads of a function or an event: where it
      is declared and its parameter types. */
  datatype Overload = Overload(location: SourceLocation, parameters: seq<TypeId>)

  function FunctionOverload(f: FunctionDefinition): Overload
  {
    Overload(f.location, f.parameters)
  }

  function EventOverload(e: EventDefinition): Overload
  {
    Overload(e.location, e.parameters)
  }

  predicate Increasing(ps: seq<nat>)
  {
    forall a, b :: 0 <= a < b < |ps| ==> ps[a] < ps[b]
  }

  /** The indices j with i < j < hi whose parameter types equal those of
      ov[i], ascending: the declarations the inner loop appends as
      "Other declaration is here:". */
  function Peers(ov: seq<Overload>, i: nat, hi: nat): (ps: seq<nat>)
    requires i < |ov| && hi <= |ov|
    ensures forall k :: 0 <= k < |ps| ==> i < ps[k] < hi
    decreases hi
  {
    if hi <= i + 1 then []
    else Peers(ov, i, hi - 1) + (if ov[hi - 1].parameters == ov[i].parameters then [hi - 1] else [])
  }

  /** The peers of ov[i] are listed in ascending order. */
  lemma {:induction false} PeersAscending(ov: seq<Overload>, i: nat, hi: nat)
    requires i < |ov| && hi <= |ov|
    ensures Increasing(Peers(ov, i, hi))
    decreases hi
  {
    if hi > i + 1 {
      PeersAscending(ov, i, hi - 1);
    }
  }

  /** Every peer of ov[i] has the parameter types of ov[i]. */
  lemma {:induction false} PeersMatch(ov: seq<Overload>, i: nat, hi: nat)
    requires i < |ov| && hi <= |ov|
    ensures forall k :: 0 <= k < |Peers(ov, i, hi)| ==> ov[Peers(ov, i, hi)[k]].parameters == ov[i].parameters
    decreases hi
  {
    if hi > i + 1 {
      PeersMatch(ov, i, hi - 1);
    }
  }

  /** Every later index below hi with the parameter types of ov[i] is a peer. */
  lemma {:induction false} PeersComplete(ov: seq<Overload>, i: nat, hi: nat)
    requires i < |ov| && hi <= |ov|
    ensures forall j :: i < j < hi && ov[j].parameters == ov[i].parameters ==> j in Peers(ov, i, hi)
    decreases hi
  {
    if hi > i + 1 {
      PeersComplete(ov, i, hi - 1);
    }
  }

  function Secondaries(ov: seq<Overload>, ps: seq<nat>): (ss: seq<Secondary>)
    requires forall k :: 0 <= k < |ps| ==> ps[k] < |ov|
  {
    seq(|ps|, k requires 0 <= k < |ps| => Secondary(OtherDeclaration, ov[ps[k]].location))
  }

  function Elements(ps: seq<nat>): set<nat>
  {
    set k | k in ps
  }

  /** What is reported for ov[i] once the outer loop reaches it: one
      declaration error at ov[i] naming every later declaration with equal
      parameter types, or nothing when there is none. */
  function DuplicateReport(ov: seq<Overload>, i: nat, msg: Message): (r: seq<Diagnostic>)
    requires i < |ov|
    ensures |r| <= 1
    ensures |r| == 1 ==> r[0].severity == DeclarationError && r[0].location == ov[i].location && r[0].message == msg
  {
    var ps := Peers(ov, i, |ov|);
    if |ps| > 0 then [Diagnostic(DeclarationError, ov[i].location, Secondaries(ov, ps), msg)] else []
  }

  /** ov[i] is reported exactly when a later declaration of the bucket has
      its parameter types, and the report names all of those. */
  lemma DuplicateReportExact(ov: seq<Overload>, i: nat, msg: Message)
    requires i < |ov|
    ensures |DuplicateReport(ov, i, msg)| == 1 <==> exists j :: i < j < |ov| && ov[j].parameters == ov[i].parameters
  {
    var ps := Peers(ov, i, |ov|);
    PeersMatch(ov, i, |ov|);
    PeersComplete(ov, i, |ov|);
    if |ps| > 0 {
      assert i < ps[0] < |ov| && ov[ps[0]].parameters == ov[i].parameters;
    }
  }

  /** The outer loop of findDuplicateDefinitions over one same-name bucket,
      from index i with the set `reported` built so far. The loop condition
      `i < overloads.size() && !reported.count(i)` ends the loop at the first
      index already reported. */
  function ScanBucket(ov: seq<Overload>, i: nat, reported: set<nat>, msg: Message): seq<Diagnostic>
    decreases |ov| - i
  {
    if i >= |ov| || i in reported then []
    else DuplicateReport(ov, i, msg) + ScanBucket(ov, i + 1, reported + Elements(Peers(ov, i, |ov|)), msg)
  }

  /** ov[k] repeats the parameter types of some earlier declaration of the bucket. */
  predicate HasEarlierTwin(ov: seq<Overload>, k: nat)
    requires k < |ov|
  {
    exists i :: 0 <= i < k && ov[i].parameters == ov[k].parameters
  }

  /** ov[j] repeats the parameter types of some declaration with index below both j and i. */
  predicate TwinBelow(ov: seq<Overload>, j: nat, i: nat)
    requires j < |ov|
  {
    exists i' :: 0 <= i' < i && i' < j && ov[i'].parameters == ov[j].parameters
  }

  /** The set `reported` holds when the outer loop reaches index i. */
  function ReportedBelow(ov: seq<Overload>, i: nat): set<nat>
  {
    set j | 0 <= j < |ov| && TwinBelow(ov, j, i)
  }

  /** The first index at or after `from` that repeats an earlier one, or |ov|. */
  function FirstRepeat(ov: seq<Overload>, from: nat): (s: nat)
    requires from <= |ov|
    ensures from <= s <= |ov|
    ensures s < |ov| ==> HasEarlierTwin(ov, s)
    ensures forall k :: from <= k < s ==> !HasEarlierTwin(ov, k)
    decreases |ov| - from
  {
    if from == |ov| then from
    else if HasEarlierTwin(ov, from) then from
    else FirstRepeat(ov, from + 1)
  }

  /** The reports of the indices lo .. hi-1, in index order. */
  function ReportsBetween(ov: seq<Overload>, lo: nat, hi: nat, msg: Message): seq<Diagnostic>
    requires lo <= hi <= |ov|
    decreases hi - lo
  {
    if lo == hi then [] else DuplicateReport(ov, lo, msg) + ReportsBetween(ov, lo + 1, hi, msg)
  }

  /** Marking the peers of ov[i] reported turns the set for i into the set for i + 1. */
  lemma ReportedBelowStep(ov: seq<Overload>, i: nat)
    requires i < |ov|
    ensures ReportedBelow(ov, i) + Elements(Peers(ov, i, |ov|)) == ReportedBelow(ov, i + 1)
  {
    var ps := Peers(ov, i, |ov|);
    var next := ReportedBelow(ov, i) + Elements(ps);
    PeersMatch(ov, i, |ov|);
    PeersComplete(ov, i, |ov|);
    forall j | j in next ensures j in ReportedBelow(ov, i + 1) {
      if j in Elements(ps) {
        var k :| 0 <= k < |ps| && ps[k] == j;
        assert TwinBelow(ov, j, i + 1);
      } else {
        var i' :| 0 <= i' < i && i' < j && ov[i'].parameters == ov[j].parameters;
        assert TwinBelow(ov, j, i + 1);
      }
    }
    forall j | j in ReportedBelow(ov, i + 1) ensures j in next {
      var i' :| 0 <= i' < i + 1 && i' < j && ov[i'].parameters == ov[j].parameters;
      if i' < i {
        assert TwinBelow(ov, j, i);
      } else {
        assert j in ps;
      }
    }
  }

  lemma {:induction false} ScanFromMatchesReports(ov: seq<Overload>, i: nat, reported: set<nat>, msg: Message)
    requires i <= FirstRepeat(ov, 0)
    requires reported == ReportedBelow(ov, i)
    ensures ScanBucket(ov, i, reported, msg) == ReportsBetween(ov, i, FirstRepeat(ov, 0), msg)
    decreases |ov| - i
  {
    var s := FirstRepeat(ov, 0);
    if i == s {
      if s < |ov| {
        var i' :| 0 <= i' < s && ov[i'].parameters == ov[s].parameters;
        assert TwinBelow(ov, s, i);
        assert i in reported;
      }
    } else {
      assert !HasEarlierTwin(ov, i);
      assert i !in reported;
      ReportedBelowStep(ov, i);
      ScanFromMatchesReports(ov, i + 1, reported + Elements(Peers(ov, i, |ov|)), msg);
    }
  }

  /** The `reported` set only ever ends the loop: a bucket yields exactly the
      reports of the indices before its first repeated parameter list. */
  lemma ScanStopsAtFirstRepeat(ov: seq<Overload>, msg: Message)
    ensures ScanBucket(ov, 0, {}, msg) == ReportsBetween(ov, 0, FirstRepeat(ov, 0), msg)
  {
    assert ReportedBelow(ov, 0) == {};
    ScanFromMatchesReports(ov, 0, {}, msg);
  }

  /** Three declarations with the same parameter types give one report, at the
      first, naming the other two. */
  lemma TripleCollisionReportedOnce(ov: seq<Overload>, msg: Message)
    requires |ov| == 3
    requires ov[0].parameters == ov[1].parameters == ov[2].parameters
    ensures ScanBucket(ov, 0, {}, msg) ==
      [Diagnostic(DeclarationError, ov[0].location,
         [Secondary(OtherDeclaration, ov[1].location), Secondary(OtherDeclaration, ov[2].location)], msg)]
  {
    assert Peers(ov, 0, 1) == [];
    assert Peers(ov, 0, 2) == [1];
    assert Peers(ov, 0, 3) == [1, 2];
    assert !HasEarlierTwin(ov, 0);
    assert HasEarlierTwin(ov, 1);
    assert FirstRepeat(ov, 0) == 1;
    ScanStopsAtFirstRepeat(ov, msg);
    assert Secondaries(ov, [1, 2]) == [Secondary(OtherDeclaration, ov[1].location), Secondary(OtherDeclaration, ov[2].location)];
    assert ReportsBetween(ov, 0, 1, msg) == DuplicateReport(ov, 0, msg) + ReportsBetween(ov, 1, 1, msg);
  }

  /** The reports over a whole name-ordered map of buckets, bucket after bucket. */
  function DuplicateDiagnostics(m: NameMap<seq<Overload>>, msg: Message): (ds: seq<Diagnostic>)
    ensures AllErrors(ds)
    ensures forall k :: 0 <= k < |ds| ==> ds[k].message == msg && ds[k].severity == DeclarationError
  {
    if m == [] then []
    else
      var last := m[|m| - 1].value;
      ScanStopsAtFirstRepeat(last, msg);
      BucketReportsShape(last, 0, FirstRepeat(last, 0), msg);
      DuplicateDiagnostics(m[..|m| - 1], msg) + ScanBucket(last, 0, {}, msg)
  }

  /** One more bucket of the name-ordered map. */
  lemma DuplicateDiagnosticsStep(m: NameMap<seq<Overload>>, e: nat, msg: Message)
    requires e < |m|
    ensures DuplicateDiagnostics(m[..e + 1], msg) == DuplicateDiagnostics(m[..e], msg) + ScanBucket(m[e].value, 0, {}, msg)
  {
    assert m[..e + 1][..e] == m[..e];
  }

  /** One round of the outer loop over a bucket: it reports overloads[i] and
      marks its peers reported. */
  lemma ScanBucketStep(ov: seq<Overload>, i: nat, reported: set<nat>, msg: Message)
    requires i < |ov| && i !in reported
    ensures var ps := Peers(ov, i, |ov|);
      ScanBucket(ov, i, reported, msg) ==
        (if |ps| > 0 then [Diagnostic(DeclarationError, ov[i].location, Secondaries(ov, ps), msg)] else [])
        + ScanBucket(ov, i + 1, reported + Elements(ps), msg)
  {
  }

  lemma {:induction false} BucketReportsShape(ov: seq<Overload>, lo: nat, hi: nat, msg: Message)
    requires lo <= hi <= |ov|
    ensures forall k :: 0 <= k < |ReportsBetween(ov, lo, hi, msg)| ==>
      ReportsBetween(ov, lo, hi, msg)[k].message == msg && ReportsBetween(ov, lo, hi, msg)[k].severity == DeclarationError
    decreases hi - lo
  {
    if lo < hi {
      BucketReportsShape(ov, lo + 1, hi, msg);
    }
  }

  // ---- what findDuplicateDefinitions evidently means to do ----

  /** Reports of every index whose parameter list does not repeat an earlier
      one: the outer loop skipping reported indices instead of stopping. */
  function IntendedReports(ov: seq<Overload>, lo: nat, msg: Message): seq<Diagnostic>
    requires lo <= |ov|
    decreases |ov| - lo
  {
    if lo == |ov| then []
    else (if HasEarlierTwin(ov, lo) then [] else DuplicateReport(ov, lo, msg)) + IntendedReports(ov, lo + 1, msg)
  }

  /** The first index from `from` on whose parameter types are `p`. */
  function FirstWith(ov: seq<Overload>, p: seq<TypeId>, from: nat, k: nat): (i: nat)
    requires from <= k < |ov| && ov[k].parameters == p
    ensures from <= i <= k && ov[i].parameters == p
    ensures forall j :: from <= j < i ==> ov[j].parameters != p
    decreases k - from
  {
    if ov[from].parameters == p then from else FirstWith(ov, p, from + 1, k)
  }

  lemma {:induction false} IntendedContains(ov: seq<Overload>, lo: nat, i: nat, msg: Message)
    requires lo <= i < |ov| && !HasEarlierTwin(ov, i)
    ensures forall d :: d in DuplicateReport(ov, i, msg) ==> d in IntendedReports(ov, lo, msg)
    decreases i - lo
  {
    var here := if HasEarlierTwin(ov, lo) then [] else DuplicateReport(ov, lo, msg);
    assert IntendedReports(ov, lo, msg) == here + IntendedReports(ov, lo + 1, msg);
    if lo < i {
      IntendedContains(ov, lo + 1, i, msg);
    }
  }

  /** With the intended loop, every declaration that shares its parameter
      types with another one of the bucket is named: as the primary location
      of the report of the first declaration with those parameter types, or
      among that report's secondaries. */
  lemma IntendedReportsNameEveryDuplicate(ov: seq<Overload>, msg: Message, k: nat, j: nat)
    requires k < |ov| && j < |ov| && j != k && ov[j].parameters == ov[k].parameters
    ensures exists i :: (0 <= i <= k && ov[i].parameters == ov[k].parameters
      && (forall i' :: 0 <= i' < i ==> ov[i'].parameters != ov[k].parameters)
      && (i == k || k in Peers(ov, i, |ov|))
      && |DuplicateReport(ov, i, msg)| == 1
      && DuplicateReport(ov, i, msg)[0] in IntendedReports(ov, 0, msg))
  {
    var i := FirstWith(ov, ov[k].parameters, 0, k);
    assert !HasEarlierTwin(ov, i);
    if i == k {
      assert i < j;
    } else {
      assert i < k;
    }
    DuplicateReportExact(ov, i, msg);
    PeersComplete(ov, i, |ov|);
    IntendedContains(ov, 0, i, msg);
  }

  lemma {:induction false} IntendedBeforeFirstRepeat(ov: seq<Overload>, lo: nat, msg: Message)
    requires lo <= FirstRepeat(ov, 0)
    ensures IntendedReports(ov, lo, msg) ==
      ReportsBetween(ov, lo, FirstRepeat(ov, 0), msg) + IntendedReports(ov, FirstRepeat(ov, 0), msg)
    decreases |ov| - lo
  {
    var s := FirstRepeat(ov, 0);
    if lo < s {
      IntendedBeforeFirstRepeat(ov, lo + 1, msg);
      assert !HasEarlierTwin(ov, lo);
      var here := DuplicateReport(ov, lo, msg);
      assert IntendedReports(ov, lo, msg) == here + IntendedReports(ov, lo + 1, msg);
      assert ReportsBetween(ov, lo, s, msg) == here + ReportsBetween(ov, lo + 1, s, msg);
      Regroup(here, ReportsBetween(ov, lo + 1, s, msg), IntendedReports(ov, s, msg));
    } else {
      assert ReportsBetween(ov, lo, s, msg) == [];
      assert [] + IntendedReports(ov, s, msg) == IntendedReports(ov, s, msg);
    }
  }

  /** What the loop reports as written is a prefix of what it evidently means
      to report: everything up to the first repeated parameter list. */
  lemma AsWrittenIsPrefixOfIntended(ov: seq<Overload>, msg: Message)
    ensures |ScanBucket(ov, 0, {}, msg)| <= |IntendedReports(ov, 0, msg)|
    ensures ScanBucket(ov, 0, {}, msg) == IntendedReports(ov, 0, msg)[..|ScanBucket(ov, 0, {}, msg)|]
  {
    ScanStopsAtFirstRepeat(ov, msg);
    IntendedBeforeFirstRepeat(ov, 0, msg);
  }

  /** A bucket f(uint), f(bool), f(uint), f(string), f(string), with uint,
      bool and string as types 0, 1 and 2. */
  function Counterexample(): (ov: seq<Overload>)
    ensures |ov| == 5
  {
    [Overload(SourceLocation(0, 0, 1), [0]), Overload(SourceLocation(0, 1, 2), [1]),
     Overload(SourceLocation(0, 2, 3), [0]), Overload(SourceLocation(0, 3, 4), [2]),
     Overload(SourceLocation(0, 4, 5), [2])]
  }

  lemma CounterexampleShape(msg: Message)
    ensures FirstRepeat(Counterexample(), 0) == 2
    ensures HasEarlierTwin(Counterexample(), 2) && HasEarlierTwin(Counterexample(), 4)
    ensures !HasEarlierTwin(Counterexample(), 3)
  {
    var ov := Counterexample();
    assert ov[0].parameters == ov[2].parameters == [0];
    assert ov[1].parameters == [1];
    assert ov[3].parameters == ov[4].parameters == [2];
    assert !HasEarlierTwin(ov, 0);
    assert !HasEarlierTwin(ov, 1);
    assert HasEarlierTwin(ov, 2);
    assert !HasEarlierTwin(ov, 3);
    assert HasEarlierTwin(ov, 4);
  }

  lemma CounterexampleReports(msg: Message)
    ensures |DuplicateReport(Counterexample(), 0, msg)| == 1
    ensures |DuplicateReport(Counterexample(), 1, msg)| == 0
    ensures |DuplicateReport(Counterexample(), 3, msg)| == 1
  {
    var ov := Counterexample();
    assert ov[0].parameters == ov[2].parameters == [0];
    assert ov[1].parameters == [1];
    assert ov[3].parameters == ov[4].parameters == [2];
  }

  /** On the counterexample bucket the loop stops at the second f(uint), so
      the two f(string) are never reported, while the intended loop reports
      them at the first f(string). */
  lemma LaterDuplicateGroupUnreported(msg: Message)
    ensures |ScanBucket(Counterexample(), 0, {}, msg)| == 1
    ensures ScanBucket(Counterexample(), 0, {}, msg)[0].location == Counterexample()[0].location
    ensures |IntendedReports(Counterexample(), 0, msg)| == 2
    ensures IntendedReports(Counterexample(), 0, msg)[1].location == Counterexample()[3].location
  {
    var ov := Counterexample();
    CounterexampleShape(msg);
    CounterexampleReports(msg);
    var r0, r1, r3 := DuplicateReport(ov, 0, msg), DuplicateReport(ov, 1, msg), DuplicateReport(ov, 3, msg);
    ScanStopsAtFirstRepeat(ov, msg);
    assert ReportsBetween(ov, 0, 2, msg) == r0 + r1 + ReportsBetween(ov, 2, 2, msg);
    AsWrittenIsPrefixOfIntended(ov, msg);
    var i5 := IntendedReports(ov, 5, msg);
    var i4 := IntendedReports(ov, 4, msg);
    var i3 := IntendedReports(ov, 3, msg);
    assert i5 == [];
    assert i4 == i5;
    assert i3 == r3 + i4;
    IntendedBeforeFirstRepeat(ov, 0, msg);
    assert IntendedReports(ov, 2, msg) == i3;
  }

  // ---- checkDuplicateFunctions: the scan of the contract's own functions ----

  /** The locals of checkDuplicateFunctions while it walks the functions: the
      name buckets, the last constructor and fallback seen, and the reports. */
  datatype FunctionScan = FunctionScan(
    functions: NameMap<seq<Overload>>,
    lastConstructor: Option<FunctionDefinition>,
    lastFallback: Option<FunctionDefinition>,
    diagnostics: seq<Diagnostic>)

  /** The report for a constructor or fallback `f` when `previous` is the last
      one of its kind seen before it: an error at `f` pointing at `previous`. */
  function RepeatReport(f: FunctionDefinition, previous: Option<FunctionDefinition>, msg: Message): seq<Diagnostic>
  {
    if previous.Some? then
      [Diagnostic(DeclarationError, f.location, [Secondary(AnotherDeclaration, previous.value.location)], msg)]
    else []
  }

  function ScanStep(st: FunctionScan, f: FunctionDefinition): FunctionScan
  {
    match f.kind
    case Constructor =>
      st.(lastConstructor := Some(f),
          diagnostics := st.diagnostics + RepeatReport(f, st.lastConstructor, MoreThanOneConstructor))
    case Fallback =>
      st.(lastFallback := Some(f),
          diagnostics := st.diagnostics + RepeatReport(f, st.lastFallback, OnlyOneFallback))
    case Ordinary =>
      st.(functions := Append(st.functions, f.name, FunctionOverload(f)))
  }

  /** The scan of `fs` in declaration order, from empty locals. */
  function ScanFunctions(fs: seq<FunctionDefinition>): (st: FunctionScan)
    ensures AllErrors(st.diagnostics)
  {
    if fs == [] then FunctionScan([], None, None, [])
    else ScanStep(ScanFunctions(fs[..|fs| - 1]), fs[|fs| - 1])
  }

  /** The name buckets stay in ascending name order, as in a `std::map`. */
  lemma {:induction false} ScanFunctionsSorted(fs: seq<FunctionDefinition>)
    ensures Sorted(ScanFunctions(fs).functions)
  {
    if fs != [] {
      var f := fs[|fs| - 1];
      ScanFunctionsSorted(fs[..|fs| - 1]);
      if f.kind == Ordinary {
        AppendSorted(ScanFunctions(fs[..|fs| - 1]).functions, f.name, FunctionOverload(f));
      }
    }
  }

  /** The ordinary functions of `fs` named `n`, in declaration order. */
  function OrdinaryNamed(fs: seq<FunctionDefinition>, n: string): seq<Overload>
  {
    if fs == [] then []
    else
      var f := fs[|fs| - 1];
      OrdinaryNamed(fs[..|fs| - 1], n) + (if f.kind == Ordinary && f.name == n then [FunctionOverload(f)] else [])
  }

  /** Each bucket holds exactly the ordinary functions of its name, in
      declaration order; constructors and fallbacks enter no bucket. */
  lemma {:induction false} BucketsHoldOrdinaryFunctions(fs: seq<FunctionDefinition>, n: string)
    ensures GetSeq(ScanFunctions(fs).functions, n) == OrdinaryNamed(fs, n)
    ensures n in Keys(ScanFunctions(fs).functions) <==> OrdinaryNamed(fs, n) != []
  {
    if fs != [] {
      var prefix := fs[..|fs| - 1];
      var f := fs[|fs| - 1];
      BucketsHoldOrdinaryFunctions(prefix, n);
      if f.kind == Ordinary {
        AppendExact(ScanFunctions(prefix).functions, f.name, FunctionOverload(f));
      }
    }
  }

  /** The index of the last function of kind `kind` before index k. */
  function PreviousOfKind(fs: seq<FunctionDefinition>, k: nat, kind: FunctionKind): (p: Option<nat>)
    requires k <= |fs|
    ensures p.Some? ==> p.value < k && fs[p.value].kind == kind
    ensures p.Some? ==> forall j :: p.value < j < k ==> fs[j].kind != kind
    ensures p.None? <==> forall j :: 0 <= j < k ==> fs[j].kind != kind
    decreases k
  {
    if k == 0 then None
    else if fs[k - 1].kind == kind then Some(k - 1)
    else PreviousOfKind(fs, k - 1, kind)
  }

  function At(fs: seq<FunctionDefinition>, p: Option<nat>): Option<FunctionDefinition>
    requires p.Some? ==> p.value < |fs|
  {
    if p.Some? then Some(fs[p.value]) else None
  }

  /** Number of functions of kind `kind` among fs[..hi]. */
  function CountKind(fs: seq<FunctionDefinition>, kind: FunctionKind, hi: nat): nat
    requires hi <= |fs|
  {
    if hi == 0 then 0 else CountKind(fs, kind, hi - 1) + (if fs[hi - 1].kind == kind then 1 else 0)
  }

  /** The count is zero exactly when no function of fs[..hi] is of the kind. */
  lemma {:induction false} CountKindZero(fs: seq<FunctionDefinition>, kind: FunctionKind, hi: nat)
    requires hi <= |fs|
    ensures CountKind(fs, kind, hi) == 0 <==> forall j :: 0 <= j < hi ==> fs[j].kind != kind
  {
    if hi > 0 {
      CountKindZero(fs, kind, hi - 1);
    }
  }

  /** What the scan reports at fs[k]: nothing for an ordinary function or for
      the first constructor or fallback; for a later one, one declaration error
      at it referencing the previous one of its kind. */
  function SpecialReport(fs: seq<FunctionDefinition>, k: nat): seq<Diagnostic>
    requires k < |fs|
  {
    match fs[k].kind
    case Ordinary => []
    case Constructor => RepeatReport(fs[k], At(fs, PreviousOfKind(fs, k, Constructor)), MoreThanOneConstructor)
    case Fallback => RepeatReport(fs[k], At(fs, PreviousOfKind(fs, k, Fallback)), OnlyOneFallback)
  }

  function SpecialReports(fs: seq<FunctionDefinition>, hi: nat): seq<Diagnostic>
    requires hi <= |fs|
  {
    if hi == 0 then [] else SpecialReports(fs, hi - 1) + SpecialReport(fs, hi - 1)
  }

  /** Scanning one more function of `fs` is one more ScanStep. */
  lemma ScanPrefixStep(fs: seq<FunctionDefinition>, hi: nat)
    requires hi < |fs|
    ensures ScanFunctions(fs[..hi + 1]) == ScanStep(ScanFunctions(fs[..hi]), fs[hi])
  {
    assert fs[..hi + 1][..hi] == fs[..hi];
  }

  /** After scanning a prefix, the remembered constructor and fallback are
      the last of their kind in it. */
  lemma {:induction false} ScanRemembersLast(fs: seq<FunctionDefinition>, hi: nat)
    requires hi <= |fs|
    ensures ScanFunctions(fs[..hi]).lastConstructor == At(fs, PreviousOfKind(fs, hi, Constructor))
    ensures ScanFunctions(fs[..hi]).lastFallback == At(fs, PreviousOfKind(fs, hi, Fallback))
  {
    if hi > 0 {
      ScanRemembersLast(fs, hi - 1);
      ScanPrefixStep(fs, hi - 1);
    } else {
      assert fs[..0] == [];
    }
  }

  /** After scanning a prefix, the reports are those of each of its positions. */
  lemma {:induction false} ScanPrefixReports(fs: seq<FunctionDefinition>, hi: nat)
    requires hi <= |fs|
    ensures ScanFunctions(fs[..hi]).diagnostics == SpecialReports(fs, hi)
  {
    if hi > 0 {
      ScanPrefixReports(fs, hi - 1);
      ScanRemembersLast(fs, hi - 1);
      ScanPrefixStep(fs, hi - 1);
      var ds := ScanFunctions(fs[..hi - 1]).diagnostics;
      var r := SpecialReport(fs, hi - 1);
      assert SpecialReports(fs, hi) == ds + r;
      if fs[hi - 1].kind == Ordinary {
        assert ds + r == ds;
      }
    } else {
      assert fs[..0] == [];
    }
  }

  lemma CountMessageOfOne(d: Diagnostic, m: Message)
    ensures CountMessage([d], m) == if d.message == m then 1 else 0
  {
    assert [d][..0] == [];
  }

  /** The message reported for a repeated constructor or fallback. */
  function RepeatMessage(kind: FunctionKind): Message
  {
    if kind == Constructor then MoreThanOneConstructor else OnlyOneFallback
  }

  /** SpecialReport(fs, k) makes one report with the message of `kind` when
      fs[k] is of that kind and not the first one of it, and none otherwise. */
  lemma SpecialReportCount(fs: seq<FunctionDefinition>, k: nat, kind: FunctionKind)
    requires k < |fs| && kind != Ordinary
    ensures CountMessage(SpecialReport(fs, k), RepeatMessage(kind)) ==
      if fs[k].kind == kind && CountKind(fs, kind, k) > 0 then 1 else 0
  {
    var r := SpecialReport(fs, k);
    CountKindZero(fs, kind, k);
    if r != [] {
      assert r == [r[0]];
      CountMessageOfOne(r[0], RepeatMessage(kind));
    }
  }

  lemma {:induction false} SpecialReportCounts(fs: seq<FunctionDefinition>, hi: nat, kind: FunctionKind)
    requires hi <= |fs| && kind != Ordinary
    ensures CountMessage(SpecialReports(fs, hi), RepeatMessage(kind)) + 1 ==
      if CountKind(fs, kind, hi) == 0 then 1 else CountKind(fs, kind, hi)
  {
    if hi > 0 {
      var m := RepeatMessage(kind);
      var before := SpecialReports(fs, hi - 1);
      var r := SpecialReport(fs, hi - 1);
      var c0 := CountKind(fs, kind, hi - 1);
      SpecialReportCounts(fs, hi - 1, kind);
      CountMessageAppend(before, r, m);
      SpecialReportCount(fs, hi - 1, kind);
      assert CountMessage(SpecialReports(fs, hi), m) == CountMessage(before, m) + CountMessage(r, m);
      assert CountKind(fs, kind, hi) == c0 + (if fs[hi - 1].kind == kind then 1 else 0);
      CountsStep(CountMessage(before, m), CountMessage(r, m), c0, CountKind(fs, kind, hi), fs[hi - 1].kind == kind);
    }
  }

  /** Proof helper, the arithmetic of one step of SpecialReportCounts: n
      reports so far for c functions of the kind, one more function that is
      or is not of it. */
  lemma CountsStep(n: nat, added: nat, c: nat, c': nat, ofKind: bool)
    requires n + 1 == if c == 0 then 1 else c
    requires added == if ofKind && c > 0 then 1 else 0
    requires c' == c + if ofKind then 1 else 0
    ensures n + added + 1 == if c' == 0 then 1 else c'
  {
  }

  /** Every constructor after the first yields one "More than one constructor"
      error referencing the previous constructor, every fallback after the
      first one "Only one fallback" error; nothing else is reported by the scan. */
  lemma RepeatedSpecialsReported(fs: seq<FunctionDefinition>)
    ensures ScanFunctions(fs).diagnostics == SpecialReports(fs, |fs|)
    ensures CountMessage(ScanFunctions(fs).diagnostics, MoreThanOneConstructor) + 1 ==
      if CountKind(fs, Constructor, |fs|) == 0 then 1 else CountKind(fs, Constructor, |fs|)
    ensures CountMessage(ScanFunctions(fs).diagnostics, OnlyOneFallback) + 1 ==
      if CountKind(fs, Fallback, |fs|) == 0 then 1 else CountKind(fs, Fallback, |fs|)
  {
    ScanPrefixReports(fs, |fs|);
    SpecialReportCounts(fs, |fs|, Constructor);
    SpecialReportCounts(fs, |fs|, Fallback);
    assert fs[..|fs|] == fs;
  }

  /** What checkDuplicateFunctions reports for a contract's functions `fs`. */
  function DuplicateFunctionDiagnostics(fs: seq<FunctionDefinition>): (ds: seq<Diagnostic>)
    ensures AllErrors(ds)
  {
    var st := ScanFunctions(fs);
    st.diagnostics + DuplicateDiagnostics(st.functions, DuplicateFunction)
  }

  // ---- checkDuplicateEvents ----

  /** The name buckets of checkDuplicateEvents. */
  function EventBuckets(es: seq<EventDefinition>): NameMap<seq<Overload>>
  {
    if es == [] then []
    else Append(EventBuckets(es[..|es| - 1]), es[|es| - 1].name, EventOverload(es[|es| - 1]))
  }

  /** The event buckets stay in ascending name order. */
  lemma {:induction false} EventBucketsSorted(es: seq<EventDefinition>)
    ensures Sorted(EventBuckets(es))
  {
    if es != [] {
      EventBucketsSorted(es[..|es| - 1]);
      AppendSorted(EventBuckets(es[..|es| - 1]), es[|es| - 1].name, EventOverload(es[|es| - 1]));
    }
  }

  function EventsNamed(es: seq<EventDefinition>, n: string): seq<Overload>
  {
    if es == [] then []
    else EventsNamed(es[..|es| - 1], n) + (if es[|es| - 1].name == n then [EventOverload(es[|es| - 1])] else [])
  }

  /** Each event bucket holds exactly the events of its name, in declaration order. */
  lemma {:induction false} BucketsHoldEvents(es: seq<EventDefinition>, n: string)
    ensures GetSeq(EventBuckets(es), n) == EventsNamed(es, n)
    ensures n in Keys(EventBuckets(es)) <==> EventsNamed(es, n) != []
  {
    if es != [] {
      var prefix := es[..|es| - 1];
      BucketsHoldEvents(prefix, n);
      AppendExact(EventBuckets(prefix), es[|es| - 1].name, EventOverload(es[|es| - 1]));
    }
  }

  /** What checkDuplicateEvents reports for a contract's events `es`. */
  function DuplicateEventDiagnostics(es: seq<EventDefinition>): (ds: seq<Diagnostic>)
    ensures AllErrors(ds)
  {
    DuplicateDiagnostics(EventBuckets(es), DuplicateEvent)
  }
}
