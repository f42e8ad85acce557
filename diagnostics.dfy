/**
 * What the checker reports: an error reporter entry is a severity, a primary
 * location, labelled secondary locations and a message. Message texts are
 * represented by tags; a tag carries the values a text interpolates.
 */
module Diagnostics {
  import opened Ast

  datatype Severity = Warning | DeclarationError | TypeError

  /** The labels of secondary locations. */
  datatype Label =
    | AnotherDeclaration     // "Another declaration is here:"
    | OtherDeclaration       // "Other declaration is here:"
    | OverriddenFunction     // "Overridden function is here:"
    | FirstConstructorCall   // "First constructor call is here: "
    | SecondConstructorCall  // "Second constructor call is here:"

  datatype Secondary = Secondary(caption: Label, location: SourceLocation)

  datatype Message =
    | MoreThanOneConstructor
    | OnlyOneFallback
    | DuplicateFunction
    | DuplicateEvent
    | FunctionToModifier
    | ModifierSignatureChanged
    | ModifierToFunction
    | ReturnTypesDiffer
    | VisibilityDiffers
    | MutabilityChanged(from: StateMutability, to: StateMutability)
    | RedeclaredAsAbstract
    | ModifierStyleCallWithoutArguments
    | ArgumentsGivenTwice
    | ConstructorReturns
    | ConstructorMutability(mutability: StateMutability)
    | ConstructorVisibility

  datatype Diagnostic = Diagnostic(
    severity: Severity,
    location: SourceLocation,
    secondary: seq<Secondary>,
    message: Message)

  predicate IsError(d: Diagnostic)
  {
    d.severity != Warning
  }

  /** Error::containsOnlyWarnings */
  predicate ContainsOnlyWarnings(ds: seq<Diagnostic>)
  {
    forall i :: 0 <= i < |ds| ==> !IsError(ds[i])
  }

  /** Every entry is an error (everything the contract-level checker reports is). */
  predicate AllErrors(ds: seq<Diagnostic>)
  {
    forall i :: 0 <= i < |ds| ==> IsError(ds[i])
  }

  /** Number of entries carrying message `m`. */
  function CountMessage(ds: seq<Diagnostic>, m: Message): (n: nat)
    ensures n <= |ds|
  {
    if ds == [] then 0
    else (if ds[0].message == m then 1 else 0) + CountMessage(ds[1..], m)
  }

  lemma {:induction false} CountMessageAppend(a: seq<Diagnostic>, b: seq<Diagnostic>, m: Message)
    ensures CountMessage(a + b, m) == CountMessage(a, m) + CountMessage(b, m)
    decreases |a|
  {
    if a == [] {
      assert a + b == b;
    } else {
      assert (a + b)[1..] == a[1..] + b;
      CountMessageAppend(a[1..], b, m);
    }
  }

  /** Appending only errors to a reporter leaves it warning-only exactly when
      it was warning-only before and nothing was appended. */
  lemma OnlyWarningsAfterErrors(before: seq<Diagnostic>, added: seq<Diagnostic>)
    requires AllErrors(added)
    ensures ContainsOnlyWarnings(before + added) <==> ContainsOnlyWarnings(before) && added == []
  {
    if added != [] {
      assert (before + added)[|before|] == added[0];
    } else {
      assert before + added == before;
    }
  }

  /** Proof helper: errors followed by errors are errors. */
  lemma AllErrorsAppend(a: seq<Diagnostic>, b: seq<Diagnostic>)
    requires AllErrors(a) && AllErrors(b)
    ensures AllErrors(a + b)
  {
  }

  /** The reports after `if (reported) errorReporter.typeError(...)`. */
  function ReportIf(ds: seq<Diagnostic>, reported: bool, d: Diagnostic): (r: seq<Diagnostic>)
    ensures r == ds || r == ds + [d]
  {
    if reported then ds + [d] else ds
  }

  /** Proof helper: appending to a reporter in two steps is appending the
      concatenation. */
  lemma Regroup<T>(a: seq<T>, b: seq<T>, c: seq<T>)
    ensures (a + b) + c == a + (b + c)
  {
  }
}
