/**
 * The declarations the contract-level checker reads, as the parser, the name
 * resolver and the inheritance linearizer leave them. Declarations are values
 * with a stable identity (`id`); the annotation slots the checker writes are
 * kept apart from them, keyed by that identity (see checker.dfy).
 */
module Ast {

  datatype Option<+T> = None | Some(value: T)

  /** Identity of a contract definition. */
  type ContractId = nat
  /** Identity of a function, event or modifier definition. */
  type DeclId = nat
  /** Identity of any other AST node (argument expressions, specifiers, invocations). */
  type NodeId = nat
  /** A resolved type; two parameters have equal types exactly when their ids are equal. */
  type TypeId = nat

  /** A source range: the source it belongs to and its character interval. */
  datatype SourceLocation = SourceLocation(source: nat, start: int, end: int)

  /** `outer` contains `inner`: same source and the interval of `inner` lies within that of `outer`. */
  predicate Contains(outer: SourceLocation, inner: SourceLocation)
  {
    outer.source == inner.source && outer.start <= inner.start && inner.end <= outer.end
  }

  /** The visibility of a function once the default has been resolved. */
  datatype Visibility = Private | Internal | Public | External

  datatype StateMutability = Pure | View | NonPayable | Payable

  /** A constructor and a fallback function have no name; an ordinary function has one. */
  datatype FunctionKind = Ordinary | Constructor | Fallback

  /** A node that can supply arguments to a base constructor: an inheritance
      specifier `is B(1)` or a modifier-style call `constructor() B(1)`. */
  datatype ArgumentNode = ArgumentNode(id: NodeId, location: SourceLocation)

  /** What the name of a modifier invocation resolves to: a modifier, or a contract
      (then the invocation is a call of that contract's constructor). */
  datatype InvocationTarget = ModifierTarget | ContractTarget(contract: ContractId)

  /** A modifier invocation in a function header; `arguments` is None when the
      invocation is written without parentheses. */
  datatype ModifierInvocation = ModifierInvocation(
    node: ArgumentNode,
    target: InvocationTarget,
    arguments: Option<seq<NodeId>>)

  datatype FunctionDefinition = FunctionDefinition(
    id: DeclId,
    name: string,
    kind: FunctionKind,
    location: SourceLocation,
    parameters: seq<TypeId>,
    returnParameters: seq<TypeId>,
    returnParameterListLocation: SourceLocation,
    visibility: Visibility,
    stateMutability: StateMutability,
    isImplemented: bool,
    modifiers: seq<ModifierInvocation>)

  datatype EventDefinition = EventDefinition(
    id: DeclId,
    name: string,
    location: SourceLocation,
    parameters: seq<TypeId>)

  datatype ModifierDefinition = ModifierDefinition(
    id: DeclId,
    name: string,
    location: SourceLocation,
    parameters: seq<TypeId>)

  /** An entry `B(args)` of a contract's inheritance list; `arguments` is None
      when no parenthesised list is written. */
  datatype InheritanceSpecifier = InheritanceSpecifier(
    node: ArgumentNode,
    base: ContractId,
    arguments: Option<seq<NodeId>>)

  /** A contract with its own members and, computed upstream, its linearized
      bases from the contract itself (first) to the most basic one (last). */
  datatype ContractDefinition = ContractDefinition(
    id: ContractId,
    location: SourceLocation,
    definedFunctions: seq<FunctionDefinition>,
    events: seq<EventDefinition>,
    functionModifiers: seq<ModifierDefinition>,
    baseContracts: seq<InheritanceSpecifier>,
    linearizedBaseContracts: seq<ContractId>)

  /** Every contract of the compilation, by identity. */
  type Contracts = map<ContractId, ContractDefinition>

  /** Index of the first constructor among `fs`, or |fs| when there is none. */
  function ConstructorIndex(fs: seq<FunctionDefinition>): (k: nat)
    ensures k <= |fs|
    ensures k < |fs| ==> fs[k].kind == Constructor
    ensures forall j :: 0 <= j < k ==> fs[j].kind != Constructor
  {
    if fs == [] then 0
    else if fs[0].kind == Constructor then 0
    else 1 + ConstructorIndex(fs[1..])
  }

  /** ContractDefinition::constructor(): the first function of the contract that is a constructor. */
  function ConstructorOf(c: ContractDefinition): (r: Option<FunctionDefinition>)
    ensures r.None? <==> forall j :: 0 <= j < |c.definedFunctions| ==> c.definedFunctions[j].kind != Constructor
    ensures r.Some? ==> r.value in c.definedFunctions && r.value.kind == Constructor
    ensures r.Some? ==>
      exists k :: (0 <= k < |c.definedFunctions| && r.value == c.definedFunctions[k] &&
        forall j :: 0 <= j < k ==> c.definedFunctions[j].kind != Constructor)
  {
    var k := ConstructorIndex(c.definedFunctions);
    if k < |c.definedFunctions| then Some(c.definedFunctions[k]) else None
  }

  /** Every contract name the contract refers to resolves to a known contract. */
  predicate ReferencesResolved(ast: Contracts, c: ContractDefinition)
  {
    && (forall j :: 0 <= j < |c.baseContracts| ==> c.baseContracts[j].base in ast)
    && (forall j, k :: 0 <= j < |c.definedFunctions| && 0 <= k < |c.definedFunctions[j].modifiers| ==>
          c.definedFunctions[j].modifiers[k].target.ContractTarget? ==>
            c.definedFunctions[j].modifiers[k].target.contract in ast)
  }

  /** What the earlier passes guarantee when the checker runs on contract `c`:
      contracts are stored under their own identity, the linearization starts
      with `c` and lists only known contracts, every reference resolves, and
      the ordinary functions of `c` have a name. */
  predicate WellFormed(ast: Contracts, c: ContractId)
  {
    && c in ast
    && (forall k :: k in ast ==> ast[k].id == k)
    && |ast[c].linearizedBaseContracts| > 0
    && ast[c].linearizedBaseContracts[0] == c
    && (forall j :: 0 <= j < |ast[c].linearizedBaseContracts| ==> ast[c].linearizedBaseContracts[j] in ast)
    && (forall j :: 0 <= j < |ast[c].linearizedBaseContracts| ==>
          ReferencesResolved(ast, ast[ast[c].linearizedBaseContracts[j]]))
    && (forall j :: 0 <= j < |ast[c].definedFunctions| && ast[c].definedFunctions[j].kind == Ordinary ==>
          ast[c].definedFunctions[j].name != "")
  }
}
