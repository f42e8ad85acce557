# Contract-level checks of the Solidity compiler

This project models `ContractLevelChecker`, the analysis pass of the Solidity compiler that
checks a contract as a whole once names and types are resolved. For one contract and its
linearized base contracts it:

- reports functions and events declared twice with the same name and parameter types;
- reports a second constructor or a second fallback function;
- checks overriding functions against the functions they override, and modifiers against
  functions and modifiers of the same name;
- records each function's `superFunction`;
- lists the functions left unimplemented;
- collects the arguments given to base constructors, reporting arguments given twice;
- checks the constructor's return list, mutability and visibility.

`check` returns whether the error reporter holds only warnings afterwards.

The model has two layers.

- **Specification modules.** Pure functions give what each check reports and what it
  annotates, as folds over the items the source visits, in the source's order. Lemmas prove
  what the source promises about those folds.
  - `Ast`: the AST entities the checker reads.
  - `Diagnostics`: the reporter's entries.
  - `NameMap`: the source's `std::map<std::string, …>`, iterated in key order.
  - `Duplicates`, `Overrides`, `AbstractFunctions`, `BaseConstructors`, `ConstructorCheck`:
    the checks themselves.
- **`Checker` module.** It states the checker imperatively. The class `ContractLevelChecker`
  holds an `ErrorReporter` and the two annotation objects; its methods hold the source's
  loops. Each method's postcondition is the new reporter and annotation state, stated with
  the specification functions.

The AST is a map from contract ids to `ContractDefinition`s. Declarations are values that
carry a unique `id`. The annotations the source writes into AST nodes are maps keyed by
these ids:

- `superFunction`;
- `unimplementedFunctions` per contract;
- `baseConstructorArguments` per contract.

The source compares `FunctionType`s with `hasEqualParameterTypes` and compares
`ModifierType`s. The model compares the sequences of parameter type ids instead.

## Model

| member | source | states |
|---|---|---|
| Checker.ContractLevelChecker.Check | libsolidity/analysis/ContractLevelChecker.cpp:36-46 | The reporter's list grows by exactly `CheckReports`: the six checks' reports in the source's order. The result is true iff the reporter held only warnings before and nothing was reported. `superFunction` is the override walk's result. `unimplementedFunctions[c]` grows by the open classes' representatives, then by the base constructors left without arguments. `baseConstructorArguments[c]` is the argument fold's result; other contracts' annotations are unchanged. |
| Checker.CheckPassesIffNothingReported | libsolidity/analysis/ContractLevelChecker.cpp:45 | `containsOnlyWarnings` holds after the checks iff it held before and the checks reported nothing. |
| Checker.CheckReportsAreErrors | libsolidity/analysis/ContractLevelChecker.cpp:38-43 | Every report of the six checks is an error, never a warning. |
| Checker.ContractLevelChecker.CheckDeclarations | libsolidity/analysis/ContractLevelChecker.cpp:38-40 | The first three checks append the duplicate-function, duplicate-event and override reports in that order, and set `superFunction` to the override walk's result. |
| Checker.ContractLevelChecker.CheckInheritance | libsolidity/analysis/ContractLevelChecker.cpp:41-43 | The last three checks append the redeclaration, base-argument and constructor reports in that order. They extend `unimplementedFunctions[c]` and set `baseConstructorArguments[c]` as in `Check`. |
| Checker.ContractLevelChecker.CheckDuplicateFunctions | libsolidity/analysis/ContractLevelChecker.cpp:48-83 | The reporter grows by `DuplicateFunctionDiagnostics`: reports of repeated constructors and fallbacks, then the duplicate reports of the name buckets in key order. |
| Duplicates.RepeatedSpecialsReported | libsolidity/analysis/ContractLevelChecker.cpp:55-75 | A contract with n ≥ 1 constructors gets exactly n − 1 "more than one constructor" reports, and likewise for fallbacks. Each report is made at a later special function and points to the previous one of its kind. |
| Duplicates.ScanRemembersLast | libsolidity/analysis/ContractLevelChecker.cpp:64-74 | After any prefix of the functions, the remembered constructor (fallback) is the last one of the prefix, or none when the prefix has none. |
| Duplicates.BucketsHoldOrdinaryFunctions | libsolidity/analysis/ContractLevelChecker.cpp:76-80 | The bucket of a name holds exactly that name's functions that are neither constructor nor fallback, in declaration order. A name is a key iff it has such a function. |
| Duplicates.ScanFunctionsSorted | libsolidity/analysis/ContractLevelChecker.cpp:52 | The buckets are kept in strictly ascending name order, as `std::map` iterates them. |
| Checker.ContractLevelChecker.CheckDuplicateEvents | libsolidity/analysis/ContractLevelChecker.cpp:85-94 | The reporter grows by the duplicate reports of the event buckets in name order. |
| Duplicates.BucketsHoldEvents | libsolidity/analysis/ContractLevelChecker.cpp:89-91 | The bucket of a name holds exactly the events of that name, in declaration order; the buckets are the names that occur. |
| Duplicates.EventBucketsSorted | libsolidity/analysis/ContractLevelChecker.cpp:89 | The event buckets are strictly ascending by name. |
| Checker.ContractLevelChecker.FindDuplicateDefinitions | libsolidity/analysis/ContractLevelChecker.cpp:96-128 | The reporter grows by `DuplicateDiagnostics`: each bucket's scan, in key order. |
| Checker.ContractLevelChecker.ReportDuplicatesIn | libsolidity/analysis/ContractLevelChecker.cpp:101-126 | One bucket's nested loops append exactly `ScanBucket` of that bucket, the outer loop's stop condition included. |
| Duplicates.Peers | libsolidity/analysis/ContractLevelChecker.cpp:107-114 | Every index the inner loop collects lies strictly after i and before the end. |
| Duplicates.PeersAscending | libsolidity/analysis/ContractLevelChecker.cpp:107-114 | The secondary locations are collected in ascending index order. |
| Duplicates.PeersMatch | libsolidity/analysis/ContractLevelChecker.cpp:108-113 | Every collected declaration has the parameter types of declaration i. |
| Duplicates.PeersComplete | libsolidity/analysis/ContractLevelChecker.cpp:107-114 | Every later declaration with i's parameter types is collected. |
| Duplicates.DuplicateReportExact | libsolidity/analysis/ContractLevelChecker.cpp:116-125 | Declaration i is reported iff some later declaration in its bucket has the same parameter types. |
| Duplicates.DuplicateReport | libsolidity/analysis/ContractLevelChecker.cpp:116-125 | A report is a single declaration error at declaration i, carrying the given message. |
| Duplicates.DuplicateDiagnostics | libsolidity/analysis/ContractLevelChecker.cpp:96-128 | Every report is a declaration error carrying the given message. |
| Duplicates.ScanStopsAtFirstRepeat | libsolidity/analysis/ContractLevelChecker.cpp:103 | The outer loop as written reports exactly the declarations before the first index that has an earlier twin. |
| Duplicates.FirstRepeat | libsolidity/analysis/ContractLevelChecker.cpp:103 | The result is the first index, from `from` on, that has an earlier declaration with the same parameter types. No index before it has one. |
| Duplicates.TripleCollisionReportedOnce | libsolidity/analysis/ContractLevelChecker.cpp:103-125 | Three declarations with equal parameter types give one report, at the first, pointing to the other two. |
| Duplicates.LaterDuplicateGroupUnreported | libsolidity/analysis/ContractLevelChecker.cpp:103 | For the bucket f(uint), f(bool), f(uint), f(string), f(string), the code as written makes one report. The intended scan makes two; its second is at the first f(string). |
| Duplicates.CounterexampleShape | libsolidity/analysis/ContractLevelChecker.cpp:103 | In that bucket, index 2 is the first index with an earlier twin; index 4 has one too and index 3 does not. |
| Duplicates.CounterexampleReports | libsolidity/analysis/ContractLevelChecker.cpp:116-125 | In that bucket, declarations 0 and 3 have later twins and declaration 1 has none. |
| Duplicates.IntendedReportsNameEveryDuplicate | libsolidity/analysis/ContractLevelChecker.cpp:99-127 | In the corrected scan, every declaration k that has a twin is reported, or is a secondary location of a report. That report is at the first declaration with k's parameter types: no earlier declaration has them. |
| Duplicates.IntendedContains | libsolidity/analysis/ContractLevelChecker.cpp:103-125 | The corrected scan contains every report of an index it has not yet marked. |
| Duplicates.IntendedBeforeFirstRepeat | libsolidity/analysis/ContractLevelChecker.cpp:103 | Up to the first index with an earlier twin, the corrected scan and the scan as written agree. |
| Duplicates.AsWrittenIsPrefixOfIntended | libsolidity/analysis/ContractLevelChecker.cpp:103 | The reports of the code as written are a prefix of the corrected scan's reports. |
| Checker.ContractLevelChecker.CheckIllegalOverrides | libsolidity/analysis/ContractLevelChecker.cpp:130-165 | The reporter grows by the override walk's reports. `superFunction` becomes the walk's annotation. |
| Checker.ContractLevelChecker.VisitFunction | libsolidity/analysis/ContractLevelChecker.cpp:140-151 | One function of the walk updates the local maps, the reporter and `superFunction` exactly as one step of the walk. |
| Checker.ContractLevelChecker.CheckAgainstOverriding | libsolidity/analysis/ContractLevelChecker.cpp:148-149 | Checking every overriding function met before against the base function appends their reports in order and writes `superFunction` as `SuperAfter`. |
| Checker.ContractLevelChecker.VisitModifier | libsolidity/analysis/ContractLevelChecker.cpp:153-162 | One modifier of the walk updates the kept modifier and the reporter exactly as one step of the walk. |
| Overrides.NameClashReported | libsolidity/analysis/ContractLevelChecker.cpp:145-161 | When the walk meets a function (not a constructor) and a modifier of the same name, it reports the clash at the first modifier of that name. If the function came first, the message is "modifier to function"; if the modifier came first, it is "function to modifier". |
| Overrides.ModifierSignatureReported | libsolidity/analysis/ContractLevelChecker.cpp:155-159 | The first modifier met under a name, the most derived one, is kept. A later modifier of that name with other parameter types is reported at the kept modifier's location. |
| Overrides.FirstModifierKeptUntil | libsolidity/analysis/ContractLevelChecker.cpp:156-158 | The first modifier met under a name stays the kept modifier for the rest of the walk. |
| Overrides.ModifierReportsHaveCause | libsolidity/analysis/ContractLevelChecker.cpp:140-162 | The converse of the two lemmas above. Every "modifier signature", "function to modifier" or "modifier to function" report of the walk is at the first modifier of some name. It is made only when the walk met, respectively: a later modifier of that name with other parameter types; a later function of that name; or a function of that name followed by a modifier of it. |
| Overrides.WalkReportsOnlyErrors | libsolidity/analysis/ContractLevelChecker.cpp:130-165 | Every report of the walk is an error. |
| Checker.ContractLevelChecker.CheckFunctionOverride | libsolidity/analysis/ContractLevelChecker.cpp:167-200 | The reporter grows by `OverrideDiagnostics`. `superFunction` gains f ↦ super iff f has super's parameter types and no entry yet. |
| Overrides.OverrideDiagnostics | libsolidity/analysis/ContractLevelChecker.cpp:167-200 | There are no reports when the parameter types differ. Otherwise, each of three reports is made iff its condition holds: return types differ; visibility differs other than external to public; mutability differs. No other report is made. There are at most three reports, all type errors at f pointing to the overridden function. |
| Checker.ContractLevelChecker.OverrideError | libsolidity/analysis/ContractLevelChecker.cpp:202-209 | It appends exactly one type error, at the function, with the overridden function as secondary location. |
| Overrides.SuperAfterWritesOnce | libsolidity/analysis/ContractLevelChecker.cpp:177-178 | An existing `superFunction` entry is never overwritten. Each new entry maps a function with g's parameter types to g. Every such function gets an entry. |
| Overrides.SuperFunctionIsNearest | libsolidity/analysis/ContractLevelChecker.cpp:137-151 | A function with no `superFunction` entry before the walk has one after it iff a later function in the linearization has its name and parameter types; the entry is the nearest such function. An entry made earlier is never overwritten, so the entry of a base contract's function depends on which contract was checked first; the model takes the annotation before the walk as the parameter `sf0`. |
| Overrides.SuperFunctionWrittenOnce | libsolidity/analysis/ContractLevelChecker.cpp:177-178 | Entries present before the walk survive unchanged. A new entry belongs to a function of the walk. |
| Overrides.NearestFrom | libsolidity/analysis/ContractLevelChecker.cpp:137-151 | It returns the first later function with the same name and parameter types, or none when there is none. |
| Checker.ContractLevelChecker.CheckAbstractFunctions | libsolidity/analysis/ContractLevelChecker.cpp:211-252 | The reporter grows by the redeclaration reports of the base-to-derived walk. `unimplementedFunctions[c]` grows by one representative per name that has an unimplemented class, in name order. |
| Checker.ContractLevelChecker.GroupOverload | libsolidity/analysis/ContractLevelChecker.cpp:220-239 | One function updates the overload classes and the reporter exactly as one step of the walk. |
| AbstractFunctions.FindClass | libsolidity/analysis/ContractLevelChecker.cpp:227-230 | The result is the first class whose representative has f's parameter types, or the end when there is none. |
| AbstractFunctions.RedeclarationErrorsExact | libsolidity/analysis/ContractLevelChecker.cpp:233-237 | The walk reports exactly `RedeclarationReports`. A function is reported iff it is unimplemented and an earlier function of its name and parameter types is implemented. |
| AbstractFunctions.AbstractFoldInvariant | libsolidity/analysis/ContractLevelChecker.cpp:219-240 | After any prefix of the walk, each name's classes are distinct by parameter types and cover every non-constructor function of that name. Each representative is the first such function. Each flag holds iff some function of the class is implemented. |
| AbstractFunctions.FoldKeepsFlags | libsolidity/analysis/ContractLevelChecker.cpp:231-239 | Further steps never remove a class, never change its representative, and never clear its flag. |
| AbstractFunctions.FoldKeepsWalkOrder | libsolidity/analysis/ContractLevelChecker.cpp:231-232 | The classes of each name are in the order their first functions were walked: a new class is only ever appended. |
| AbstractFunctions.AbstractFoldSorted | libsolidity/analysis/ContractLevelChecker.cpp:216 | The class map stays strictly ascending by name. |
| AbstractFunctions.UnimplementedFunctionsListed | libsolidity/analysis/ContractLevelChecker.cpp:243-251 | Every listed function is the first declaration of an unimplemented class. The list is strictly ascending by name, one per name. Every name with an unimplemented non-constructor function is listed. The function listed for a name is the first one walked, base to derived, whose parameter types no function of that name implements. |
| AbstractFunctions.FirstUnimplemented | libsolidity/analysis/ContractLevelChecker.cpp:244-250 | The result is the first class whose flag is false; all classes before it are implemented. |
| Checker.ContractLevelChecker.ListUnimplemented | libsolidity/analysis/ContractLevelChecker.cpp:243-251 | `unimplementedFunctions[c]` grows by `UnimplementedOf` of the classes; no other annotation changes. |
| Checker.ContractLevelChecker.CheckBaseConstructorArguments | libsolidity/analysis/ContractLevelChecker.cpp:255-299 | The reporter and `baseConstructorArguments[c]` become the argument fold over all sites. `unimplementedFunctions[c]` grows by the base constructors still lacking arguments. |
| Checker.ContractLevelChecker.SupplyFrom | libsolidity/analysis/ContractLevelChecker.cpp:260-290 | Visiting a run of sites leaves the reporter and `baseConstructorArguments[c]` at the fold's result over those sites. |
| Checker.ContractLevelChecker.SupplyAt | libsolidity/analysis/ContractLevelChecker.cpp:264-288 | One site updates the reporter and `baseConstructorArguments[c]` as one step of the fold. |
| BaseConstructors.ModifierSites | libsolidity/analysis/ContractLevelChecker.cpp:262-278 | Each modifier invocation of a constructor becomes one site, in order. |
| BaseConstructors.SpecifierSites | libsolidity/analysis/ContractLevelChecker.cpp:280-289 | Each inheritance specifier becomes one site, in order. |
| BaseConstructors.SiteFoldRecords | libsolidity/analysis/ContractLevelChecker.cpp:260-290 | A base constructor has an entry after the fold iff it had one before or some site supplies it. The entry is the earlier one, or else the first supplying site's node. |
| BaseConstructors.FirstSupplyIsFirst | libsolidity/analysis/ContractLevelChecker.cpp:260-290 | No site before the first supplying site supplies that constructor. |
| BaseConstructors.SiteFoldReports | libsolidity/analysis/ContractLevelChecker.cpp:268-277 | The fold appends exactly `SiteReports`: the missing-argument errors and the given-twice errors, in site order. |
| BaseConstructors.TwiceErrorsCounted | libsolidity/analysis/ContractLevelChecker.cpp:313-339 | The number of "given twice" errors equals the number of supplying sites for constructors that already had an entry. |
| Checker.ContractLevelChecker.ListMissingBaseConstructors | libsolidity/analysis/ContractLevelChecker.cpp:294-298 | `unimplementedFunctions[c]` grows by `MissingBaseConstructors` and nothing else changes. |
| BaseConstructors.MissingBaseConstructorsExact | libsolidity/analysis/ContractLevelChecker.cpp:294-298 | A function is listed iff it is the constructor of a base other than c, takes parameters, and has no argument entry. |
| BaseConstructors.MissingNeedArguments | libsolidity/analysis/ContractLevelChecker.cpp:295-297 | Every listed function is a constructor with parameters and no argument entry. |
| BaseConstructors.MissingAreOfBases | libsolidity/analysis/ContractLevelChecker.cpp:294-296 | Every listed function is the constructor of a contract of the linearization other than c. |
| BaseConstructors.NeedingArgumentsListed | libsolidity/analysis/ContractLevelChecker.cpp:294-298 | Every base constructor other than c's that takes parameters and has no entry is listed. |
| Checker.ContractLevelChecker.AnnotateBaseConstructorArguments | libsolidity/analysis/ContractLevelChecker.cpp:301-342 | The reporter and `baseConstructorArguments[c]` become `Annotate`'s result. No other contract's arguments and no unimplemented list change. |
| BaseConstructors.Annotate | libsolidity/analysis/ContractLevelChecker.cpp:310-340 | A constructor without an entry gets this node, with no report. One with an entry keeps it, and one "given twice" error is appended. |
| BaseConstructors.TwiceError | libsolidity/analysis/ContractLevelChecker.cpp:320-339 | The error is a declaration error with the "given twice" message. If the contract contains either call, it is at the earlier node and points to the new one. Otherwise it is at the contract and points to the new node, then the earlier one. |
| Checker.ContractLevelChecker.CheckConstructor | libsolidity/analysis/ContractLevelChecker.cpp:344-361 | The reporter grows by `ConstructorDiagnostics`. |
| ConstructorCheck.ConstructorDiagnostics | libsolidity/analysis/ContractLevelChecker.cpp:344-361 | There are no reports without a constructor. With one, each of three reports is made iff its condition holds: return parameters, at the return list; a mutability other than payable or non-payable; a visibility other than public or internal. No other report is made. All are type errors, at most three. |
| ConstructorCheck.ConstructorAccepted | libsolidity/analysis/ContractLevelChecker.cpp:350-360 | A constructor passes iff it returns nothing, is payable or non-payable, and is public or internal. |
| Ast.ConstructorOf | libsolidity/analysis/ContractLevelChecker.cpp:346-348 | The result is none iff the contract defines no constructor; otherwise it is the first of its functions that is a constructor. |
| Diagnostics.OnlyWarningsAfterErrors | libsolidity/analysis/ContractLevelChecker.cpp:45 | Appending errors keeps "only warnings" iff nothing was appended and it held before. |
| NameMap.AppendExact | libsolidity/analysis/ContractLevelChecker.cpp:79 | `functions[name].push_back(f)` adds name to the keys and extends its sequence by f. It leaves every other key as it was. |
| NameMap.PutSorted | libsolidity/analysis/ContractLevelChecker.cpp:91 | Inserting into the name map keeps it strictly ascending. |
| NameMap.GetFound | libsolidity/analysis/ContractLevelChecker.cpp:225 | A lookup finds a value iff the name is a key; the value found is that key's entry. |

## Left out

- Message texts are tags of the `Message` datatype. So are the captions of secondary
  locations ("Another declaration is here:" and the others).
- Error identifiers and the reporter's own limits are not modelled.
- `SecondarySourceLocation::limitSize` is left out: no secondary list is truncated.
- `stateMutabilityToString` is left out. The mutability message carries the mutability value.
- `FunctionType::hasEqualParameterTypes` is parameter-type sequence equality, and so is
  `ModifierType` equality.
- `SourceLocation::contains` means the same source and an enclosed interval. `SourceLocation` is not part of this model, and `Ast.Contains` does not single out empty locations (start and end of -1): two empty locations in the same source contain each other here.
- `ContractDefinition::constructor()` is the first function of kind constructor.
- `solAssert`s become well-formedness preconditions (`Ast.WellFormed`). These cover:
  - resolved base and modifier references;
  - non-empty names of ordinary functions;
  - a linearization that starts with the contract itself.
- A modifier invocation that names a modifier, not a contract, is no site.
- An inheritance specifier with an empty argument list supplies nothing.
- Checker.ContractLevelChecker.Check: running `check` twice on one contract is not
  idempotent. Annotations accumulate and nothing clears them. A second run appends the
  unimplemented functions again, and every base constructor argument is then "given twice".
  The model follows the code.
- BaseConstructors.TwiceError: when neither call lies inside the current contract, the
  caption "first constructor call" is attached to the new node and "second" to the earlier
  node. The model keeps this as the code has it.
- The error reporter's other state, the remaining passes of the compiler and the AST
  construction are not part of this model.
- Checker.ContractLevelChecker.ReportDuplicatesIn and the methods above it keep the code's
  outer loop as written (see Findings). The corrected scan is proved separately and is not
  wired into the checker.

## Findings

| source | as written | input that shows it | evidently intended | confidence | as-written member | corrected member |
|---|---|---|---|---|---|---|
| libsolidity/analysis/ContractLevelChecker.cpp:103 | The outer loop's condition `!reported.count(i)` ends the scan of a bucket at the first index already named as a duplicate. Every later group of duplicates in that bucket goes unreported. | A contract declaring `f(uint)`, `f(bool)`, `f(uint)`, `f(string)`, `f(string)`: one report, at the first `f(uint)`; the two `f(string)` are never reported. | Skip indices already reported and go on scanning, so each group of equal overloads is reported once, at its first member. | not executed | Duplicates.LaterDuplicateGroupUnreported | Duplicates.IntendedReportsNameEveryDuplicate |
