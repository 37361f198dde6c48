# NLite interception registration and property tags, in Dafny

This project models two parts of the NLite library.

**The AOP listener** (`NLite/Mini/ComponentListener/AopListener.cs`) runs once
for every component the container registers. It works in four steps:

- It reads the interceptor markers on the implementation type and on its
  public or protected methods, and registers at most one aspect. The aspect
  has a type-level pointcut (`Deep = 3`) and one method-level pointcut per
  marked method.
- It selects the aspects that apply to the type and de-duplicates their
  pointcuts. It builds one interceptor factory per distinct advice type, and
  enumerates the join points over the type's methods united with its
  contracts' methods.
- It fills the interceptor list of each matched method, but only when that
  list is still empty.
- It writes the `interceptors`, `methods` and `proxy` entries of the
  component's property bag.

**The `${property:...}` tag provider** (`NLite/Internal/TagFormatProvider.cs`)
has a `Format` routine. It cuts a default value off at the last `??`, then
follows a `/`-separated path through nested property sets. The model also
covers the constant `Tag` and `SupportColon` getters of all the providers.

Files:

- `seqs.dfy` (module `Seqs`): `Option`, `Result`, and the LINQ operators the
  listener uses: `Distinct`, `Union` and `Where` (`Filter`; `FilterInOrder`
  proves that it keeps the order, its result being a `Subsequence` of its input).
- `interception.dfy` (module `Interception`): reflection data as plain values
  (types, methods, access levels, markers), plus the aspect, pointcut and
  signature records.
- `aop_listener.dfy` (module `Aop`): the selection queries as functions.
  - The listener is a class `AopListener` with three fields: the aspect
    repository (`aspects`), the interceptor repository (`interceptors`, one
    list per method) and a pointcut-identity counter.
  - `ComponentInfo` is a class whose property bag the listener updates.
  - Registration is imperative: nested loops append to the method's list
    after an early-return guard. Each method is proved against a
    specification function (`BuildAspect`, `Register`, `RegisterAll`,
    `Annotate`, `MatchedRepository`), and the lemmas state what the program
    promises about those functions. The queries of `HasMatch` are the
    function `Analyze`, whose result `PlanContents` and `HasMatchExactly`
    characterise.
- `tag_format.dfy` (module `TagFormat`): the providers' constants, the store
  as a nested map, the string searches, and the key grammar with its
  round-trip lemmas. It has two versions of `Format`:
  - `Format` is the routine as written;
  - `FormatCorrected` recomputes the position of the next `/` (see Findings).

Modelling choices:

- **Pointcut identity.** The model assumes `PointCutInfo` does not override
  `Equals` (its source is not part of this model), so the `Distinct` at
  AopListener.cs:124 compares by reference: it removes the same object seen
  twice, not equal contents. The model therefore gives every pointcut an `id` taken from
  a counter. `AopListener.Valid` is `WellFormed`: every pointcut in the
  repository names an advice and has an identity below the counter, and no
  two pointcuts of the repository share an identity, so pointcuts built by
  different registrations never compare equal. `CheckAndRegisterAspect`
  keeps this (`RegisterKeepsWellFormed`), and over such a repository the
  `Distinct` of line 124 removes nothing (`SelectionRemovesNothing`).
- **Method identity.** A reflected method is the same `MethodInfo` only when
  everything agrees: the declaring type, the reflected type (the type whose
  `GetMethods()` reported it), the name, the number of generic parameters,
  the return type, the parameter types, the access and the markers. Two
  methods one type reports differ in at least one of these, since overloads
  differ in their parameters or their generic arity (`F()` and `F<T>()` are
  two methods, two repository keys and two `methods` entries). As in .NET
  reflection, a class method and the interface method it implements are
  different values, so the union at AopListener.cs:150 does not merge them;
  and a method two classes inherit from one base is a different value for
  each of them (`ReflectedMethodsDisjoint`), so each class's copy gets its
  own chain from `InterceptorRepository.Get` at AopListener.cs:174, and a
  `HasMatch` for one type leaves the other type's lists alone
  (`OtherTypesKeepChains`).
- **No write when nothing matches.** When `HasMatch` fails, nothing is
  written: the code never stores `proxy = false`.
- **Abstract matchers.** The bodies of `AspectMatcher.Match` and
  `JoinPointMatcher.Match` are not part of this model. They stand as
  `MatchAspects` and `JoinPointMatch`: order-preserving filters over a
  selector and a signature test, held as the `accepts` and `matches`
  constants of the listener. The test depends on a pointcut's signature, not
  on its identity.
- **Interceptor repository.** `InterceptorRepository.Get` is modelled as
  returning the method's stored list, or a new empty list that is then
  stored. Appending to `temps` therefore fills the repository.
- **Factories.** The advice dictionary stores factories
  (`() => Activator.CreateInstance(t)`), not interceptor instances. Its
  values are `Option<Factory>`, so that the `!= null` test at
  AopListener.cs:183 can be stated. The dictionary that `HasMatch` builds
  holds only `Some` values.

## Model

| member | source | states |
|---|---|---|
| Aop.InterceptableMethods | NLite/Mini/ComponentListener/AopListener.cs:73-75 | keeps exactly the public or protected methods that carry a marker; the result is non-empty iff such a method exists |
| Aop.InterceptableMethodsInOrder | NLite/Mini/ComponentListener/AopListener.cs:73-75 | the interceptable methods keep their reflection order and multiplicity: the result is a subsequence of the type's methods, holding each interceptable method as often as the type reports it |
| Aop.MethodPointCuts | NLite/Mini/ComponentListener/AopListener.cs:73-87 | one pointcut per interceptable method, in declaration order; each records the method's name, return type and parameter types with `Flags = Method` and `Access = All`, takes the method's (non-empty) markers as advices, and has the next identity |
| Aop.TypeLevelPointCuts | NLite/Mini/ComponentListener/AopListener.cs:57-71 | one type-level pointcut when the type carries markers, none otherwise |
| Aop.BuildAspect | NLite/Mini/ComponentListener/AopListener.cs:54-104 | an aspect exists iff the type carries markers or some method is interceptable; it targets the single type exactly when the type itself carries markers, and has no target otherwise |
| Aop.TypeLevelPointCut | NLite/Mini/ComponentListener/AopListener.cs:56-71 | a marked type gets exactly one type-level pointcut (`Deep = 3` and nothing else set), first in its aspect, with all the type's markers in order as advices; an unmarked type gets none |
| Aop.MethodLevelPointCuts | NLite/Mini/ComponentListener/AopListener.cs:73-98 | after it come the method-level pointcuts, one per interceptable method in declaration order, each with that method's signature and markers |
| Aop.FreshPointCuts | NLite/Mini/ComponentListener/AopListener.cs:61-98 | every pointcut of the aspect names an advice, its identity lies in the range reserved for this registration, and no two of them share an identity |
| Aop.PointCutAdvices | NLite/Mini/ComponentListener/AopListener.cs:56-87 | no pointcut is created with an empty advice list |
| Aop.PointCutIdentities | NLite/Mini/ComponentListener/AopListener.cs:61-98 | the pointcuts of the aspect are distinct new objects with consecutive identities |
| Aop.AopListener.constructor | NLite/Mini/ComponentListener/AopListener.cs:28-30 | the listener starts with empty aspect and interceptor repositories |
| Aop.AopListener.CollectAspect | NLite/Mini/ComponentListener/AopListener.cs:54-99 | building the aspect with `AddPointCut` one pointcut at a time yields `BuildAspect` |
| Aop.AopListener.CheckAndRegisterAspect | NLite/Mini/ComponentListener/AopListener.cs:52-105 | appends exactly the aspect `BuildAspect` yields (or nothing when there is none), advances the counter past the identities reserved for it, and keeps the repository well formed |
| Aop.RegisterKeepsWellFormed | NLite/Mini/ComponentListener/AopListener.cs:52-105 | registering the built aspect and advancing the counter keeps every repository pointcut naming an advice, every identity below the counter, and no identity shared |
| Aop.AppendKeepsWellFormed | NLite/Mini/ComponentListener/AopListener.cs:52-105 | appending the aspect, if any, whose pointcuts name advices and carry distinct identities from the counter up to the new counter keeps the repository well formed |
| Aop.BuildAspectShape | NLite/Mini/ComponentListener/AopListener.cs:54-104 | the aspect built for a type differs from one built at another counter position only in its identities: same existence, target, signatures and advices |
| Seqs.Distinct | NLite/Mini/ComponentListener/AopListener.cs:124 | LINQ `Distinct`: the same elements, none twice, no longer than the input |
| Seqs.Union | NLite/Mini/ComponentListener/AopListener.cs:150 | LINQ `Union`: the elements of either side, none twice |
| Seqs.Filter | NLite/Mini/ComponentListener/AopListener.cs:73 | LINQ `Where`: keeps exactly the elements satisfying the predicate, and no more elements than there were |
| Seqs.FilterInOrder | NLite/Mini/ComponentListener/AopListener.cs:73 | the filter keeps the order of the kept elements: its result is a subsequence of its input |
| Seqs.FilterMultiplicity | NLite/Mini/ComponentListener/AopListener.cs:73 | the filter keeps each element satisfying the predicate as often as it occurs in the input, and no other |
| Aop.AllPointCuts | NLite/Mini/ComponentListener/AopListener.cs:121-123 | holds exactly the pointcuts of the matched aspects |
| Aop.MatchAspects | NLite/Mini/ComponentListener/AopListener.cs:116 | stands for `AspectMatcher.Match`: exactly the repository aspects whose target selector accepts the type |
| Aop.MatchAspectsInOrder | NLite/Mini/ComponentListener/AopListener.cs:116 | the matched aspects keep their repository order (a subsequence of the repository) |
| Aop.MatchedUniqueIds | NLite/Mini/ComponentListener/AopListener.cs:116-123 | the pointcuts of the accepted aspects keep unique identities |
| Aop.SelectionRemovesNothing | NLite/Mini/ComponentListener/AopListener.cs:121-125 | over a well-formed repository the `Distinct` removes nothing: the selected pointcuts are all pointcuts of the matched aspects, in order |
| Aop.SelectPointCuts | NLite/Mini/ComponentListener/AopListener.cs:121-125 | the pointcuts of the matched aspects, each object once |
| Aop.Advices | NLite/Mini/ComponentListener/AopListener.cs:133-135 | holds exactly the advice types the pointcuts reference |
| Aop.AdviceTypes | NLite/Mini/ComponentListener/AopListener.cs:131-135 | the distinct advice types the pointcuts reference: the dictionary's keys |
| Aop.ContractMethods | NLite/Mini/ComponentListener/AopListener.cs:150 | holds exactly the methods of the contracts |
| Aop.Candidates | NLite/Mini/ComponentListener/AopListener.cs:150 | the candidates are the type's methods and the contracts' methods, each considered once |
| Interception.ReflectedMethodsDisjoint | NLite/Mini/ComponentListener/AopListener.cs:150 | two differently named types, each listing only the methods its own reflection reports, share no `MethodInfo`, inherited methods included |
| Aop.JoinPointMatch | NLite/Mini/ComponentListener/AopListener.cs:147-152 | stands for `JoinPointMatcher.Match`: exactly the selected pointcuts whose signature the test accepts for the method |
| Aop.JoinPointMatchInOrder | NLite/Mini/ComponentListener/AopListener.cs:147-152 | the matched pointcuts keep their order (a subsequence of the selected pointcuts) |
| Aop.JoinPoints | NLite/Mini/ComponentListener/AopListener.cs:150-155 | every join point holds a candidate and exactly the pointcuts matching it; a method occurs iff it is a candidate some pointcut matches |
| Aop.BlockShape | NLite/Mini/ComponentListener/AopListener.cs:150-154 | the query yields the same pair for each pointcut of a matched candidate, and nothing for an unmatched one |
| Aop.JoinPointMultiplicity | NLite/Mini/ComponentListener/AopListener.cs:150-155 | because `from pointCut` is unused, a matched candidate occurs once per selected pointcut and an unmatched method not at all |
| Aop.BlockMultiplicity | NLite/Mini/ComponentListener/AopListener.cs:151-154 | one candidate contributes `|pointCuts|` join points when matched, none otherwise |
| Aop.PlanContents | NLite/Mini/ComponentListener/AopListener.cs:110-158 | a plan holds the pointcuts of the accepted aspects, each once; the advices they name, each once; and join points pairing each matched candidate with exactly the pointcuts matching it |
| Aop.HasMatchExactly | NLite/Mini/ComponentListener/AopListener.cs:110-158 | `HasMatch` succeeds iff some selected pointcut names an advice and some candidate is matched by a selected pointcut; the other early exits are subsumed by these two |
| Aop.AdviceMapNonEmpty | NLite/Mini/ComponentListener/AopListener.cs:131-145 | the advice dictionary is empty iff no selected pointcut names an advice |
| Aop.AdviceMapSize | NLite/Mini/ComponentListener/AopListener.cs:142-145 | the dictionary is non-empty iff there is a distinct advice type |
| Aop.JoinPointsNonEmpty | NLite/Mini/ComponentListener/AopListener.cs:150-158 | there are join points iff some candidate is matched by some pointcut |
| Aop.AdviceLookupNeverFails | NLite/Mini/ComponentListener/AopListener.cs:182 | every advice of every matched pointcut is a key of the dictionary built at lines 131-142, so `interceptorMap[advice]` never fails |
| Aop.InterceptorsEntry | NLite/Mini/ComponentListener/AopListener.cs:131-164 | one factory per distinct advice type, keyed by exactly the referenced types and creating that type; the `interceptors` entry lists each factory once |
| Aop.MethodsEntry | NLite/Mini/ComponentListener/AopListener.cs:165 | the `methods` entry lists every matched candidate once and nothing else |
| Aop.AopListener.RegisterInterceptors | NLite/Mini/ComponentListener/AopListener.cs:170-186 | leaves a non-empty list untouched; otherwise stores the factories of the advices in pointcut order, then advice order, skipping null entries |
| Aop.LookupAfterRegister | NLite/Mini/ComponentListener/AopListener.cs:174-185 | one registration attempt changes at most the attempted method's list, and only when that list was empty |
| Aop.AdviceChainOfAdviceMap | NLite/Mini/ComponentListener/AopListener.cs:180-185 | with the dictionary `HasMatch` builds, the inner loop skips nothing: one factory per advice, in order |
| Aop.ChainOfAdviceMap | NLite/Mini/ComponentListener/AopListener.cs:179-185 | both loops together append the factory of every advice of the pointcuts, in pointcut order then advice order |
| Aop.AopListener.RegisterJoinPoints | NLite/Mini/ComponentListener/AopListener.cs:161-162 | registers the join points in order; the result is `RegisterAll` of them |
| Aop.RegisterAllAt | NLite/Mini/ComponentListener/AopListener.cs:161-162 | when all join points of a method carry the same chain, the method ends with its old list if that was non-empty, else that chain; methods without join points are untouched |
| Aop.ChainsAreWriteOnce | NLite/Mini/ComponentListener/AopListener.cs:174-177 | a non-empty list survives any sequence of registrations unchanged |
| Aop.RegisteredChains | NLite/Mini/ComponentListener/AopListener.cs:150-162 | although a matched method occurs once per pointcut, it gets a single chain: the one of exactly the pointcuts matching it |
| Aop.RegistrationIdempotent | NLite/Mini/ComponentListener/AopListener.cs:174-177 | registering the same join points twice leaves every list as after the first time |
| Aop.RegisterAllKeeps | NLite/Mini/ComponentListener/AopListener.cs:174-177 | registering join points whose methods all have a non-empty list changes nothing |
| Aop.ChainsKeptChangesNothing | NLite/Mini/ComponentListener/AopListener.cs:147-185 | a `HasMatch` whose every join point's method already has a non-empty list leaves the interceptor repository unchanged |
| Aop.MatchedHasChain | NLite/Mini/ComponentListener/AopListener.cs:147-185 | a candidate matched by a selected pointcut that names an advice ends `HasMatch` with a non-empty list |
| Aop.MatchedRepositoryAt | NLite/Mini/ComponentListener/AopListener.cs:147-185 | after a `HasMatch` that found a plan, a matched candidate without a list gets the factories of its matching pointcuts and every other method keeps its list |
| Aop.OtherTypesKeepChains | NLite/Mini/ComponentListener/AopListener.cs:150-177 | a `HasMatch` for one type leaves the list of every method another type reports under its own name untouched, inherited methods included, since such a method is not among the candidates of line 150 |
| Aop.MatchedChainNonEmpty | NLite/Mini/ComponentListener/AopListener.cs:147-185 | when a plan exists, a candidate whose matched pointcuts name an advice ends `HasMatch` with a non-empty list |
| Aop.RepeatedPointCut | NLite/Mini/ComponentListener/AopListener.cs:42-124 | a pointcut selected after the same type registers its aspect again has a twin with the same signature and an advice among the pointcuts selected the first time |
| Aop.SecondRegistrationChangesNothing | NLite/Mini/ComponentListener/AopListener.cs:42-48 | over a well-formed repository, a second `OnMetadataRegistered` of the same component leaves the interceptor repository exactly as the first left it, although it registers a second aspect with new pointcuts |
| Aop.MatchedMethodChain | NLite/Mini/ComponentListener/AopListener.cs:147-185 | after a successful match, a matched candidate without a list gets the factories of the advices of its matching pointcuts; every other method keeps its list |
| Aop.AopListener.ApplyPlan | NLite/Mini/ComponentListener/AopListener.cs:161-165 | fills the chains of all join points and writes the `interceptors` and `methods` entries |
| Aop.Annotate | NLite/Mini/ComponentListener/AopListener.cs:164-165 | the property bag gains the `interceptors` entry (the distinct factories of the advice types) and the `methods` entry (the distinct join-point methods), and keeps every other entry unchanged |
| Aop.AnnotateEntries | NLite/Mini/ComponentListener/AopListener.cs:164-165 | the `interceptors` entry holds one factory for each advice type of the plan, each once; the `methods` entry holds the method of each join point, each once |
| Aop.AopListener.HasMatch | NLite/Mini/ComponentListener/AopListener.cs:108-168 | returns true iff `Analyze` finds a plan; on false it writes neither the interceptor repository nor the property bag; on true it registers the plan's join points and annotates the bag; either way the repository is `MatchedRepository` |
| Aop.AopListener.OnMetadataRegistered | NLite/Mini/ComponentListener/AopListener.cs:42-48 | registers the aspect and advances the counter, then sets `proxy = true` together with the `HasMatch` writes exactly when there is a match; writes nothing else; keeps the repository well formed |
| TagFormat.Tag | NLite/Internal/TagFormatProvider.cs:10-112 | every provider's tag is non-empty; only the two date providers answer to `DATE` |
| TagFormat.SupportColon | NLite/Internal/TagFormatProvider.cs:10-111 | only the date-with-colon, environment-variable and property providers take an argument |
| TagFormat.ProviderConstants | NLite/Internal/TagFormatProvider.cs:10-112 | the property provider is `PROPERTY` with colon support; the two `DATE` providers differ only in colon support |
| TagFormat.TagAndColonIdentifyProvider | NLite/Internal/TagFormatProvider.cs:10-112 | the tag together with the colon flag identifies exactly one provider |
| TagFormat.LastIndexOfPair | NLite/Internal/TagFormatProvider.cs:117 | the position of the last `??`, or -1 when there is none |
| TagFormat.IndexOfSlash | NLite/Internal/TagFormatProvider.cs:123 | the position of the first `/`, or -1 when there is none |
| TagFormat.FirstSlash | NLite/Internal/TagFormatProvider.cs:123 | a `/` with none before it is the one found |
| TagFormat.SplitDefault | NLite/Internal/TagFormatProvider.cs:116-122 | the first statements of `Format`: with a `??`, key, `??` and default give the text back; without one, the key is the whole text and the default is empty; the default never holds a `??` |
| TagFormat.DefaultSplit | NLite/Internal/TagFormatProvider.cs:116-122 | with a `??`, the key, `??` and the default give the text back, and the default holds no `??`; without one, the key is the whole text and the default is empty |
| TagFormat.DefaultDoesNotNavigate | NLite/Internal/TagFormatProvider.cs:117-123 | whatever follows the last `??`, `/` included, is exactly the default, and the path is the text before it |
| TagFormat.SplitSegments | NLite/Internal/TagFormatProvider.cs:123-133 | no path segment contains a `/` |
| TagFormat.JoinSplit | NLite/Internal/TagFormatProvider.cs:123-133 | joining the segments with `/` gives the path back |
| TagFormat.SplitJoin | NLite/Internal/TagFormatProvider.cs:123-133 | splitting `/`-free segments joined with `/` gives the segments back |
| TagFormat.SplitAfterFirst | NLite/Internal/TagFormatProvider.cs:123-128 | after the first `/` there are at least two more segments when the rest holds a `/`, and exactly the rest otherwise |
| TagFormat.FormatCases | NLite/Internal/TagFormatProvider.cs:123-139 | without `/` the whole key is looked up in the root; with one `/` the second segment is looked up in the set the first names; with more the routine fails |
| TagFormat.ShortPathsAgree | NLite/Internal/TagFormatProvider.cs:123-139 | for a key of one or two segments, the routine as written returns what the full path walk returns |
| TagFormat.NestedPathFails | NLite/Internal/TagFormatProvider.cs:128-133 | for `a/b/c` over a store holding `v` there, the routine as written fails where the path walk returns `v` |
| TagFormat.LookupInEmpty | NLite/Internal/TagFormatProvider.cs:126-134 | in the path walk `Lookup` that the corrected routine computes, every missing step falls back to an empty set, so an empty store yields the default for every key |
| TagFormat.FormatInEmpty | NLite/Internal/TagFormatProvider.cs:114-140 | as written, an empty store yields the default only for a key with at most one `/`; with more the routine fails with the `Substring` error |
| TagFormat.LookupStep | NLite/Internal/TagFormatProvider.cs:129-133 | looking up the first segment and walking the rest of the path is the whole walk |
| TagFormat.Format | NLite/Internal/TagFormatProvider.cs:114-140 | the routine as written computes `FormatAsWritten`: the lookup for up to one `/`, the `Substring` out-of-range error for more |
| TagFormat.FormatCorrected | NLite/Internal/TagFormatProvider.cs:114-140 | with the position of the next `/` recomputed in the loop, the routine walks the whole path (`FormatPath`) |

## Left out

- `AopListener.Init` (AopListener.cs:26-36) is not modelled: it creates the repositories and registers them and `ProxyFactory.Default` with the container. The constructor stands for its three `new` expressions.
- The `null` tests on the repositories and the matcher (AopListener.cs:110-112) are not modelled: with `Init` the fields are never null. Only the test for an empty repository is kept.
- `base.OnMetadataRegistered` (AopListener.cs:49) is a call into the container's base class, which is not part of this model.
- Reflection (`GetAttributes`, `GetMethods`, `GetParameterTypes`, `FullName`) is replaced by the data a type or method carries. `IsPublic`/`IsFamily` become an access field. `GetMethods()` without flags reports only public methods in .NET; the model keeps the source's filter and applies it to whatever method list the type holds.
- `Activator.CreateInstance` (AopListener.cs:140) is not modelled: a factory is represented by the interceptor type it would create.
- The internals of `AspectMatcher`, `JoinPointMatcher` and `InterceptorRepository` are not part of this model. The two matchers are abstract selector and signature tests, and the repository is a map from method to list.
- The date, time, GUID, product-name, SDK-path and environment-variable providers' `Format` (TagFormatProvider.cs:16-85) depend on the clock, randomness and the process environment. Only their `Tag` and `SupportColon` constants are modelled.
- The commented-out `ResourceFormatProvider` (TagFormatProvider.cs:88-103) is not modelled.
- `PropertyManager.Instance.Properties` is passed in as the `root` parameter. `PropertySet.Get` is not part of this model: a lookup returns the stored value when it has the requested kind (text or nested set), and the fallback otherwise. Conversions between kinds are not modelled.
- The `args` parameter of every `Format` is unused by the property provider and is left out. A `null` key string is not modelled.
- For a key with two or more `/`, the routine as written loops, shrinking `str`, until a `Substring` call throws. The model reports the exception as `Err(ArgumentOutOfRange)`; which iteration throws is not modelled.

## Findings

| source | as written | input that shows it | evidently intended | confidence | as-written member | corrected member |
|---|---|---|---|---|---|---|
| NLite/Internal/TagFormatProvider.cs:128-133 | `pos` is computed once before the `while` loop and never recomputed inside it, so for a key with two or more `/` the guard stays true until `Substring` throws `ArgumentOutOfRangeException` | `${property:a/b/c}` over a store where `a` holds a set whose `b` holds a set whose `c` is `v` | recompute `pos = str.IndexOf('/')` at the end of each iteration, so that every segment but the last selects a nested set and the result is `v` | not executed | TagFormat.NestedPathFails | TagFormat.FormatCorrected |
