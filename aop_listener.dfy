/** The AOP registration pass run for every registered component
    (`AopListener` in NLite/Mini/ComponentListener/AopListener.cs).

    The LINQ queries of `CheckAndRegisterAspect` and `HasMatch` are pure
    functions here; the listener itself is a class whose fields are the aspect
    repository, the interceptor repository and the pointcut-identity counter,
    and whose methods update them step by step as the program does. */
module Aop {
  import opened Seqs
  import opened Interception

  // ---------------------------------------------------------------------------
  // Building the aspect of one component type (CheckAndRegisterAspect)
  // ---------------------------------------------------------------------------

  /** The methods of lines 73-75: public or protected, with markers, in order. */
  function InterceptableMethods(ms: seq<MethodInfo>): (r: seq<MethodInfo>)
    ensures forall m :: m in r <==> m in ms && Interceptable(m)
    ensures |r| > 0 <==> exists m :: m in ms && Interceptable(m)
    ensures |r| <= |ms|
  {
    var r := Filter(Interceptable, ms);
    assert |r| > 0 ==> r[0] in r;
    r
  }

  /** The interceptable methods keep their declaration order, each as often
      as reflection reports it. */
  lemma InterceptableMethodsInOrder(ms: seq<MethodInfo>)
    ensures Subsequence(InterceptableMethods(ms), ms)
    ensures forall m :: multiset(InterceptableMethods(ms))[m] == if Interceptable(m) then multiset(ms)[m] else 0
  {
    FilterInOrder(Interceptable, ms);
    FilterMultiplicity(Interceptable, ms);
  }

  /** The method-level pointcuts, one per interceptable method in reflection
      order, with identities `firstId`, `firstId + 1`, ... */
  function MethodPointCuts(t: TypeInfo, firstId: nat): (r: seq<PointCut>)
    ensures |r| == |InterceptableMethods(t.methods)|
    ensures forall i :: 0 <= i < |r| ==>
      var m := InterceptableMethods(t.methods)[i];
      r[i] == PointCut(firstId + i, MethodLevelSignature(m), m.markers) && |m.markers| > 0
  {
    var ms := InterceptableMethods(t.methods);
    assert forall k :: 0 <= k < |ms| ==> Interceptable(ms[k]) by {
      forall k | 0 <= k < |ms| ensures Interceptable(ms[k]) { assert ms[k] in ms; }
    }
    var r := seq(|ms|, k requires 0 <= k < |ms| => PointCut(firstId + k, MethodLevelSignature(ms[k]), ms[k].markers));
    assert forall k :: 0 <= k < |ms| ==> r[k] == PointCut(firstId + k, MethodLevelSignature(ms[k]), ms[k].markers);
    r
  }

  /** The type-level pointcut: one with identity `firstId` when the type
      itself carries markers, none otherwise. */
  function TypeLevelPointCuts(t: TypeInfo, firstId: nat): (r: seq<PointCut>)
    ensures |r| == TypeLevelCount(t)
  {
    if |t.markers| > 0 then [PointCut(firstId, TypeLevelSignature(), t.markers)] else []
  }

  /** The aspect `CheckAndRegisterAspect` registers for `t`, if any.  The
      type-level pointcut gets identity `firstId`, the method-level ones the
      identities after it. */
  function BuildAspect(t: TypeInfo, firstId: nat): (r: Option<Aspect>)
    // an aspect exists exactly when there is a type-level or a method-level declaration
    ensures r.Some? <==> |t.markers| > 0 || exists m :: m in t.methods && Interceptable(m)
    // it targets the type only when the type itself carries markers
    ensures r.Some? ==>
      r.value.targetType == if |t.markers| > 0 then Some(SingleTargetType(t.fullName)) else None
  {
    var typeLevel := TypeLevelPointCuts(t, firstId);
    var methodLevel := MethodPointCuts(t, firstId + 1);
    if |typeLevel| == 0 && |methodLevel| == 0 then None
    else
      var target := if |t.markers| > 0 then Some(SingleTargetType(t.fullName)) else None;
      Some(Aspect(target, typeLevel + methodLevel))
  }

  /** The offset of the first method-level pointcut in the aspect. */
  function TypeLevelCount(t: TypeInfo): nat {
    if |t.markers| > 0 then 1 else 0
  }

  /** A marked type gets exactly one type-level pointcut, first in its
      aspect, with `Deep = 3` and all the type's markers as advices; an
      unmarked type gets none. */
  lemma TypeLevelPointCut(t: TypeInfo, firstId: nat)
    requires BuildAspect(t, firstId).Some?
    ensures var pcs := BuildAspect(t, firstId).value.pointCuts;
      (forall i :: 0 <= i < |pcs| ==> (pcs[i].signature == TypeLevelSignature() <==> i == 0 && |t.markers| > 0)) &&
      (|t.markers| > 0 ==> |pcs| > 0 && pcs[0].advices == t.markers)
  {
    var pcs := BuildAspect(t, firstId).value.pointCuts;
    var typeLevel := TypeLevelPointCuts(t, firstId);
    var methodLevel := MethodPointCuts(t, firstId + 1);
    AspectPointCuts(t, firstId);
    forall i | 0 <= i < |pcs|
      ensures pcs[i].signature == TypeLevelSignature() <==> i == 0 && |t.markers| > 0
    {
      if i < |typeLevel| {
        assert pcs[i] == typeLevel[i];
      } else {
        assert pcs[i] == methodLevel[i - |typeLevel|];
      }
    }
  }

  /** After it, one method-level pointcut per public or protected marked
      method, in declaration order, recording the method's name, return type
      and parameter types with `Flags = Method` and `Access = All`. */
  lemma MethodLevelPointCuts(t: TypeInfo, firstId: nat)
    requires BuildAspect(t, firstId).Some?
    ensures var pcs := BuildAspect(t, firstId).value.pointCuts;
      var off := TypeLevelCount(t);
      var ms := InterceptableMethods(t.methods);
      |pcs| == off + |ms| &&
      forall k :: 0 <= k < |ms| ==>
        pcs[off + k].signature == MethodLevelSignature(ms[k]) && pcs[off + k].advices == ms[k].markers
  {
    var pcs := BuildAspect(t, firstId).value.pointCuts;
    var ms := InterceptableMethods(t.methods);
    var typeLevel := TypeLevelPointCuts(t, firstId);
    var methodLevel := MethodPointCuts(t, firstId + 1);
    AspectPointCuts(t, firstId);
    assert pcs == typeLevel + methodLevel;
    forall k | 0 <= k < |ms|
      ensures pcs[|typeLevel| + k] == methodLevel[k]
    {
    }
  }

  /** The aspect's pointcuts: the type-level one, if any, then the method-level ones. */
  lemma AspectPointCuts(t: TypeInfo, firstId: nat)
    requires BuildAspect(t, firstId).Some?
    ensures BuildAspect(t, firstId).value.pointCuts == TypeLevelPointCuts(t, firstId) + MethodPointCuts(t, firstId + 1)
  {
  }

  /** Every pointcut of the aspect names at least one advice and is a new
      object: its identity is in the range the registration reserves, and no
      two of them share one. */
  lemma FreshPointCuts(t: TypeInfo, firstId: nat)
    requires BuildAspect(t, firstId).Some?
    ensures var pcs := BuildAspect(t, firstId).value.pointCuts;
      (forall p :: p in pcs ==> |p.advices| > 0) &&
      (forall i :: 0 <= i < |pcs| ==> firstId <= pcs[i].id < firstId + 1 + |t.methods|) &&
      (forall i, j :: 0 <= i < j < |pcs| ==> pcs[i].id != pcs[j].id)
  {
    var pcs := BuildAspect(t, firstId).value.pointCuts;
    var off := TypeLevelCount(t);
    PointCutIdentities(t, firstId);
    assert forall i :: 0 <= i < |pcs| ==> firstId <= pcs[i].id < firstId + 1 + |t.methods|;
    forall i, j | 0 <= i < j < |pcs| ensures pcs[i].id != pcs[j].id {
      assert pcs[i].id == firstId + 1 - off + i;
      assert pcs[j].id == firstId + 1 - off + j;
    }
    PointCutAdvices(t, firstId);
  }

  lemma PointCutAdvices(t: TypeInfo, firstId: nat)
    requires BuildAspect(t, firstId).Some?
    ensures forall p :: p in BuildAspect(t, firstId).value.pointCuts ==> |p.advices| > 0
  {
    var pcs := BuildAspect(t, firstId).value.pointCuts;
    var typeLevel := TypeLevelPointCuts(t, firstId);
    var methodLevel := MethodPointCuts(t, firstId + 1);
    assert pcs == typeLevel + methodLevel;
    forall p | p in methodLevel ensures |p.advices| > 0 {
      var i :| 0 <= i < |methodLevel| && methodLevel[i] == p;
    }
  }

  /** The identities of the aspect's pointcuts are consecutive. */
  lemma PointCutIdentities(t: TypeInfo, firstId: nat)
    requires BuildAspect(t, firstId).Some?
    ensures var pcs := BuildAspect(t, firstId).value.pointCuts;
      var off := TypeLevelCount(t);
      |pcs| <= off + |t.methods| &&
      forall i :: 0 <= i < |pcs| ==> pcs[i].id == firstId + 1 - off + i
  {
    var pcs := BuildAspect(t, firstId).value.pointCuts;
    var off := TypeLevelCount(t);
    var typeLevel := TypeLevelPointCuts(t, firstId);
    var methodLevel := MethodPointCuts(t, firstId + 1);
    assert pcs == typeLevel + methodLevel;
    forall i | 0 <= i < |pcs| ensures pcs[i].id == firstId + 1 - off + i {
      if i < off {
        assert pcs[i] == typeLevel[i];
      } else {
        assert pcs[i] == methodLevel[i - off];
      }
    }
  }

  /** The aspects to append to the repository: none or one. */
  function AsSeq(a: Option<Aspect>): seq<Aspect> {
    if a.Some? then [a.value] else []
  }

  // ---------------------------------------------------------------------------
  // Selecting the pointcuts, advices and join points of a type (HasMatch)
  // ---------------------------------------------------------------------------

  /** `AspectMatcher.Match`: the repository aspects, in order, whose target
      selector accepts `t`.  The selector is not part of this model. */
  function MatchAspects(t: TypeInfo, aspects: seq<Aspect>, accepts: (Option<TargetType>, TypeInfo) -> bool): (r: seq<Aspect>)
    ensures forall a :: a in r <==> a in aspects && accepts(a.targetType, t)
  {
    Filter((a: Aspect) => accepts(a.targetType, t), aspects)
  }

  /** The matched aspects keep their repository order. */
  lemma MatchAspectsInOrder(t: TypeInfo, aspects: seq<Aspect>, accepts: (Option<TargetType>, TypeInfo) -> bool)
    ensures Subsequence(MatchAspects(t, aspects, accepts), aspects)
  {
    FilterInOrder((a: Aspect) => accepts(a.targetType, t), aspects);
  }

  /** All pointcuts of the aspects, aspect by aspect (lines 121-123). */
  function AllPointCuts(aspects: seq<Aspect>): (r: seq<PointCut>)
    ensures forall p :: p in r <==> exists a :: a in aspects && p in a.pointCuts
  {
    if aspects == [] then []
    else
      var init := aspects[..|aspects| - 1];
      var last := aspects[|aspects| - 1];
      assert aspects == init + [last];
      AllPointCuts(init) + last.pointCuts
  }

  /** The pointcuts of the matched aspects with repeated objects removed. */
  function SelectPointCuts(aspects: seq<Aspect>): (r: seq<PointCut>)
    ensures NoDups(r)
    ensures forall p :: p in r <==> exists a :: a in aspects && p in a.pointCuts
  {
    Distinct(AllPointCuts(aspects))
  }

  /** Every advice referenced by the pointcuts, pointcut by pointcut (lines 133-134). */
  function Advices(pointCuts: seq<PointCut>): (r: seq<Advice>)
    ensures forall a :: a in r <==> exists p :: p in pointCuts && a in p.advices
  {
    if pointCuts == [] then []
    else
      var init := pointCuts[..|pointCuts| - 1];
      var last := pointCuts[|pointCuts| - 1];
      assert pointCuts == init + [last];
      Advices(init) + last.advices
  }

  /** The distinct advice types: the keys of the advice dictionary. */
  function AdviceTypes(pointCuts: seq<PointCut>): (r: seq<Advice>)
    ensures NoDups(r)
    ensures forall a :: a in r <==> exists p :: p in pointCuts && a in p.advices
  {
    Distinct(Advices(pointCuts))
  }

  /** The advice dictionary: one factory per distinct advice type.  The
      factories are never null, so every value is `Some`. */
  function AdviceMap(types: seq<Advice>): map<Advice, Option<Factory>> {
    map a | a in types :: Some(Factory(a))
  }

  /** All methods of the contracts, contract by contract. */
  function ContractMethods(contracts: seq<TypeInfo>): (r: seq<MethodInfo>)
    ensures forall m :: m in r <==> exists c :: c in contracts && m in c.methods
  {
    if contracts == [] then []
    else
      var init := contracts[..|contracts| - 1];
      var last := contracts[|contracts| - 1];
      assert contracts == init + [last];
      ContractMethods(init) + last.methods
  }

  /** The candidate methods: the type's methods united with the distinct
      methods of all its contracts. */
  function Candidates(t: TypeInfo, contracts: seq<TypeInfo>): (r: seq<MethodInfo>)
    ensures NoDups(r)
    ensures forall m :: m in r <==> m in t.methods || exists c :: c in contracts && m in c.methods
  {
    Union(t.methods, Distinct(ContractMethods(contracts)))
  }

  /** `JoinPointMatcher.Match`: the pointcuts, in order, whose signature the
      matcher accepts for method `m` of `t`.  The per-signature test is not
      part of this model. */
  function JoinPointMatch(pointCuts: seq<PointCut>, t: TypeInfo, m: MethodInfo,
                          matches: (Signature, TypeInfo, MethodInfo) -> bool): (r: seq<PointCut>)
    ensures forall p :: p in r <==> p in pointCuts && matches(p.signature, t, m)
  {
    Filter((p: PointCut) => matches(p.signature, t, m), pointCuts)
  }

  /** The matched pointcuts keep their order. */
  lemma JoinPointMatchInOrder(pointCuts: seq<PointCut>, t: TypeInfo, m: MethodInfo,
                              matches: (Signature, TypeInfo, MethodInfo) -> bool)
    ensures Subsequence(JoinPointMatch(pointCuts, t, m, matches), pointCuts)
  {
    FilterInOrder((p: PointCut) => matches(p.signature, t, m), pointCuts);
  }

  /** The methods of a sequence of join points. */
  function MethodsOf(js: seq<JoinPoint>): (r: seq<MethodInfo>)
    ensures |r| == |js| && forall i :: 0 <= i < |js| ==> r[i] == js[i].methodInfo
  {
    if js == [] then []
    else MethodsOf(js[..|js| - 1]) + [js[|js| - 1].methodInfo]
  }

  /** The join points of one candidate: the query of lines 150-155 yields the
      pair once for every pointcut, because its `from pointCut` is unused. */
  function Block(m: MethodInfo, pointCuts: seq<PointCut>, t: TypeInfo,
                 matches: (Signature, TypeInfo, MethodInfo) -> bool): seq<JoinPoint> {
    var result := JoinPointMatch(pointCuts, t, m, matches);
    if |result| > 0 then seq(|pointCuts|, _ => JoinPoint(m, result)) else []
  }

  lemma BlockShape(m: MethodInfo, pointCuts: seq<PointCut>, t: TypeInfo,
                   matches: (Signature, TypeInfo, MethodInfo) -> bool)
    ensures var result := JoinPointMatch(pointCuts, t, m, matches);
      (forall jp :: jp in Block(m, pointCuts, t, matches) ==> jp == JoinPoint(m, result) && |result| > 0) &&
      (forall x :: x in MethodsOf(Block(m, pointCuts, t, matches)) <==> x == m && |result| > 0)
  {
    var result := JoinPointMatch(pointCuts, t, m, matches);
    if |result| > 0 {
      assert result[0] in pointCuts;
      assert MethodsOf(Block(m, pointCuts, t, matches))[0] == m;
    }
  }

  lemma MethodsOfConcat(a: seq<JoinPoint>, b: seq<JoinPoint>)
    ensures MethodsOf(a + b) == MethodsOf(a) + MethodsOf(b)
  {
  }

  /** The join-point query over the candidate methods, in candidate order. */
  function JoinPoints(candidates: seq<MethodInfo>, pointCuts: seq<PointCut>, t: TypeInfo,
                      matches: (Signature, TypeInfo, MethodInfo) -> bool): (r: seq<JoinPoint>)
    // every join point holds a candidate and exactly the pointcuts matching it
    ensures forall jp :: jp in r ==>
      jp.methodInfo in candidates && |jp.pointCuts| > 0 &&
      jp.pointCuts == JoinPointMatch(pointCuts, t, jp.methodInfo, matches)
    // a method occurs in it exactly when it is a candidate some pointcut matches
    ensures forall m :: m in MethodsOf(r) <==>
      m in candidates && |JoinPointMatch(pointCuts, t, m, matches)| > 0
  {
    if candidates == [] then []
    else
      var init := candidates[..|candidates| - 1];
      var last := candidates[|candidates| - 1];
      assert candidates == init + [last];
      var front := JoinPoints(init, pointCuts, t, matches);
      var block := Block(last, pointCuts, t, matches);
      BlockShape(last, pointCuts, t, matches);
      MethodsOfConcat(front, block);
      front + block
  }

  /** What a successful `HasMatch` works with. */
  datatype Plan = Plan(pointCuts: seq<PointCut>, adviceTypes: seq<Advice>, joinPoints: seq<JoinPoint>)

  /** The selection part of `HasMatch`: `None` on each of its early `false`
      exits, in the program's order. */
  function Analyze(t: TypeInfo, contracts: seq<TypeInfo>, aspects: seq<Aspect>,
                   accepts: (Option<TargetType>, TypeInfo) -> bool,
                   matches: (Signature, TypeInfo, MethodInfo) -> bool): Option<Plan> {
    if |aspects| == 0 then None
    else
      var matched := MatchAspects(t, aspects, accepts);
      if |matched| == 0 then None
      else
        var pointCuts := SelectPointCuts(matched);
        if |pointCuts| == 0 then None
        else
          var types := AdviceTypes(pointCuts);
          if |AdviceMap(types)| == 0 then None
          else
            var joinPoints := JoinPoints(Candidates(t, contracts), pointCuts, t, matches);
            if |joinPoints| == 0 then None
            else Some(Plan(pointCuts, types, joinPoints))
  }

  // ---------------------------------------------------------------------------
  // Filling interceptor chains (RegisterInteceptors)
  // ---------------------------------------------------------------------------

  /** `InterceptorRepository.Get`: the method's list, empty when it has none. */
  function Lookup(repo: map<MethodInfo, seq<Factory>>, m: MethodInfo): seq<Factory> {
    if m in repo then repo[m] else []
  }

  /** Every advice of every pointcut is a key of the dictionary. */
  predicate Keyed(pointCuts: seq<PointCut>, interceptorMap: map<Advice, Option<Factory>>) {
    forall p :: p in pointCuts ==> forall a :: a in p.advices ==> a in interceptorMap
  }

  /** The factories the inner loop appends for one pointcut's advices. */
  function AdviceChain(advices: seq<Advice>, interceptorMap: map<Advice, Option<Factory>>): seq<Factory>
    requires forall a :: a in advices ==> a in interceptorMap
  {
    if advices == [] then []
    else
      var last := advices[|advices| - 1];
      var f := interceptorMap[last];
      AdviceChain(advices[..|advices| - 1], interceptorMap) + (if f.Some? then [f.value] else [])
  }

  /** The factories both loops append: pointcut order, then advice order,
      skipping null entries. */
  function ChainOf(pointCuts: seq<PointCut>, interceptorMap: map<Advice, Option<Factory>>): seq<Factory>
    requires Keyed(pointCuts, interceptorMap)
  {
    if pointCuts == [] then []
    else
      var last := pointCuts[|pointCuts| - 1];
      ChainOf(pointCuts[..|pointCuts| - 1], interceptorMap) + AdviceChain(last.advices, interceptorMap)
  }

  /** A method's chain after one registration attempt: kept if non-empty. */
  function Settle(current: seq<Factory>, chain: seq<Factory>): seq<Factory> {
    if |current| > 0 then current else chain
  }

  /** The repository after `RegisterInteceptors(jp.methodInfo, jp.pointCuts, map)`. */
  function Register(repo: map<MethodInfo, seq<Factory>>, jp: JoinPoint,
                    interceptorMap: map<Advice, Option<Factory>>): map<MethodInfo, seq<Factory>>
    requires Keyed(jp.pointCuts, interceptorMap)
  {
    if |Lookup(repo, jp.methodInfo)| > 0 then repo
    else repo[jp.methodInfo := ChainOf(jp.pointCuts, interceptorMap)]
  }

  predicate AllKeyed(js: seq<JoinPoint>, interceptorMap: map<Advice, Option<Factory>>) {
    forall jp :: jp in js ==> Keyed(jp.pointCuts, interceptorMap)
  }

  /** The repository after registering every join point in order. */
  function RegisterAll(repo: map<MethodInfo, seq<Factory>>, js: seq<JoinPoint>,
                       interceptorMap: map<Advice, Option<Factory>>): map<MethodInfo, seq<Factory>>
    requires AllKeyed(js, interceptorMap)
  {
    if js == [] then repo
    else
      var init := js[..|js| - 1];
      assert forall jp :: jp in init ==> jp in js;
      Register(RegisterAll(repo, init, interceptorMap), js[|js| - 1], interceptorMap)
  }

  lemma RegisterAllStep(repo: map<MethodInfo, seq<Factory>>, js: seq<JoinPoint>, i: nat,
                        interceptorMap: map<Advice, Option<Factory>>)
    requires i < |js| && AllKeyed(js, interceptorMap)
    ensures AllKeyed(js[..i], interceptorMap) && AllKeyed(js[..i + 1], interceptorMap)
    ensures RegisterAll(repo, js[..i + 1], interceptorMap) ==
            Register(RegisterAll(repo, js[..i], interceptorMap), js[i], interceptorMap)
  {
    assert forall jp :: jp in js[..i + 1] ==> jp in js;
    assert js[..i + 1][..i] == js[..i];
  }

  /** The values of the `interceptors` entry: the dictionary's factories. */
  function FactoriesOf(types: seq<Advice>): seq<Factory> {
    seq(|types|, i requires 0 <= i < |types| => Factory(types[i]))
  }

  /** The property bag after a successful `HasMatch`: the distinct
      factories under `interceptors` and the distinct matched methods under
      `methods` (lines 164-165). */
  function Annotate(props: map<string, Property>, plan: Plan): (r: map<string, Property>)
    ensures r.Keys == props.Keys + {"interceptors", "methods"}
    ensures forall k :: k in props && k != "interceptors" && k != "methods" ==> r[k] == props[k]
    ensures r["interceptors"] == InterceptorsValue(Distinct(FactoriesOf(plan.adviceTypes)))
    ensures r["methods"] == MethodsValue(Distinct(MethodsOf(plan.joinPoints)))
  {
    props["interceptors" := InterceptorsValue(Distinct(FactoriesOf(plan.adviceTypes)))]
         ["methods" := MethodsValue(Distinct(MethodsOf(plan.joinPoints)))]
  }

  /** The two entries `Annotate` writes: one factory per advice type of the
      plan, and the methods of its join points, each once. */
  lemma AnnotateEntries(props: map<string, Property>, plan: Plan)
    ensures var r := Annotate(props, plan);
      var factories := r["interceptors"].factories;
      var methods := r["methods"].methods;
      NoDups(factories) && (forall f :: f in factories <==> f.interceptorType in plan.adviceTypes) &&
      NoDups(methods) && (forall m :: m in methods <==> exists jp :: jp in plan.joinPoints && jp.methodInfo == m)
  {
    FactoriesOfMembers(plan.adviceTypes);
    forall m | m in MethodsOf(plan.joinPoints) ensures exists jp :: jp in plan.joinPoints && jp.methodInfo == m {
      var i :| 0 <= i < |MethodsOf(plan.joinPoints)| && MethodsOf(plan.joinPoints)[i] == m;
      assert plan.joinPoints[i] in plan.joinPoints;
    }
    forall jp | jp in plan.joinPoints ensures jp.methodInfo in MethodsOf(plan.joinPoints) {
      var i :| 0 <= i < |plan.joinPoints| && plan.joinPoints[i] == jp;
      assert MethodsOf(plan.joinPoints)[i] == jp.methodInfo;
    }
  }

  /** The factories of the advice types are exactly the factories of those types. */
  lemma FactoriesOfMembers(types: seq<Advice>)
    ensures forall f :: f in FactoriesOf(types) <==> f.interceptorType in types
  {
    forall f ensures f in FactoriesOf(types) <==> f.interceptorType in types {
      if f.interceptorType in types {
        var i :| 0 <= i < |types| && types[i] == f.interceptorType;
        assert FactoriesOf(types)[i] == f;
      }
    }
  }

  // ---------------------------------------------------------------------------
  // The listener state
  // ---------------------------------------------------------------------------

  /** A value in a component's extended-property bag. */
  datatype Property =
    | BoolValue(b: bool)
    | InterceptorsValue(factories: seq<Factory>)
    | MethodsValue(methods: seq<MethodInfo>)

  /** `IComponentInfo`: the listener reads the implementation type and the
      contracts, and writes the extended properties. */
  class ComponentInfo {
    const implementation: TypeInfo
    const contracts: seq<TypeInfo>
    var extendedProperties: map<string, Property>

    constructor (implementation: TypeInfo, contracts: seq<TypeInfo>, properties: map<string, Property>)
      ensures this.implementation == implementation && this.contracts == contracts
      ensures extendedProperties == properties
    {
      this.implementation := implementation;
      this.contracts := contracts;
      extendedProperties := properties;
    }
  }

  /** No two pointcuts of the list share an identity. */
  predicate UniqueIds(pointCuts: seq<PointCut>) {
    forall i, j :: 0 <= i < j < |pointCuts| ==> pointCuts[i].id != pointCuts[j].id
  }

  /** The aspect repository as the listener builds it: every pointcut names an
      advice and has an identity below `bound`, and no pointcut object occurs
      twice, in one aspect or in two. */
  ghost predicate WellFormed(aspects: seq<Aspect>, bound: nat) {
    (forall a, p :: a in aspects && p in a.pointCuts ==> p.id < bound && |p.advices| > 0) &&
    UniqueIds(AllPointCuts(aspects))
  }

  /** Appending an aspect appends its pointcuts. */
  lemma AllPointCutsAppend(aspects: seq<Aspect>, a: Aspect)
    ensures AllPointCuts(aspects + [a]) == AllPointCuts(aspects) + a.pointCuts
  {
    assert (aspects + [a])[..|aspects|] == aspects;
  }

  /** Two lists with unique identities, none shared, join into one. */
  lemma UniqueIdsConcat(u: seq<PointCut>, w: seq<PointCut>)
    requires UniqueIds(u) && UniqueIds(w)
    requires forall p, q :: p in u && q in w ==> p.id != q.id
    ensures UniqueIds(u + w)
  {
    var uw := u + w;
    forall i, j | 0 <= i < j < |uw| ensures uw[i].id != uw[j].id {
      if j < |u| {
        assert uw[i] == u[i] && uw[j] == u[j];
      } else if i >= |u| {
        assert uw[i] == w[i - |u|] && uw[j] == w[j - |u|];
      } else {
        assert uw[i] in u && uw[j] == w[j - |u|];
      }
    }
  }

  /** The parts of a list with unique identities have unique identities,
      and share none. */
  lemma UniqueIdsSplit(u: seq<PointCut>, w: seq<PointCut>)
    requires UniqueIds(u + w)
    ensures UniqueIds(u) && UniqueIds(w)
    ensures forall p, q :: p in u && q in w ==> p.id != q.id
  {
    var uw := u + w;
    forall i, j | 0 <= i < j < |u| ensures u[i].id != u[j].id {
      assert uw[i] == u[i] && uw[j] == u[j];
    }
    forall i, j | 0 <= i < j < |w| ensures w[i].id != w[j].id {
      assert uw[|u| + i] == w[i] && uw[|u| + j] == w[j];
    }
    forall p, q | p in u && q in w ensures p.id != q.id {
      var i :| 0 <= i < |u| && u[i] == p;
      var j :| 0 <= j < |w| && w[j] == q;
      assert uw[i] == p && uw[|u| + j] == q;
    }
  }

  /** Registering the aspect built from the counter, and advancing the
      counter past the identities reserved for it, keeps the repository well
      formed: the new pointcuts are new objects that name an advice. */
  lemma RegisterKeepsWellFormed(aspects: seq<Aspect>, bound: nat, t: TypeInfo, registered: seq<Aspect>, next: nat)
    requires WellFormed(aspects, bound)
    requires registered == aspects + AsSeq(BuildAspect(t, bound)) && next == bound + 1 + |t.methods|
    ensures WellFormed(registered, next)
  {
    if BuildAspect(t, bound).Some? {
      FreshPointCuts(t, bound);
    }
    AppendKeepsWellFormed(aspects, bound, BuildAspect(t, bound), next);
  }

  /** Appending an aspect, if any, of new pointcut objects that name advices,
      with identities from `bound` up to `next`, keeps the repository well formed. */
  lemma AppendKeepsWellFormed(aspects: seq<Aspect>, bound: nat, added: Option<Aspect>, next: nat)
    requires WellFormed(aspects, bound) && bound <= next
    requires added.Some? ==> forall p :: p in added.value.pointCuts ==> |p.advices| > 0
    requires added.Some? ==> forall i :: 0 <= i < |added.value.pointCuts| ==> bound <= added.value.pointCuts[i].id < next
    requires added.Some? ==> UniqueIds(added.value.pointCuts)
    ensures WellFormed(aspects + AsSeq(added), next)
  {
    if added.Some? {
      AppendKeepsBounds(aspects, bound, added.value, next);
      AppendKeepsUniqueIds(aspects, bound, added.value);
      assert AsSeq(added) == [added.value];
    } else {
      assert aspects + AsSeq(added) == aspects;
    }
  }

  lemma AppendKeepsBounds(aspects: seq<Aspect>, bound: nat, a: Aspect, next: nat)
    requires WellFormed(aspects, bound) && bound <= next
    requires forall p :: p in a.pointCuts ==> |p.advices| > 0
    requires forall i :: 0 <= i < |a.pointCuts| ==> bound <= a.pointCuts[i].id < next
    ensures forall b, p :: b in aspects + [a] && p in b.pointCuts ==> p.id < next && |p.advices| > 0
  {
    forall b, p | b in aspects + [a] && p in b.pointCuts ensures p.id < next && |p.advices| > 0 {
      if b == a {
        var j :| 0 <= j < |a.pointCuts| && a.pointCuts[j] == p;
      } else {
        assert b in aspects;
      }
    }
  }

  lemma AppendKeepsUniqueIds(aspects: seq<Aspect>, bound: nat, a: Aspect)
    requires WellFormed(aspects, bound)
    requires forall i :: 0 <= i < |a.pointCuts| ==> bound <= a.pointCuts[i].id
    requires UniqueIds(a.pointCuts)
    ensures UniqueIds(AllPointCuts(aspects + [a]))
  {
    var pcs := a.pointCuts;
    AllPointCutsAppend(aspects, a);
    forall p, q | p in AllPointCuts(aspects) && q in pcs ensures p.id != q.id {
      var b :| b in aspects && p in b.pointCuts;
      var j :| 0 <= j < |pcs| && pcs[j] == q;
    }
    UniqueIdsConcat(AllPointCuts(aspects), pcs);
  }

  /** The aspects a selector accepts keep the identities unique. */
  lemma {:induction false} MatchedUniqueIds(t: TypeInfo, aspects: seq<Aspect>,
                                            accepts: (Option<TargetType>, TypeInfo) -> bool)
    requires UniqueIds(AllPointCuts(aspects))
    ensures UniqueIds(AllPointCuts(MatchAspects(t, aspects, accepts)))
  {
    if aspects != [] {
      var init := aspects[..|aspects| - 1];
      var last := aspects[|aspects| - 1];
      assert aspects == init + [last];
      AllPointCutsAppend(init, last);
      UniqueIdsSplit(AllPointCuts(init), last.pointCuts);
      MatchedUniqueIds(t, init, accepts);
      var front := MatchAspects(t, init, accepts);
      if accepts(last.targetType, t) {
        assert MatchAspects(t, aspects, accepts) == front + [last];
        AllPointCutsAppend(front, last);
        forall p, q | p in AllPointCuts(front) && q in last.pointCuts ensures p.id != q.id {
          var a :| a in front && p in a.pointCuts;
          assert p in AllPointCuts(init);
        }
        UniqueIdsConcat(AllPointCuts(front), last.pointCuts);
      } else {
        assert MatchAspects(t, aspects, accepts) == front;
      }
    }
  }

  /** Over a well-formed repository the `Distinct` of line 124 removes
      nothing: the selected pointcuts are all pointcuts of the matched
      aspects, in order. */
  lemma SelectionRemovesNothing(t: TypeInfo, aspects: seq<Aspect>, bound: nat,
                                accepts: (Option<TargetType>, TypeInfo) -> bool)
    requires WellFormed(aspects, bound)
    ensures SelectPointCuts(MatchAspects(t, aspects, accepts)) == AllPointCuts(MatchAspects(t, aspects, accepts))
  {
    var all := AllPointCuts(MatchAspects(t, aspects, accepts));
    MatchedUniqueIds(t, aspects, accepts);
    assert NoDups(all);
    DistinctOfNoDups(all);
  }

  class AopListener {
    /** `AspectRepository.Aspects`, in registration order. */
    var aspects: seq<Aspect>
    /** `InterceptorRepository`: the interceptor list of each method. */
    var interceptors: map<MethodInfo, seq<Factory>>
    /** The next unused pointcut identity. */
    var nextPointCutId: nat
    /** The target selector `AspectMatcher` applies. */
    const accepts: (Option<TargetType>, TypeInfo) -> bool
    /** The signature test `JoinPointMatcher` applies. */
    const matches: (Signature, TypeInfo, MethodInfo) -> bool

    /** The repository is well formed, with every identity handed out so far
        below the counter. */
    ghost predicate Valid()
      reads this`aspects, this`nextPointCutId
    {
      WellFormed(aspects, nextPointCutId)
    }

    /** The listener with the empty repositories `Init` creates. */
    constructor (accepts: (Option<TargetType>, TypeInfo) -> bool, matches: (Signature, TypeInfo, MethodInfo) -> bool)
      ensures Valid()
      ensures aspects == [] && interceptors == map[] && nextPointCutId == 0
      ensures this.accepts == accepts && this.matches == matches
    {
      aspects := [];
      interceptors := map[];
      nextPointCutId := 0;
      this.accepts := accepts;
      this.matches := matches;
    }

    /** Lines 66-95: the type-level pointcut when the type carries markers,
        then one method-level pointcut per interceptable method, added one
        by one with `AddPointCut`. */
    method CollectAspect(t: TypeInfo, firstId: nat) returns (aspect: Option<Aspect>)
      ensures aspect == BuildAspect(t, firstId)
    {
      aspect := None;
      var adviceTypes := t.markers;
      if |adviceTypes| != 0 {
        aspect := Some(Aspect(Some(SingleTargetType(t.fullName)), [PointCut(firstId, TypeLevelSignature(), adviceTypes)]));
      }
      ghost var typeLevel := if aspect.Some? then aspect.value.pointCuts else [];
      var pointCuts := MethodPointCuts(t, firstId + 1);
      if |pointCuts| > 0 {
        if aspect.None? {
          aspect := Some(Aspect(None, []));
        }
        ghost var target := aspect.value.targetType;
        var i := 0;
        assert typeLevel + pointCuts[..0] == typeLevel;
        while i < |pointCuts|
          invariant 0 <= i <= |pointCuts|
          invariant aspect == Some(Aspect(target, typeLevel + pointCuts[..i]))
        {
          aspect := Some(aspect.value.(pointCuts := aspect.value.pointCuts + [pointCuts[i]]));
          assert typeLevel + pointCuts[..i + 1] == typeLevel + pointCuts[..i] + [pointCuts[i]];
          i := i + 1;
        }
        assert pointCuts[..i] == pointCuts;
      }
      assert |pointCuts| == 0 ==> typeLevel + pointCuts == typeLevel;
      assert aspect.Some? ==> aspect.value.pointCuts == typeLevel + pointCuts;
    }

    /** Registers the aspect derived from the markers of the implementation
        type and of its methods, when there is one. */
    method CheckAndRegisterAspect(info: ComponentInfo)
      requires Valid()
      modifies this`aspects, this`nextPointCutId
      ensures Valid()
      ensures aspects == old(aspects) + AsSeq(BuildAspect(info.implementation, old(nextPointCutId)))
      ensures nextPointCutId == old(nextPointCutId) + 1 + |info.implementation.methods|
    {
      var t := info.implementation;
      var firstId := nextPointCutId;
      var aspect := CollectAspect(t, firstId);
      ghost var before := aspects;
      if aspect.Some? {
        aspects := aspects + [aspect.value];
      }
      nextPointCutId := firstId + 1 + |t.methods|;
      RegisterKeepsWellFormed(before, firstId, t, aspects, nextPointCutId);
    }

    /** Appends the factories of the advices of `pointCuts` to the
        interceptor list of `m`, unless that list already holds something. */
    method RegisterInterceptors(m: MethodInfo, pointCuts: seq<PointCut>,
                                interceptorMap: map<Advice, Option<Factory>>)
      requires Keyed(pointCuts, interceptorMap)
      modifies this`interceptors
      ensures interceptors == Register(old(interceptors), JoinPoint(m, pointCuts), interceptorMap)
    {
      var temps := Lookup(interceptors, m);
      if |temps| > 0 {
        return;
      }
      var i := 0;
      while i < |pointCuts|
        invariant 0 <= i <= |pointCuts|
        invariant temps == ChainOf(pointCuts[..i], interceptorMap)
      {
        var advices := pointCuts[i].advices;
        assert pointCuts[i] in pointCuts;
        var j := 0;
        while j < |advices|
          invariant 0 <= j <= |advices|
          invariant temps == ChainOf(pointCuts[..i], interceptorMap) + AdviceChain(advices[..j], interceptorMap)
        {
          var interceptor := interceptorMap[advices[j]];
          if interceptor.Some? {
            temps := temps + [interceptor.value];
          }
          assert advices[..j + 1][..j] == advices[..j];
          j := j + 1;
        }
        assert advices[..j] == advices;
        assert pointCuts[..i + 1][..i] == pointCuts[..i];
        i := i + 1;
      }
      assert pointCuts[..i] == pointCuts;
      interceptors := interceptors[m := temps];
    }

    /** The `foreach` of lines 161-162: registers every join point in order. */
    method RegisterJoinPoints(joinPoints: seq<JoinPoint>, advices: map<Advice, Option<Factory>>)
      requires AllKeyed(joinPoints, advices)
      modifies this`interceptors
      ensures interceptors == RegisterAll(old(interceptors), joinPoints, advices)
    {
      var i := 0;
      while i < |joinPoints|
        invariant 0 <= i <= |joinPoints|
        invariant AllKeyed(joinPoints[..i], advices)
        invariant interceptors == RegisterAll(old(interceptors), joinPoints[..i], advices)
      {
        var jp := joinPoints[i];
        assert jp in joinPoints;
        RegisterInterceptors(jp.methodInfo, jp.pointCuts, advices);
        RegisterAllStep(old(interceptors), joinPoints, i, advices);
        i := i + 1;
      }
      assert joinPoints[..i] == joinPoints;
    }

    /** The write part of `HasMatch` (lines 160-166): fills the chains of the
        join points and records the interceptors and the methods in the
        property bag. */
    method ApplyPlan(info: ComponentInfo, plan: Plan)
      requires AllKeyed(plan.joinPoints, AdviceMap(plan.adviceTypes))
      modifies this`interceptors, info`extendedProperties
      ensures interceptors == RegisterAll(old(interceptors), plan.joinPoints, AdviceMap(plan.adviceTypes))
      ensures info.extendedProperties == Annotate(old(info.extendedProperties), plan)
    {
      var advices := AdviceMap(plan.adviceTypes);
      RegisterJoinPoints(plan.joinPoints, advices);
      info.extendedProperties := info.extendedProperties["interceptors" := InterceptorsValue(Distinct(FactoriesOf(plan.adviceTypes)))];
      info.extendedProperties := info.extendedProperties["methods" := MethodsValue(Distinct(MethodsOf(plan.joinPoints)))];
    }

    /** `HasMatch`: when the component has join points, fills their chains and
        records the interceptors and methods in the property bag; otherwise
        writes nothing. */
    method HasMatch(info: ComponentInfo) returns (matched: bool)
      modifies this`interceptors, info`extendedProperties
      ensures matched == Analyze(info.implementation, info.contracts, aspects, accepts, matches).Some?
      ensures !matched ==> interceptors == old(interceptors) && info.extendedProperties == old(info.extendedProperties)
      ensures matched ==>
        var plan := Analyze(info.implementation, info.contracts, aspects, accepts, matches).value;
        AllKeyed(plan.joinPoints, AdviceMap(plan.adviceTypes)) &&
        interceptors == RegisterAll(old(interceptors), plan.joinPoints, AdviceMap(plan.adviceTypes)) &&
        info.extendedProperties == Annotate(old(info.extendedProperties), plan)
      ensures interceptors == MatchedRepository(old(interceptors), info.implementation, info.contracts, aspects, accepts, matches)
    {
      var plan := Analyze(info.implementation, info.contracts, aspects, accepts, matches);
      if plan.None? {
        return false;
      }
      AdviceLookupNeverFails(info.implementation, info.contracts, aspects, accepts, matches);
      ApplyPlan(info, plan.value);
      return true;
    }

    /** The listener hook: register the component's aspect, then mark the
        component for proxying when it has a match. */
    method OnMetadataRegistered(info: ComponentInfo)
      requires Valid()
      modifies this`aspects, this`nextPointCutId, this`interceptors, info`extendedProperties
      ensures Valid()
      ensures aspects == old(aspects) + AsSeq(BuildAspect(info.implementation, old(nextPointCutId)))
      ensures nextPointCutId == old(nextPointCutId) + 1 + |info.implementation.methods|
      ensures interceptors == MatchedRepository(old(interceptors), info.implementation, info.contracts, aspects, accepts, matches)
      ensures Analyze(info.implementation, info.contracts, aspects, accepts, matches).None? ==>
        interceptors == old(interceptors) && info.extendedProperties == old(info.extendedProperties)
      ensures Analyze(info.implementation, info.contracts, aspects, accepts, matches).Some? ==>
        var plan := Analyze(info.implementation, info.contracts, aspects, accepts, matches).value;
        AllKeyed(plan.joinPoints, AdviceMap(plan.adviceTypes)) &&
        interceptors == RegisterAll(old(interceptors), plan.joinPoints, AdviceMap(plan.adviceTypes)) &&
        info.extendedProperties == Annotate(old(info.extendedProperties), plan)["proxy" := BoolValue(true)]
    {
      CheckAndRegisterAspect(info);
      ghost var registered, next := aspects, nextPointCutId;
      assert WellFormed(registered, next);
      var matched := HasMatch(info);
      assert aspects == registered && nextPointCutId == next;
      if matched {
        info.extendedProperties := info.extendedProperties["proxy" := BoolValue(true)];
      }
    }
  }

  // ---------------------------------------------------------------------------
  // Properties
  // ---------------------------------------------------------------------------

  /** The dictionary lookup `interceptorMap[advice]` never fails: every
      advice of every matched pointcut is a key of the advice dictionary. */
  lemma AdviceLookupNeverFails(t: TypeInfo, contracts: seq<TypeInfo>, aspects: seq<Aspect>,
                               accepts: (Option<TargetType>, TypeInfo) -> bool,
                               matches: (Signature, TypeInfo, MethodInfo) -> bool)
    requires Analyze(t, contracts, aspects, accepts, matches).Some?
    ensures var plan := Analyze(t, contracts, aspects, accepts, matches).value;
      AllKeyed(plan.joinPoints, AdviceMap(plan.adviceTypes))
  {
    var plan := Analyze(t, contracts, aspects, accepts, matches).value;
    var amap := AdviceMap(plan.adviceTypes);
    forall jp | jp in plan.joinPoints ensures Keyed(jp.pointCuts, amap) {
      forall p, a | p in jp.pointCuts && a in p.advices ensures a in amap {
        assert p in plan.pointCuts;
      }
    }
  }

  /** What a plan holds: the pointcuts of the accepted aspects, each once (all
      of them, in order, over a well-formed repository, by
      `SelectionRemovesNothing`); the advices they name, each once; and join
      points pairing each matched candidate with exactly the pointcuts
      matching it. */
  lemma PlanContents(t: TypeInfo, contracts: seq<TypeInfo>, aspects: seq<Aspect>,
                     accepts: (Option<TargetType>, TypeInfo) -> bool,
                     matches: (Signature, TypeInfo, MethodInfo) -> bool)
    ensures var plan := Analyze(t, contracts, aspects, accepts, matches);
      plan.Some? ==>
        plan.value.pointCuts == SelectPointCuts(MatchAspects(t, aspects, accepts)) &&
        NoDups(plan.value.pointCuts) &&
        (forall p :: p in plan.value.pointCuts <==> exists a :: a in aspects && accepts(a.targetType, t) && p in a.pointCuts) &&
        NoDups(plan.value.adviceTypes) &&
        (forall a :: a in plan.value.adviceTypes <==> exists p :: p in plan.value.pointCuts && a in p.advices) &&
        (forall jp :: jp in plan.value.joinPoints ==>
          jp.pointCuts == JoinPointMatch(plan.value.pointCuts, t, jp.methodInfo, matches)) &&
        (forall m :: m in MethodsOf(plan.value.joinPoints) <==>
          m in Candidates(t, contracts) && |JoinPointMatch(plan.value.pointCuts, t, m, matches)| > 0)
  {
  }

  /** `HasMatch` succeeds exactly when some selected pointcut names an advice
      and some candidate method is matched by a selected pointcut; all other
      early exits are subsumed by these two conditions. */
  lemma HasMatchExactly(t: TypeInfo, contracts: seq<TypeInfo>, aspects: seq<Aspect>,
                        accepts: (Option<TargetType>, TypeInfo) -> bool,
                        matches: (Signature, TypeInfo, MethodInfo) -> bool)
    ensures var pointCuts := SelectPointCuts(MatchAspects(t, aspects, accepts));
      Analyze(t, contracts, aspects, accepts, matches).Some? <==>
        (exists p, a :: p in pointCuts && a in p.advices) &&
        (exists m :: m in Candidates(t, contracts) && |JoinPointMatch(pointCuts, t, m, matches)| > 0)
  {
    var matched := MatchAspects(t, aspects, accepts);
    var pointCuts := SelectPointCuts(matched);
    AdviceMapNonEmpty(pointCuts);
    JoinPointsNonEmpty(Candidates(t, contracts), pointCuts, t, matches);
    assert |aspects| == 0 ==> |matched| == 0;
    assert |matched| == 0 ==> |pointCuts| == 0;
  }

  /** The advice dictionary is empty exactly when no pointcut names an advice. */
  lemma AdviceMapNonEmpty(pointCuts: seq<PointCut>)
    ensures |AdviceMap(AdviceTypes(pointCuts))| > 0 <==> exists p, a :: p in pointCuts && a in p.advices
  {
    var types := AdviceTypes(pointCuts);
    AdviceMapSize(types);
    if exists p, a :: p in pointCuts && a in p.advices {
      var p, a :| p in pointCuts && a in p.advices;
      assert a in types;
    }
    if |types| > 0 {
      assert types[0] in types;
    }
  }

  lemma AdviceMapSize(types: seq<Advice>)
    ensures |AdviceMap(types)| > 0 <==> |types| > 0
  {
    if |types| > 0 {
      assert types[0] in AdviceMap(types);
    } else {
      assert AdviceMap(types) == map[];
    }
  }

  lemma JoinPointsNonEmpty(candidates: seq<MethodInfo>, pointCuts: seq<PointCut>, t: TypeInfo,
                           matches: (Signature, TypeInfo, MethodInfo) -> bool)
    ensures |JoinPoints(candidates, pointCuts, t, matches)| > 0 <==>
      exists m :: m in candidates && |JoinPointMatch(pointCuts, t, m, matches)| > 0
  {
    var js := JoinPoints(candidates, pointCuts, t, matches);
    if |js| > 0 {
      assert MethodsOf(js)[0] in MethodsOf(js);
    }
  }

  /** The interceptor repository `HasMatch` leaves over the given aspects. */
  function MatchedRepository(repo: map<MethodInfo, seq<Factory>>, t: TypeInfo, contracts: seq<TypeInfo>,
                             aspects: seq<Aspect>,
                             accepts: (Option<TargetType>, TypeInfo) -> bool,
                             matches: (Signature, TypeInfo, MethodInfo) -> bool): map<MethodInfo, seq<Factory>>
  {
    var plan := Analyze(t, contracts, aspects, accepts, matches);
    if plan.None? then repo
    else
      AdviceLookupNeverFails(t, contracts, aspects, accepts, matches);
      RegisterAll(repo, plan.value.joinPoints, AdviceMap(plan.value.adviceTypes))
  }

  /** What registering a sequence of join points leaves for one method `m`,
      when all the join points of `m` carry the same chain `c`: the first
      attempt settles the chain and every later one is absorbed by the guard. */
  lemma {:induction false} RegisterAllAt(repo: map<MethodInfo, seq<Factory>>, js: seq<JoinPoint>,
                                         interceptorMap: map<Advice, Option<Factory>>,
                                         m: MethodInfo, c: seq<Factory>)
    requires AllKeyed(js, interceptorMap)
    requires forall jp :: jp in js && jp.methodInfo == m ==> ChainOf(jp.pointCuts, interceptorMap) == c
    ensures Lookup(RegisterAll(repo, js, interceptorMap), m) ==
      if m in MethodsOf(js) then Settle(Lookup(repo, m), c) else Lookup(repo, m)
  {
    if js != [] {
      var init := js[..|js| - 1];
      var last := js[|js| - 1];
      assert forall jp :: jp in init ==> jp in js;
      RegisterAllAt(repo, init, interceptorMap, m, c);
      var mid := RegisterAll(repo, init, interceptorMap);
      LookupAfterRegister(mid, last, interceptorMap, m);
      MethodsOfLast(js, m);
      if last.methodInfo == m {
        assert last in js;
      }
    }
  }

  /** A method is among those of `js` when it is among those before the
      last join point, or is the last join point's method. */
  lemma MethodsOfLast(js: seq<JoinPoint>, m: MethodInfo)
    requires js != []
    ensures m in MethodsOf(js) <==> m in MethodsOf(js[..|js| - 1]) || m == js[|js| - 1].methodInfo
  {
    assert MethodsOf(js) == MethodsOf(js[..|js| - 1]) + [js[|js| - 1].methodInfo];
  }

  /** One registration attempt touches only the attempted method's chain. */
  lemma LookupAfterRegister(repo: map<MethodInfo, seq<Factory>>, jp: JoinPoint,
                            interceptorMap: map<Advice, Option<Factory>>, m: MethodInfo)
    requires Keyed(jp.pointCuts, interceptorMap)
    ensures Lookup(Register(repo, jp, interceptorMap), m) ==
      if jp.methodInfo == m then Settle(Lookup(repo, m), ChainOf(jp.pointCuts, interceptorMap))
      else Lookup(repo, m)
  {
  }

  /** A method whose chain is non-empty keeps it, whatever is registered. */
  lemma {:induction false} ChainsAreWriteOnce(repo: map<MethodInfo, seq<Factory>>, js: seq<JoinPoint>,
                                              interceptorMap: map<Advice, Option<Factory>>, m: MethodInfo)
    requires AllKeyed(js, interceptorMap)
    requires |Lookup(repo, m)| > 0
    ensures Lookup(RegisterAll(repo, js, interceptorMap), m) == Lookup(repo, m)
  {
    if js != [] {
      var init := js[..|js| - 1];
      assert forall jp :: jp in init ==> jp in js;
      ChainsAreWriteOnce(repo, init, interceptorMap, m);
    }
  }

  /** The chains the join-point query leaves: a matched candidate gets the
      chain of exactly the pointcuts matching it, unless it already had one;
      every other method is untouched.  One chain per method, although the
      query yields each matched method once per pointcut. */
  lemma RegisteredChains(repo: map<MethodInfo, seq<Factory>>, candidates: seq<MethodInfo>,
                         pointCuts: seq<PointCut>, t: TypeInfo,
                         matches: (Signature, TypeInfo, MethodInfo) -> bool,
                         interceptorMap: map<Advice, Option<Factory>>, m: MethodInfo)
    requires Keyed(pointCuts, interceptorMap)
    ensures AllKeyed(JoinPoints(candidates, pointCuts, t, matches), interceptorMap)
    ensures var result := JoinPointMatch(pointCuts, t, m, matches);
      Lookup(RegisterAll(repo, JoinPoints(candidates, pointCuts, t, matches), interceptorMap), m) ==
        if m in candidates && |result| > 0 then Settle(Lookup(repo, m), ChainOf(result, interceptorMap))
        else Lookup(repo, m)
  {
    var js := JoinPoints(candidates, pointCuts, t, matches);
    var result := JoinPointMatch(pointCuts, t, m, matches);
    RegisterAllAt(repo, js, interceptorMap, m, ChainOf(result, interceptorMap));
  }

  /** Registering the same join points a second time changes no chain. */
  lemma RegistrationIdempotent(repo: map<MethodInfo, seq<Factory>>, candidates: seq<MethodInfo>,
                               pointCuts: seq<PointCut>, t: TypeInfo,
                               matches: (Signature, TypeInfo, MethodInfo) -> bool,
                               interceptorMap: map<Advice, Option<Factory>>, m: MethodInfo)
    requires Keyed(pointCuts, interceptorMap)
    ensures var js := JoinPoints(candidates, pointCuts, t, matches);
      AllKeyed(js, interceptorMap) &&
      Lookup(RegisterAll(RegisterAll(repo, js, interceptorMap), js, interceptorMap), m) ==
      Lookup(RegisterAll(repo, js, interceptorMap), m)
  {
    var js := JoinPoints(candidates, pointCuts, t, matches);
    RegisteredChains(repo, candidates, pointCuts, t, matches, interceptorMap, m);
    RegisteredChains(RegisterAll(repo, js, interceptorMap), candidates, pointCuts, t, matches, interceptorMap, m);
  }

  lemma {:induction false} FactoriesOfConcat(a: seq<Advice>, b: seq<Advice>)
    ensures FactoriesOf(a + b) == FactoriesOf(a) + FactoriesOf(b)
  {
  }

  lemma {:induction false} AdviceChainOfAdviceMap(advices: seq<Advice>, types: seq<Advice>)
    requires forall a :: a in advices ==> a in types
    ensures forall a :: a in advices ==> a in AdviceMap(types)
    ensures AdviceChain(advices, AdviceMap(types)) == FactoriesOf(advices)
  {
    if advices != [] {
      var init := advices[..|advices| - 1];
      var last := advices[|advices| - 1];
      assert advices == init + [last];
      AdviceChainOfAdviceMap(init, types);
      FactoriesOfConcat(init, [last]);
    }
  }

  /** With the dictionary `HasMatch` builds nothing is skipped: a chain is
      the factory of every advice of its pointcuts, in pointcut order and then
      advice order. */
  lemma {:induction false} ChainOfAdviceMap(pointCuts: seq<PointCut>, types: seq<Advice>)
    requires forall p, a :: p in pointCuts && a in p.advices ==> a in types
    ensures Keyed(pointCuts, AdviceMap(types))
    ensures ChainOf(pointCuts, AdviceMap(types)) == FactoriesOf(Advices(pointCuts))
  {
    if pointCuts != [] {
      var init := pointCuts[..|pointCuts| - 1];
      var last := pointCuts[|pointCuts| - 1];
      assert pointCuts == init + [last];
      ChainOfAdviceMap(init, types);
      AdviceChainOfAdviceMap(last.advices, types);
      FactoriesOfConcat(Advices(init), last.advices);
    }
  }

  /** The chain a successful `HasMatch` leaves for each method: a matched
      candidate that had no chain gets the factories of the advices of the
      pointcuts matching it; every other method keeps what it had. */
  lemma MatchedMethodChain(repo: map<MethodInfo, seq<Factory>>, t: TypeInfo, contracts: seq<TypeInfo>,
                           aspects: seq<Aspect>,
                           accepts: (Option<TargetType>, TypeInfo) -> bool,
                           matches: (Signature, TypeInfo, MethodInfo) -> bool, m: MethodInfo)
    requires Analyze(t, contracts, aspects, accepts, matches).Some?
    ensures var plan := Analyze(t, contracts, aspects, accepts, matches).value;
      var result := JoinPointMatch(plan.pointCuts, t, m, matches);
      AllKeyed(plan.joinPoints, AdviceMap(plan.adviceTypes)) &&
      Lookup(RegisterAll(repo, plan.joinPoints, AdviceMap(plan.adviceTypes)), m) ==
        if m in Candidates(t, contracts) && |result| > 0
        then Settle(Lookup(repo, m), FactoriesOf(Advices(result)))
        else Lookup(repo, m)
  {
    var plan := Analyze(t, contracts, aspects, accepts, matches).value;
    var result := JoinPointMatch(plan.pointCuts, t, m, matches);
    ChainOfAdviceMap(plan.pointCuts, plan.adviceTypes);
    RegisteredChains(repo, Candidates(t, contracts), plan.pointCuts, t, matches, AdviceMap(plan.adviceTypes), m);
    ChainOfAdviceMap(result, plan.adviceTypes);
  }

  /** The advice dictionary holds one factory per distinct advice type, so
      the `interceptors` entry lists each such factory exactly once. */
  lemma InterceptorsEntry(pointCuts: seq<PointCut>)
    ensures var types := AdviceTypes(pointCuts);
      Distinct(FactoriesOf(types)) == FactoriesOf(types) &&
      (forall a :: a in AdviceMap(types) <==> exists p :: p in pointCuts && a in p.advices) &&
      (forall a :: a in AdviceMap(types) ==> AdviceMap(types)[a] == Some(Factory(a))) &&
      (forall f :: f in FactoriesOf(types) <==> exists p :: p in pointCuts && f.interceptorType in p.advices)
  {
    var types := AdviceTypes(pointCuts);
    var fs := FactoriesOf(types);
    assert NoDups(fs) by {
      forall i, j | 0 <= i < j < |fs| ensures fs[i] != fs[j] {
        assert types[i] != types[j];
      }
    }
    DistinctOfNoDups(fs);
    forall f ensures f in fs <==> exists p :: p in pointCuts && f.interceptorType in p.advices {
      if f.interceptorType in types {
        var i :| 0 <= i < |types| && types[i] == f.interceptorType;
        assert fs[i] == f;
      }
    }
  }

  /** The `methods` entry lists every matched candidate once and nothing else. */
  lemma MethodsEntry(t: TypeInfo, contracts: seq<TypeInfo>, aspects: seq<Aspect>,
                     accepts: (Option<TargetType>, TypeInfo) -> bool,
                     matches: (Signature, TypeInfo, MethodInfo) -> bool)
    requires Analyze(t, contracts, aspects, accepts, matches).Some?
    ensures var plan := Analyze(t, contracts, aspects, accepts, matches).value;
      var methods := Distinct(MethodsOf(plan.joinPoints));
      NoDups(methods) &&
      forall m :: m in methods <==> m in Candidates(t, contracts) && |JoinPointMatch(plan.pointCuts, t, m, matches)| > 0
  {
  }

  lemma {:induction false} MultisetOfRepeat(m: MethodInfo, js: seq<JoinPoint>)
    requires forall jp :: jp in js ==> jp.methodInfo == m
    ensures multiset(MethodsOf(js))[m] == |js|
  {
    if js != [] {
      var init := js[..|js| - 1];
      assert js == init + [js[|js| - 1]];
      assert forall jp :: jp in init ==> jp in js;
      MultisetOfRepeat(m, init);
    }
  }

  lemma MultiplicityOfConcat(a: seq<JoinPoint>, b: seq<JoinPoint>, m: MethodInfo)
    ensures multiset(MethodsOf(a + b))[m] == multiset(MethodsOf(a))[m] + multiset(MethodsOf(b))[m]
  {
    MethodsOfConcat(a, b);
  }

  /** One candidate's block holds it once per pointcut when it is matched. */
  lemma BlockMultiplicity(c: MethodInfo, pointCuts: seq<PointCut>, t: TypeInfo,
                          matches: (Signature, TypeInfo, MethodInfo) -> bool, m: MethodInfo)
    ensures multiset(MethodsOf(Block(c, pointCuts, t, matches)))[m] ==
      if m == c && |JoinPointMatch(pointCuts, t, c, matches)| > 0 then |pointCuts| else 0
  {
    var block := Block(c, pointCuts, t, matches);
    BlockShape(c, pointCuts, t, matches);
    if m == c && |JoinPointMatch(pointCuts, t, c, matches)| > 0 {
      MultisetOfRepeat(m, block);
    } else {
      assert m !in MethodsOf(block);
    }
  }

  /** Because the `from pointCut` of the join-point query is unused, a
      matched candidate occurs in the query's result once per selected
      pointcut, and an unmatched method not at all. */
  lemma {:induction false} JoinPointMultiplicity(candidates: seq<MethodInfo>, pointCuts: seq<PointCut>, t: TypeInfo,
                                                 matches: (Signature, TypeInfo, MethodInfo) -> bool, m: MethodInfo)
    requires NoDups(candidates)
    ensures multiset(MethodsOf(JoinPoints(candidates, pointCuts, t, matches)))[m] ==
      if m in candidates && |JoinPointMatch(pointCuts, t, m, matches)| > 0 then |pointCuts| else 0
  {
    if candidates != [] {
      var init := candidates[..|candidates| - 1];
      var last := candidates[|candidates| - 1];
      assert candidates == init + [last];
      assert NoDups(init);
      assert last !in init by {
        forall k | 0 <= k < |init| ensures init[k] != last { assert init[k] == candidates[k]; }
      }
      JoinPointMultiplicity(init, pointCuts, t, matches, m);
      var front := JoinPoints(init, pointCuts, t, matches);
      var block := Block(last, pointCuts, t, matches);
      assert JoinPoints(candidates, pointCuts, t, matches) == front + block;
      MultiplicityOfConcat(front, block, m);
      BlockMultiplicity(last, pointCuts, t, matches, m);
    }
  }

  /** Registering join points whose methods all have a chain changes nothing. */
  lemma {:induction false} RegisterAllKeeps(repo: map<MethodInfo, seq<Factory>>, js: seq<JoinPoint>,
                                            interceptorMap: map<Advice, Option<Factory>>)
    requires AllKeyed(js, interceptorMap)
    requires forall jp :: jp in js ==> |Lookup(repo, jp.methodInfo)| > 0
    ensures RegisterAll(repo, js, interceptorMap) == repo
  {
    if js != [] {
      var init := js[..|js| - 1];
      assert forall jp :: jp in init ==> jp in js;
      RegisterAllKeeps(repo, init, interceptorMap);
      assert js[|js| - 1] in js;
    }
  }

  /** Only the identities of an aspect depend on where the counter stands. */
  lemma BuildAspectShape(t: TypeInfo, x: nat, y: nat)
    ensures BuildAspect(t, x).Some? <==> BuildAspect(t, y).Some?
    ensures BuildAspect(t, x).Some? ==>
      var px := BuildAspect(t, x).value.pointCuts;
      var py := BuildAspect(t, y).value.pointCuts;
      BuildAspect(t, x).value.targetType == BuildAspect(t, y).value.targetType && |px| == |py| &&
      forall i :: 0 <= i < |px| ==> px[i].signature == py[i].signature && px[i].advices == py[i].advices
  {
    if BuildAspect(t, x).Some? {
      AspectPointCuts(t, x);
      AspectPointCuts(t, y);
      var px := BuildAspect(t, x).value.pointCuts;
      var py := BuildAspect(t, y).value.pointCuts;
      var off := TypeLevelCount(t);
      forall i | 0 <= i < |px| ensures px[i].signature == py[i].signature && px[i].advices == py[i].advices {
        if i < off {
          assert px[i] == TypeLevelPointCuts(t, x)[i] && py[i] == TypeLevelPointCuts(t, y)[i];
        } else {
          assert px[i] == MethodPointCuts(t, x + 1)[i - off] && py[i] == MethodPointCuts(t, y + 1)[i - off];
        }
      }
    }
  }

  /** A pointcut selected after an aspect's twin (same target, same
      signatures) is appended has a twin of its own, with the same signature
      and an advice, among the pointcuts selected before. */
  lemma TwinPointCut(t: TypeInfo, aspects: seq<Aspect>, original: Aspect, twin: Aspect, grown: seq<Aspect>,
                     accepts: (Option<TargetType>, TypeInfo) -> bool, p: PointCut) returns (q: PointCut)
    requires original in aspects
    requires forall a, r :: a in aspects && r in a.pointCuts ==> |r.advices| > 0
    requires twin.targetType == original.targetType && |twin.pointCuts| == |original.pointCuts|
    requires forall i :: 0 <= i < |twin.pointCuts| ==> twin.pointCuts[i].signature == original.pointCuts[i].signature
    requires grown == aspects + [twin] && p in SelectPointCuts(MatchAspects(t, grown, accepts))
    ensures q in SelectPointCuts(MatchAspects(t, aspects, accepts))
    ensures q.signature == p.signature && |q.advices| > 0
  {
    var a :| a in MatchAspects(t, grown, accepts) && p in a.pointCuts;
    if a in aspects {
      assert a in MatchAspects(t, aspects, accepts);
      q := p;
    } else {
      assert a == twin;
      var i :| 0 <= i < |twin.pointCuts| && twin.pointCuts[i] == p;
      assert original in MatchAspects(t, aspects, accepts);
      q := original.pointCuts[i];
      assert q in original.pointCuts;
    }
  }

  /** A pointcut selected after the same type registers its aspect a second
      time has a twin, with the same signature and an advice, among the
      pointcuts selected after the first registration. */
  lemma RepeatedPointCut(aspects: seq<Aspect>, bound: nat, t: TypeInfo, next: nat, first: seq<Aspect>, second: seq<Aspect>,
                         accepts: (Option<TargetType>, TypeInfo) -> bool, p: PointCut) returns (q: PointCut)
    requires WellFormed(aspects, bound)
    requires next == bound + 1 + |t.methods|
    requires first == aspects + AsSeq(BuildAspect(t, bound)) && second == first + AsSeq(BuildAspect(t, next))
    requires p in SelectPointCuts(MatchAspects(t, second, accepts))
    ensures q in SelectPointCuts(MatchAspects(t, first, accepts))
    ensures q.signature == p.signature && |q.advices| > 0
  {
    RegisterKeepsWellFormed(aspects, bound, t, first, next);
    BuildAspectShape(t, bound, next);
    if BuildAspect(t, bound).None? {
      assert second == first;
      var a :| a in MatchAspects(t, first, accepts) && p in a.pointCuts;
      q := p;
    } else {
      var original := BuildAspect(t, bound).value;
      var twin := BuildAspect(t, next).value;
      assert second == first + [twin];
      assert original in first;
      q := TwinPointCut(t, first, original, twin, second, accepts, p);
    }
  }

  /** A candidate matched by a selected pointcut that names an advice has a
      non-empty chain after `HasMatch`. */
  lemma MatchedHasChain(repo: map<MethodInfo, seq<Factory>>, t: TypeInfo, contracts: seq<TypeInfo>,
                        aspects: seq<Aspect>,
                        accepts: (Option<TargetType>, TypeInfo) -> bool,
                        matches: (Signature, TypeInfo, MethodInfo) -> bool, m: MethodInfo, q: PointCut)
    requires q in SelectPointCuts(MatchAspects(t, aspects, accepts)) && |q.advices| > 0
    requires m in Candidates(t, contracts) && matches(q.signature, t, m)
    ensures |Lookup(MatchedRepository(repo, t, contracts, aspects, accepts, matches), m)| > 0
  {
    var selected := SelectPointCuts(MatchAspects(t, aspects, accepts));
    var result := JoinPointMatch(selected, t, m, matches);
    assert q in result;
    assert q.advices[0] in q.advices;
    assert |Advices(result)| > 0 by {
      assert q.advices[0] in Advices(result);
    }
    assert Analyze(t, contracts, aspects, accepts, matches).Some? by {
      HasMatchExactly(t, contracts, aspects, accepts, matches);
    }
    MatchedChainNonEmpty(repo, t, contracts, aspects, accepts, matches, m);
  }

  /** A candidate with matched advices gets a non-empty chain. */
  lemma MatchedChainNonEmpty(repo: map<MethodInfo, seq<Factory>>, t: TypeInfo, contracts: seq<TypeInfo>,
                             aspects: seq<Aspect>,
                             accepts: (Option<TargetType>, TypeInfo) -> bool,
                             matches: (Signature, TypeInfo, MethodInfo) -> bool, m: MethodInfo)
    requires Analyze(t, contracts, aspects, accepts, matches).Some? && m in Candidates(t, contracts)
    requires |Advices(JoinPointMatch(SelectPointCuts(MatchAspects(t, aspects, accepts)), t, m, matches))| > 0
    ensures |Lookup(MatchedRepository(repo, t, contracts, aspects, accepts, matches), m)| > 0
  {
    var result := JoinPointMatch(SelectPointCuts(MatchAspects(t, aspects, accepts)), t, m, matches);
    assert |result| > 0;
    assert |FactoriesOf(Advices(result))| > 0;
    MatchedRepositoryAt(repo, t, contracts, aspects, accepts, matches, m);
  }

  /** The chain of every method after a `HasMatch` that found a plan. */
  lemma MatchedRepositoryAt(repo: map<MethodInfo, seq<Factory>>, t: TypeInfo, contracts: seq<TypeInfo>,
                            aspects: seq<Aspect>,
                            accepts: (Option<TargetType>, TypeInfo) -> bool,
                            matches: (Signature, TypeInfo, MethodInfo) -> bool, m: MethodInfo)
    requires Analyze(t, contracts, aspects, accepts, matches).Some?
    ensures var result := JoinPointMatch(SelectPointCuts(MatchAspects(t, aspects, accepts)), t, m, matches);
      Lookup(MatchedRepository(repo, t, contracts, aspects, accepts, matches), m) ==
        if m in Candidates(t, contracts) && |result| > 0
        then Settle(Lookup(repo, m), FactoriesOf(Advices(result)))
        else Lookup(repo, m)
  {
    var plan := Analyze(t, contracts, aspects, accepts, matches).value;
    assert plan.pointCuts == SelectPointCuts(MatchAspects(t, aspects, accepts));
    MatchedMethodChain(repo, t, contracts, aspects, accepts, matches, m);
  }
  /** A `HasMatch` for `t` leaves the list of every method that neither `t`
      nor its contracts report untouched: such a method is no candidate.  In
      particular it leaves alone each method of another type reported under
      its own name, inherited ones included. */
  lemma OtherTypesKeepChains(repo: map<MethodInfo, seq<Factory>>, t: TypeInfo, contracts: seq<TypeInfo>,
                             aspects: seq<Aspect>,
                             accepts: (Option<TargetType>, TypeInfo) -> bool,
                             matches: (Signature, TypeInfo, MethodInfo) -> bool, other: TypeInfo, m: MethodInfo)
    requires ReflectedFrom(t) && ReflectedFrom(other) && other.fullName != t.fullName
    requires forall c :: c in contracts ==> ReflectedFrom(c) && c.fullName != other.fullName
    requires m in other.methods
    ensures Lookup(MatchedRepository(repo, t, contracts, aspects, accepts, matches), m) == Lookup(repo, m)
  {
    ReflectedMethodsDisjoint(other, t);
    forall c | c in contracts ensures m !in c.methods {
      ReflectedMethodsDisjoint(other, c);
    }
    assert m !in Candidates(t, contracts);
    if Analyze(t, contracts, aspects, accepts, matches).Some? {
      MatchedRepositoryAt(repo, t, contracts, aspects, accepts, matches, m);
    }
  }


  /** Every join point of a plan holds a candidate and a selected pointcut matching it. */
  lemma PlanJoinPoint(t: TypeInfo, contracts: seq<TypeInfo>, aspects: seq<Aspect>,
                      accepts: (Option<TargetType>, TypeInfo) -> bool,
                      matches: (Signature, TypeInfo, MethodInfo) -> bool, jp: JoinPoint) returns (p: PointCut)
    requires Analyze(t, contracts, aspects, accepts, matches).Some?
    requires jp in Analyze(t, contracts, aspects, accepts, matches).value.joinPoints
    ensures jp.methodInfo in Candidates(t, contracts)
    ensures p in SelectPointCuts(MatchAspects(t, aspects, accepts)) && matches(p.signature, t, jp.methodInfo)
  {
    PlanContents(t, contracts, aspects, accepts, matches);
    p := jp.pointCuts[0];
    assert p in jp.pointCuts;
  }

  /** A method the second registration would register already has a chain
      from the first. */
  lemma JoinPointKeepsChain(aspects: seq<Aspect>, bound: nat, repo: map<MethodInfo, seq<Factory>>,
                            t: TypeInfo, contracts: seq<TypeInfo>,
                            accepts: (Option<TargetType>, TypeInfo) -> bool,
                            matches: (Signature, TypeInfo, MethodInfo) -> bool,
                            next: nat, first: seq<Aspect>, second: seq<Aspect>, jp: JoinPoint)
    requires WellFormed(aspects, bound)
    requires next == bound + 1 + |t.methods|
    requires first == aspects + AsSeq(BuildAspect(t, bound)) && second == first + AsSeq(BuildAspect(t, next))
    requires Analyze(t, contracts, second, accepts, matches).Some?
    requires jp in Analyze(t, contracts, second, accepts, matches).value.joinPoints
    ensures |Lookup(MatchedRepository(repo, t, contracts, first, accepts, matches), jp.methodInfo)| > 0
  {
    var p := PlanJoinPoint(t, contracts, second, accepts, matches, jp);
    var q := RepeatedPointCut(aspects, bound, t, next, first, second, accepts, p);
    MatchedHasChain(repo, t, contracts, first, accepts, matches, jp.methodInfo, q);
  }

  lemma JoinPointsKeepChains(aspects: seq<Aspect>, bound: nat, repo: map<MethodInfo, seq<Factory>>,
                             t: TypeInfo, contracts: seq<TypeInfo>,
                             accepts: (Option<TargetType>, TypeInfo) -> bool,
                             matches: (Signature, TypeInfo, MethodInfo) -> bool,
                             next: nat, first: seq<Aspect>, second: seq<Aspect>)
    requires WellFormed(aspects, bound)
    requires next == bound + 1 + |t.methods|
    requires first == aspects + AsSeq(BuildAspect(t, bound)) && second == first + AsSeq(BuildAspect(t, next))
    requires Analyze(t, contracts, second, accepts, matches).Some?
    ensures forall jp :: jp in Analyze(t, contracts, second, accepts, matches).value.joinPoints ==>
      |Lookup(MatchedRepository(repo, t, contracts, first, accepts, matches), jp.methodInfo)| > 0
  {
    forall jp | jp in Analyze(t, contracts, second, accepts, matches).value.joinPoints
      ensures |Lookup(MatchedRepository(repo, t, contracts, first, accepts, matches), jp.methodInfo)| > 0
    {
      JoinPointKeepsChain(aspects, bound, repo, t, contracts, accepts, matches, next, first, second, jp);
    }
  }

  /** Registering the same component twice: the second `OnMetadataRegistered`
      adds an aspect with new pointcut objects, but its pointcuts match what the
      first one's matched, whose methods already have their chains, so the
      interceptor repository stays as the first call left it. */
  lemma SecondRegistrationChangesNothing(aspects: seq<Aspect>, bound: nat, repo: map<MethodInfo, seq<Factory>>,
                                         t: TypeInfo, contracts: seq<TypeInfo>,
                                         accepts: (Option<TargetType>, TypeInfo) -> bool,
                                         matches: (Signature, TypeInfo, MethodInfo) -> bool,
                                         next: nat, first: seq<Aspect>, second: seq<Aspect>)
    requires WellFormed(aspects, bound)
    requires next == bound + 1 + |t.methods|
    requires first == aspects + AsSeq(BuildAspect(t, bound)) && second == first + AsSeq(BuildAspect(t, next))
    ensures MatchedRepository(MatchedRepository(repo, t, contracts, first, accepts, matches), t, contracts, second, accepts, matches) ==
            MatchedRepository(repo, t, contracts, first, accepts, matches)
  {
    if Analyze(t, contracts, second, accepts, matches).Some? {
      JoinPointsKeepChains(aspects, bound, repo, t, contracts, accepts, matches, next, first, second);
    }
    ChainsKeptChangesNothing(MatchedRepository(repo, t, contracts, first, accepts, matches), t, contracts, second, accepts, matches);
  }

  /** A registration whose every join point's method already has a chain
      leaves the interceptor repository as it was. */
  lemma ChainsKeptChangesNothing(repo: map<MethodInfo, seq<Factory>>, t: TypeInfo, contracts: seq<TypeInfo>,
                                 aspects: seq<Aspect>,
                                 accepts: (Option<TargetType>, TypeInfo) -> bool,
                                 matches: (Signature, TypeInfo, MethodInfo) -> bool)
    requires Analyze(t, contracts, aspects, accepts, matches).Some? ==>
      forall jp :: jp in Analyze(t, contracts, aspects, accepts, matches).value.joinPoints ==> |Lookup(repo, jp.methodInfo)| > 0
    ensures MatchedRepository(repo, t, contracts, aspects, accepts, matches) == repo
  {
    var plan := Analyze(t, contracts, aspects, accepts, matches);
    if plan.Some? {
      AdviceLookupNeverFails(t, contracts, aspects, accepts, matches);
      RegisterAllKeeps(repo, plan.value.joinPoints, AdviceMap(plan.value.adviceTypes));
    }
  }
}
