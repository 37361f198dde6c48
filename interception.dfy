/** Interception metadata: reflection data of a component type, and the
    aspect / pointcut / signature records the listener builds from it.
    Reflection (`Type`, `MethodInfo`, custom attributes) is replaced by plain
    values: a type lists the methods reflection reports for it and the
    interceptor types named by its `InterceptorAttribute` markers. */
module Interception {
  import opened Seqs

  /** A type's full name (`Type.FullName`); type identity is by name. */
  type TypeName = string

  /** An advice: the interceptor type named by an `InterceptorAttribute`. */
  type Advice = TypeName

  /** Declared accessibility of a method, as reflection reports it. */
  datatype Access = Public | Family | FamilyOrAssembly | Assembly | Private

  /** A reflected method.  Two reflected methods are the same `MethodInfo`
      only when they agree on everything, including the declaring type and
      the type whose reflection reported it (`ReflectedType`): a method a
      class inherits is a different `MethodInfo` for every class that
      reports it.  Overloads differ in their parameter types or in their
      number of generic parameters (`F()` and `F<T>()`). */
  datatype MethodInfo = MethodInfo(
    declaringType: TypeName,
    reflectedType: TypeName,
    name: string,
    genericArity: nat,
    returnType: TypeName,
    parameterTypes: seq<TypeName>,
    access: Access,
    markers: seq<Advice>)

  /** A reflected type: its full name, its methods in reflection order, and
      the interceptor types of its (inherited) `InterceptorAttribute`s. */
  datatype TypeInfo = TypeInfo(fullName: TypeName, methods: seq<MethodInfo>, markers: seq<Advice>)

  /** The methods of `t` are the ones its own reflection reports. */
  predicate ReflectedFrom(t: TypeInfo) {
    forall m :: m in t.methods ==> m.reflectedType == t.fullName
  }

  /** Two types report no common method, even one both inherit from the
      same base: each gets its own `MethodInfo`, and so its own chain. */
  lemma ReflectedMethodsDisjoint(t1: TypeInfo, t2: TypeInfo)
    requires ReflectedFrom(t1) && ReflectedFrom(t2) && t1.fullName != t2.fullName
    ensures forall m :: m in t1.methods ==> m !in t2.methods
  {
    forall m | m in t1.methods ensures m !in t2.methods {
      assert m.reflectedType == t1.fullName;
    }
  }

  datatype CutPointFlags = Method

  datatype AccessFlags = All

  /** `MethodSignature`: a component left unassigned by the listener is `None`. */
  datatype Signature = Signature(
    methodName: Option<string>,
    returnType: Option<TypeName>,
    arguments: Option<seq<TypeName>>,
    flags: Option<CutPointFlags>,
    access: Option<AccessFlags>,
    deep: Option<int>)

  /** `PointCutInfo`.  It is a reference object in the program: `id` stands
      for its object identity, so two pointcuts built separately never compare
      equal even when their contents agree. */
  datatype PointCut = PointCut(id: nat, signature: Signature, advices: seq<Advice>)

  /** `SignleTargetTypeInfo`: an aspect aimed at one concrete type. */
  datatype TargetType = SingleTargetType(singleType: TypeName)

  /** `AspectInfo`: an optional target selector and its pointcuts in the
      order `AddPointCut` received them. */
  datatype Aspect = Aspect(targetType: Option<TargetType>, pointCuts: seq<PointCut>)

  /** The delegate `() => Activator.CreateInstance(t) as IInterceptor`: the
      factory is stored, not an interceptor instance. */
  datatype Factory = Factory(interceptorType: Advice)

  /** A candidate method together with the pointcuts that matched it. */
  datatype JoinPoint = JoinPoint(methodInfo: MethodInfo, pointCuts: seq<PointCut>)

  /** The signature of the type-level pointcut: only `Deep = 3` is assigned. */
  function TypeLevelSignature(): Signature {
    Signature(None, None, None, None, None, Some(3))
  }

  /** The signature of the method-level pointcut recorded for `m`. */
  function MethodLevelSignature(m: MethodInfo): Signature {
    Signature(Some(m.name), Some(m.returnType), Some(m.parameterTypes), Some(Method), Some(All), None)
  }

  /** A method gets its own pointcut when it is public or protected and
      carries at least one interceptor marker. */
  predicate Interceptable(m: MethodInfo) {
    (m.access == Public || m.access == Family) && |m.markers| > 0
  }
}
