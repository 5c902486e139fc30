/** The dependency walker (RequirementExtractor): from the operations of the
    service contract, the closure of index classes their types reach through
    public instance members. */
module Requirements {
  import opened Wrappers
  import opened Errors
  import opened Syntax
  import opened TypeExt

  /** The type index: class declarations by identifier. */
  type Index = map<string, TypeDecl>

  /** An index whose every entry is filed under its own identifier, as
      SyntaxCoalescer builds it. */
  ghost predicate IndexKeyed(index: Index) {
    forall k | k in index :: index[k].identifier == k
  }

  /** The index entry for a name, if any (TryGetValue). */
  function Resolve(index: Index, name: string): (r: seq<TypeDecl>)
    ensures |r| <= 1 && forall x | x in r :: x in index.Values
    ensures name in index ==> r == [index[name]]
    ensures name !in index ==> r == []
  {
    if name in index then [index[name]] else []
  }

  /** Two computations in sequence: the first failure wins, otherwise the results
      are joined in order. */
  function Concat<T>(a: Result<seq<T>, Error>, b: Result<seq<T>, Error>): Result<seq<T>, Error> {
    if a.Err? then a else if b.Err? then b else Ok(a.value + b.value)
  }

  lemma ConcatAssociative<T>(a: Result<seq<T>, Error>, b: Result<seq<T>, Error>, c: Result<seq<T>, Error>)
    ensures Concat(Concat(a, b), c) == Concat(a, Concat(b, c))
  {
    if a.Ok? && b.Ok? && c.Ok? {
      assert a.value + b.value + c.value == a.value + (b.value + c.value);
    }
  }

  function OptionalSeq<T>(r: Result<Option<T>, Error>): Result<seq<T>, Error> {
    match r
    case Err(e) => Err(e)
    case Ok(None) => Ok([])
    case Ok(Some(x)) => Ok([x])
  }

  /** All members of a result are index entries. */
  predicate FromIndex(index: Index, r: Result<seq<TypeDecl>, Error>) {
    r.Ok? ==> forall x | x in r.value :: x in index.Values
  }

  /** GetTypeArguments: the element type of an array, the type arguments of a
      (possibly qualified) generic name, nothing otherwise. */
  function GetTypeArguments(t: TypeRef): (r: seq<TypeRef>)
    ensures SizeAll(r) < Size(t)
    ensures t.ArrayType? ==> r == [t.elementType]
    ensures t.Predefined? || t.OtherType? ==> r == []
    ensures !t.ArrayType? && !t.Predefined? && TryGetName(t).Some? && TryGetName(t).value.GenericName? ==>
      r == TryGetName(t).value.typeArguments
    ensures !t.ArrayType? && !t.Predefined? && TryGetName(t).Some? && TryGetName(t).value.IdentifierName? ==>
      r == []
  {
    if t.Predefined? then []
    else if t.ArrayType? then
      assert SizeAll([t.elementType]) == Size(t.elementType) by {
        assert [t.elementType][..0] == [];
      }
      [t.elementType]
    else
      match TryGetName(t)
      case None => []
      case Some(n) => if n.GenericName? then n.typeArguments else []
  }

  /** What Unwrap yields for one type, in yield order: nothing for a predefined
      type; otherwise the index entry for the type's own name (if there is one),
      then what its type arguments yield, last argument first (the order the
      stack pops them). A shape GetNameString does not handle fails. */
  function Unwrapped(index: Index, t: TypeRef): (r: Result<seq<TypeDecl>, Error>)
    ensures FromIndex(index, r)
    decreases Size(t), 0
  {
    if t.Predefined? then Ok([])
    else
      match GetNameString(t)
      case Err(e) => Err(e)
      case Ok(name) => Concat(Ok(Resolve(index, name)), Pending(index, GetTypeArguments(t)))
  }

  /** What a stack of types still to visit yields: the top (last) one first. */
  function Pending(index: Index, stack: seq<TypeRef>): (r: Result<seq<TypeDecl>, Error>)
    ensures FromIndex(index, r)
    decreases SizeAll(stack), 1
  {
    if stack == [] then Ok([])
    else
      assert Size(stack[|stack| - 1]) >= 1;
      Concat(Unwrapped(index, stack[|stack| - 1]), Pending(index, stack[..|stack| - 1]))
  }

  /** Pushing more types on a stack: they are popped before the ones below. */
  lemma {:induction false} PendingPush(index: Index, below: seq<TypeRef>, pushed: seq<TypeRef>)
    ensures Pending(index, below + pushed) == Concat(Pending(index, pushed), Pending(index, below))
    decreases |pushed|
  {
    if pushed == [] {
      assert below + pushed == below;
      if Pending(index, below).Ok? {
        assert [] + Pending(index, below).value == Pending(index, below).value;
      }
    } else {
      var n := |pushed|;
      assert (below + pushed)[..|below + pushed| - 1] == below + pushed[..n - 1];
      assert (below + pushed)[|below + pushed| - 1] == pushed[n - 1];
      PendingPush(index, below, pushed[..n - 1]);
      ConcatAssociative(Unwrapped(index, pushed[n - 1]), Pending(index, pushed[..n - 1]), Pending(index, below));
    }
  }

  /** The unordered reference for Unwrap: the index entries named anywhere in
      the type, through type arguments and array elements at every depth. */
  ghost function Components(index: Index, t: TypeRef): set<TypeDecl>
    decreases Size(t), 0
  {
    if t.Predefined? then {}
    else
      var own := if GetNameString(t).Ok? && GetNameString(t).value in index
                 then {index[GetNameString(t).value]} else {};
      own + ComponentsAll(index, GetTypeArguments(t))
  }

  ghost function ComponentsAll(index: Index, ts: seq<TypeRef>): set<TypeDecl>
    decreases SizeAll(ts), 1
  {
    if ts == [] then {}
    else
      assert Size(ts[|ts| - 1]) >= 1;
      Components(index, ts[|ts| - 1]) + ComponentsAll(index, ts[..|ts| - 1])
  }

  /** Whatever order the stack visits types in, Unwrap yields exactly the index
      entries named anywhere inside the type. */
  lemma {:induction false} UnwrappedYieldsComponents(index: Index, t: TypeRef)
    requires Unwrapped(index, t).Ok?
    ensures forall x :: x in Unwrapped(index, t).value <==> x in Components(index, t)
    decreases Size(t), 0
  {
    if !t.Predefined? {
      PendingYieldsComponents(index, GetTypeArguments(t));
    }
  }

  lemma {:induction false} PendingYieldsComponents(index: Index, stack: seq<TypeRef>)
    requires Pending(index, stack).Ok?
    ensures forall x :: x in Pending(index, stack).value <==> x in ComponentsAll(index, stack)
    decreases SizeAll(stack), 1
  {
    if stack != [] {
      assert Size(stack[|stack| - 1]) >= 1;
      UnwrappedYieldsComponents(index, stack[|stack| - 1]);
      PendingYieldsComponents(index, stack[..|stack| - 1]);
    }
  }

  /** Unwrap does not stop at the first name it resolves: it succeeds only if
      every type argument (and array element) does, and yields everything each
      of them yields. */
  lemma {:induction false} UnwrapDescends(index: Index, t: TypeRef, a: TypeRef)
    requires Unwrapped(index, t).Ok? && a in GetTypeArguments(t)
    ensures Unwrapped(index, a).Ok?
    ensures forall x | x in Unwrapped(index, a).value :: x in Unwrapped(index, t).value
  {
    assert !t.Predefined?;
    PendingContains(index, GetTypeArguments(t), a);
  }

  lemma {:induction false} PendingContains(index: Index, stack: seq<TypeRef>, a: TypeRef)
    requires Pending(index, stack).Ok? && a in stack
    ensures Unwrapped(index, a).Ok?
    ensures forall x | x in Unwrapped(index, a).value :: x in Pending(index, stack).value
    decreases |stack|
  {
    var n := |stack|;
    if stack[n - 1] != a {
      assert a in stack[..n - 1] by {
        var i :| 0 <= i < n && stack[i] == a;
        assert stack[..n - 1][i] == a;
      }
      PendingContains(index, stack[..n - 1], a);
    }
  }

  /** The outer name comes first when it resolves; a predefined type yields
      nothing; an unsupported shape fails. */
  lemma UnwrapOuterFirst(index: Index, t: TypeRef)
    ensures t.Predefined? ==> Unwrapped(index, t) == Ok([])
    ensures t.AliasQualified? || t.OtherType? ==> Unwrapped(index, t).Err?
    ensures !t.Predefined? && Unwrapped(index, t).Ok? && GetNameString(t).value in index ==>
      |Unwrapped(index, t).value| > 0 && Unwrapped(index, t).value[0] == index[GetNameString(t).value]
  {
  }

  /** A generic whose arguments are all predefined yields at most its own name:
      the predefined arguments are skipped, not looked up. */
  lemma PredefinedArgumentsSkipped(index: Index, id: string, keywords: seq<string>)
    ensures Unwrapped(index, Simple(GenericName(id, seq(|keywords|, i requires 0 <= i < |keywords| => Predefined(keywords[i])))))
         == Ok(Resolve(index, id))
  {
    var args := seq(|keywords|, i requires 0 <= i < |keywords| => Predefined(keywords[i]));
    assert GetTypeArguments(Simple(GenericName(id, args))) == args;
    AllPredefinedPending(index, args);
    assert Resolve(index, id) + [] == Resolve(index, id);
  }

  lemma {:induction false} AllPredefinedPending(index: Index, stack: seq<TypeRef>)
    requires forall i | 0 <= i < |stack| :: stack[i].Predefined?
    ensures Pending(index, stack) == Ok([])
    decreases |stack|
  {
    if stack != [] {
      var rest := stack[..|stack| - 1];
      assert forall i | 0 <= i < |rest| :: rest[i] == stack[i];
      AllPredefinedPending(index, rest);
      assert Unwrapped(index, stack[|stack| - 1]) == Ok([]);
      var none: seq<TypeDecl> := [];
      assert none + none == none;
    }
  }

  /** The name GetFaultAttributes compares with "FaultContractAttribute": the
      rightmost identifier of the attribute name. */
  function AttributeName(name: TypeRef): string {
    match name
    case Qualified(_, right) => right.identifier
    case Simple(n) => n.identifier
    case AliasQualified(_, n) => n.identifier
    case _ => Text(name)
  }

  /** The declaration one attribute names as a fault contract, if it is one. */
  function FaultType(index: Index, a: Attribute): (r: Result<Option<TypeDecl>, Error>)
    ensures AttributeName(a.name) != "FaultContractAttribute" ==> r == Ok(None)
    ensures a.arguments.None? ==> r == Ok(None)
    ensures r.Ok? && r.value.Some? ==> r.value.value in index.Values
    ensures r.Ok? && r.value.Some? ==>
      a.arguments.Some? && |a.arguments.value| > 0 && a.arguments.value[0].expression.TypeOfExpression?
    ensures AttributeName(a.name) == "FaultContractAttribute" && a.arguments.Some? && |a.arguments.value| > 0 ==>
      var e := a.arguments.value[0].expression;
      (e.OtherExpression? ==> r == Err(InvalidCast)) &&
      (e.TypeOfExpression? && GetNameString(e.typeOperand).Err? ==> r == Err(GetNameString(e.typeOperand).error)) &&
      (e.TypeOfExpression? && GetNameString(e.typeOperand).Ok? && GetNameString(e.typeOperand).value !in index ==>
         r == Err(TypeNotFound(GetNameString(e.typeOperand).value))) &&
      (e.TypeOfExpression? && GetNameString(e.typeOperand).Ok? && GetNameString(e.typeOperand).value in index ==>
         r == Ok(Some(index[GetNameString(e.typeOperand).value])))
    ensures AttributeName(a.name) == "FaultContractAttribute" && a.arguments == Some([]) ==> r == Err(EmptySequence)
  {
    if AttributeName(a.name) != "FaultContractAttribute" then Ok(None)
    else match a.arguments
      case None => Ok(None)
      case Some(args) =>
        if |args| == 0 then Err(EmptySequence)
        else match args[0].expression
          case OtherExpression => Err(InvalidCast)
          case TypeOfExpression(operand) =>
            match GetNameString(operand)
            case Err(e) => Err(e)
            case Ok(name) => if name in index then Ok(Some(index[name])) else Err(TypeNotFound(name))
  }

  /** The fault-contract declarations of an attribute list, in order. */
  function FaultTypes(index: Index, attributes: seq<Attribute>): (r: Result<seq<TypeDecl>, Error>)
    ensures FromIndex(index, r)
  {
    if attributes == [] then Ok([])
    else Concat(FaultTypes(index, attributes[..|attributes| - 1]),
                OptionalSeq(FaultType(index, attributes[|attributes| - 1])))
  }

  /** A fault-contract list that resolves yields exactly the declarations its
      `typeof` arguments name: each attribute's own declaration, and nothing
      else. */
  lemma {:induction false} FaultTypesFromAttributes(index: Index, attributes: seq<Attribute>)
    requires FaultTypes(index, attributes).Ok?
    ensures forall i | 0 <= i < |attributes| :: FaultType(index, attributes[i]).Ok?
    ensures forall x :: x in FaultTypes(index, attributes).value <==>
      exists i | 0 <= i < |attributes| :: FaultType(index, attributes[i]) == Ok(Some(x))
  {
    if attributes != [] {
      var n := |attributes| - 1;
      var pre := attributes[..n];
      FaultTypesFromAttributes(index, pre);
      assert forall i | 0 <= i < n :: attributes[i] == pre[i];
      forall x | x in FaultTypes(index, attributes).value
        ensures exists i | 0 <= i < |attributes| :: FaultType(index, attributes[i]) == Ok(Some(x))
      {
        if x !in FaultTypes(index, pre).value {
          assert FaultType(index, attributes[n]) == Ok(Some(x));
        }
      }
    }
  }

  /** What the parameters of an operation yield, parameter by parameter. */
  function ParameterComponents(index: Index, parameters: seq<Parameter>): (r: Result<seq<TypeDecl>, Error>)
    ensures FromIndex(index, r)
  {
    if parameters == [] then Ok([])
    else Concat(ParameterComponents(index, parameters[..|parameters| - 1]),
                Unwrapped(index, parameters[|parameters| - 1].paramType))
  }

  /** What one operation contributes to the seed set: its return type, then its
      parameters, then its fault contracts. */
  function MethodComponents(index: Index, m: MethodDecl): (r: Result<seq<TypeDecl>, Error>)
    ensures FromIndex(index, r)
  {
    Concat(Concat(Unwrapped(index, m.returnType), ParameterComponents(index, m.parameters)),
           FaultTypes(index, m.attributes))
  }

  /** The seed list of a sequence of operations. */
  function Seeds(index: Index, methods: seq<MethodDecl>): (r: Result<seq<TypeDecl>, Error>)
    ensures FromIndex(index, r)
  {
    if methods == [] then Ok([])
    else Concat(Seeds(index, methods[..|methods| - 1]), MethodComponents(index, methods[|methods| - 1]))
  }

  /** Once a prefix of the operations fails, so does the whole list, with the
      same error. */
  lemma {:induction false} SeedsPrefixFails(index: Index, methods: seq<MethodDecl>, k: nat)
    requires k <= |methods| && Seeds(index, methods[..k]).Err?
    ensures Seeds(index, methods) == Seeds(index, methods[..k])
    decreases |methods| - k
  {
    if k < |methods| {
      assert methods[..k + 1][..k] == methods[..k];
      SeedsPrefixFails(index, methods, k + 1);
    } else {
      assert methods[..k] == methods;
    }
  }

  lemma {:induction false} ParametersPrefixFails(index: Index, parameters: seq<Parameter>, k: nat)
    requires k <= |parameters| && ParameterComponents(index, parameters[..k]).Err?
    ensures ParameterComponents(index, parameters) == ParameterComponents(index, parameters[..k])
    decreases |parameters| - k
  {
    if k < |parameters| {
      assert parameters[..k + 1][..k] == parameters[..k];
      ParametersPrefixFails(index, parameters, k + 1);
    } else {
      assert parameters[..k] == parameters;
    }
  }

  lemma {:induction false} FaultTypesPrefixFails(index: Index, attributes: seq<Attribute>, k: nat)
    requires k <= |attributes| && FaultTypes(index, attributes[..k]).Err?
    ensures FaultTypes(index, attributes) == FaultTypes(index, attributes[..k])
    decreases |attributes| - k
  {
    if k < |attributes| {
      assert attributes[..k + 1][..k] == attributes[..k];
      FaultTypesPrefixFails(index, attributes, k + 1);
    } else {
      assert attributes[..k] == attributes;
    }
  }

  /** The operations the walk starts from: every method of the Port interface,
      then every method of the client class. */
  function ContractMethods(port: TypeDecl, client: TypeDecl): seq<MethodDecl> {
    Methods(port.members) + Methods(client.members)
  }

  predicate NoDuplicates<T(==)>(s: seq<T>) {
    forall i, j | 0 <= i < j < |s| :: s[i] != s[j]
  }

  /** HashSet.Add applied to each element in turn; the set is kept in insertion
      order, which is the order .NET enumerates a set nothing was removed from. */
  function Inserted(found: seq<TypeDecl>, xs: seq<TypeDecl>): (r: seq<TypeDecl>)
    ensures found <= r
    ensures forall x | x in xs :: x in r
    ensures forall i | |found| <= i < |r| :: r[i] in xs
    ensures NoDuplicates(found) ==> NoDuplicates(r)
  {
    if xs == [] then found
    else
      var g := Inserted(found, xs[..|xs| - 1]);
      assert forall x | x in xs :: x in xs[..|xs| - 1] || x == xs[|xs| - 1];
      if xs[|xs| - 1] in g then g else g + [xs[|xs| - 1]]
  }

  lemma {:induction false} InsertedAppend(found: seq<TypeDecl>, a: seq<TypeDecl>, b: seq<TypeDecl>)
    ensures Inserted(found, a + b) == Inserted(Inserted(found, a), b)
    decreases |b|
  {
    if b == [] {
      assert a + b == a;
    } else {
      assert (a + b)[..|a + b| - 1] == a + b[..|b| - 1];
      InsertedAppend(found, a, b[..|b| - 1]);
    }
  }

  /** Every type a member of `c` has unwraps without error into entries of `s`. */
  ghost predicate TypeClosed(index: Index, t: TypeRef, s: seq<TypeDecl>) {
    Unwrapped(index, t).Ok? && forall x | x in Unwrapped(index, t).value :: x in s
  }

  ghost predicate Closed(index: Index, c: TypeDecl, s: seq<TypeDecl>) {
    forall t | t in GetInstanceMembers(c) :: TypeClosed(index, t, s)
  }

  /** `x` is found by unwrapping the type of some instance member of `c`. */
  ghost predicate Discovers(index: Index, c: TypeDecl, x: TypeDecl) {
    exists t | t in GetInstanceMembers(c) :: Unwrapped(index, t).Ok? && x in Unwrapped(index, t).value
  }

  /** Some instance member type of `c` cannot be unwrapped. */
  ghost predicate MemberError(index: Index, c: TypeDecl) {
    exists t | t in GetInstanceMembers(c) :: Unwrapped(index, t).Err?
  }

  /** Every element is a start element or was discovered from an earlier one. */
  ghost predicate DiscoveredFrom(index: Index, init: seq<TypeDecl>, s: seq<TypeDecl>) {
    forall i | 0 <= i < |s| :: Reached(index, init, s, i)
  }

  /** The i-th element is a start element or was discovered from an earlier one. */
  ghost predicate Reached(index: Index, init: seq<TypeDecl>, s: seq<TypeDecl>, i: nat)
    requires i < |s|
  {
    s[i] in init || exists j | 0 <= j < i :: Discovers(index, s[j], s[i])
  }

  /** What the walk computes from the start list `init`: a list that contains
      `init`, is closed under member types, and holds nothing that is not
      reachable from `init`. */
  ghost predicate IsRequirementSet(index: Index, init: seq<TypeDecl>, s: seq<TypeDecl>) {
    && (forall x | x in init :: x in s)
    && (forall c {:trigger Closed(index, c, s)} | c in s :: Closed(index, c, s))
    && DiscoveredFrom(index, init, s)
  }

  /** The result of the walk is determined as a set by its start list: two
      requirement sets for the same start list have the same elements, so the
      visiting order affects only the order of the rendered types. */
  lemma RequirementSetUnique(index: Index, init: seq<TypeDecl>, s1: seq<TypeDecl>, s2: seq<TypeDecl>)
    requires IsRequirementSet(index, init, s1) && IsRequirementSet(index, init, s2)
    ensures forall x :: x in s1 <==> x in s2
  {
    forall i | 0 <= i < |s1| ensures s1[i] in s2 {
      ReachableContained(index, init, s1, s2, i);
    }
    forall i | 0 <= i < |s2| ensures s2[i] in s1 {
      ReachableContained(index, init, s2, s1, i);
    }
  }

  /** Anything discovered from `init` lies in every closed list containing it. */
  lemma {:induction false} ReachableContained(index: Index, init: seq<TypeDecl>, s: seq<TypeDecl>, closed: seq<TypeDecl>, i: nat)
    requires DiscoveredFrom(index, init, s)
    requires forall x | x in init :: x in closed
    requires forall c {:trigger Closed(index, c, closed)} | c in closed :: Closed(index, c, closed)
    requires i < |s|
    ensures s[i] in closed
    decreases i
  {
    assert Reached(index, init, s, i);
    if s[i] !in init {
      var j :| 0 <= j < i && Discovers(index, s[j], s[i]);
      ReachableContained(index, init, s, closed, j);
      var t :| t in GetInstanceMembers(s[j]) && Unwrapped(index, t).Ok? && s[i] in Unwrapped(index, t).value;
      assert Closed(index, s[j], closed);
      assert TypeClosed(index, t, closed);
    }
  }

  /** With an index keyed by identifier, distinct entries have distinct
      identifiers: a duplicate-free walk result never holds two classes with
      the same name. */
  lemma DistinctIdentifiers(index: Index, s: seq<TypeDecl>)
    requires IndexKeyed(index) && NoDuplicates(s)
    requires forall c | c in s :: c in index.Values
    ensures forall i, j | 0 <= i < j < |s| :: s[i].identifier != s[j].identifier
  {
    forall i, j | 0 <= i < j < |s| ensures s[i].identifier != s[j].identifier {
      assert s[i] in s && s[j] in s;
      var ki :| ki in index && index[ki] == s[i];
      var kj :| kj in index && index[kj] == s[j];
    }
  }

  /** A duplicate-free list drawn from a finite set is no longer than the set. */
  lemma {:induction false} DistinctBound<T>(s: seq<T>, universe: set<T>)
    requires NoDuplicates(s) && forall x | x in s :: x in universe
    ensures |s| <= |universe|
    decreases |s|
  {
    if s != [] {
      var last := s[|s| - 1];
      var rest := s[..|s| - 1];
      assert last !in rest;
      DistinctBound(rest, universe - {last});
    }
  }

  /** Growing a list keeps every class closed that was closed. */
  lemma ClosedGrows(index: Index, c: TypeDecl, s: seq<TypeDecl>, s': seq<TypeDecl>)
    requires Closed(index, c, s) && s <= s'
    ensures Closed(index, c, s')
  {
  }

  /** Appending entries found through a member type of an earlier element keeps
      every element discovered. */
  lemma DiscoveredGrows(index: Index, init: seq<TypeDecl>, s: seq<TypeDecl>, s': seq<TypeDecl>, at: nat, t: TypeRef)
    requires DiscoveredFrom(index, init, s) && s <= s'
    requires at < |s| && t in GetInstanceMembers(s[at]) && Unwrapped(index, t).Ok?
    requires forall i | |s| <= i < |s'| :: s'[i] in Unwrapped(index, t).value
    ensures DiscoveredFrom(index, init, s')
  {
    forall i | 0 <= i < |s'| ensures Reached(index, init, s', i) {
      if i < |s| {
        assert Reached(index, init, s, i);
        if s[i] !in init {
          var j :| 0 <= j < i && Discovers(index, s[j], s[i]);
          assert s'[j] == s[j] && s'[i] == s[i];
        }
      } else {
        assert s'[at] == s[at];
        assert Discovers(index, s'[at], s'[i]);
      }
    }
  }

  /** What unwrapping the k-th member type of `s[at]` into `s'` preserves: the
      earlier member types stay closed, the k-th becomes closed, and the
      appended entries are discovered from `s[at]`. */
  lemma MemberVisited(index: Index, init: seq<TypeDecl>, s: seq<TypeDecl>, s': seq<TypeDecl>,
                      at: nat, members: seq<TypeRef>, k: nat)
    requires DiscoveredFrom(index, init, s) && at < |s|
    requires members == GetInstanceMembers(s[at]) && k < |members|
    requires Unwrapped(index, members[k]).Ok? && s' == Inserted(s, Unwrapped(index, members[k]).value)
    requires forall j | 0 <= j < k :: TypeClosed(index, members[j], s)
    ensures DiscoveredFrom(index, init, s')
    ensures forall j | 0 <= j <= k :: TypeClosed(index, members[j], s')
  {
    forall j | 0 <= j <= k ensures TypeClosed(index, members[j], s') {
      if j < k {
        assert TypeClosed(index, members[j], s);
      }
    }
    assert members[k] in GetInstanceMembers(s[at]);
    DiscoveredGrows(index, init, s, s', at, members[k]);
  }

  /** One pop of the worklist keeps its invariant: every class found is on the
      stack or closed. */
  lemma WorklistStep(index: Index, stack: seq<TypeDecl>, s: seq<TypeDecl>, popped: seq<TypeDecl>,
                     current: TypeDecl, stack': seq<TypeDecl>, s': seq<TypeDecl>)
    requires stack == popped + [current]
    requires forall x | x in stack :: x in s
    requires forall c {:trigger Closed(index, c, s)} | c in s :: c in stack || Closed(index, c, s)
    requires s <= s' && stack' == popped + s'[|s|..]
    requires Closed(index, current, s')
    ensures forall x | x in stack' :: x in s'
    ensures forall c {:trigger Closed(index, c, s')} | c in s' :: c in stack' || Closed(index, c, s')
  {
    forall x | x in stack' ensures x in s' {
      if x in popped {
        assert x in stack;
      } else {
        var i :| 0 <= i < |s'[|s|..]| && s'[|s|..][i] == x;
        assert s'[|s| + i] == x;
      }
    }
    forall c | c in s' ensures c in stack' || Closed(index, c, s') {
      if c !in stack' && c != current {
        if c in s {
          assert c !in popped;
          assert Closed(index, c, s);
          ClosedGrows(index, c, s, s');
        }
      }
    }
  }

  /** A discovered list stays discovered when its start list grows. */
  lemma DiscoveredWiderStart(index: Index, init: seq<TypeDecl>, init': seq<TypeDecl>, s: seq<TypeDecl>)
    requires DiscoveredFrom(index, init, s) && forall x | x in init :: x in init'
    ensures DiscoveredFrom(index, init', s)
  {
    forall i | 0 <= i < |s| ensures Reached(index, init', s, i) {
      assert Reached(index, init, s, i);
    }
  }

  /** RequirementExtractor: the index it resolves names in (`_pluck`) and the
      set of classes found so far (`_set`), in insertion order. */
  class RequirementExtractor {
    const pluck: Index
    var found: seq<TypeDecl>

    /** The visited set holds distinct index entries. Its comparer equates two
        declarations by their identifier token, which Roslyn equates only for
        the same token of the same tree, so distinct declarations stay apart. */
    ghost predicate Valid()
      reads this
    {
      (forall c | c in found :: c in pluck.Values) && NoDuplicates(found)
    }

    constructor (types: Index)
      ensures pluck == types && found == [] && Valid()
    {
      pluck := types;
      found := [];
    }

    /** HashSet.Add: true, and the class appended, when it was not there yet. */
    method Add(x: TypeDecl) returns (added: bool)
      modifies this
      ensures added == (x !in old(found))
      ensures found == if added then old(found) + [x] else old(found)
    {
      added := x !in found;
      if added {
        found := found + [x];
      }
    }

    /** Adds each class in turn. */
    method AddAll(xs: seq<TypeDecl>)
      requires Valid() && forall x | x in xs :: x in pluck.Values
      modifies this
      ensures Valid() && found == Inserted(old(found), xs)
    {
      for i := 0 to |xs|
        invariant found == Inserted(old(found), xs[..i])
        invariant Valid()
      {
        assert xs[..i + 1][..i] == xs[..i];
        var _ := Add(xs[i]);
      }
      assert xs[..|xs|] == xs;
    }

    /** Unwrap: the stack-driven walk over a type and its type arguments. */
    method Unwrap(t: TypeRef) returns (r: Result<seq<TypeDecl>, Error>)
      ensures r == Unwrapped(pluck, t)
    {
      if t.Predefined? {
        return Ok([]);
      }
      var name :- GetNameString(t);
      var out := Resolve(pluck, name);
      var stack := GetTypeArguments(t);
      while stack != []
        invariant Concat(Ok(out), Pending(pluck, stack)) == Unwrapped(pluck, t)
        decreases SizeAll(stack)
      {
        ghost var before := stack;
        var current := stack[|stack| - 1];
        stack := stack[..|stack| - 1];
        assert Pending(pluck, before) == Concat(Unwrapped(pluck, current), Pending(pluck, stack));
        ConcatAssociative(Ok(out), Unwrapped(pluck, current), Pending(pluck, stack));
        assert SizeAll(before) == SizeAll(stack) + Size(current);
        if current.Predefined? {
          if Pending(pluck, stack).Ok? {
            assert [] + Pending(pluck, stack).value == Pending(pluck, stack).value;
          }
          continue;
        }
        var n :- GetNameString(current);
        var args := GetTypeArguments(current);
        PendingPush(pluck, stack, args);
        ConcatAssociative(Ok(Resolve(pluck, n)), Pending(pluck, args), Pending(pluck, stack));
        ConcatAssociative(Ok(out), Ok(Resolve(pluck, n)), Concat(Pending(pluck, args), Pending(pluck, stack)));
        SizeAllAppend(stack, args);
        out := out + Resolve(pluck, n);
        stack := stack + args;
      }
      assert out + [] == out;
      return Ok(out);
    }

    /** GetContractReturnTypes: what the return type yields. */
    method GetContractReturnTypes(m: MethodDecl) returns (r: Result<seq<TypeDecl>, Error>)
      ensures r == Unwrapped(pluck, m.returnType)
    {
      r := Unwrap(m.returnType);
    }

    /** GetContractParameters: what each parameter type yields, in order. */
    method GetContractParameters(m: MethodDecl) returns (r: Result<seq<TypeDecl>, Error>)
      ensures r == ParameterComponents(pluck, m.parameters)
    {
      var out := [];
      for i := 0 to |m.parameters|
        invariant ParameterComponents(pluck, m.parameters[..i]) == Ok(out)
      {
        assert m.parameters[..i + 1][..i] == m.parameters[..i];
        var yielded := Unwrap(m.parameters[i].paramType);
        if yielded.Err? {
          ParametersPrefixFails(pluck, m.parameters, i + 1);
          return Err(yielded.error);
        }
        out := out + yielded.value;
      }
      assert m.parameters[..|m.parameters|] == m.parameters;
      return Ok(out);
    }

    /** GetFaultAttributes: the declaration named by the typeof argument of each
        FaultContractAttribute, in attribute order. */
    method GetFaultAttributes(m: MethodDecl) returns (r: Result<seq<TypeDecl>, Error>)
      ensures r == FaultTypes(pluck, m.attributes)
    {
      var out := [];
      for i := 0 to |m.attributes|
        invariant FaultTypes(pluck, m.attributes[..i]) == Ok(out)
      {
        assert m.attributes[..i + 1][..i] == m.attributes[..i];
        var attr := m.attributes[i];
        assert FaultTypes(pluck, m.attributes[..i + 1])
            == Concat(Ok(out), OptionalSeq(FaultType(pluck, attr)));
        assert out + [] == out;
        if FaultType(pluck, attr).Err? {
          FaultTypesPrefixFails(pluck, m.attributes, i + 1);
        }
        if AttributeName(attr.name) != "FaultContractAttribute" {
          continue;
        }
        if attr.arguments.None? {
          continue;
        }
        var args := attr.arguments.value;
        if |args| == 0 {
          return Err(EmptySequence);
        }
        if !args[0].expression.TypeOfExpression? {
          return Err(InvalidCast);
        }
        var name :- GetNameString(args[0].expression.typeOperand);
        if name !in pluck {
          return Err(TypeNotFound(name));
        }
        out := out + [pluck[name]];
      }
      assert m.attributes[..|m.attributes|] == m.attributes;
      return Ok(out);
    }

    /** Adds each class of `xs` and pushes the ones that were new. */
    method PushNew(xs: seq<TypeDecl>, stack: seq<TypeDecl>) returns (stack': seq<TypeDecl>)
      requires Valid() && forall x | x in xs :: x in pluck.Values
      modifies this
      ensures Valid() && found == Inserted(old(found), xs)
      ensures stack' == stack + found[|old(found)|..]
    {
      stack' := stack;
      for i := 0 to |xs|
        invariant found == Inserted(old(found), xs[..i])
        invariant Valid()
        invariant stack' == stack + found[|old(found)|..]
      {
        assert xs[..i + 1][..i] == xs[..i];
        ghost var before := found;
        var added := Add(xs[i]);
        if added {
          assert found[|old(found)|..] == before[|old(found)|..] + [xs[i]];
          stack' := stack' + [xs[i]];
        }
      }
      assert xs[..|xs|] == xs;
    }

    /** The three seeding loops for one operation: return type, parameters and
        fault contracts, each added to the set as it is produced. */
    method AddOperation(m: MethodDecl) returns (failure: Option<Error>)
      requires Valid()
      modifies this
      ensures Valid()
      ensures MethodComponents(pluck, m).Err? ==> failure == Some(MethodComponents(pluck, m).error)
      ensures MethodComponents(pluck, m).Ok? ==>
        failure.None? && found == Inserted(old(found), MethodComponents(pluck, m).value)
    {
      var returnTypes := GetContractReturnTypes(m);
      if returnTypes.Err? {
        return Some(returnTypes.error);
      }
      AddAll(returnTypes.value);
      var parameters := GetContractParameters(m);
      if parameters.Err? {
        return Some(parameters.error);
      }
      AddAll(parameters.value);
      var faults := GetFaultAttributes(m);
      if faults.Err? {
        return Some(faults.error);
      }
      AddAll(faults.value);
      InsertedAppend(old(found), returnTypes.value, parameters.value);
      InsertedAppend(old(found), returnTypes.value + parameters.value, faults.value);
      return None;
    }

    /** One member of the class being visited: unwraps its type and adds what
        is new to the set and to the stack. */
    method FollowMember(t: TypeRef, stack: seq<TypeDecl>, ghost seeded: seq<TypeDecl>, ghost at: nat,
                        ghost members: seq<TypeRef>, ghost k: nat)
      returns (stack': seq<TypeDecl>, failure: Option<Error>)
      requires Valid() && at < |found| && members == GetInstanceMembers(found[at])
      requires k < |members| && t == members[k]
      requires DiscoveredFrom(pluck, seeded, found)
      requires forall j | 0 <= j < k :: TypeClosed(pluck, members[j], found)
      modifies this
      ensures Valid() && old(found) <= found
      ensures failure.Some? ==> Unwrapped(pluck, t).Err?
      ensures failure.None? ==> stack' == stack + found[|old(found)|..]
      ensures failure.None? ==> DiscoveredFrom(pluck, seeded, found)
      ensures failure.None? ==> forall j | 0 <= j <= k :: TypeClosed(pluck, members[j], found)
    {
      var yielded := Unwrap(t);
      if yielded.Err? {
        return stack, Some(yielded.error);
      }
      stack' := PushNew(yielded.value, stack);
      MemberVisited(pluck, seeded, old(found), found, at, members, k);
      failure := None;
    }

    /** One pop of the worklist: follows every instance member of `current`. */
    method VisitMembers(current: TypeDecl, stack: seq<TypeDecl>, ghost seeded: seq<TypeDecl>, ghost at: nat)
      returns (stack': seq<TypeDecl>, failure: Option<Error>)
      requires Valid() && at < |found| && found[at] == current
      requires DiscoveredFrom(pluck, seeded, found)
      modifies this
      ensures Valid() && old(found) <= found
      ensures failure.Some? ==> MemberError(pluck, current)
      ensures failure.None? ==> stack' == stack + found[|old(found)|..]
      ensures failure.None? ==> Closed(pluck, current, found) && DiscoveredFrom(pluck, seeded, found)
    {
      var members := GetInstanceMembers(current);
      stack' := stack;
      for k := 0 to |members|
        invariant Valid() && old(found) <= found
        invariant found[at] == current
        invariant stack' == stack + found[|old(found)|..]
        invariant forall j | 0 <= j < k :: TypeClosed(pluck, members[j], found)
        invariant DiscoveredFrom(pluck, seeded, found)
      {
        ghost var before := found;
        var pushed;
        pushed, failure := FollowMember(members[k], stack', seeded, at, members, k);
        if failure.Some? {
          assert members[k] in GetInstanceMembers(current);
          return;
        }
        assert found[|old(found)|..] == before[|old(found)|..] + found[|before|..];
        stack' := pushed;
      }
      failure := None;
    }

    /** The seeding loop over the contract operations. */
    method AddOperations(methods: seq<MethodDecl>) returns (failure: Option<Error>)
      requires Valid()
      modifies this
      ensures Valid()
      ensures Seeds(pluck, methods).Err? ==> failure == Some(Seeds(pluck, methods).error)
      ensures Seeds(pluck, methods).Ok? ==>
        failure.None? && found == Inserted(old(found), Seeds(pluck, methods).value)
    {
      for k := 0 to |methods|
        invariant Valid()
        invariant Seeds(pluck, methods[..k]).Ok?
        invariant found == Inserted(old(found), Seeds(pluck, methods[..k]).value)
      {
        assert methods[..k + 1][..k] == methods[..k];
        assert methods[..k + 1][k] == methods[k];
        failure := AddOperation(methods[k]);
        if failure.Some? {
          SeedsPrefixFails(pluck, methods, k + 1);
          return;
        }
        InsertedAppend(old(found), Seeds(pluck, methods[..k]).value, MethodComponents(pluck, methods[k]).value);
      }
      assert methods[..|methods|] == methods;
      failure := None;
    }

    /** GetRequirements: seeds the set from the return types, parameter types
        and fault contracts of every Port and client method, then closes it over
        the instance member types of everything found, visiting each class once. */
    method GetRequirements(port: TypeDecl, client: TypeDecl) returns (r: Result<seq<TypeDecl>, Error>)
      requires Valid()
      modifies this
      ensures Valid()
      ensures Seeds(pluck, ContractMethods(port, client)).Err? ==> r == Seeds(pluck, ContractMethods(port, client))
      ensures Seeds(pluck, ContractMethods(port, client)).Ok? && r.Err? ==>
        exists c | c in found :: MemberError(pluck, c)
      ensures r.Ok? ==> Seeds(pluck, ContractMethods(port, client)).Ok? && r.value == found
      ensures r.Ok? ==>
        IsRequirementSet(pluck, old(found) + Seeds(pluck, ContractMethods(port, client)).value, found)
    {
      var methods := ContractMethods(port, client);
      var failure := AddOperations(methods);
      if failure.Some? {
        return Err(failure.value);
      }
      ghost var seeds := Seeds(pluck, methods).value;
      ghost var seeded := found;

      var stack := found;
      DistinctBound(found, pluck.Values);
      while stack != []
        invariant Valid()
        invariant seeded <= found
        invariant forall x | x in stack :: x in found
        invariant forall c {:trigger Closed(pluck, c, found)} | c in found :: c in stack || Closed(pluck, c, found)
        invariant DiscoveredFrom(pluck, seeded, found)
        invariant |found| <= |pluck.Values|
        decreases |pluck.Values| - |found|, |stack|
      {
        var current := stack[|stack| - 1];
        assert current in found;
        ghost var stackBefore, before := stack, found;
        stack := stack[..|stack| - 1];
        assert stackBefore == stack + [current];
        ghost var at :| 0 <= at < |found| && found[at] == current;
        ghost var popped := stack;
        stack, failure := VisitMembers(current, stack, seeded, at);
        if failure.Some? {
          assert current in found;
          return Err(failure.value);
        }
        WorklistStep(pluck, stackBefore, before, popped, current, stack, found);
        DistinctBound(found, pluck.Values);
      }
      DiscoveredWiderStart(pluck, seeded, old(found) + seeds, found);
      return Ok(found);
    }
  }
}
