/** The declaration view of a parsed C# file: the small part of Roslyn's syntax
    tree that the index, the dependency walker and the disagreement parser read.
    Trees are values; a declaration carries its full text, which the renderer
    copies verbatim. */
module Syntax {
  import opened Wrappers

  /** SimpleNameSyntax: a bare identifier, or an identifier with type arguments. */
  datatype SimpleName =
    | IdentifierName(identifier: string)
    | GenericName(identifier: string, typeArguments: seq<TypeRef>)

  /** The shapes of TypeSyntax the generated code uses. `OtherType` stands for
      every remaining shape (nullable, tuple, pointer, ...), named by its Roslyn
      node kind. */
  datatype TypeRef =
    | Predefined(keyword: string)                      // int, string, bool, ...
    | Simple(name: SimpleName)                         // Foo, List<Foo>
    | Qualified(left: TypeRef, right: SimpleName)      // A.B.Foo, System.Collections.Generic.List<Foo>
    | AliasQualified(alias: string, name: SimpleName)  // global::Foo
    | ArrayType(elementType: TypeRef, ranks: string)   // Foo[], Foo[][], Foo[,]
    | OtherType(kind: string, text: string)            // Foo?, (A, B), ...

  /** The trivia-free text of a type (ToString), written with ", " between type
      arguments as the generators emit it. */
  function Text(t: TypeRef): string {
    match t
    case Predefined(k) => k
    case Simple(n) => NameText(n)
    case Qualified(l, r) => Text(l) + "." + NameText(r)
    case AliasQualified(a, n) => a + "::" + NameText(n)
    case ArrayType(e, ranks) => Text(e) + ranks
    case OtherType(_, text) => text
  }

  function NameText(n: SimpleName): string {
    match n
    case IdentifierName(id) => id
    case GenericName(id, args) => id + "<" + JoinTexts(args) + ">"
  }

  function JoinTexts(ts: seq<TypeRef>): string {
    if ts == [] then ""
    else if |ts| == 1 then Text(ts[0])
    else JoinTexts(ts[..|ts| - 1]) + ", " + Text(ts[|ts| - 1])
  }

  /** Number of type nodes, a termination measure for walks over type arguments. */
  function Size(t: TypeRef): nat {
    match t
    case Predefined(_) => 1
    case Simple(n) => 1 + NameSize(n)
    case Qualified(l, r) => 1 + Size(l) + NameSize(r)
    case AliasQualified(_, n) => 1 + NameSize(n)
    case ArrayType(e, _) => 1 + Size(e)
    case OtherType(_, _) => 1
  }

  function NameSize(n: SimpleName): nat {
    match n
    case IdentifierName(_) => 1
    case GenericName(_, args) => 1 + SizeAll(args)
  }

  function SizeAll(ts: seq<TypeRef>): nat {
    if ts == [] then 0 else SizeAll(ts[..|ts| - 1]) + Size(ts[|ts| - 1])
  }

  lemma {:induction false} SizeAllAppend(a: seq<TypeRef>, b: seq<TypeRef>)
    ensures SizeAll(a + b) == SizeAll(a) + SizeAll(b)
    decreases |b|
  {
    if b != [] {
      assert (a + b)[..|a + b| - 1] == a + b[..|b| - 1];
      SizeAllAppend(a, b[..|b| - 1]);
    } else {
      assert a + b == a;
    }
  }

  datatype Modifier = PublicKeyword | StaticKeyword | OtherModifier(text: string)

  /** An attribute argument: its full text (trivia included) and its expression. */
  datatype AttributeArgument = AttributeArgument(fullText: string, expression: ArgumentExpression)

  datatype ArgumentExpression = TypeOfExpression(typeOperand: TypeRef) | OtherExpression

  /** An attribute; `arguments` is None when it has no argument list at all. */
  datatype Attribute = Attribute(name: TypeRef, arguments: Option<seq<AttributeArgument>>)

  datatype Parameter = Parameter(paramType: TypeRef)

  datatype MethodDecl = MethodDecl(
    modifiers: seq<Modifier>,
    returnType: TypeRef,
    parameters: seq<Parameter>,
    attributes: seq<Attribute>)

  /** A member of a class or interface. `Field` declares one type for all of its
      variables; `NestedType` is a class or interface declared inside the type;
      `OtherMember` covers constructors, events, ... */
  datatype Member =
    | Property(modifiers: seq<Modifier>, propertyType: TypeRef)
    | Field(modifiers: seq<Modifier>, fieldType: TypeRef, variables: seq<string>)
    | Method(methodDecl: MethodDecl)
    | NestedType(modifiers: seq<Modifier>, decl: TypeDecl)
    | OtherMember(modifiers: seq<Modifier>)
  {
    function Modifiers(): seq<Modifier> {
      match this
      case Property(m, _) => m
      case Field(m, _, _) => m
      case Method(d) => d.modifiers
      case NestedType(m, _) => m
      case OtherMember(m) => m
    }
  }

  datatype DeclKind = ClassKind | InterfaceKind

  /** A class or interface declaration. `baseTypes` holds the full text of each
      entry of its base list; `fullText` is ToFullString of the declaration. */
  datatype TypeDecl = TypeDecl(
    kind: DeclKind,
    identifier: string,
    attributes: seq<Attribute>,
    baseTypes: seq<string>,
    members: seq<Member>,
    fullText: string)

  /** A namespace declaration: its name, the trivia before it (the file's
      leading comments) and its members. */
  datatype Namespace = Namespace(name: string, leadingTrivia: string, members: seq<Node>)

  /** The nodes of a compilation unit that the core looks at. */
  datatype Node =
    | NamespaceNode(ns: Namespace)
    | DeclNode(decl: TypeDecl)

  /** DescendantNodes().OfType<NamespaceDeclarationSyntax>(), in document order. */
  function DescendantNamespaces(nodes: seq<Node>): seq<Namespace> {
    if nodes == [] then [] else NamespacesIn(nodes[0]) + DescendantNamespaces(nodes[1..])
  }

  function NamespacesIn(n: Node): seq<Namespace> {
    match n
    case NamespaceNode(ns) => [ns] + DescendantNamespaces(ns.members)
    case DeclNode(_) => []
  }

  /** Every class and interface declaration, nested ones included, in document
      order. */
  function DescendantDecls(nodes: seq<Node>): seq<TypeDecl> {
    if nodes == [] then [] else DeclsIn(nodes[0]) + DescendantDecls(nodes[1..])
  }

  function DeclsIn(n: Node): seq<TypeDecl> {
    match n
    case NamespaceNode(ns) => DescendantDecls(ns.members)
    case DeclNode(d) => [d] + NestedDecls(d.members)
  }

  /** The types declared inside a member list, each before the types declared
      inside it. */
  function NestedDecls(members: seq<Member>): seq<TypeDecl>
    decreases members
  {
    if members == [] then []
    else
      (if members[0].NestedType? then [members[0].decl] + NestedDecls(members[0].decl.members) else [])
      + NestedDecls(members[1..])
  }

  /** A type declared inside a member list is listed, and so is every type
      declared inside it. */
  lemma {:induction false} NestedListed(members: seq<Member>, i: nat)
    requires i < |members| && members[i].NestedType?
    ensures members[i].decl in NestedDecls(members)
    ensures forall e | e in NestedDecls(members[i].decl.members) :: e in NestedDecls(members)
  {
    if i > 0 {
      assert members[1..][i - 1] == members[i];
      NestedListed(members[1..], i - 1);
    }
  }

  /** DescendantDecls descends into declarations: a type declared inside a
      listed class or interface is listed too. */
  lemma {:induction false} NestedTypesIncluded(nodes: seq<Node>, d: TypeDecl, i: nat)
    requires d in DescendantDecls(nodes) && i < |d.members| && d.members[i].NestedType?
    ensures d.members[i].decl in DescendantDecls(nodes)
  {
    if d in DeclsIn(nodes[0]) {
      NestedInNode(nodes[0], d, i);
    } else {
      NestedTypesIncluded(nodes[1..], d, i);
    }
  }

  lemma {:induction false} NestedInNode(n: Node, d: TypeDecl, i: nat)
    requires d in DeclsIn(n) && i < |d.members| && d.members[i].NestedType?
    ensures d.members[i].decl in DeclsIn(n)
  {
    match n
    case NamespaceNode(ns) => NestedTypesIncluded(ns.members, d, i);
    case DeclNode(outer) =>
      if d == outer {
        NestedListed(d.members, i);
      } else {
        NestedInMembers(outer.members, d, i);
      }
  }

  lemma {:induction false} NestedInMembers(members: seq<Member>, d: TypeDecl, i: nat)
    requires d in NestedDecls(members) && i < |d.members| && d.members[i].NestedType?
    ensures d.members[i].decl in NestedDecls(members)
    decreases members
  {
    var m := members[0];
    if m.NestedType? && d == m.decl {
      NestedListed(d.members, i);
    } else if m.NestedType? && d in NestedDecls(m.decl.members) {
      NestedInMembers(m.decl.members, d, i);
    } else {
      NestedInMembers(members[1..], d, i);
    }
  }

  /** DescendantNodes().OfType<ClassDeclarationSyntax>(). */
  function Classes(nodes: seq<Node>): (r: seq<TypeDecl>)
    ensures forall d :: d in r <==> d in DescendantDecls(nodes) && d.kind == ClassKind
  {
    Filter(DescendantDecls(nodes), IsClass)
  }

  predicate IsClass(d: TypeDecl) { d.kind == ClassKind }

  /** When every declaration is a class, Classes lists them all, in order. */
  lemma ClassesOnly(nodes: seq<Node>)
    requires forall d | d in DescendantDecls(nodes) :: d.kind == ClassKind
    ensures Classes(nodes) == DescendantDecls(nodes)
  {
    FilterKeepsAll(DescendantDecls(nodes), IsClass);
  }

  /** DescendantNodes().OfType<InterfaceDeclarationSyntax>(). */
  function Interfaces(nodes: seq<Node>): (r: seq<TypeDecl>)
    ensures forall d :: d in r <==> d in DescendantDecls(nodes) && d.kind == InterfaceKind
  {
    Filter(DescendantDecls(nodes), (d: TypeDecl) => d.kind == InterfaceKind)
  }

  /** DescendantNodes().OfType<MethodDeclarationSyntax>() of one declaration:
      its methods and those of the types declared inside it, in document order. */
  function Methods(members: seq<Member>): (r: seq<MethodDecl>)
    ensures forall m | Method(m) in members :: m in r
    decreases members
  {
    if members == [] then []
    else
      assert forall m | m in members[1..] :: m in members;
      (match members[0]
       case Method(d) => [d]
       case NestedType(_, t) => Methods(t.members)
       case _ => []) + Methods(members[1..])
  }

  /** A method is listed iff it is declared directly in the member list or
      listed for a type declared in it. */
  lemma {:induction false} MethodsOfNested(members: seq<Member>)
    ensures forall m :: m in Methods(members) <==>
      Method(m) in members ||
      exists i | 0 <= i < |members| && members[i].NestedType? :: m in Methods(members[i].decl.members)
  {
    if members != [] {
      MethodsOfNested(members[1..]);
      assert forall i | 1 <= i < |members| :: members[i] == members[1..][i - 1];
      assert forall x | x in members :: x == members[0] || x in members[1..];
    }
  }

  /** LINQ Where: the elements satisfying `p`, in order. */
  function Filter<T(!new)>(xs: seq<T>, p: T -> bool): (r: seq<T>)
    ensures |r| <= |xs|
    ensures forall x :: x in r <==> x in xs && p(x)
  {
    if xs == [] then [] else (if p(xs[0]) then [xs[0]] else []) + Filter(xs[1..], p)
  }

  lemma {:induction false} FilterKeepsAll<T(!new)>(xs: seq<T>, p: T -> bool)
    requires forall x | x in xs :: p(x)
    ensures Filter(xs, p) == xs
  {
    if xs != [] {
      assert forall x | x in xs[1..] :: x in xs;
      FilterKeepsAll(xs[1..], p);
    }
  }

  lemma {:induction false} FilterAppend<T(!new)>(xs: seq<T>, ys: seq<T>, p: T -> bool)
    ensures Filter(xs + ys, p) == Filter(xs, p) + Filter(ys, p)
  {
    if xs != [] {
      assert (xs + ys)[1..] == xs[1..] + ys;
      FilterAppend(xs[1..], ys, p);
    } else {
      assert xs + ys == ys;
    }
  }
}
