/** SyntaxCoalescer.GetContext: from the parsed dotnet-svcutil and xscgen files,
    the namespace and header of the merged output, the service contract (port,
    port channel, client) and the class index the dependency walker resolves
    names in. */
module Coalescing {
  import opened Wrappers
  import opened Errors
  import opened Syntax
  import opened StringExtensions
  import opened Requirements

  /** Context: what the renderer and the walker are given. */
  datatype Context = Context(
    namespace: Namespace,
    headerTrivia: string,
    svcutilVersion: Option<string>,
    port: TypeDecl,
    portChannel: TypeDecl,
    client: TypeDecl,
    types: Index)

  /** A generated output file. */
  datatype NewFile = NewFile(filename: string, content: string)

  /** The three files the merge produces. */
  datatype CoalescedFiles = CoalescedFiles(interfaces: NewFile, client: NewFile, types: NewFile)

  const ClientBaseMarker: string := "ClientBase<"

  /** LINQ First: the first element, or an error on an empty sequence. */
  function First<T>(xs: seq<T>): (r: Result<T, Error>)
    ensures xs == [] <==> r == Err(EmptySequence)
    ensures xs != [] ==> r == Ok(xs[0])
  {
    if xs == [] then Err(EmptySequence) else Ok(xs[0])
  }

  /** LINQ Single: the only element; an error on none and on more than one. */
  function Single<T>(xs: seq<T>): (r: Result<T, Error>)
    ensures |xs| == 0 <==> r == Err(EmptySequence)
    ensures |xs| > 1 <==> r == Err(MoreThanOneElement)
    ensures r.Ok? <==> |xs| == 1
    ensures |xs| == 1 ==> r == Ok(xs[0])
  {
    if |xs| == 0 then Err(EmptySequence)
    else if |xs| > 1 then Err(MoreThanOneElement)
    else Ok(xs[0])
  }

  /** Some entry of a base list has a full text containing "ClientBase<". A
      declaration without a base list has no entries. */
  function MentionsClientBase(baseTypes: seq<string>): (r: bool)
    ensures r <==> exists i | 0 <= i < |baseTypes| :: Contains(baseTypes[i], ClientBaseMarker)
  {
    if baseTypes == [] then false
    else
      assert forall i | 1 <= i < |baseTypes| :: baseTypes[i] == baseTypes[1..][i - 1];
      Contains(baseTypes[0], ClientBaseMarker) || MentionsClientBase(baseTypes[1..])
  }

  /** The interfaces of the svcutil file whose name ends with `suffix`: "Port"
      selects the port, "PortChannel" the port channel. */
  function InterfacesEndingWith(svcutil: seq<Node>, suffix: string): (r: seq<TypeDecl>)
    ensures forall d :: d in r <==>
      d in DescendantDecls(svcutil) && d.kind == InterfaceKind && EndsWith(d.identifier, suffix)
  {
    Filter(Interfaces(svcutil), (d: TypeDecl) => EndsWith(d.identifier, suffix))
  }

  /** No name ends with both "Port" and "PortChannel", so the port and the port
      channel are always two different interfaces. */
  lemma PortIsNotPortChannel(svcutil: seq<Node>)
    ensures forall d | d in InterfacesEndingWith(svcutil, "Port") :: d !in InterfacesEndingWith(svcutil, "PortChannel")
  {
    forall d | d in InterfacesEndingWith(svcutil, "Port")
      ensures d !in InterfacesEndingWith(svcutil, "PortChannel")
    {
      var id := d.identifier;
      assert id[|id| - 1] == 't';
    }
  }

  /** The classes of the svcutil file with a ClientBase< base. */
  function ClientCandidates(svcutil: seq<Node>): (r: seq<TypeDecl>)
    ensures forall d :: d in r <==> d in Classes(svcutil) && MentionsClientBase(d.baseTypes)
  {
    Filter(Classes(svcutil), (d: TypeDecl) => MentionsClientBase(d.baseTypes))
  }

  /** The classes the index is built from, in the order they are added: the
      svcutil classes without a ClientBase< base, then every xscgen class. */
  function IndexedClasses(svcutil: seq<Node>, xscgen: seq<Node>): (r: seq<TypeDecl>)
    ensures forall d :: d in r <==>
      (d in Classes(svcutil) && !MentionsClientBase(d.baseTypes)) || d in Classes(xscgen)
    ensures |Classes(xscgen)| <= |r| && r[|r| - |Classes(xscgen)|..] == Classes(xscgen)
    ensures forall i | 0 <= i < |r| - |Classes(xscgen)| :: r[i] in Classes(svcutil) && !MentionsClientBase(r[i].baseTypes)
  {
    var own := Filter(Classes(svcutil), (d: TypeDecl) => !MentionsClientBase(d.baseTypes));
    assert forall i | 0 <= i < |own| :: own[i] in own;
    own + Classes(xscgen)
  }

  /** No two classes of the list share an identifier. */
  predicate DistinctIds(cs: seq<TypeDecl>) {
    forall i, j | 0 <= i < j < |cs| :: cs[i].identifier != cs[j].identifier
  }

  /** The class at `j` has the identifier of an earlier one. */
  predicate CollidesAt(cs: seq<TypeDecl>, j: nat)
    requires j < |cs|
  {
    exists i | 0 <= i < j :: cs[i].identifier == cs[j].identifier
  }

  /** `name` is the identifier of the first class of `cs` whose identifier an
      earlier class already has. */
  predicate FirstCollision(cs: seq<TypeDecl>, name: string) {
    exists j | 0 <= j < |cs| :: DistinctIds(cs[..j]) && CollidesAt(cs, j) && name == cs[j].identifier
  }

  /** `index` files exactly the classes of `cs`, each under its identifier. */
  ghost predicate IndexOf(index: Index, cs: seq<TypeDecl>) {
    && IndexKeyed(index)
    && index.Keys == (set c | c in cs :: c.identifier)
    && (forall c | c in cs :: index[c.identifier] == c)
  }

  /** The TryAdd loop: each class is filed under its identifier; the first
      class whose identifier is already filed raises a type collision naming
      it. */
  method BuildIndex(classes: seq<TypeDecl>) returns (r: Result<Index, Error>)
    ensures r.Ok? <==> DistinctIds(classes)
    ensures r.Ok? ==> IndexOf(r.value, classes)
    ensures r.Err? ==> r.error.TypeCollision? && FirstCollision(classes, r.error.name)
  {
    var b: Index := map[];
    for j := 0 to |classes|
      invariant DistinctIds(classes[..j])
      invariant IndexOf(b, classes[..j])
    {
      var c := classes[j];
      if c.identifier in b {
        var i :| 0 <= i < j && classes[..j][i].identifier == c.identifier;
        assert classes[i] == classes[..j][i];
        return Err(TypeCollision(c.identifier));
      }
      assert classes[..j + 1] == classes[..j] + [c];
      FileClass(b, classes[..j], c);
      b := b[c.identifier := c];
    }
    assert classes[..|classes|] == classes;
    return Ok(b);
  }

  /** Filing a class under a fresh identifier keeps the index exact and the
      identifiers distinct. */
  lemma FileClass(b: Index, cs: seq<TypeDecl>, c: TypeDecl)
    requires IndexOf(b, cs) && DistinctIds(cs) && c.identifier !in b
    ensures IndexOf(b[c.identifier := c], cs + [c])
    ensures DistinctIds(cs + [c])
  {
  }

  /** GetContext over the two parsed files and the svcutil version read from
      its parameter file (svcParams?.Version). Each step fails in turn: no
      namespace in the xscgen file; not exactly one port; not exactly one port
      channel; not exactly one client; an identifier collision in the index. */
  method GetContext(svcutil: seq<Node>, xscgen: seq<Node>, svcutilVersion: Option<string>)
    returns (r: Result<Context, Error>)
    ensures DescendantNamespaces(xscgen) == [] ==> r == Err(EmptySequence)
    ensures (DescendantNamespaces(xscgen) != [] && |InterfacesEndingWith(svcutil, "Port")| != 1) ==>
      r == Err(Single(InterfacesEndingWith(svcutil, "Port")).error)
    ensures (DescendantNamespaces(xscgen) != [] && |InterfacesEndingWith(svcutil, "Port")| == 1
             && |InterfacesEndingWith(svcutil, "PortChannel")| != 1) ==>
      r == Err(Single(InterfacesEndingWith(svcutil, "PortChannel")).error)
    ensures (DescendantNamespaces(xscgen) != [] && |InterfacesEndingWith(svcutil, "Port")| == 1
             && |InterfacesEndingWith(svcutil, "PortChannel")| == 1 && |ClientCandidates(svcutil)| != 1) ==>
      r == Err(Single(ClientCandidates(svcutil)).error)
    ensures (DescendantNamespaces(xscgen) != [] && |InterfacesEndingWith(svcutil, "Port")| == 1
             && |InterfacesEndingWith(svcutil, "PortChannel")| == 1 && |ClientCandidates(svcutil)| == 1) ==>
      (r.Ok? <==> DistinctIds(IndexedClasses(svcutil, xscgen)))
    ensures r.Err? && r.error.TypeCollision? ==> FirstCollision(IndexedClasses(svcutil, xscgen), r.error.name)
    ensures r.Ok? ==>
      && r.value.namespace == DescendantNamespaces(xscgen)[0]
      && r.value.headerTrivia == r.value.namespace.leadingTrivia
      && r.value.svcutilVersion == svcutilVersion
      && InterfacesEndingWith(svcutil, "Port") == [r.value.port]
      && InterfacesEndingWith(svcutil, "PortChannel") == [r.value.portChannel]
      && ClientCandidates(svcutil) == [r.value.client]
      && IndexOf(r.value.types, IndexedClasses(svcutil, xscgen))
  {
    var namespaces := DescendantNamespaces(xscgen);
    var ports := InterfacesEndingWith(svcutil, "Port");
    var portChannels := InterfacesEndingWith(svcutil, "PortChannel");
    var clients := ClientCandidates(svcutil);
    if namespaces == [] { return Err(EmptySequence); }
    var ns := namespaces[0];
    if |ports| != 1 { return Err(Single(ports).error); }
    if |portChannels| != 1 { return Err(Single(portChannels).error); }
    if |clients| != 1 { return Err(Single(clients).error); }
    var types := BuildIndex(IndexedClasses(svcutil, xscgen));
    if types.Err? { return Err(types.error); }
    return Ok(Context(ns, ns.leadingTrivia, svcutilVersion, ports[0], portChannels[0], clients[0], types.value));
  }

  /** A class declared inside an xscgen class is indexed like any other: when
      it shares its identifier with a class declared after the outer one, the
      index cannot be built. */
  lemma NestedClassesCollide(svcutil: seq<Node>, xscgen: seq<Node>, name: string, trivia: string,
                             outer: TypeDecl, inner: TypeDecl, dup: TypeDecl)
    requires xscgen == [NamespaceNode(Namespace(name, trivia, [DeclNode(outer), DeclNode(dup)]))]
    requires outer.kind == ClassKind && |outer.members| == 1 && outer.members[0].NestedType?
    requires inner == outer.members[0].decl && inner.members == []
    requires inner.kind == ClassKind && dup.kind == ClassKind && dup.members == []
    requires inner.identifier == dup.identifier
    ensures !DistinctIds(IndexedClasses(svcutil, xscgen))
  {
    var m := outer.members;
    assert m[1..] == [];
    assert NestedDecls(m) == [inner];
    var nodes := [DeclNode(outer), DeclNode(dup)];
    assert nodes[1..] == [DeclNode(dup)] && nodes[1..][1..] == [];
    assert DeclsIn(DeclNode(outer)) == [outer, inner];
    assert DeclsIn(DeclNode(dup)) == [dup];
    assert DescendantDecls(nodes[1..]) == [dup];
    assert DescendantDecls(nodes) == [outer, inner, dup];
    assert DescendantDecls(xscgen) == [outer, inner, dup];
    ClassesOnly(xscgen);
    var r := IndexedClasses(svcutil, xscgen);
    var k := |r| - 3;
    assert r[k + 1] == inner && r[k + 2] == dup;
  }

  /** The index holds every xscgen class and every svcutil class except those
      whose base list mentions ClientBase<, and nothing else. */
  lemma IndexContents(svcutil: seq<Node>, xscgen: seq<Node>, index: Index)
    requires IndexOf(index, IndexedClasses(svcutil, xscgen))
    ensures forall c :: c in index.Values <==>
      c in Classes(xscgen) || (c in Classes(svcutil) && !MentionsClientBase(c.baseTypes))
  {
  }

  /** The client is never in the index, and neither port interface is. */
  lemma ContractNotIndexed(svcutil: seq<Node>, xscgen: seq<Node>, ctx: Context)
    requires IndexOf(ctx.types, IndexedClasses(svcutil, xscgen))
    requires ClientCandidates(svcutil) == [ctx.client]
    requires InterfacesEndingWith(svcutil, "Port") == [ctx.port]
    requires forall d | d in DescendantDecls(xscgen) :: d.kind == ClassKind ==> !MentionsClientBase(d.baseTypes)
    ensures ctx.client !in ctx.types.Values
    ensures ctx.port !in ctx.types.Values
  {
  }
}
