/** ClientParser: rewrites a dotnet-svcutil tree with the disagreement rules,
    then picks out its namespace, its message and client classes, and all of
    its interfaces. */
module ClientParsing {
  import opened Wrappers
  import opened Errors
  import opened StringExtensions
  import opened Disagreements
  import opened Rewriting
  import Syntax
  import Coalescing

  /** A ClientParser holds the rewriter it applies, here the rule list of a
      DisagreementRewriter. */
  datatype ClientParser = ClientParser(rules: seq<TypeDisagreement>)

  /** What Extract hands to ServiceFile: the namespace and the selected
      declarations. */
  datatype ServiceFile = ServiceFile(ns: SyntaxNode, declarations: seq<SyntaxNode>)

  const MessageSuffixes: seq<string> := ["Input", "Output"]

  /** The constructor: a null rewriter is refused. */
  function NewClientParser(rewriter: Option<seq<TypeDisagreement>>): (r: Result<ClientParser, Error>)
    ensures rewriter.None? <==> r == Err(ArgumentNull("rewriter"))
    ensures rewriter.Some? ==> r == Ok(ClientParser(rewriter.value))
  {
    match rewriter
    case None => Err(ArgumentNull("rewriter"))
    case Some(rules) => Ok(ClientParser(rules))
  }

  /** DescendantNodes() of a compilation unit whose top-level nodes are `ns`:
      every node, each before its own descendants, in document order. */
  function Descendants(ns: seq<SyntaxNode>): seq<SyntaxNode>
    decreases ns
  {
    if ns == [] then [] else [ns[0]] + Descendants(ns[0].children) + Descendants(ns[1..])
  }

  predicate IsNamespace(n: SyntaxNode) { n.NamespaceDecl? }
  predicate IsInterface(n: SyntaxNode) { n.InterfaceDecl? }

  /** The class filter of Extract. */
  predicate IsSelectedClass(n: SyntaxNode) {
    n.ClassDecl? && (EndsWithEither(n.identifier, MessageSuffixes) || Coalescing.MentionsClientBase(n.baseTypes))
  }

  /** Extract over an already parsed file: the rewriter runs over the whole
      tree first; then the first namespace (an error when there is none), the
      selected classes and every interface, classes first. */
  function Extract(p: ClientParser, root: seq<SyntaxNode>): Result<ServiceFile, Error> {
    match RewriteAll(p.rules, root)
    case Err(e) => Err(e)
    case Ok(rewritten) =>
      var nodes := Descendants(rewritten);
      var namespaces := Syntax.Filter(nodes, IsNamespace);
      if namespaces == [] then Err(EmptySequence)
      else
        var classes := Syntax.Filter(nodes, IsSelectedClass);
        var interfaces := Syntax.Filter(nodes, IsInterface);
        Ok(ServiceFile(namespaces[0], classes + interfaces))
  }

  /** The rewriter is applied before anything is selected: a failing rewrite
      fails Extract with the rewrite's error, whatever the tree holds. */
  lemma RewriteComesFirst(p: ClientParser, root: seq<SyntaxNode>)
    ensures RewriteAll(p.rules, root).Err? ==> Extract(p, root) == Err(RewriteAll(p.rules, root).error)
    ensures Extract(p, root).Ok? ==> RewriteAll(p.rules, root).Ok?
  {
  }

  /** A tree with no namespace declaration fails with First's empty-sequence
      error; otherwise the namespace is the first one in document order. */
  lemma NamespaceIsFirst(p: ClientParser, root: seq<SyntaxNode>)
    requires RewriteAll(p.rules, root).Ok?
    ensures var nodes := Descendants(RewriteAll(p.rules, root).value);
      && ((forall n | n in nodes :: !n.NamespaceDecl?) <==> Extract(p, root) == Err(EmptySequence))
      && (Extract(p, root).Ok? ==>
            var i := FirstIndex(nodes, IsNamespace);
            i < |nodes| && Extract(p, root).value.ns == nodes[i])
  {
    var nodes := Descendants(RewriteAll(p.rules, root).value);
    FirstOfFilter(nodes, IsNamespace);
  }

  /** The position of the first element that passes `f`; |xs| when none does. */
  function FirstIndex(xs: seq<SyntaxNode>, f: SyntaxNode -> bool): (i: nat)
    ensures i <= |xs| && (i < |xs| ==> f(xs[i])) && forall j | 0 <= j < i :: !f(xs[j])
  {
    if xs == [] || f(xs[0]) then 0 else 1 + FirstIndex(xs[1..], f)
  }

  /** A filter is empty exactly when nothing passes, and its head is the
      first element that passes. */
  lemma {:induction false} FirstOfFilter(xs: seq<SyntaxNode>, f: SyntaxNode -> bool)
    ensures Syntax.Filter(xs, f) == [] <==> FirstIndex(xs, f) == |xs|
    ensures Syntax.Filter(xs, f) != [] ==> Syntax.Filter(xs, f)[0] == xs[FirstIndex(xs, f)]
  {
    if xs != [] && !f(xs[0]) {
      FirstOfFilter(xs[1..], f);
    }
  }

  /** A declaration is extracted iff it is a node of the rewritten tree that is
      an interface, or a class named ...Input or ...Output, or a class with a
      ClientBase< base. */
  lemma ExtractedDeclarations(p: ClientParser, root: seq<SyntaxNode>)
    requires Extract(p, root).Ok?
    ensures forall d :: d in Extract(p, root).value.declarations <==>
      d in Descendants(RewriteAll(p.rules, root).value) &&
      (d.InterfaceDecl? ||
       (d.ClassDecl? && (EndsWith(d.identifier, "Input") || EndsWith(d.identifier, "Output") ||
                         exists i | 0 <= i < |d.baseTypes| :: Contains(d.baseTypes[i], "ClientBase<"))))
  {
    assert forall id :: EndsWithEither(id, MessageSuffixes) <==>
      EndsWith(id, MessageSuffixes[0]) || EndsWith(id, MessageSuffixes[1]);
  }

  /** The selected classes come first, then the interfaces. */
  lemma ClassesBeforeInterfaces(p: ClientParser, root: seq<SyntaxNode>)
    requires Extract(p, root).Ok?
    ensures var ds := Extract(p, root).value.declarations;
      && (forall i | 0 <= i < |ds| :: ds[i].ClassDecl? || ds[i].InterfaceDecl?)
      && (forall i, j | 0 <= i < j < |ds| :: ds[j].ClassDecl? ==> ds[i].ClassDecl?)
  {
    var nodes := Descendants(RewriteAll(p.rules, root).value);
    var classes := Syntax.Filter(nodes, IsSelectedClass);
    var interfaces := Syntax.Filter(nodes, IsInterface);
    var ds := classes + interfaces;
    assert forall i | 0 <= i < |classes| :: ds[i] == classes[i] && ds[i] in classes;
    assert forall i | |classes| <= i < |ds| :: ds[i] == interfaces[i - |classes|] && ds[i] in interfaces;
  }

  /** `Skeleton` of every element. */
  function Skeletons(ns: seq<SyntaxNode>): (r: seq<SyntaxNode>)
    ensures |r| == |ns| && forall i | 0 <= i < |ns| :: r[i] == Skeleton(ns[i])
  {
    if ns == [] then [] else [Skeleton(ns[0])] + Skeletons(ns[1..])
  }

  lemma {:induction false} SkeletonsAppend(a: seq<SyntaxNode>, b: seq<SyntaxNode>)
    ensures Skeletons(a + b) == Skeletons(a) + Skeletons(b)
  {
  }

  /** Blanking site types commutes with listing the nodes of a tree. */
  lemma {:induction false} DescendantsOfSkeleton(ns: seq<SyntaxNode>)
    ensures Descendants(SkeletonAll(ns)) == Skeletons(Descendants(ns))
    decreases ns
  {
    if ns != [] {
      var sk := SkeletonAll(ns);
      assert sk[0] == Skeleton(ns[0]) && sk[1..] == SkeletonAll(ns[1..]);
      assert Skeleton(ns[0]).children == SkeletonAll(ns[0].children);
      DescendantsOfSkeleton(ns[0].children);
      DescendantsOfSkeleton(ns[1..]);
      SkeletonsAppend([ns[0]] + Descendants(ns[0].children), Descendants(ns[1..]));
      SkeletonsAppend([ns[0]], Descendants(ns[0].children));
    }
  }

  /** Filtering by a predicate that only looks at what Skeleton keeps commutes
      with Skeleton. */
  lemma {:induction false} FilterOfSkeletons(xs: seq<SyntaxNode>, f: SyntaxNode -> bool)
    requires forall x | x in xs :: f(Skeleton(x)) == f(x)
    ensures Skeletons(Syntax.Filter(xs, f)) == Syntax.Filter(Skeletons(xs), f)
  {
    if xs != [] {
      FilterOfSkeletons(xs[1..], f);
      var rest := Syntax.Filter(xs[1..], f);
      SkeletonsAppend(if f(xs[0]) then [xs[0]] else [], rest);
      assert Skeletons(xs)[1..] == Skeletons(xs[1..]);
    }
  }

  /** The selection predicates look only at kinds, identifiers and base lists. */
  lemma SelectionIgnoresSiteTypes(n: SyntaxNode)
    ensures IsNamespace(Skeleton(n)) == IsNamespace(n)
    ensures IsSelectedClass(Skeleton(n)) == IsSelectedClass(n)
    ensures IsInterface(Skeleton(n)) == IsInterface(n)
  {
  }

  /** Rewriting does not change what is selected: the extracted namespace and
      declarations are, up to their site types, those Extract finds when the
      rewriter has no rules (which leaves the tree as parsed). */
  lemma SelectionUnaffectedByRewrite(p: ClientParser, root: seq<SyntaxNode>)
    requires Extract(p, root).Ok?
    ensures Extract(ClientParser([]), root).Ok?
    ensures Skeleton(Extract(p, root).value.ns) == Skeleton(Extract(ClientParser([]), root).value.ns)
    ensures Skeletons(Extract(p, root).value.declarations)
         == Skeletons(Extract(ClientParser([]), root).value.declarations)
  {
    var rewritten := RewriteAll(p.rules, root).value;
    NoRulesIdentityAll(root);
    RewriteAllTouchesOnlySites(p.rules, root);
    DescendantsOfSkeleton(rewritten);
    DescendantsOfSkeleton(root);
    var a, b := Descendants(rewritten), Descendants(root);
    assert Skeletons(a) == Skeletons(b);
    forall x | x in a ensures IsNamespace(Skeleton(x)) == IsNamespace(x) { SelectionIgnoresSiteTypes(x); }
    forall x | x in b ensures IsNamespace(Skeleton(x)) == IsNamespace(x) { SelectionIgnoresSiteTypes(x); }
    forall x | x in a ensures IsSelectedClass(Skeleton(x)) == IsSelectedClass(x) { SelectionIgnoresSiteTypes(x); }
    forall x | x in b ensures IsSelectedClass(Skeleton(x)) == IsSelectedClass(x) { SelectionIgnoresSiteTypes(x); }
    forall x | x in a ensures IsInterface(Skeleton(x)) == IsInterface(x) { SelectionIgnoresSiteTypes(x); }
    forall x | x in b ensures IsInterface(Skeleton(x)) == IsInterface(x) { SelectionIgnoresSiteTypes(x); }
    FilterOfSkeletons(a, IsNamespace);
    FilterOfSkeletons(b, IsNamespace);
    FilterOfSkeletons(a, IsSelectedClass);
    FilterOfSkeletons(b, IsSelectedClass);
    FilterOfSkeletons(a, IsInterface);
    FilterOfSkeletons(b, IsInterface);
    var na, nb := Syntax.Filter(a, IsNamespace), Syntax.Filter(b, IsNamespace);
    assert |na| == |Skeletons(na)| == |Skeletons(nb)| == |nb|;
    SkeletonsAppend(Syntax.Filter(a, IsSelectedClass), Syntax.Filter(a, IsInterface));
    SkeletonsAppend(Syntax.Filter(b, IsSelectedClass), Syntax.Filter(b, IsInterface));
  }
}
