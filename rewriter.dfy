/** DisagreementRewriter: the text view of a dotnet-svcutil tree and the rename
    applied at its parameter, property, object-creation and variable-declaration
    sites. */
module Rewriting {
  import opened Wrappers
  import opened Errors
  import opened StringExtensions
  import opened Disagreements
  import Syntax

  /** The type of a rewrite site: its trivia-free text (ToString) between its
      leading and trailing trivia. */
  datatype TypeText = TypeText(leading: string, text: string, trailing: string) {
    /** ToFullString. */
    function Full(): string {
      leading + text + trailing
    }
  }

  datatype SiteKind = ParameterSite | PropertySite | ObjectCreationSite | VariableDeclarationSite

  /** The nodes of a parsed file, as far as rewriting and ClientParser see them.
      A `TypedSite` is one of the four node kinds the rewriter visits; a
      parameter without a type (an implicitly typed lambda parameter) is an
      `UntypedParameter`. Base lists are kept as the full text of each entry. */
  datatype SyntaxNode =
    | NamespaceDecl(name: string, children: seq<SyntaxNode>)
    | ClassDecl(identifier: string, baseTypes: seq<string>, children: seq<SyntaxNode>)
    | InterfaceDecl(identifier: string, children: seq<SyntaxNode>)
    | TypedSite(kind: SiteKind, siteType: TypeText, children: seq<SyntaxNode>)
    | UntypedParameter(children: seq<SyntaxNode>)
    | OtherNode(children: seq<SyntaxNode>)

  /** The first position at or after `k` that does not hold white space. */
  function SkipWhiteSpace(s: string, k: nat): (r: nat)
    requires k <= |s|
    ensures k <= r <= |s| && (r < |s| ==> !IsWhiteSpace(s[r]))
    ensures forall i | k <= i < r :: IsWhiteSpace(s[i])
    decreases |s| - k
  {
    if k == |s| || !IsWhiteSpace(s[k]) then k else SkipWhiteSpace(s, k + 1)
  }

  /** The position after the last character before `e` (and not before `k`)
      that does not hold white space. */
  function SkipWhiteSpaceBack(s: string, k: nat, e: nat): (r: nat)
    requires k <= e <= |s|
    ensures k <= r <= e && (k < r ==> !IsWhiteSpace(s[r - 1]))
    ensures forall i | r <= i < e :: IsWhiteSpace(s[i])
    decreases e
  {
    if e == k || !IsWhiteSpace(s[e - 1]) then e else SkipWhiteSpaceBack(s, k, e - 1)
  }

  /** SyntaxFactory.ParseTypeName on a replaced full text: surrounding white
      space becomes the new type's trivia. The text is kept character for
      character. */
  function Reparse(full: string): (r: TypeText)
    ensures r.Full() == full
    ensures AllWhiteSpace(r.leading) && AllWhiteSpace(r.trailing) && Trimmed(r.text)
  {
    var k := SkipWhiteSpace(full, 0);
    var e := SkipWhiteSpaceBack(full, k, |full|);
    var lead, text, trail := full[..k], full[k..e], full[e..];
    SplitAt(full, k, e);
    TrimParts(full, k, e);
    TypeText(lead, text, trail)
  }

  /** The three parts put back together give the text they were cut from. */
  lemma SplitAt(full: string, k: nat, e: nat)
    requires k <= e <= |full|
    ensures full[..k] + full[k..e] + full[e..] == full
  {
  }

  /** The cut points found by the two scans delimit white-space trivia and a
      trimmed text. */
  lemma TrimParts(full: string, k: nat, e: nat)
    requires k <= e <= |full|
    requires forall i | 0 <= i < k :: IsWhiteSpace(full[i])
    requires forall i | e <= i < |full| :: IsWhiteSpace(full[i])
    requires k < |full| ==> !IsWhiteSpace(full[k])
    requires k < e ==> !IsWhiteSpace(full[e - 1])
    ensures AllWhiteSpace(full[..k]) && AllWhiteSpace(full[e..]) && Trimmed(full[k..e])
  {
  }

  /** Neither end of `t` is white space. */
  predicate Trimmed(t: string) {
    t != [] ==> !IsWhiteSpace(t[0]) && !IsWhiteSpace(t[|t| - 1])
  }

  /** FirstOrDefault(d => text.EndsWith(d.TypeName)). */
  function MatchingRule(rules: seq<TypeDisagreement>, text: string): (r: Option<TypeDisagreement>)
    ensures r.None? <==> forall i | 0 <= i < |rules| :: !EndsWith(text, rules[i].typeName)
    ensures r.Some? ==> exists i | 0 <= i < |rules| ::
      rules[i] == r.value && EndsWith(text, r.value.typeName) &&
      forall j | 0 <= j < i :: !EndsWith(text, rules[j].typeName)
  {
    if rules == [] then None
    else if EndsWith(text, rules[0].typeName) then Some(rules[0])
    else
      var r := MatchingRule(rules[1..], text);
      if r.Some? then
        var i :| 0 <= i < |rules[1..]| && rules[1..][i] == r.value && EndsWith(text, r.value.typeName) &&
          forall j | 0 <= j < i :: !EndsWith(text, rules[1..][j].typeName);
        assert rules[i + 1] == r.value;
        assert forall j | 1 <= j < i + 1 :: rules[j] == rules[1..][j - 1];
        r
      else r
  }

  /** The body shared by the four Visit overrides: the first rule whose type
      name ends the site's text rewrites the site's full text, which is parsed
      again as a type. */
  function RewriteType(rules: seq<TypeDisagreement>, t: TypeText): (r: Result<TypeText, Error>)
    ensures MatchingRule(rules, t.text).None? ==> r == Ok(t)
    ensures MatchingRule(rules, t.text).Some? && MatchingRule(rules, t.text).value.typeName == [] ==>
      r == Err(EmptyOldValue)
    ensures r.Err? ==> r == Err(EmptyOldValue)
    ensures r.Ok? && MatchingRule(rules, t.text).Some? ==>
      var d := MatchingRule(rules, t.text).value;
      d.typeName != [] && r.value.Full() == Replace(t.Full(), d.typeName, d.className)
  {
    match MatchingRule(rules, t.text)
    case None => Ok(t)
    case Some(d) =>
      match StringReplace(t.Full(), d.typeName, d.className)
      case Err(e) => Err(e)
      case Ok(replaced) => Ok(Reparse(replaced))
  }

  /** Only the first matching rule counts: the rule list can be cut down to
      that one rule, and rules after it are never consulted. */
  lemma FirstRuleWins(rules: seq<TypeDisagreement>, t: TypeText, i: nat)
    requires i < |rules| && EndsWith(t.text, rules[i].typeName)
    requires forall j | 0 <= j < i :: !EndsWith(t.text, rules[j].typeName)
    ensures RewriteType(rules, t) == RewriteType([rules[i]], t)
    ensures forall later | i < later <= |rules| :: RewriteType(rules, t) == RewriteType(rules[..later], t)
  {
    var d := MatchingRule(rules, t.text);
    var k :| 0 <= k < |rules| && rules[k] == d.value && EndsWith(t.text, d.value.typeName) &&
      forall j | 0 <= j < k :: !EndsWith(t.text, rules[j].typeName);
    assert k == i;
    forall later | i < later <= |rules| ensures MatchingRule(rules[..later], t.text) == d {
      var p := MatchingRule(rules[..later], t.text);
      var m :| 0 <= m < later && rules[..later][m] == p.value && EndsWith(t.text, p.value.typeName) &&
        forall j | 0 <= j < m :: !EndsWith(t.text, rules[..later][j].typeName);
      assert rules[..later][i] == rules[i];
      assert m == i;
    }
  }

  /** Visit: every typed site in the tree is rewritten, and the visitor goes on
      into the children of the rewritten node. A parameter without a type makes
      the match dereference a null type, unless there is no rule to match. */
  function Rewrite(rules: seq<TypeDisagreement>, n: SyntaxNode): (r: Result<SyntaxNode, Error>)
    ensures r.Err? ==> r.error == EmptyOldValue || r.error == NullReference
    decreases n
  {
    match n
    case TypedSite(kind, t, children) =>
      var t' := RewriteType(rules, t);
      if t'.Err? then Err(t'.error)
      else
        var children' := RewriteAll(rules, children);
        if children'.Err? then Err(children'.error) else Ok(TypedSite(kind, t'.value, children'.value))
    case UntypedParameter(children) =>
      if rules != [] then Err(NullReference)
      else
        var children' := RewriteAll(rules, children);
        if children'.Err? then Err(children'.error) else Ok(UntypedParameter(children'.value))
    case NamespaceDecl(name, children) =>
      var children' := RewriteAll(rules, children);
      if children'.Err? then Err(children'.error) else Ok(NamespaceDecl(name, children'.value))
    case ClassDecl(id, baseTypes, children) =>
      var children' := RewriteAll(rules, children);
      if children'.Err? then Err(children'.error) else Ok(ClassDecl(id, baseTypes, children'.value))
    case InterfaceDecl(id, children) =>
      var children' := RewriteAll(rules, children);
      if children'.Err? then Err(children'.error) else Ok(InterfaceDecl(id, children'.value))
    case OtherNode(children) =>
      var children' := RewriteAll(rules, children);
      if children'.Err? then Err(children'.error) else Ok(OtherNode(children'.value))
  }

  function RewriteAll(rules: seq<TypeDisagreement>, ns: seq<SyntaxNode>): (r: Result<seq<SyntaxNode>, Error>)
    ensures r.Err? ==> r.error == EmptyOldValue || r.error == NullReference
    ensures r.Ok? ==> |r.value| == |ns|
    decreases ns
  {
    if ns == [] then Ok([])
    else
      match Rewrite(rules, ns[0])
      case Err(e) => Err(e)
      case Ok(first) =>
        match RewriteAll(rules, ns[1..])
        case Err(e) => Err(e)
        case Ok(rest) => Ok([first] + rest)
  }

  /** The site types of a tree in document order. */
  function SitesOf(n: SyntaxNode): seq<TypeText>
    decreases n
  {
    match n
    case TypedSite(_, t, children) => [t] + SitesOfAll(children)
    case _ => SitesOfAll(n.children)
  }

  function SitesOfAll(ns: seq<SyntaxNode>): seq<TypeText>
    decreases ns
  {
    if ns == [] then [] else SitesOf(ns[0]) + SitesOfAll(ns[1..])
  }

  /** A tree with every site type blanked: what rewriting must not touch. */
  function Skeleton(n: SyntaxNode): SyntaxNode
    decreases n
  {
    match n
    case NamespaceDecl(name, children) => NamespaceDecl(name, SkeletonAll(children))
    case ClassDecl(id, baseTypes, children) => ClassDecl(id, baseTypes, SkeletonAll(children))
    case InterfaceDecl(id, children) => InterfaceDecl(id, SkeletonAll(children))
    case TypedSite(kind, _, children) => TypedSite(kind, TypeText("", "", ""), SkeletonAll(children))
    case UntypedParameter(children) => UntypedParameter(SkeletonAll(children))
    case OtherNode(children) => OtherNode(SkeletonAll(children))
  }

  function SkeletonAll(ns: seq<SyntaxNode>): seq<SyntaxNode>
    decreases ns
  {
    if ns == [] then [] else [Skeleton(ns[0])] + SkeletonAll(ns[1..])
  }

  /** RewriteType applied to a list of site types, failing at the first failure. */
  function RewriteTypes(rules: seq<TypeDisagreement>, ts: seq<TypeText>): Result<seq<TypeText>, Error> {
    if ts == [] then Ok([])
    else
      match RewriteType(rules, ts[0])
      case Err(e) => Err(e)
      case Ok(t) =>
        match RewriteTypes(rules, ts[1..])
        case Err(e) => Err(e)
        case Ok(rest) => Ok([t] + rest)
  }

  lemma {:induction false} RewriteTypesAppend(rules: seq<TypeDisagreement>, a: seq<TypeText>, b: seq<TypeText>)
    requires RewriteTypes(rules, a).Ok? && RewriteTypes(rules, b).Ok?
    ensures RewriteTypes(rules, a + b) == Ok(RewriteTypes(rules, a).value + RewriteTypes(rules, b).value)
  {
    if a != [] {
      var ab := a + b;
      assert ab[0] == a[0] && ab[1..] == a[1..] + b;
      var t := RewriteType(rules, a[0]).value;
      var rest := RewriteTypes(rules, a[1..]).value;
      var tail := RewriteTypes(rules, b).value;
      RewriteTypesAppend(rules, a[1..], b);
      assert RewriteTypes(rules, ab) == Ok([t] + (rest + tail));
      assert [t] + (rest + tail) == ([t] + rest) + tail;
    } else {
      assert a + b == b;
      assert [] + RewriteTypes(rules, b).value == RewriteTypes(rules, b).value;
    }
  }

  /** A successful rewrite changes site types only, and changes every one of
      them: the blanked tree is unchanged, and the sites of the result are the
      rewritten sites of the input, in document order, nested ones included. */
  lemma {:induction false} RewriteTouchesOnlySites(rules: seq<TypeDisagreement>, n: SyntaxNode)
    requires Rewrite(rules, n).Ok?
    ensures Skeleton(Rewrite(rules, n).value) == Skeleton(n)
    ensures RewriteTypes(rules, SitesOf(n)) == Ok(SitesOf(Rewrite(rules, n).value))
    decreases n
  {
    RewriteAllTouchesOnlySites(rules, n.children);
    match n
    case TypedSite(kind, t, children) =>
      var t' := RewriteType(rules, t).value;
      var children' := RewriteAll(rules, children).value;
      assert ([t] + SitesOfAll(children))[0] == t;
      assert ([t] + SitesOfAll(children))[1..] == SitesOfAll(children);
    case _ =>
  }

  lemma {:induction false} RewriteAllTouchesOnlySites(rules: seq<TypeDisagreement>, ns: seq<SyntaxNode>)
    requires RewriteAll(rules, ns).Ok?
    ensures SkeletonAll(RewriteAll(rules, ns).value) == SkeletonAll(ns)
    ensures RewriteTypes(rules, SitesOfAll(ns)) == Ok(SitesOfAll(RewriteAll(rules, ns).value))
    decreases ns
  {
    if ns != [] {
      RewriteTouchesOnlySites(rules, ns[0]);
      RewriteAllTouchesOnlySites(rules, ns[1..]);
      var rewritten := RewriteAll(rules, ns).value;
      assert rewritten[0] == Rewrite(rules, ns[0]).value;
      assert rewritten[1..] == RewriteAll(rules, ns[1..]).value;
      RewriteTypesAppend(rules, SitesOf(ns[0]), SitesOfAll(ns[1..]));
    }
  }

  /** A parameter without a type somewhere in the tree. */
  predicate HasUntypedParameter(n: SyntaxNode)
    decreases n
  {
    n.UntypedParameter? || HasUntypedParameterAll(n.children)
  }

  predicate HasUntypedParameterAll(ns: seq<SyntaxNode>)
    decreases ns
  {
    ns != [] && (HasUntypedParameter(ns[0]) || HasUntypedParameterAll(ns[1..]))
  }

  /** A run of site types fails iff one of its parts does. */
  lemma {:induction false} RewriteTypesFailsAppend(rules: seq<TypeDisagreement>, a: seq<TypeText>, b: seq<TypeText>)
    ensures RewriteTypes(rules, a + b).Err? <==> RewriteTypes(rules, a).Err? || RewriteTypes(rules, b).Err?
  {
    if a != [] {
      assert (a + b)[0] == a[0] && (a + b)[1..] == a[1..] + b;
      RewriteTypesFailsAppend(rules, a[1..], b);
    } else {
      assert a + b == b;
    }
  }

  /** When the rewrite fails: some site's rewrite fails (an empty type name
      in the first matching rule), or the tree holds a parameter without a
      type while there are rules to match against it. */
  lemma {:induction false} RewriteFails(rules: seq<TypeDisagreement>, n: SyntaxNode)
    ensures Rewrite(rules, n).Err? <==>
      RewriteTypes(rules, SitesOf(n)).Err? || (rules != [] && HasUntypedParameter(n))
    decreases n
  {
    RewriteAllFails(rules, n.children);
    match n
    case TypedSite(kind, t, children) =>
      assert ([t] + SitesOfAll(children))[0] == t;
      assert ([t] + SitesOfAll(children))[1..] == SitesOfAll(children);
    case _ =>
  }

  lemma {:induction false} RewriteAllFails(rules: seq<TypeDisagreement>, ns: seq<SyntaxNode>)
    ensures RewriteAll(rules, ns).Err? <==>
      RewriteTypes(rules, SitesOfAll(ns)).Err? || (rules != [] && HasUntypedParameterAll(ns))
    decreases ns
  {
    if ns != [] {
      RewriteFails(rules, ns[0]);
      RewriteAllFails(rules, ns[1..]);
      RewriteTypesFailsAppend(rules, SitesOf(ns[0]), SitesOfAll(ns[1..]));
    }
  }

  /** Without rules the rewriter is the identity. */
  lemma {:induction false} NoRulesIdentity(n: SyntaxNode)
    ensures Rewrite([], n) == Ok(n)
    decreases n
  {
    NoRulesIdentityAll(n.children);
    if n.TypedSite? {
      assert RewriteType([], n.siteType) == Ok(n.siteType);
    }
  }

  lemma {:induction false} NoRulesIdentityAll(ns: seq<SyntaxNode>)
    ensures RewriteAll([], ns) == Ok(ns)
    decreases ns
  {
    if ns != [] {
      NoRulesIdentity(ns[0]);
      NoRulesIdentityAll(ns[1..]);
      assert [ns[0]] + ns[1..] == ns;
    }
  }

  /** Matching looks at the trivia-free text, so a generic type, bare
      (`Task<X>`), qualified (`System.Threading.Tasks.Task<X>`) or
      alias-qualified, whose text ends with '>', is never matched by a rule
      whose type name is an identifier: the wrapper keeps the disagreeing name
      inside it. */
  lemma WrappedTypesNotMatched(t: Syntax.TypeRef, d: TypeDisagreement)
    requires || (t.Simple? && t.name.GenericName?)
             || (t.Qualified? && t.right.GenericName?)
             || (t.AliasQualified? && t.name.GenericName?)
    requires d.typeName != [] && d.typeName[|d.typeName| - 1] != '>'
    ensures !EndsWith(Syntax.Text(t), d.typeName)
  {
  }

  /** The rename is not idempotent: when a class name ends with the XML type
      name it replaces, a site renamed once still ends with that type name and
      a second pass renames it again. */
  lemma RenameNotIdempotent(prefix: string, typeName: string)
    requires typeName != [] && prefix != []
    requires !IsWhiteSpace(prefix[0]) && !IsWhiteSpace(typeName[|typeName| - 1])
    requires forall i | 0 <= i < |prefix| :: !OccursAt(prefix + typeName, typeName, i)
    ensures var rules := [TypeDisagreement(prefix + typeName, typeName)];
            && RewriteType(rules, TypeText("", typeName, "")) == Ok(TypeText("", prefix + typeName, ""))
            && RewriteType(rules, TypeText("", prefix + typeName, ""))
               == Ok(TypeText("", prefix + (prefix + typeName), ""))
  {
    RenamedOnce(prefix, typeName);
    RenamedAgain(prefix, typeName);
  }

  lemma RenamedOnce(prefix: string, typeName: string)
    requires typeName != [] && prefix != []
    requires !IsWhiteSpace(prefix[0]) && !IsWhiteSpace(typeName[|typeName| - 1])
    ensures RewriteType([TypeDisagreement(prefix + typeName, typeName)], TypeText("", typeName, ""))
         == Ok(TypeText("", prefix + typeName, ""))
  {
    var className := prefix + typeName;
    assert Trimmed(className) by {
      assert className[0] == prefix[0] && className[|className| - 1] == typeName[|typeName| - 1];
    }
    assert EndsWith(typeName, typeName);
    ReplaceWhole(typeName, className);
    RewriteSingle(TypeDisagreement(className, typeName), typeName);
  }

  lemma RenamedAgain(prefix: string, typeName: string)
    requires typeName != [] && prefix != []
    requires !IsWhiteSpace(prefix[0]) && !IsWhiteSpace(typeName[|typeName| - 1])
    requires forall i | 0 <= i < |prefix| :: !OccursAt(prefix + typeName, typeName, i)
    ensures RewriteType([TypeDisagreement(prefix + typeName, typeName)], TypeText("", prefix + typeName, ""))
         == Ok(TypeText("", prefix + (prefix + typeName), ""))
  {
    var className := prefix + typeName;
    var twice := prefix + className;
    assert Trimmed(twice) by {
      assert twice[0] == prefix[0] && twice[|twice| - 1] == typeName[|typeName| - 1];
    }
    assert className[|className| - |typeName|..] == typeName;
    ReplaceTrailing(prefix, typeName, className);
    RewriteSingle(TypeDisagreement(className, typeName), className);
  }

  /** A bare site (no trivia) matched by the only rule becomes the replaced
      text, again bare when the replacement has no surrounding white space. */
  lemma RewriteSingle(d: TypeDisagreement, text: string)
    requires EndsWith(text, d.typeName) && d.typeName != []
    requires var s := Replace(text, d.typeName, d.className); s != [] && Trimmed(s)
    ensures RewriteType([d], TypeText("", text, "")) == Ok(TypeText("", Replace(text, d.typeName, d.className), ""))
  {
    assert MatchingRule([d], text) == Some(d);
    assert TypeText("", text, "").Full() == text;
    ReparseIdentifier(Replace(text, d.typeName, d.className));
  }

  /** Text without surrounding white space parses back with empty trivia. */
  lemma ReparseIdentifier(s: string)
    requires s != [] && Trimmed(s)
    ensures Reparse(s) == TypeText("", s, "")
  {
  }

  /** One instance from the generators' naming: xscgen's class
      Get_Workers_ResponseType with XML type Workers_Response-Type. */
  lemma RenameNotIdempotentExample()
    ensures var rules := [TypeDisagreement("Get_Workers_ResponseType", "Workers_ResponseType")];
            RewriteType(rules, RewriteType(rules, TypeText("", "Workers_ResponseType", "")).value)
            == Ok(TypeText("", "Get_Get_Workers_ResponseType", ""))
  {
    ExampleSpelling();
    NoEarlyOccurrence("Get_", "Workers_ResponseType");
    RenameNotIdempotent("Get_", "Workers_ResponseType");
  }

  /** `.T` becomes `.C` when `T` does not start with a dot. */
  lemma ReplaceDotted(typeName: string, className: string)
    requires typeName != [] && typeName[0] != '.'
    ensures Replace("." + typeName, typeName, className) == "." + className
  {
    assert !OccursAt("." + typeName, typeName, 0) by {
      assert ("." + typeName)[0] == '.';
    }
    ReplaceTrailing(".", typeName, className);
  }

  /** Both halves of `T.T` are replaced when `T` does not start with a dot. */
  lemma QualifiedReplace(typeName: string, className: string)
    requires typeName != [] && typeName[0] != '.'
    ensures Replace(typeName + "." + typeName, typeName, className) == className + "." + className
  {
    var q := "." + typeName;
    assert typeName + "." + typeName == [] + typeName + q;
    ReplaceEveryOccurrence([], typeName, q, className);
    assert Replace([], typeName, className) == [];
    ReplaceDotted(typeName, className);
    assert className + ("." + className) == className + "." + className;
  }

  lemma ExampleSpelling()
    ensures "Get_" + "Workers_ResponseType" == "Get_Workers_ResponseType"
    ensures "Get_" + ("Get_" + "Workers_ResponseType") == "Get_Get_Workers_ResponseType"
  {
  }

  /** No occurrence of `t` starts inside `p` when no character of `p` is the
      first character of `t`. */
  lemma NoEarlyOccurrence(p: string, t: string)
    requires t != [] && forall i | 0 <= i < |p| :: p[i] != t[0]
    ensures forall i | 0 <= i < |p| :: !OccursAt(p + t, t, i)
  {
    forall i | 0 <= i < |p| ensures !OccursAt(p + t, t, i) {
      assert (p + t)[i] == p[i];
    }
  }

  /** Replacement renames every occurrence in the full text, not only the
      trailing one: a qualifier spelled like the type name is renamed too. */
  lemma QualifierRenamedToo(typeName: string, className: string)
    requires typeName != [] && typeName[0] != '.'
    requires className != [] && !IsWhiteSpace(className[0]) && !IsWhiteSpace(className[|className| - 1])
    ensures RewriteType([TypeDisagreement(className, typeName)], TypeText("", typeName + "." + typeName, ""))
         == Ok(TypeText("", className + "." + className, ""))
  {
    var d := TypeDisagreement(className, typeName);
    var text := typeName + "." + typeName;
    QualifiedReplace(typeName, className);
    assert text[|text| - |typeName|..] == typeName;
    RewriteSingle(d, text);
  }
}
