/** TypeDisagreementParser: finds the request and response classes of the
    xscgen output whose class name differs from the XML type name their
    XmlType attribute declares. */
module Disagreements {
  import opened Wrappers
  import opened Errors
  import opened Syntax
  import opened StringExtensions

  /** A class xscgen named `className` for the XML type dotnet-svcutil calls
      `typeName`. */
  datatype TypeDisagreement = TypeDisagreement(className: string, typeName: string)

  const XmlTypeAttributeName: string := "System.Xml.Serialization.XmlTypeAttribute"
  const MessageSuffixes: seq<string> := ["RequestType", "ResponseType"]

  /** The classes Parse examines: those whose identifier ends with RequestType
      or ResponseType, in document order. */
  function Candidates(root: seq<Node>): (r: seq<TypeDecl>)
    ensures forall c :: c in r <==>
      c in DescendantDecls(root) && c.kind == ClassKind &&
      (EndsWith(c.identifier, "RequestType") || EndsWith(c.identifier, "ResponseType"))
  {
    assert forall id :: EndsWithEither(id, MessageSuffixes) <==>
      EndsWith(id, MessageSuffixes[0]) || EndsWith(id, MessageSuffixes[1]);
    Filter(Classes(root), (c: TypeDecl) => EndsWithEither(c.identifier, MessageSuffixes))
  }

  /** FirstOrDefault over the flattened attribute lists: the first attribute
      whose name prints as the fully qualified XmlTypeAttribute. */
  function XmlTypeAttribute(attributes: seq<Attribute>): (r: Option<Attribute>)
    ensures r.None? <==> forall a | a in attributes :: Text(a.name) != XmlTypeAttributeName
    ensures r.Some? ==> exists i | 0 <= i < |attributes| ::
      attributes[i] == r.value && Text(r.value.name) == XmlTypeAttributeName &&
      forall j | 0 <= j < i :: Text(attributes[j].name) != XmlTypeAttributeName
  {
    if attributes == [] then None
    else if Text(attributes[0].name) == XmlTypeAttributeName then Some(attributes[0])
    else
      var r := XmlTypeAttribute(attributes[1..]);
      assert forall a | a in attributes :: a == attributes[0] || a in attributes[1..];
      if r.Some? then
        var i :| 0 <= i < |attributes[1..]| && attributes[1..][i] == r.value &&
          forall j | 0 <= j < i :: Text(attributes[1..][j].name) != XmlTypeAttributeName;
        assert attributes[i + 1] == r.value;
        assert forall j | 1 <= j < i + 1 :: attributes[j] == attributes[1..][j - 1];
        r
      else r
  }

  /** Drops every double quote, then every hyphen: the quotes of the string
      literal, and the hyphens dotnet-svcutil leaves out of type names. */
  function Unquote(s: string): (r: string)
    ensures r == Without(Without(s, '"'), '-')
    ensures forall c :: c in r <==> c in s && c != '"' && c != '-'
  {
    ReplaceCharByEmpty(s, '"');
    ReplaceCharByEmpty(Replace(s, "\"", ""), '-');
    Replace(Replace(s, "\"", ""), "-", "")
  }

  /** The XML type name the attribute declares: its first argument, in full
      text, unquoted. A missing argument list is dereferenced (a null
      reference); an empty one has no first element. */
  function DeclaredXmlType(a: Attribute): (r: Result<string, Error>)
    ensures a.arguments.None? <==> r == Err(NullReference)
    ensures a.arguments.Some? && a.arguments.value == [] <==> r == Err(EmptySequence)
    ensures r.Ok? ==>
      (a.arguments.Some? && |a.arguments.value| > 0 && r.value == Unquote(a.arguments.value[0].fullText))
  {
    match a.arguments
    case None => Err(NullReference)
    case Some(args) => if args == [] then Err(EmptySequence) else Ok(Unquote(args[0].fullText))
  }

  /** What one candidate class contributes: a rule when it has an XmlType
      attribute whose declared name differs from its identifier. */
  function Disagreement(c: TypeDecl): (r: Result<Option<TypeDisagreement>, Error>)
    ensures XmlTypeAttribute(c.attributes).None? ==> r == Ok(None)
    ensures r.Ok? && r.value.Some? ==>
      r.value.value.className == c.identifier && r.value.value.className != r.value.value.typeName &&
      XmlTypeAttribute(c.attributes).Some? &&
      DeclaredXmlType(XmlTypeAttribute(c.attributes).value) == Ok(r.value.value.typeName)
    ensures (XmlTypeAttribute(c.attributes).Some? && DeclaredXmlType(XmlTypeAttribute(c.attributes).value).Ok? &&
             DeclaredXmlType(XmlTypeAttribute(c.attributes).value).value != c.identifier) ==>
      r == Ok(Some(TypeDisagreement(c.identifier, DeclaredXmlType(XmlTypeAttribute(c.attributes).value).value)))
    ensures XmlTypeAttribute(c.attributes).Some? && DeclaredXmlType(XmlTypeAttribute(c.attributes).value).Err? ==>
      r == Err(DeclaredXmlType(XmlTypeAttribute(c.attributes).value).error)
  {
    match XmlTypeAttribute(c.attributes)
    case None => Ok(None)
    case Some(xmlType) =>
      match DeclaredXmlType(xmlType)
      case Err(e) => Err(e)
      case Ok(typeName) =>
        if c.identifier != typeName then Ok(Some(TypeDisagreement(c.identifier, typeName))) else Ok(None)
  }

  /** The rules of a list of candidates, in candidate order; the first failing
      candidate fails the whole parse. */
  function DisagreementsOf(classes: seq<TypeDecl>): Result<seq<TypeDisagreement>, Error> {
    if classes == [] then Ok([])
    else
      match DisagreementsOf(classes[..|classes| - 1])
      case Err(e) => Err(e)
      case Ok(rules) =>
        match Disagreement(classes[|classes| - 1])
        case Err(e) => Err(e)
        case Ok(None) => Ok(rules)
        case Ok(Some(d)) => Ok(rules + [d])
  }

  /** TypeDisagreementParser.Parse over the parsed xscgen file (None when the
      file does not exist). */
  method Parse(file: Option<seq<Node>>) returns (r: Result<seq<TypeDisagreement>, Error>)
    ensures file.None? ==> r == Err(FileNotFound)
    ensures file.Some? ==> r == DisagreementsOf(Candidates(file.value))
  {
    if file.None? {
      return Err(FileNotFound);
    }
    var ios := Candidates(file.value);
    var results := [];
    for i := 0 to |ios|
      invariant DisagreementsOf(ios[..i]) == Ok(results)
    {
      assert ios[..i + 1][..i] == ios[..i];
      var clazz := ios[i];
      var xmlType := XmlTypeAttribute(clazz.attributes);
      if xmlType.Some? {
        var classname := clazz.identifier;
        var arguments := xmlType.value.arguments;
        if arguments.None? {
          DisagreementsPrefixFails(ios, i + 1);
          return Err(NullReference);
        }
        if arguments.value == [] {
          DisagreementsPrefixFails(ios, i + 1);
          return Err(EmptySequence);
        }
        var typename := Replace(Replace(arguments.value[0].fullText, "\"", ""), "-", "");
        if classname != typename {
          results := results + [TypeDisagreement(classname, typename)];
        }
      }
    }
    assert ios[..|ios|] == ios;
    return Ok(results);
  }

  lemma {:induction false} DisagreementsPrefixFails(classes: seq<TypeDecl>, k: nat)
    requires k <= |classes| && DisagreementsOf(classes[..k]).Err?
    ensures DisagreementsOf(classes) == DisagreementsOf(classes[..k])
    decreases |classes| - k
  {
    if k < |classes| {
      assert classes[..k + 1][..k] == classes[..k];
      DisagreementsPrefixFails(classes, k + 1);
    } else {
      assert classes[..k] == classes;
    }
  }

  /** A parsed rule list is exactly the rules of the candidates that have one:
      every rule comes from some candidate, and every candidate's rule is in the
      list. */
  lemma {:induction false} RulesComeFromCandidates(classes: seq<TypeDecl>)
    requires DisagreementsOf(classes).Ok?
    ensures forall c | c in classes :: Disagreement(c).Ok?
    ensures forall d :: d in DisagreementsOf(classes).value <==>
      exists c | c in classes :: Disagreement(c) == Ok(Some(d))
  {
    if classes != [] {
      var prefix := classes[..|classes| - 1];
      var last := classes[|classes| - 1];
      RulesComeFromCandidates(prefix);
      assert forall c | c in classes :: c in prefix || c == last;
      assert forall c | c in prefix :: c in classes;
    }
  }

  /** Each rule names a request or response class of the file, differs from
      it, and carries a type name with no quote and no hyphen left. */
  lemma ParsedRulesAreDisagreements(root: seq<Node>)
    requires DisagreementsOf(Candidates(root)).Ok?
    ensures forall d | d in DisagreementsOf(Candidates(root)).value ::
      d.className != d.typeName && '"' !in d.typeName && '-' !in d.typeName &&
      exists c | c in Candidates(root) :: c.identifier == d.className
  {
    RulesComeFromCandidates(Candidates(root));
  }

  /** At most one rule per candidate class, in document order. */
  lemma {:induction false} AtMostOneRulePerClass(classes: seq<TypeDecl>)
    requires DisagreementsOf(classes).Ok?
    ensures |DisagreementsOf(classes).value| <= |classes|
  {
    if classes != [] {
      AtMostOneRulePerClass(classes[..|classes| - 1]);
    }
  }

  /** The rules of consecutive runs of candidates are the rules of each run,
      one after the other; a failure in the first run wins, then one in the
      second. */
  lemma {:induction false} DisagreementsOfAppend(a: seq<TypeDecl>, b: seq<TypeDecl>)
    ensures DisagreementsOf(a).Err? ==> DisagreementsOf(a + b) == DisagreementsOf(a)
    ensures DisagreementsOf(a).Ok? && DisagreementsOf(b).Err? ==> DisagreementsOf(a + b) == DisagreementsOf(b)
    ensures DisagreementsOf(a).Ok? && DisagreementsOf(b).Ok? ==>
      DisagreementsOf(a + b) == Ok(DisagreementsOf(a).value + DisagreementsOf(b).value)
    decreases |b|
  {
    if b == [] {
      assert a + b == a;
      if DisagreementsOf(a).Ok? {
        assert DisagreementsOf(a).value + [] == DisagreementsOf(a).value;
      }
    } else {
      var b', last := b[..|b| - 1], b[|b| - 1];
      assert (a + b)[..|a + b| - 1] == a + b' && (a + b)[|a + b| - 1] == last;
      DisagreementsOfAppend(a, b');
      var ra, rb := DisagreementsOf(a), DisagreementsOf(b');
      if ra.Ok? && rb.Ok? && Disagreement(last).Ok? && Disagreement(last).value.Some? {
        var d := Disagreement(last).value.value;
        assert ra.value + rb.value + [d] == ra.value + (rb.value + [d]);
      }
    }
  }

  /** One candidate contributes no rule or exactly its own rule. */
  lemma OneClassRules(c: TypeDecl)
    ensures Disagreement(c) == Ok(None) ==> DisagreementsOf([c]) == Ok([])
    ensures Disagreement(c).Ok? && Disagreement(c).value.Some? ==>
      DisagreementsOf([c]) == Ok([Disagreement(c).value.value])
    ensures Disagreement(c).Err? ==> DisagreementsOf([c]) == Err(Disagreement(c).error)
  {
    assert [c][..0] == [];
    if Disagreement(c).Ok? && Disagreement(c).value.Some? {
      var d := Disagreement(c).value.value;
      assert [] + [d] == [d];
    }
  }

  /** A nested request or response class is a candidate like a top-level one. */
  lemma NestedCandidatesIncluded(root: seq<Node>, outer: TypeDecl, i: nat)
    requires outer in DescendantDecls(root) && i < |outer.members| && outer.members[i].NestedType?
    requires outer.members[i].decl.kind == ClassKind
    requires EndsWith(outer.members[i].decl.identifier, "RequestType")
    ensures outer.members[i].decl in Candidates(root)
  {
    NestedTypesIncluded(root, outer, i);
  }

  /** A candidate whose XmlType attribute has no argument list fails the parse;
      so does one with an empty argument list. */
  lemma {:induction false} MalformedAttributeFails(classes: seq<TypeDecl>, c: TypeDecl)
    requires c in classes && XmlTypeAttribute(c.attributes).Some?
    requires DeclaredXmlType(XmlTypeAttribute(c.attributes).value).Err?
    ensures DisagreementsOf(classes).Err?
  {
    if DisagreementsOf(classes).Ok? {
      RulesComeFromCandidates(classes);
    }
  }
}
