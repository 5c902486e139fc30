/** The syntax helpers of Ext.cs: the name a type is looked up by, and which
    members of a class the dependency walker follows. */
module TypeExt {
  import opened Wrappers
  import opened Errors
  import opened Syntax
  import opened StringExtensions

  /** GetNameString: the identifier a type is looked up by in the type index. */
  function GetNameString(t: TypeRef): (r: Result<string, Error>)
    ensures t.Simple? ==> r == Ok(t.name.identifier)
    ensures t.Qualified? ==> r == Ok(t.right.identifier)
    ensures t.Predefined? ==> r == Ok(t.keyword)
    ensures t.ArrayType? ==> r == Ok("[]")
    ensures r.Err? <==> t.AliasQualified? || t.OtherType?
  {
    match t
    case Simple(GenericName(id, _)) => Ok(id)
    case Simple(IdentifierName(id)) => Ok(id)
    case Qualified(_, right) => Ok(right.identifier)
    case Predefined(keyword) => Ok(keyword)
    case ArrayType(_, _) => Ok("[]")
    case AliasQualified(_, _) => Err(NotImplemented("AliasQualifiedNameSyntax"))
    case OtherType(kind, _) => Err(NotImplemented(kind))
  }

  /** The rightmost simple name of a name-shaped type. TryGetName is defined
      outside the code modelled here; this definition is an assumption, shaped
      like the name switch of GetFaultAttributes. */
  function TryGetName(t: TypeRef): (r: Option<SimpleName>)
    ensures r.Some? <==> t.Simple? || t.Qualified? || t.AliasQualified?
  {
    match t
    case Simple(n) => Some(n)
    case Qualified(_, right) => Some(right)
    case AliasQualified(_, n) => Some(n)
    case _ => None
  }

  /** For a simple or qualified name, GetNameString is the rightmost identifier
      of the printed type with its type-argument list cut off: the printed type
      ends with the rightmost name, and that name starts with the result. */
  lemma NameStringIsRightmostIdentifier(t: TypeRef)
    requires t.Simple? || t.Qualified?
    ensures GetNameString(t).Ok? && TryGetName(t).Some?
    ensures EndsWith(Text(t), NameText(TryGetName(t).value))
    ensures var name := GetNameString(t).value;
            |name| <= |NameText(TryGetName(t).value)| && NameText(TryGetName(t).value)[..|name|] == name
  {
  }

  /** LINQ Any over a modifier list, by kind. */
  function AnyModifier(modifiers: seq<Modifier>, kind: Modifier): (r: bool)
    ensures r <==> kind in modifiers
  {
    if modifiers == [] then false else modifiers[0] == kind || AnyModifier(modifiers[1..], kind)
  }

  /** IsPublicInstance: a `public` modifier, or no `static` modifier. Only a
      static member without `public` is excluded. */
  function IsPublicInstance(m: Member): (r: bool)
    ensures r <==> !(StaticKeyword in m.Modifiers() && PublicKeyword !in m.Modifiers())
  {
    AnyModifier(m.Modifiers(), PublicKeyword) || !AnyModifier(m.Modifiers(), StaticKeyword)
  }

  /** A member GetInstanceMembers yields a type for. */
  predicate Eligible(m: Member) {
    IsPublicInstance(m) && (m.Property? || m.Field?)
  }

  /** The declared type of a property or of a field declaration (one type for
      all of the field's variables). */
  function DeclaredType(m: Member): TypeRef
    requires m.Property? || m.Field?
  {
    match m
    case Property(_, t) => t
    case Field(_, t, _) => t
  }

  /** The types GetInstanceMembers yields for a member list, in member order. */
  function InstanceMemberTypes(members: seq<Member>): (r: seq<TypeRef>)
    ensures |r| <= |members|
    ensures forall t :: t in r <==>
      exists i | 0 <= i < |members| :: Eligible(members[i]) && DeclaredType(members[i]) == t
  {
    if members == [] then []
    else
      var rest := InstanceMemberTypes(members[1..]);
      assert forall i | 1 <= i < |members| :: members[i] == members[1..][i - 1];
      (if Eligible(members[0]) then [DeclaredType(members[0])] else []) + rest
  }

  /** GetInstanceMembers: the declared types of the eligible properties and
      fields of a class. */
  function GetInstanceMembers(c: TypeDecl): (r: seq<TypeRef>)
    ensures forall t :: t in r <==>
      exists i | 0 <= i < |c.members| :: Eligible(c.members[i]) && DeclaredType(c.members[i]) == t
  {
    InstanceMemberTypes(c.members)
  }

  /** The yielded types follow member order: the types of a split member list
      are the types of each part, one after the other. */
  lemma {:induction false} InstanceMemberTypesAppend(a: seq<Member>, b: seq<Member>)
    ensures InstanceMemberTypes(a + b) == InstanceMemberTypes(a) + InstanceMemberTypes(b)
  {
    if a != [] {
      assert (a + b)[1..] == a[1..] + b;
      InstanceMemberTypesAppend(a[1..], b);
    } else {
      assert a + b == b;
    }
  }

  /** Methods and other members yield nothing; an eligible field yields exactly
      its one declared type however many variables it declares. */
  lemma MemberContribution(m: Member)
    ensures !m.Property? && !m.Field? ==> InstanceMemberTypes([m]) == []
    ensures m.Field? && IsPublicInstance(m) ==> InstanceMemberTypes([m]) == [m.fieldType]
    ensures m.Field? && !IsPublicInstance(m) ==> InstanceMemberTypes([m]) == []
  {
  }
}
