# wd-soapgen reconciliation core, in Dafny

wd-soapgen runs two code generators over one SOAP service description:
- dotnet-svcutil produces the service contract: the `...Port` interface, the `...PortChannel` interface and a `ClientBase<...>` client class;
- xscgen produces the data classes.

The tool then merges the two outputs into three C# files: `Interfaces.g.cs`, `Client.g.cs` and `Types.g.cs`. This project models the merge and proves properties of the model. It has six parts, one per component of the tool.

- **Disagreement detection** (`disagreements.dfy`, `TypeDisagreementParser.Parse`). Some xscgen request or response classes carry an `XmlType` attribute naming an XML type different from the class name. Each such class yields a rule (type name → class name).
- **Disagreement rewriting** (`rewriter.dfy`, the four `Visit*` overrides of `DisagreementRewriter`). At parameter, property, object-creation and variable-declaration sites, the first rule whose type name ends the site's trivia-free type text is applied. It does a string replace over the full text, trivia included, and the text is then re-parsed.
- **Service file extraction** (`client_parser.dfy`, `ClientParser.Extract`). The rewriter runs over the whole tree first. Then come the first namespace, the `Input`/`Output`/client classes and every interface, classes first.
- **Context building** (`coalescer.dfy`, `SyntaxCoalescer.GetContext`). This picks the namespace and header trivia, the unique port, port channel and client, and the identifier-keyed class index. It fails on the first identifier collision.
- **Dependency walk** (`requirements.dfy`, `RequirementExtractor`). It seeds from the return, parameter and fault-contract types of the port and client operations. It then closes over the types of public instance members, unwrapping generic arguments and array elements at every depth. A visited set bounds it.
- **Rendering** (`renderer.dfy`, `ContextRenderer`). Each file is the header, an empty line, `namespace N`, `{`, the body and `}`, written through one string buffer that is cleared per file.
- Helpers: `strings.dfy` (`StringExtensions`, and the .NET string operations the core uses) and `type_ext.dfy` (`Ext.cs`: name extraction and member eligibility).

`syntax.dfy` holds the declaration view of a parsed C# file. It has:
- type references by shape;
- declarations with their members, modifiers, attributes, base-list texts and full text;
- types declared inside other types, which every enumeration of declarations and methods descends into, as `DescendantNodes` does;
- nested namespaces.

`rewriter.dfy` holds the text view the rewriter works on: a tree of syntax nodes whose rewrite sites carry a type text with leading and trailing trivia.

Some properties one might expect of the tool do not hold of the code; the model follows the code, and lemmas record them:
- Applying the rename rules twice is not the same as applying them once. A rule `Workers_ResponseType → Get_Workers_ResponseType` renames its own output again (`Rewriting.RenameNotIdempotent`, `Rewriting.RenameNotIdempotentExample`).
- The replacement is not confined to the trailing segment. Every occurrence in the full text is replaced, qualifiers included (`Rewriting.QualifierRenamedToo`).
- A site whose type is wrapped in a generic, such as `Task<X>` or the `System.Threading.Tasks.Task<X>` dotnet-svcutil writes, is never matched. Its text ends with `>`, not with the type name (`Rewriting.WrappedTypesNotMatched`).
- Fault-contract attribute arguments are not a rewrite site; the rewriter has no attribute visitor.
- `SyntaxCoalescer.cs:35` calls `GetRequirements` with the port only, while `RequirementExtractor.cs:21` takes the port and the client. The model follows the two-argument method.

## Model

| member | source | states |
|---|---|---|
| StringExtensions.NoneDefault | wd-soapgen/Ext/StringExtensions.cs:12-21 | the default is returned exactly when the string is null, empty or white space; otherwise the string itself, which then has a non-white-space character |
| StringExtensions.None | wd-soapgen/Ext/StringExtensions.cs:23-26 | true iff the string is null, empty or white space only |
| StringExtensions.Some | wd-soapgen/Ext/StringExtensions.cs:28-31 | exactly the negation of None: true iff the string has a non-white-space character |
| StringExtensions.SomeThen | wd-soapgen/Ext/StringExtensions.cs:33-39 | the callback runs exactly when Some holds and a callback is given; otherwise the state is unchanged |
| StringExtensions.EndsWithEither | wd-soapgen/Ext/StringExtensions.cs:41-44 | true iff some ending is a suffix of the test string; false with no endings |
| StringExtensions.Contains | wd-soapgen/Code/SyntaxCoalescer.cs:89 | true iff the substring occurs at some position |
| StringExtensions.StringReplace | wd-soapgen/Code/TypeDisagreementRewriter.cs:26 | string.Replace fails on an empty old value and returns a string without occurrences unchanged |
| StringExtensions.ReplaceEveryOccurrence | wd-soapgen/Code/TypeDisagreementRewriter.cs:26 | Replace splits at the first occurrence: what comes before and after it are replaced independently, so every occurrence is replaced, not only the last |
| StringExtensions.ReplaceWithoutOccurrence | wd-soapgen/Code/TypeDisagreementRewriter.cs:26 | a string with no occurrence is left as it is |
| StringExtensions.ReplaceCharByEmpty | wd-soapgen/Code/TypeDisagreementParser.cs:47-48 | replacing a one-character string by nothing removes every occurrence of that character and keeps the rest in order |
| Syntax.NestedTypesIncluded | wd-soapgen/Code/SyntaxCoalescer.cs:100-102 | the declaration enumeration descends into types: a type declared inside a listed type is listed too |
| Syntax.MethodsOfNested | wd-soapgen/Code/RequirementExtractor.cs:22-28 | a type's methods are those it declares directly and those of the types declared inside it, and no others |
| TypeExt.GetNameString | wd-soapgen/Code/Ext.cs:15-27 | a generic or identifier name gives its identifier without arguments; a qualified name its rightmost identifier; a predefined type its keyword; an array "[]"; any other shape is an error |
| TypeExt.TryGetName | wd-soapgen/Code/RequirementExtractor.cs:179-182 | (assumed definition, see "Left out") a simple name exists exactly for identifier, generic, qualified and alias-qualified types |
| TypeExt.NameStringIsRightmostIdentifier | wd-soapgen/Code/Ext.cs:19-22 | for name-shaped types the name string starts the rightmost simple name, whose text ends the type's text |
| TypeExt.IsPublicInstance | wd-soapgen/Code/Ext.cs:54-58 | true iff the member is not static-without-public: public static and private instance members both qualify |
| TypeExt.GetInstanceMembers | wd-soapgen/Code/Ext.cs:29-52 | a type is yielded iff some public-instance property or field declares it |
| TypeExt.InstanceMemberTypes | wd-soapgen/Code/Ext.cs:29-52 | at most one type per member; a type is yielded iff an eligible property or field declares it |
| TypeExt.InstanceMemberTypesAppend | wd-soapgen/Code/Ext.cs:42-51 | member order is kept: the types of a concatenation are the concatenated types |
| TypeExt.MemberContribution | wd-soapgen/Code/Ext.cs:39-48 | methods and nested types contribute nothing; an eligible field contributes exactly its one declared type, however many variables it declares |
| Requirements.Resolve | wd-soapgen/Code/RequirementExtractor.cs:126-129 | TryGetValue: a name in the index yields exactly its entry, an absent name nothing |
| Requirements.GetTypeArguments | wd-soapgen/Code/RequirementExtractor.cs:165-189 | an array gives its element type; a generic name, simple or qualified, gives its type arguments; a plain name, a predefined or another type gives nothing; the arguments are strictly smaller than the type |
| Requirements.Unwrapped | wd-soapgen/Code/RequirementExtractor.cs:118-163 | everything Unwrap yields is an index entry |
| Requirements.UnwrappedYieldsComponents | wd-soapgen/Code/RequirementExtractor.cs:118-163 | a declaration is yielded iff it is the index entry of the type's name or of a generic argument or array element at any depth, predefined types excluded |
| Requirements.UnwrapDescends | wd-soapgen/Code/RequirementExtractor.cs:131-161 | whatever a type argument yields the outer type also yields: resolving the outer name does not stop the descent |
| Requirements.UnwrapOuterFirst | wd-soapgen/Code/RequirementExtractor.cs:120-129 | a predefined type yields nothing; an unsupported shape is an error; a resolved outer name is yielded first |
| Requirements.PredefinedArgumentsSkipped | wd-soapgen/Code/RequirementExtractor.cs:142-145 | a generic whose arguments are all predefined yields only its own index entry |
| Requirements.AllPredefinedPending | wd-soapgen/Code/RequirementExtractor.cs:139-145 | a stack of predefined types yields nothing |
| Requirements.PendingPush | wd-soapgen/Code/RequirementExtractor.cs:137-161 | pushed types are popped, and yield, before the types below them |
| Requirements.RequirementExtractor.Unwrap | wd-soapgen/Code/RequirementExtractor.cs:118-163 | the stack loop yields exactly Unwrapped |
| Requirements.FaultType | wd-soapgen/Code/RequirementExtractor.cs:69-97 | another attribute name or a missing argument list is skipped; a non-typeof argument is an invalid cast; an empty argument list has no first element; a typeof of an unnameable type propagates its error; a typeof naming a type absent from the index is "Type not found", one naming an indexed type yields that entry |
| Requirements.FaultTypesFromAttributes | wd-soapgen/Code/RequirementExtractor.cs:67-98 | a resolving attribute list yields exactly the declarations its fault contracts name, and nothing else |
| Requirements.FaultTypesPrefixFails | wd-soapgen/Code/RequirementExtractor.cs:67-98 | once an attribute fails, the whole attribute list fails with that error |
| Requirements.RequirementExtractor.GetFaultAttributes | wd-soapgen/Code/RequirementExtractor.cs:67-99 | the attribute loop yields exactly FaultTypes, failing on the first failing attribute |
| Requirements.RequirementExtractor.GetContractReturnTypes | wd-soapgen/Code/RequirementExtractor.cs:101-104 | the return type unwrapped |
| Requirements.ParametersPrefixFails | wd-soapgen/Code/RequirementExtractor.cs:106-116 | once a parameter fails, the whole parameter list fails with that error |
| Requirements.RequirementExtractor.GetContractParameters | wd-soapgen/Code/RequirementExtractor.cs:106-116 | the parameter loop yields each parameter's unwrapped types in order |
| Requirements.SeedsPrefixFails | wd-soapgen/Code/RequirementExtractor.cs:31-45 | once an operation fails, seeding fails with that error |
| Requirements.Inserted | wd-soapgen/Code/RequirementExtractor.cs:31-45 | repeated HashSet.Add keeps what was there, contains every added class, adds only added classes and keeps the set duplicate-free |
| Requirements.InsertedAppend | wd-soapgen/Code/RequirementExtractor.cs:31-45 | adding two lists is adding one after the other |
| Requirements.RequirementExtractor.constructor | wd-soapgen/Code/RequirementExtractor.cs:16-19 | the extractor holds the given index and an empty visited set |
| Requirements.RequirementExtractor.Add | wd-soapgen/Code/RequirementExtractor.cs:56 | HashSet.Add returns true and appends exactly when the class was not there |
| Requirements.RequirementExtractor.AddAll | wd-soapgen/Code/RequirementExtractor.cs:33-44 | adding a list of index entries keeps the set valid and inserts them in order |
| Requirements.RequirementExtractor.AddOperation | wd-soapgen/Code/RequirementExtractor.cs:33-44 | one operation adds its return, parameter and fault types, or reports the error its types raise |
| Requirements.RequirementExtractor.AddOperations | wd-soapgen/Code/RequirementExtractor.cs:31-45 | the seeding loop adds exactly Seeds, or reports its error |
| Requirements.RequirementExtractor.PushNew | wd-soapgen/Code/RequirementExtractor.cs:54-60 | a class is pushed exactly when Add succeeded for it |
| Requirements.RequirementExtractor.FollowMember | wd-soapgen/Code/RequirementExtractor.cs:54-60 | after one member type, every class it yields is in the set and everything in the set is still discovered from the seeds |
| Requirements.RequirementExtractor.VisitMembers | wd-soapgen/Code/RequirementExtractor.cs:51-61 | after visiting a popped class, every class its member types yield is in the set, or a member type failed |
| Requirements.RequirementExtractor.GetRequirements | wd-soapgen/Code/RequirementExtractor.cs:21-65 | a seed error is returned as is; a walk error comes from a member type of a found class; otherwise the result contains the seeds, is closed under member types and holds only classes reached from the seeds |
| Requirements.RequirementSetUnique | wd-soapgen/Code/RequirementExtractor.cs:47-64 | the result's elements are determined by the seeds; visiting order changes only their order |
| Requirements.ReachableContained | wd-soapgen/Code/RequirementExtractor.cs:47-62 | the result lies inside every closed list that contains the seeds: it is the least closure |
| Requirements.DistinctIdentifiers | wd-soapgen/Code/RequirementExtractor.cs:192-204 | over an identifier-keyed index, the result's classes have pairwise distinct identifiers |
| Requirements.DistinctBound | wd-soapgen/Code/RequirementExtractor.cs:56-59 | the visited set never outgrows the index, which bounds the walk and makes it terminate on cyclic types |
| Requirements.WorklistStep | wd-soapgen/Code/RequirementExtractor.cs:49-62 | each pop keeps the worklist invariant: every found class is still on the stack or already closed |
| Disagreements.Candidates | wd-soapgen/Code/TypeDisagreementParser.cs:29-32 | exactly the classes, nested ones included, whose identifier ends with RequestType or ResponseType, in document order |
| Disagreements.XmlTypeAttribute | wd-soapgen/Code/TypeDisagreementParser.cs:38-39 | the first attribute named exactly System.Xml.Serialization.XmlTypeAttribute, or none iff there is none |
| Disagreements.Unquote | wd-soapgen/Code/TypeDisagreementParser.cs:46-48 | every '"' and then every '-' is deleted and the other characters are kept in order (the reference `Without`, to which `Replace(s, "c", "")` is proved equal) |
| Disagreements.DeclaredXmlType | wd-soapgen/Code/TypeDisagreementParser.cs:44-46 | a missing argument list is a null dereference, an empty one has no first element; otherwise the first argument's full text unquoted |
| Disagreements.Disagreement | wd-soapgen/Code/TypeDisagreementParser.cs:41-57 | a class without the attribute contributes nothing; a rule is emitted iff the class name differs from the declared type name; attribute errors propagate |
| Disagreements.Parse | wd-soapgen/Code/TypeDisagreementParser.cs:19-62 | a missing file is FileNotFound; otherwise the loop returns the rules of the candidates in order, or the first candidate's error |
| Disagreements.DisagreementsPrefixFails | wd-soapgen/Code/TypeDisagreementParser.cs:36-58 | once a candidate fails, the whole parse fails with that error |
| Disagreements.RulesComeFromCandidates | wd-soapgen/Code/TypeDisagreementParser.cs:36-58 | a successful parse holds exactly the rules its candidates contribute |
| Disagreements.ParsedRulesAreDisagreements | wd-soapgen/Code/TypeDisagreementParser.cs:43-57 | every rule names a candidate class, differs from it, and has no '"' or '-' in its type name |
| Disagreements.AtMostOneRulePerClass | wd-soapgen/Code/TypeDisagreementParser.cs:34-58 | no more rules than candidates |
| Disagreements.DisagreementsOfAppend | wd-soapgen/Code/TypeDisagreementParser.cs:34-58 | the rules of two runs of candidates are the first run's rules followed by the second's; the first failure wins |
| Disagreements.OneClassRules | wd-soapgen/Code/TypeDisagreementParser.cs:41-57 | one candidate contributes no rule, exactly its own rule, or its error |
| Disagreements.NestedCandidatesIncluded | wd-soapgen/Code/TypeDisagreementParser.cs:29-32 | a request class declared inside another type is a candidate |
| Disagreements.MalformedAttributeFails | wd-soapgen/Code/TypeDisagreementParser.cs:44-45 | an XmlType attribute without arguments anywhere among the candidates fails the parse |
| Rewriting.Reparse | wd-soapgen/Code/TypeDisagreementRewriter.cs:27 | re-parsing keeps the full text and splits it into white-space trivia around a trimmed type text |
| Rewriting.MatchingRule | wd-soapgen/Code/TypeDisagreementRewriter.cs:23 | the first rule whose type name ends the trivia-free text; none iff no rule's does |
| Rewriting.RewriteType | wd-soapgen/Code/TypeDisagreementRewriter.cs:23-29 | with no matching rule the site is unchanged; otherwise the new full text is the old full text, trivia included, with every occurrence of the type name replaced; an empty type name is an error |
| Rewriting.FirstRuleWins | wd-soapgen/Code/TypeDisagreementRewriter.cs:23 | only the first matching rule matters: later rules never change the result |
| Rewriting.Rewrite | wd-soapgen/Code/TypeDisagreementRewriter.cs:21-64 | the four Visit overrides over one node: a failure is either the empty-old-value error of a site's replace or the null dereference of an untyped parameter's type |
| Rewriting.RewriteAll | wd-soapgen/Code/TypeDisagreementRewriter.cs:21-64 | the same over a node list, keeping its length on success |
| Rewriting.RewriteFails | wd-soapgen/Code/TypeDisagreementRewriter.cs:21-64 | a node's rewrite fails iff one of its sites' rewrites fails, or it holds a parameter without a type while there are rules (`node.Type!` at line 23) |
| Rewriting.RewriteAllFails | wd-soapgen/Code/TypeDisagreementRewriter.cs:21-64 | the same for a node list |
| Rewriting.RewriteTouchesOnlySites | wd-soapgen/Code/TypeDisagreementRewriter.cs:21-64 | rewriting a node changes nothing but its site types, and each site, nested ones included, is rewritten as RewriteType says |
| Rewriting.RewriteAllTouchesOnlySites | wd-soapgen/Code/TypeDisagreementRewriter.cs:21-64 | the same for a whole tree |
| Rewriting.NoRulesIdentity | wd-soapgen/Code/TypeDisagreementRewriter.cs:29 | with no rules a node is unchanged |
| Rewriting.NoRulesIdentityAll | wd-soapgen/Code/TypeDisagreementRewriter.cs:21-64 | with no rules a tree is unchanged |
| Rewriting.WrappedTypesNotMatched | wd-soapgen/Code/TypeDisagreementRewriter.cs:23 | the text of a generic type, bare, qualified or alias-qualified, never ends with a type name that does not end with '>' |
| Rewriting.RenameNotIdempotent | wd-soapgen/Code/TypeDisagreementRewriter.cs:23-27 | a rule whose class name extends its type name renames its own output again |
| Rewriting.RenameNotIdempotentExample | wd-soapgen/Code/TypeDisagreementRewriter.cs:23-27 | Workers_ResponseType becomes Get_Workers_ResponseType, then Get_Get_Workers_ResponseType |
| Rewriting.QualifierRenamedToo | wd-soapgen/Code/TypeDisagreementRewriter.cs:26 | a qualifier spelled like the type name is replaced as well |
| ClientParsing.NewClientParser | wd-soapgen/Code/ClientParser.cs:17-20 | a null rewriter is an ArgumentNull error; otherwise the parser holds the rewriter |
| ClientParsing.RewriteComesFirst | wd-soapgen/Code/ClientParser.cs:27-30 | a rewrite error is the extraction's error, and a successful extraction rewrote first |
| ClientParsing.NamespaceIsFirst | wd-soapgen/Code/ClientParser.cs:32-35 | extraction fails with EmptySequence iff the rewritten tree has no namespace; otherwise the namespace is the first one in document order |
| ClientParsing.ExtractedDeclarations | wd-soapgen/Code/ClientParser.cs:37-52 | a node is selected iff it is an interface, or a class whose name ends with Input or Output or whose base list mentions ClientBase< |
| ClientParsing.ClassesBeforeInterfaces | wd-soapgen/Code/ClientParser.cs:54 | the selection holds only classes and interfaces, and every class precedes every interface |
| ClientParsing.SelectionUnaffectedByRewrite | wd-soapgen/Code/ClientParser.cs:27-52 | the rules change only type texts: which nodes are selected, and in which order, is the same as without rules |
| Coalescing.First | wd-soapgen/Code/SyntaxCoalescer.cs:67-70 | the first element, or EmptySequence iff there is none |
| Coalescing.Single | wd-soapgen/Code/SyntaxCoalescer.cs:74-78 | the only element; EmptySequence iff none, MoreThanOneElement iff several |
| Coalescing.MentionsClientBase | wd-soapgen/Code/SyntaxCoalescer.cs:89 | true iff some base-list entry contains ClientBase<; false without a base list |
| Coalescing.InterfacesEndingWith | wd-soapgen/Code/SyntaxCoalescer.cs:74-84 | exactly the svcutil interfaces, nested ones included, whose name ends with the given suffix (Port for the port, PortChannel for the port channel) |
| Coalescing.PortIsNotPortChannel | wd-soapgen/Code/SyntaxCoalescer.cs:74-84 | no interface is both a port candidate and a port channel candidate |
| Coalescing.ClientCandidates | wd-soapgen/Code/SyntaxCoalescer.cs:86-89 | exactly the svcutil classes, nested ones included, whose base list mentions ClientBase< |
| Coalescing.IndexedClasses | wd-soapgen/Code/SyntaxCoalescer.cs:92-106 | the svcutil classes without a ClientBase< base come first, then every xscgen class in document order (nested classes included on both sides) |
| Coalescing.FileClass | wd-soapgen/Code/SyntaxCoalescer.cs:108 | filing a class under a fresh identifier keeps the index exact |
| Coalescing.BuildIndex | wd-soapgen/Code/SyntaxCoalescer.cs:104-114 | succeeds iff identifiers are distinct, filing every class under its identifier; otherwise fails with "Type collision" naming the first class whose identifier was already filed |
| Coalescing.GetContext | wd-soapgen/Code/SyntaxCoalescer.cs:65-126 | errors in source order (no namespace, port, port channel, client, collision); on success the first xscgen namespace and its trivia, the given version, the unique port, port channel and client, and the exact index |
| Coalescing.IndexContents | wd-soapgen/Code/SyntaxCoalescer.cs:92-114 | the index holds every xscgen class and every svcutil class without a ClientBase< base, nested ones included, and nothing else |
| Coalescing.NestedClassesCollide | wd-soapgen/Code/SyntaxCoalescer.cs:100-114 | a class nested in an xscgen class that shares its identifier with a later top-level class makes the index impossible to build |
| Coalescing.ContractNotIndexed | wd-soapgen/Code/SyntaxCoalescer.cs:86-106 | neither the client nor the port is in the index when no xscgen class has a ClientBase< base |
| Rendering.GetSvcutilVersionText | wd-soapgen/Code/ContextRenderer.cs:114-121 | empty iff the version is null or white space, otherwise "version V " |
| Rendering.Join | wd-soapgen/Code/ContextRenderer.cs:111 | joining nothing gives nothing, joining one string gives that string |
| Rendering.JoinAppend | wd-soapgen/Code/ContextRenderer.cs:111 | one more part adds the separator and that part at the end |
| Rendering.JoinCons | wd-soapgen/Code/ContextRenderer.cs:111 | read from the front, the join is the first part, the separator, then the join of the rest |
| Rendering.SkipFirst | wd-soapgen/Code/ContextRenderer.cs:111 | Skip(1) drops the first argument, and gives nothing for no arguments |
| Rendering.CommandLineSkipsProgram | wd-soapgen/Code/ContextRenderer.cs:111 | the command line in the header is the arguments after the program path |
| Rendering.HeaderFrame | wd-soapgen/Code/ContextRenderer.cs:104-112 | the header starts with the namespace's leading trivia on its own line and ends with the wd-soapgen command line |
| Rendering.FullTexts | wd-soapgen/Code/ContextRenderer.cs:95-98 | one full text per class, in order |
| Rendering.ContextRenderer.constructor | wd-soapgen/Code/ContextRenderer.cs:17-22 | the renderer keeps the context and computes the header once |
| Rendering.ContextRenderer.Reset | wd-soapgen/Code/ContextRenderer.cs:40-45 | the buffer holds only the header and an empty line, whatever it held before |
| Rendering.ContextRenderer.Write | wd-soapgen/Code/ContextRenderer.cs:52-55 | a writer appends its text to the buffer |
| Rendering.ContextRenderer.Assemble | wd-soapgen/Code/ContextRenderer.cs:47-59 | the content is the header, an empty line, the namespace line, "{", what the writers append in order, and "}" |
| Rendering.ContextRenderer.RenderInterfaces | wd-soapgen/Code/ContextRenderer.cs:61-72 | Interfaces.g.cs holds the port's full text then the port channel's, each followed by a line terminator |
| Rendering.ContextRenderer.RenderClient | wd-soapgen/Code/ContextRenderer.cs:74-84 | Client.g.cs holds the client's full text with no line terminator added |
| Rendering.ContextRenderer.RenderTypes | wd-soapgen/Code/ContextRenderer.cs:86-102 | Types.g.cs holds each class's full text in the order given, each followed by a line terminator |
| Rendering.ContextRenderer.Render | wd-soapgen/Code/ContextRenderer.cs:24-36 | exactly the three files with those names and bodies; no file's content depends on what the buffer held before |
| Rendering.TwoLines | wd-soapgen/Code/ContextRenderer.cs:67-70 | two AppendLine writers write two lines |
| Rendering.LayoutParts | wd-soapgen/Code/ContextRenderer.cs:47-59 | a file splits into preamble, body and "}" plus a line terminator, so the body can be read back |
| Rendering.LayoutInjective | wd-soapgen/Code/ContextRenderer.cs:47-59 | two files with the same header and namespace are equal only when their bodies are |
| Rendering.FileOpening | wd-soapgen/Code/ContextRenderer.cs:40-51 | a file opens with the header, an empty line, "namespace N" and "{", each on its own line |
| Rendering.LinesHoldEachText | wd-soapgen/Code/ContextRenderer.cs:95-98 | each class's full text sits verbatim at its offset in the types body, followed by a line terminator |
| Rendering.TypesInGivenOrder | wd-soapgen/Code/ContextRenderer.cs:95-98 | classes appear in the types body in the order given |

## Left out

- Roslyn itself is not modelled: parsing, `ParseTypeName`, `DescendantNodes` and trivia handling. A parsed file is a value of the declaration view or the text view, and the two views are not linked. In the tool they are linked by writing the rewritten file and parsing it again, in `Stage.cs`, which is not part of this model.
- Rewriting.Reparse: `ParseTypeName` is approximated by splitting the text into leading white space, a trimmed type text and trailing white space. Comments in trivia and the re-parsed node's shape are not modelled.
- File I/O is reduced to a parameter. The parser's input is an optional parsed file (`None` stands for a missing file) and `Extract` takes the parsed tree. `SyntaxCoalescer.Coalesce` and `GetSvcParams` (file reads and JSON) are not part of this model; the svcutil version is a parameter of `GetContext` (`None` for a null version).
- `Program.cs`, `Stage.cs`, `Tooling/*` and `TypeCoalescer.cs` are not part of this model. `Context.cs` is mirrored by the `Coalescing.Context` datatype.
- The special-case fault-attribute retargeting and `ServiceFile` construction (`ServiceRewriter`) are not part of this model. `Extract` returns the namespace and the selected declarations.
- StringExtensions.EndsWithEither: `string.EndsWith` without a comparison argument is culture-sensitive in .NET. It is modelled as an ordinal suffix test, as are the `EndsWith` filters of GetContext and the rewriter.
- Identifier `Text` and `ValueText` are taken to be the same string; they differ only for escaped identifiers such as `@class`.
- Requirements.RequirementExtractor.Valid: the visited set's comparer equates identifier tokens, which Roslyn equates only for the same token. The set is therefore modelled as a duplicate-free list of declarations compared as values. Distinct identifiers follow from the index being keyed by identifier.
- Requirements.Unwrapped: `Unwrap` yields lazily, so an exception can occur after some classes were added to the visited set. The model fails the whole operation before adding any; the exception ends `GetRequirements` either way.
- DisagreementRewriter's constructor accepts a null rule list that would fail at the first visit; the model's rule list is never null.
- The assembly version and the process command line in the header are parameters of the renderer. `Environment.NewLine` and the line breaks of the verbatim header literal are taken as "\n".
- TypeExt.TryGetName: its definition is not among the modelled files; only its call in `GetTypeArguments` is. The model assumes it yields the rightmost simple name of a simple, qualified or alias-qualified name and nothing for other shapes, mirroring the name switch at `RequirementExtractor.cs:72-75`. Whether a qualified generic such as `System.Threading.Tasks.Task<X>` is unwrapped rests on this assumption.
- Exceptions are modelled as `Err` values of a `Result`, one error constructor per exception the code throws.
