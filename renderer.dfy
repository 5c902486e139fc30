/** ContextRenderer: writes the merged service into three C# files. Each file
    is the generated-code header, a blank line, a namespace block, and a body
    of verbatim declaration text. One string buffer is shared by the three
    files and cleared before each one. */
module Rendering {
  import opened Wrappers
  import opened Syntax
  import opened StringExtensions
  import opened Coalescing

  /** The line terminator AppendLine writes, taken as "\n". */
  const NewLine: string := "\n"

  const InterfaceFile: string := "Interfaces.g.cs"
  const ClientFile: string := "Client.g.cs"
  const TypesFile: string := "Types.g.cs"

  /** The part of the tooling context the header quotes. */
  datatype ToolingContext = ToolingContext(svcutilArgs: string)

  /** The writers Assemble is given: AppendLine of one text, Append of one
      text, and AppendLine of each text of a list in turn. */
  datatype Writer =
    | AppendLineOf(text: string)
    | AppendOf(text: string)
    | AppendEachLine(texts: seq<string>)

  /** Every text followed by a line terminator, in order. */
  function Lines(ts: seq<string>): string {
    if ts == [] then [] else Lines(ts[..|ts| - 1]) + ts[|ts| - 1] + NewLine
  }

  /** Where the `i`th text starts in Lines(ts). */
  function LineOffset(ts: seq<string>, i: nat): nat
    requires i <= |ts|
  {
    |Lines(ts[..i])|
  }

  /** What one writer appends. */
  function Written(w: Writer): string {
    match w
    case AppendLineOf(t) => t + NewLine
    case AppendOf(t) => t
    case AppendEachLine(ts) => Lines(ts)
  }

  /** What a list of writers appends, in order. */
  function WrittenAll(ws: seq<Writer>): string {
    if ws == [] then [] else WrittenAll(ws[..|ws| - 1]) + Written(ws[|ws| - 1])
  }

  /** Everything Assemble writes before the body. */
  function Preamble(header: string, name: string): string {
    header + NewLine + NewLine + "namespace " + name + NewLine + "{" + NewLine
  }

  /** A whole file: preamble, body, closing brace line. */
  function Layout(header: string, name: string, body: string): string {
    Preamble(header, name) + body + "}" + NewLine
  }

  /** The full texts of the given classes, in order. */
  function FullTexts(classes: seq<TypeDecl>): (r: seq<string>)
    ensures |r| == |classes|
    ensures forall i | 0 <= i < |classes| :: r[i] == classes[i].fullText
  {
    if classes == [] then [] else [classes[0].fullText] + FullTexts(classes[1..])
  }

  /** GetSvcutilVersionText: nothing for a null or blank version, otherwise the
      version between "version " and a trailing space. */
  function GetSvcutilVersionText(version: Option<string>): (r: string)
    ensures r == [] <==> IsNullOrWhiteSpace(version)
    ensures r != [] ==> version.Some? && r == "version " + version.value + " "
  {
    if IsNullOrWhiteSpace(version) then "" else "version " + version.value + " "
  }

  /** string.Join with a separator. */
  function Join(sep: string, xs: seq<string>): (r: string)
    ensures xs == [] ==> r == []
    ensures |xs| == 1 ==> r == xs[0]
  {
    if xs == [] then []
    else if |xs| == 1 then xs[0]
    else Join(sep, xs[..|xs| - 1]) + sep + xs[|xs| - 1]
  }

  /** Joining one more part appends the separator and that part. */
  lemma JoinAppend(sep: string, xs: seq<string>, x: string)
    requires xs != []
    ensures Join(sep, xs + [x]) == Join(sep, xs) + sep + x
  {
    assert (xs + [x])[..|xs|] == xs;
  }

  /** Read from the front: the first part, the separator, then the join of the
      remaining parts. */
  lemma {:induction false} JoinCons(sep: string, x: string, xs: seq<string>)
    requires xs != []
    ensures Join(sep, [x] + xs) == x + sep + Join(sep, xs)
    decreases |xs|
  {
    var ys := [x] + xs;
    if |xs| == 1 {
      assert ys[..1] == [x];
    } else {
      var init := xs[..|xs| - 1];
      assert ys[..|ys| - 1] == [x] + init;
      JoinCons(sep, x, init);
    }
  }

  /** Enumerable.Skip(1). */
  function SkipFirst(args: seq<string>): (r: seq<string>)
    ensures args != [] ==> r == args[1..]
    ensures args == [] ==> r == []
  {
    if args == [] then [] else args[1..]
  }

  /** The dotnet-svcutil line of the header. */
  function GeneratedLine(version: Option<string>): string {
    "// This code was generated by dotnet-svcutil " + GetSvcutilVersionText(version) + "using the following command:"
  }

  /** The last line of the header: the wd-soapgen command line without the
      program path. */
  function MergedCommandLine(commandLineArgs: seq<string>): string {
    "// wd-soapgen " + Join(" ", SkipFirst(commandLineArgs))
  }

  /** The header lines between the trivia line and the command line. */
  function HeaderMiddle(version: Option<string>, t: ToolingContext, assemblyVersion: string): string {
    GeneratedLine(version) + NewLine
    + "// " + t.svcutilArgs + NewLine
    + NewLine
    + "// This code was merged by wd-soapgen version " + assemblyVersion + " using the following command:" + NewLine
  }

  /** GetHeader. The assembly version and the process command line are
      parameters. */
  function GetHeader(c: Context, t: ToolingContext, assemblyVersion: string, commandLineArgs: seq<string>): string {
    c.headerTrivia + NewLine + HeaderMiddle(c.svcutilVersion, t, assemblyVersion) + MergedCommandLine(commandLineArgs)
  }

  class ContextRenderer {
    const ctx: Context
    const tooling: ToolingContext
    const header: string
    /** The shared StringBuilder. */
    var sb: string

    constructor(ctx: Context, tooling: ToolingContext, assemblyVersion: string, commandLineArgs: seq<string>)
      ensures this.ctx == ctx && this.tooling == tooling
      ensures header == GetHeader(ctx, tooling, assemblyVersion, commandLineArgs)
      ensures sb == []
    {
      this.ctx := ctx;
      this.tooling := tooling;
      this.header := GetHeader(ctx, tooling, assemblyVersion, commandLineArgs);
      this.sb := [];
    }

    method Append(s: string)
      modifies this
      ensures sb == old(sb) + s
    {
      sb := sb + s;
    }

    method AppendLine(s: string)
      modifies this
      ensures sb == old(sb) + s + NewLine
    {
      sb := sb + s + NewLine;
    }

    /** Clears the buffer and writes the header and an empty line. */
    method Reset()
      modifies this
      ensures sb == header + NewLine + NewLine
    {
      sb := [];
      AppendLine(header);
      AppendLine("");
    }

    /** Runs one writer against the buffer. */
    method Write(w: Writer)
      modifies this
      ensures sb == old(sb) + Written(w)
    {
      match w
      case AppendLineOf(t) => AppendLine(t);
      case AppendOf(t) => Append(t);
      case AppendEachLine(ts) =>
        for i := 0 to |ts|
          invariant sb == old(sb) + Lines(ts[..i])
        {
          assert ts[..i + 1][..i] == ts[..i];
          AppendLine(ts[i]);
        }
        assert ts[..|ts|] == ts;
    }

    /** Resets the buffer, then writes the namespace block around what the
      writers append. The result does not depend on what the buffer held. */
    method Assemble(writers: seq<Writer>) returns (content: string)
      modifies this
      ensures content == sb == Layout(header, ctx.namespace.name, WrittenAll(writers))
    {
      Reset();
      AppendLine("namespace " + ctx.namespace.name);
      AppendLine("{");
      for i := 0 to |writers|
        invariant sb == Preamble(header, ctx.namespace.name) + WrittenAll(writers[..i])
      {
        assert writers[..i + 1][..i] == writers[..i];
        Write(writers[i]);
      }
      assert writers[..|writers|] == writers;
      AppendLine("}");
      content := sb;
    }

    /** The port and the port channel, each on its own line(s). */
    method RenderInterfaces() returns (f: NewFile)
      modifies this
      ensures f.filename == InterfaceFile
      ensures f.content == sb ==
        Layout(header, ctx.namespace.name, Lines([ctx.port.fullText, ctx.portChannel.fullText]))
    {
      var content := Assemble([AppendLineOf(ctx.port.fullText), AppendLineOf(ctx.portChannel.fullText)]);
      TwoLines(ctx.port.fullText, ctx.portChannel.fullText);
      f := NewFile(InterfaceFile, content);
    }

    /** The client declaration, with no line terminator added. */
    method RenderClient() returns (f: NewFile)
      modifies this
      ensures f.filename == ClientFile
      ensures f.content == sb == Layout(header, ctx.namespace.name, ctx.client.fullText)
    {
      var content := Assemble([AppendOf(ctx.client.fullText)]);
      f := NewFile(ClientFile, content);
    }

    /** Each class in the order given, each followed by a line terminator. */
    method RenderTypes(classes: seq<TypeDecl>) returns (f: NewFile)
      modifies this
      ensures f.filename == TypesFile
      ensures f.content == sb == Layout(header, ctx.namespace.name, Lines(FullTexts(classes)))
    {
      var content := Assemble([AppendEachLine(FullTexts(classes))]);
      f := NewFile(TypesFile, content);
    }

    /** The three files, rendered one after the other through the shared
      buffer; none of them depends on what the buffer held before. */
    method Render(classes: seq<TypeDecl>) returns (files: CoalescedFiles)
      modifies this
      ensures files.interfaces == NewFile(InterfaceFile,
        Layout(header, ctx.namespace.name, Lines([ctx.port.fullText, ctx.portChannel.fullText])))
      ensures files.client == NewFile(ClientFile, Layout(header, ctx.namespace.name, ctx.client.fullText))
      ensures files.types == NewFile(TypesFile, Layout(header, ctx.namespace.name, Lines(FullTexts(classes))))
      ensures sb == files.types.content
    {
      var i := RenderInterfaces();
      var c := RenderClient();
      var t := RenderTypes(classes);
      files := CoalescedFiles(i, c, t);
    }
  }

  /** Two AppendLine writers write the two texts as two lines. */
  lemma TwoLines(a: string, b: string)
    ensures WrittenAll([AppendLineOf(a), AppendLineOf(b)]) == Lines([a, b])
  {
    var ws := [AppendLineOf(a), AppendLineOf(b)];
    assert ws[..1] == [AppendLineOf(a)] && ws[..1][..0] == [];
    assert WrittenAll(ws[..1]) == a + NewLine;
    assert WrittenAll(ws) == a + NewLine + (b + NewLine);
    assert [a, b][..1] == [a] && [a][..0] == [];
    assert Lines([a]) == a + NewLine;
    assert Lines([a, b]) == a + NewLine + b + NewLine;
  }

  /** A file splits into its preamble, its body and the closing brace line, so
      the body can be read back out of the file. */
  lemma LayoutParts(header: string, name: string, body: string)
    ensures var c := Layout(header, name, body); var p := |Preamble(header, name)|;
      && |c| == p + |body| + 2
      && c[..p] == Preamble(header, name)
      && c[p..p + |body|] == body
      && c[p + |body|..] == "}\n"
  {
  }

  /** Two files with the same header and namespace are equal only when their
      bodies are. */
  lemma LayoutInjective(header: string, name: string, body1: string, body2: string)
    requires Layout(header, name, body1) == Layout(header, name, body2)
    ensures body1 == body2
  {
    LayoutParts(header, name, body1);
    LayoutParts(header, name, body2);
  }

  /** A file starts with the header followed by an empty line, and its fourth
      line (counting the header as one) declares the namespace. */
  lemma FileOpening(header: string, name: string, body: string)
    ensures var c := Layout(header, name, body); var h := |header|;
      && c[..h] == header
      && c[h..h + 2] == "\n\n"
      && c[h + 2..h + 13 + |name|] == "namespace " + name + "\n"
      && c[h + 13 + |name|..h + 15 + |name|] == "{\n"
  {
  }

  /** Lines of a concatenation is the concatenation of the lines. */
  lemma {:induction false} LinesAppend(a: seq<string>, b: seq<string>)
    ensures Lines(a + b) == Lines(a) + Lines(b)
  {
    if b == [] {
      assert a + b == a;
    } else {
      var b' := b[..|b| - 1];
      LinesAppend(a, b');
      assert (a + b)[..|a + b| - 1] == a + b';
    }
  }

  /** Lines(ts) is one line per text: each text sits at its offset, followed
      by a line terminator, and the next text starts right after. */
  lemma LinesHoldEachText(ts: seq<string>, i: nat)
    requires i < |ts|
    ensures LineOffset(ts, i + 1) == LineOffset(ts, i) + |ts[i]| + 1
    ensures LineOffset(ts, i + 1) <= |Lines(ts)|
    ensures Lines(ts)[LineOffset(ts, i)..LineOffset(ts, i) + |ts[i]|] == ts[i]
    ensures Lines(ts)[LineOffset(ts, i) + |ts[i]|] == '\n'
  {
    var pre, rest := ts[..i], ts[i + 1..];
    assert ts[..i + 1] == pre + [ts[i]];
    assert ts == ts[..i + 1] + rest;
    assert [ts[i]][..0] == [];
    LinesAppend(pre, [ts[i]]);
    LinesAppend(ts[..i + 1], rest);
  }

  /** The offsets of the texts in the types file body strictly increase: the
      classes appear in the order they were given. */
  lemma {:induction false} TypesInGivenOrder(classes: seq<TypeDecl>, i: nat, j: nat)
    requires i < j < |classes|
    ensures LineOffset(FullTexts(classes), i) < LineOffset(FullTexts(classes), j)
    decreases j - i
  {
    var ts := FullTexts(classes);
    LinesHoldEachText(ts, i);
    if i + 1 < j {
      TypesInGivenOrder(classes, i + 1, j);
    }
  }

  /** The header starts with the namespace's leading trivia and ends with the
      wd-soapgen command line; the program path is not part of it. */
  lemma HeaderFrame(c: Context, t: ToolingContext, assemblyVersion: string, commandLineArgs: seq<string>)
    ensures var h := GetHeader(c, t, assemblyVersion, commandLineArgs);
      && h[..|c.headerTrivia| + 1] == c.headerTrivia + "\n"
      && EndsWith(h, MergedCommandLine(commandLineArgs))
  {
  }

  /** The command line quoted in the header drops exactly the first argument. */
  lemma CommandLineSkipsProgram(program: string, rest: seq<string>)
    ensures MergedCommandLine([program] + rest) == "// wd-soapgen " + Join(" ", rest)
  {
  }
}
