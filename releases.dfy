/** The build-instructions page (`releases.js`): for every release a `<div>`
    with a heading, a sentence naming the Scala versions it is built for and
    an sbt snippet, placed under `#stables` or `#snapshots`. */
module Releases {
  import opened Text
  import opened Classifier
  import opened ReleaseData

  /** The resolver line snapshot builds need. */
  const Resolver: string := "resolvers += Opts.resolver.sonatypeSnapshots"

  /** The dependency line up to the opening quote of the version literal. */
  const DependencyPrefix: string := "libraryDependencies += \"gr.jkl\" %% \"uid\" % \""

  const CodeOpen: string := "<pre><code class=\"prettyprint lang-scala\">"
  const CodeClose: string := "</code></pre>"

  /** `depedency(v)`: the sbt line that declares uid version `v`. */
  function Dependency(v: string): string
  {
    DependencyPrefix + v + "\""
  }

  /** The text inside `sbtCode(v)`'s code element: a snapshot first needs
      the resolver line and a blank line. */
  function CodeBody(v: string): string
  {
    (if IsStable(v) then "" else Resolver + "\n\n") + Dependency(v)
  }

  /** `sbtCode(v)`: the highlighted code block. */
  function SbtCode(v: string): string
  {
    CodeOpen + CodeBody(v) + CodeClose
  }

  /** The text between the code block's opening and closing tags. */
  function CodeText(code: string): string
    requires StartsWith(code, CodeOpen) && EndsWith(code, CodeClose)
    requires |CodeOpen| + |CodeClose| <= |code|
  {
    code[|CodeOpen|..|code| - |CodeClose|]
  }

  /** A text that a Scala `"…"` literal holds verbatim: no quote (which
      would end the literal), no backslash (which would start an escape) and
      no line feed or carriage return (which a single-line literal cannot
      hold). */
  predicate PlainLiteral(s: string)
  {
    '"' !in s && '\\' !in s && '\n' !in s && '\r' !in s
  }

  /** The version text of a dependency line whose version literal is plain:
      the text between the fixed prefix and the final quote. A line whose
      literal would end early, hold an escape or span lines is rejected
      rather than decoded. */
  function ParseDependency(line: string): Option<string>
  {
    if StartsWith(line, DependencyPrefix) && EndsWith(line, "\"") && |DependencyPrefix| < |line|
       && PlainLiteral(line[|DependencyPrefix|..|line| - 1])
    then Some(line[|DependencyPrefix|..|line| - 1])
    else None
  }

  /** One Scala version, emphasised. */
  function Em(s: string): string
  {
    "<em>" + s + "</em>"
  }

  /** `$.map(so, …).join(', ')`: the Scala versions emphasised and
      comma-separated. */
  function EmList(scalaVersions: seq<string>): string
  {
    Join(seq(|scalaVersions|, i requires 0 <= i < |scalaVersions| => Em(scalaVersions[i])), ", ")
  }

  function Heading(v: string): string
  {
    "<h2>uid " + v + "</h2>"
  }

  function Paragraph(v: string, scalaVersions: seq<string>): string
  {
    "<p>uid " + v + " is built for Scala " + EmList(scalaVersions)
    + ". In order to use uid " + v + ", include the following in your sbt build:</p>"
  }

  /** The `<div>` built for one release: heading, sentence and code block,
      appended in that order. */
  function Fragment(r: Release): string
  {
    "<div>" + Heading(r.version) + Paragraph(r.version, r.scalaVersions) + SbtCode(r.version) + "</div>"
  }

  /** The dependency line holds a plain version literal naming exactly `v`
      exactly when `v` holds no quote, backslash or newline, and so for every
      stable version. */
  lemma DependencyRoundTrip(v: string)
    ensures PlainLiteral(v) ==> ParseDependency(Dependency(v)) == Some(v)
    ensures !PlainLiteral(v) ==> ParseDependency(Dependency(v)) == None
    ensures IsStable(v) ==> ParseDependency(Dependency(v)) == Some(v)
  {
    var line := Dependency(v);
    assert line[..|DependencyPrefix|] == DependencyPrefix;
    assert line[|line| - 1..] == "\"";
    assert line[|DependencyPrefix|..|line| - 1] == v;
    if IsStable(v) {
      StableHasNoMarkup(v);
    }
  }

  /** Worked example: a snapshot version ending in a backslash would turn
      the closing quote into an escape, and one holding a line break would
      split the literal, so none of these lines reads back. */
  lemma BrokenLiteralExamples()
    ensures ParseDependency(Dependency("1.0\\")) == None
    ensures ParseDependency(Dependency("1.0\nx")) == None
    ensures ParseDependency(Dependency("1.0\r")) == None
  {
    DependencyRoundTrip("1.0\\");
    DependencyRoundTrip("1.0\nx");
    DependencyRoundTrip("1.0\r");
  }

  /** A wrapped text reads back as the text between the wrappers. */
  lemma Unwrap(open: string, body: string, close: string)
    ensures var w := open + body + close;
      StartsWith(w, open) && EndsWith(w, close) && w[|open|..|w| - |close|] == body
  {
    var w := open + body + close;
    assert w[..|open|] == open;
    assert w[|w| - |close|..] == close;
    assert w[|open|..|w| - |close|] == body;
  }

  /** The dependency line starts with `libraryDependencies`, and it is one
      line when the version is. */
  lemma DependencyOneLine(v: string)
    ensures Dependency(v)[0] == 'l'
    ensures '\n' !in v ==> '\n' !in Dependency(v)
  {
    assert '\n' !in DependencyPrefix && '\n' !in "\"";
    assert Dependency(v)[0] == DependencyPrefix[0];
  }

  /** The resolver is a single line. */
  lemma ResolverOneLine()
    ensures '\n' !in Resolver && Resolver[0] == 'r'
  {
  }

  /** What `sbtCode(v)` puts inside the code element. */
  lemma SbtCodeText(v: string)
    ensures StartsWith(SbtCode(v), CodeOpen) && EndsWith(SbtCode(v), CodeClose)
    ensures |CodeOpen| + |CodeClose| <= |SbtCode(v)|
    ensures CodeText(SbtCode(v)) == CodeBody(v)
  {
    Unwrap(CodeOpen, CodeBody(v), CodeClose);
  }

  /** The lines of a snapshot's code text: the resolver line and a blank
      line before the lines of the dependency text. */
  lemma SnapshotLines(d: string)
    ensures Lines(Resolver + "\n\n" + d) == [Resolver, ""] + Lines(d)
  {
    ResolverOneLine();
    assert "\n\n" == "\n" + "\n";
    AppendAssoc(Resolver, "\n", "\n");
    AppendAssoc(Resolver + "\n", "\n", d);
    AppendAssoc(Resolver, "\n", "\n" + d);
    LinesAfterNewline(Resolver, "\n" + d);
    assert ("\n" + d)[0] == '\n' && ("\n" + d)[1..] == d;
  }

  /** The lines of the code body: the resolver line and a blank line come
      first exactly for snapshots. */
  lemma CodeBodyLines(v: string)
    ensures Lines(CodeBody(v)) == (if IsStable(v) then [] else [Resolver, ""]) + Lines(Dependency(v))
    ensures Lines(CodeBody(v))[0] == Resolver <==> !IsStable(v)
  {
    DependencyOneLine(v);
    ResolverOneLine();
    if IsStable(v) {
      EmptyAppend(Dependency(v));
      EmptyAppend(Lines(Dependency(v)));
      FirstLine(Dependency(v));
    } else {
      SnapshotLines(Dependency(v));
    }
  }

  /** The code block's text: a snapshot gets the resolver line and a blank
      line before the dependency text, a stable version the dependency text
      alone, so the resolver comes first exactly for snapshots. When the
      version is one line (always, for a stable one) the dependency text is
      the single dependency line. */
  lemma SbtCodeLines(v: string)
    ensures StartsWith(SbtCode(v), CodeOpen) && EndsWith(SbtCode(v), CodeClose)
    ensures |CodeOpen| + |CodeClose| <= |SbtCode(v)|
    ensures Lines(CodeText(SbtCode(v)))
         == (if IsStable(v) then [] else [Resolver, ""]) + Lines(Dependency(v))
    ensures Lines(CodeText(SbtCode(v)))[0] == Resolver <==> !IsStable(v)
    ensures (IsStable(v) || '\n' !in v)
        ==> (Lines(CodeText(SbtCode(v)))
             == if IsStable(v) then [Dependency(v)] else [Resolver, "", Dependency(v)])
  {
    SbtCodeText(v);
    CodeBodyLines(v);
    if IsStable(v) {
      StableHasNoMarkup(v);
    }
    if IsStable(v) || '\n' !in v {
      DependencyOneLine(v);
      OneLine(Dependency(v));
    }
  }

  /** The emphasised list keeps the order of the Scala versions: it is empty
      for none, one `<em>` for one, and the renderings of two halves joined by
      ", " for a concatenation. */
  lemma EmListInOrder(a: seq<string>, b: seq<string>)
    ensures EmList([]) == ""
    ensures |a| == 1 ==> EmList(a) == "<em>" + a[0] + "</em>"
    ensures a != [] && b != [] ==> EmList(a + b) == EmList(a) + ", " + EmList(b)
  {
    if a != [] && b != [] {
      var ems := (xs: seq<string>) => seq(|xs|, i requires 0 <= i < |xs| => Em(xs[i]));
      assert ems(a + b) == ems(a) + ems(b);
      JoinAppend(ems(a), ems(b), ", ");
    }
  }

  /** The sentence names the version and then lists the Scala versions,
      closed by a full stop; with no Scala versions the list is empty. */
  lemma ParagraphLists(v: string, scalaVersions: seq<string>)
    ensures var p := Paragraph(v, scalaVersions);
      var k := |"<p>uid "| + |v| + |" is built for Scala "|;
      var e := EmList(scalaVersions);
      k + |e| < |p| && p[|"<p>uid "|..|"<p>uid "| + |v|] == v
      && p[k..k + |e|] == e && p[k + |e|] == '.'
  {
    var e := EmList(scalaVersions);
    var head := "<p>uid " + v + " is built for Scala ";
    var tail := ". In order to use uid " + v + ", include the following in your sbt build:</p>";
    assert Paragraph(v, scalaVersions) == head + e + tail;
    assert (head + e + tail)[|head|..|head| + |e|] == e;
    assert (head + e + tail)[|head| + |e|] == tail[0];
    assert head[|"<p>uid "|..|"<p>uid "| + |v|] == v;
  }

  /** The `<div>` for a release holds, in order, the heading, the sentence
      and the code block, and the heading's text is "uid" and the version. */
  lemma FragmentParts(r: Release)
    ensures var f := Fragment(r);
      var h := Heading(r.version);
      var c := SbtCode(r.version);
      var inner := h + Paragraph(r.version, r.scalaVersions) + c;
      StartsWith(f, "<div>") && EndsWith(f, "</div>")
      && f[|"<div>"|..|f| - |"</div>"|] == inner
      && StartsWith(inner, h) && EndsWith(inner, c)
      && inner[|h|..|inner| - |c|] == Paragraph(r.version, r.scalaVersions)
    ensures var h := Heading(r.version);
      StartsWith(h, "<h2>") && EndsWith(h, "</h2>")
      && h[|"<h2>"|..|h| - |"</h2>"|] == "uid " + r.version
  {
    var h := Heading(r.version);
    var p := Paragraph(r.version, r.scalaVersions);
    var c := SbtCode(r.version);
    AppendAssoc("<div>" + h, p, c);
    AppendAssoc("<div>", h, p + c);
    AppendAssoc(h, p, c);
    assert Fragment(r) == "<div>" + (h + p + c) + "</div>";
    Unwrap("<div>", h + p + c, "</div>");
    Unwrap(h, p, c);
    assert "<h2>uid " == "<h2>" + "uid ";
    AppendAssoc("<h2>", "uid ", r.version);
    Unwrap("<h2>", "uid " + r.version, "</h2>");
  }

  /** Worked example: 2.0.0 is headed "uid 2.0.0". */
  lemma HeadingExample()
    ensures Heading("2.0.0") == "<h2>uid 2.0.0</h2>"
  {
  }

  /** Worked example: the code block of the stable 2.0.0 holds the
      dependency line alone. */
  lemma StableCodeExample()
    ensures Lines(CodeText(SbtCode("2.0.0"))) == [Dependency("2.0.0")]
  {
    StableExamples();
    SbtCodeLines("2.0.0");
  }

  /** Worked example: the dependency line for 2.0.0. */
  lemma DependencyExample()
    ensures Dependency("2.0.0") == "libraryDependencies += \"gr.jkl\" %% \"uid\" % \"2.0.0\""
  {
  }

  /** Worked example: Scala 2.11 and 2.12 are listed in that order. */
  lemma EmListExample()
    ensures EmList(["2.11", "2.12"]) == "<em>2.11</em>, <em>2.12</em>"
  {
    EmListInOrder(["2.11"], ["2.12"]);
    assert ["2.11"] + ["2.12"] == ["2.11", "2.12"];
  }

  /** Worked example: 2.1.0-SNAPSHOT's code block holds the resolver line,
      a blank line and the dependency line. */
  lemma SnapshotCodeExample()
    ensures Lines(CodeText(SbtCode("2.1.0-SNAPSHOT")))
         == [Resolver, "", Dependency("2.1.0-SNAPSHOT")]
  {
    LetterMeansSnapshot("2.1.0-SNAPSHOT", 6);
    assert '\n' !in "2.1.0-SNAPSHOT";
    SbtCodeLines("2.1.0-SNAPSHOT");
  }

  /** The page's two sections: `#stables` and `#snapshots`, each the
      fragments appended to it so far. */
  class BuildPage {
    var stables: seq<string>
    var snapshots: seq<string>

    constructor ()
      ensures stables == [] && snapshots == []
    {
      stables, snapshots := [], [];
    }

    /** The `.each` loop: one fragment per release, in document order,
        appended to the section its version's classification selects. */
    method Render(releases: seq<Release>)
      modifies this
      ensures stables == old(stables) + Section(releases, Fragment, true)
      ensures snapshots == old(snapshots) + Section(releases, Fragment, false)
      ensures |stables| + |snapshots| == old(|stables| + |snapshots|) + |releases|
    {
      for n := 0 to |releases|
        invariant stables == old(stables) + Section(releases[..n], Fragment, true)
        invariant snapshots == old(snapshots) + Section(releases[..n], Fragment, false)
      {
        var r := releases[n];
        var h := Fragment(r);
        SectionStep(releases, n, Fragment, true);
        SectionStep(releases, n, Fragment, false);
        if IsStable(r.version) {
          AppendAssoc(old(stables), Section(releases[..n], Fragment, true), [h]);
          stables := stables + [h];
        } else {
          AppendAssoc(old(snapshots), Section(releases[..n], Fragment, false), [h]);
          snapshots := snapshots + [h];
        }
      }
      assert releases[..|releases|] == releases;
      SectionLength(releases, Fragment, true);
    }
  }
}
