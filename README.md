# uid release pages — a verified model

The uid documentation site has two page scripts that read `releases.xml`
and list every release of the library, split into stable releases and
snapshots:

- `js/releases.js` builds the build-instructions page: for each release a
  `<div>` with a heading (`uid <version>`), a sentence naming the Scala
  versions the release is built for, and an sbt snippet. Snapshots also get
  the Sonatype snapshots resolver line. Each `<div>` goes under `#stables`
  or `#snapshots`.
- `js/api.js` builds the API index: for each release an `<li>` linking to
  its ScalaDoc. A stable release links to its own directory. Every other
  release links to the shared `latest` directory. Each item goes under
  `#stable-release` or `#snapshot-release`.

Both scripts classify a version with the same test, `isStable`: the whole
string must match `^[\d\.\-]+$` with the case-insensitive flag.

The model has five modules, one file each:

- `Text` (text.dfy): string helpers. It holds JavaScript's `Array.prototype.join`
  and two small readers used to state what the generated markup contains:
  a line split, and a scan up to a delimiter.
- `Classifier` (classifier.dfy): `isStable`. It is written as the recursion that
  the pattern's `+` quantifier describes, and the `i` flag is an ASCII case
  fold. Lemmas prove that it equals "non-empty, and only digits, dots and
  hyphens", and that the flag changes nothing.
- `ReleaseData` (release_data.dfy): the `Release` record (the version text and the
  Scala-version texts of one `<release>`). It also holds the ordered split of the
  entries into the two sections, which both loops share. `Section` gives a
  section's contents. Lemmas prove the count, the slot each entry lands in,
  that nothing else is appended, and that order is kept.
- `Releases` (releases.dfy): `depedency` (named `Dependency` here), `sbtCode`,
  the `<em>` list, the heading and the sentence, and the class `BuildPage`.
  `BuildPage` has the two section fields, and its `Render` method is the
  `.each` loop.
- `Api` (api.dfy): `apiLink`, the `<li>` builder, and the class `ApiPage`. `ApiPage`
  has the two list fields, and its `Render` method is the `.each` loop.

Each page's sections are `seq<string>` fields of a class. A fragment is
its markup string. `Render` appends to the fields in a loop, and its
postcondition ties each field to its old value followed by
`Section(releases, fragment, stable)`.

The partners of the builders are small readers of the generated strings.
`ParseDependency` takes the version text back out of the sbt line when its
literal is plain (no quote, backslash, line feed or carriage return), and rejects the line
otherwise. `ParseItem` splits a list item's markup string back into the link
target and the anchor text, as written. `Lines` splits the code block into
lines. `LinkDirectory` reads the directory out of an API link.

## Model

| member | source | states |
|---|---|---|
| Classifier.StableIff | js/releases.js:14-16 | a version is stable iff it is non-empty and every character is a digit, `.` or `-` (the same test is in js/api.js:4-6) |
| Classifier.CaseFlagIrrelevant | js/releases.js:15 | with the `i` flag's case fold, a character matches `[\d\.\-]` iff it is one of `0123456789.-`, so the flag changes nothing |
| Classifier.LetterMeansSnapshot | js/releases.js:15 | a version with an ASCII letter anywhere (a qualifier such as RC1 or SNAPSHOT) is never stable |
| Classifier.StableHasNoMarkup | js/releases.js:15 | a stable version holds no quote, apostrophe, `<`, `>`, `&`, backslash, line feed or carriage return |
| Classifier.StableExamples | js/releases.js:15 | `1.2.3` and `2.0.0` are stable |
| Classifier.SnapshotExamples | js/releases.js:15 | the empty version, `1.0-RC1` and `2.1.0-SNAPSHOT` are snapshots |
| ReleaseData.TextOf | js/releases.js:43 | `.text()` of no matched element is the empty string, and of a single matched element that element's text |
| ReleaseData.TextOfAppend | js/releases.js:43 | `.text()` of two runs of matched elements is the first run's text followed by the second's |
| ReleaseData.ReadRelease | js/releases.js:43-46 | an entry keeps its `<value>` texts in order; with no `<version>` element, its version is the empty string |
| ReleaseData.MissingVersionIsSnapshot | js/releases.js:43 | an entry without a `<version>` is a snapshot; its fragment goes to the snapshot section and not to the stable one |
| ReleaseData.SectionLength | js/releases.js:40-54 | a section holds one fragment per entry of its class, so both sections together hold exactly one fragment per entry |
| ReleaseData.SectionSnoc | js/releases.js:53-54 | one more entry appends its fragment at the end of its own section; the other section is unchanged |
| ReleaseData.PlacedAt | js/releases.js:48-54 | every entry's fragment is in the section its classification selects, at the slot after all earlier entries of that class |
| ReleaseData.SectionFrom | js/releases.js:48-54 | every slot of a section holds the fragment of an entry of that class whose slot it is: nothing else is appended |
| ReleaseData.PositionsIncrease | js/releases.js:40 | entries of one class keep their document order within their section |
| Text.JoinAppend | js/releases.js:50 | `join` of a concatenation is the two halves joined with one more separator |
| Releases.DependencyRoundTrip | js/releases.js:18-20 | the dependency line holds a plain version literal reading back as exactly `v` iff `v` has no quote, backslash, line feed or carriage return; a stable version always reads back |
| Releases.BrokenLiteralExamples | js/releases.js:18-20 | the lines for the versions `1.0\`, `1.0` + line feed + `x` and `1.0` + carriage return do not read back |
| Releases.ResolverOneLine | js/releases.js:2 | the resolver declaration is one line starting with `resolvers` |
| Releases.SbtCodeText | js/releases.js:22-25 | the code block is wrapped in `<pre><code class="prettyprint lang-scala">` … `</code></pre>`, and its text is the code body |
| Releases.CodeBodyLines | js/releases.js:23-24 | for every version, the code body's lines are the resolver line and a blank line (snapshots only) followed by the lines of the dependency text; the first line is the resolver iff the version is a snapshot |
| Releases.SbtCodeLines | js/releases.js:22-25 | for every version, the code block's text has the lines of the code body; a stable version's is the single dependency line, and any other one-line version's is the resolver line, a blank line and the dependency line, in that order |
| Releases.FragmentParts | js/releases.js:48-52 | a release's `<div>` holds, in order, the heading, the sentence and the code block, and the heading's text between `<h2>` and `</h2>` is `uid ` followed by the version |
| Releases.EmListInOrder | js/releases.js:44-50 | the Scala versions become `<em>s</em>` items in input order, separated by `", "`; no versions give the empty string |
| Releases.ParagraphLists | js/releases.js:50-51 | the sentence names the version, then holds the `<em>` list followed by a full stop |
| Releases.HeadingExample | js/releases.js:49 | version 2.0.0 is headed `<h2>uid 2.0.0</h2>` |
| Releases.DependencyExample | js/releases.js:19 | the dependency line for 2.0.0 is `libraryDependencies += "gr.jkl" %% "uid" % "2.0.0"` |
| Releases.StableCodeExample | js/releases.js:22-25 | the code block for 2.0.0 holds that one line |
| Releases.EmListExample | js/releases.js:44-50 | Scala 2.11 and 2.12 render as `<em>2.11</em>, <em>2.12</em>` |
| Releases.SnapshotCodeExample | js/releases.js:22-25 | the code block for 2.1.0-SNAPSHOT holds the resolver line, a blank line and its dependency line |
| Releases.BuildPage.Render | js/releases.js:40-55 | after the loop, `#stables` is its old contents followed by the stable entries' fragments in order; `#snapshots` is the same for the rest; the total grows by the number of entries |
| Api.ApiLink | js/api.js:8-10 | every link starts with `api/` and ends with `/gr/jkl/uid/package.html` |
| Api.LinkDirectoryOf | js/api.js:9 | a link points into the version's own directory if the version is stable, otherwise into `latest` |
| Api.SameLinkIff | js/api.js:9 | two versions get the same link iff they are equal or both are snapshots; distinct stable versions get distinct links, and no stable version is sent to `latest` |
| Api.LinkHasNoQuote | js/api.js:9 | no link contains a quote, so it cannot end the `href` attribute early |
| Api.ItemRoundTrip | js/api.js:16-17 | splitting a list item's markup string back gives `href` = the version's link and anchor text = `ScalaDoc for uid ` followed by the version, as written |
| Api.ApiLinkExamples | js/api.js:9 | 1.2.3 links into `1.2.3`, and 1.2.3-SNAPSHOT links into `latest` |
| Api.ApiPage.Render | js/api.js:12-20 | after the loop, `#stable-release` is its old contents followed by the stable entries' items in order; `#snapshot-release` is the same for the rest; the total grows by the number of entries |

## Left out

- jQuery and the DOM: `$(document).ready`, `$('<div />')`, `.append`,
  `.appendTo` and the selector lookups. A section is a `seq<string>` field and a
  fragment is its markup string. The browser's parsing of appended markup is not
  modelled. Neither script escapes anything, so a version or a Scala version that
  contains markup becomes markup in the page. The model keeps it verbatim and does
  not sanitise it.
- Fetching and parsing `releases.xml` (`$.get`, `.find`): this is network I/O and
  a library XML parser. `Render` takes the already-read entries. A failed fetch
  never runs the callback, which is the same as no `Render` call. `ReadRelease`
  starts from the texts of the matched `<version>` and `<value>` elements.
- `loadCSS`, `$.ajaxSetup` and the `$.getScript`/`prettyPrint` chain
  (js/releases.js:4-12, 27-37). They load a stylesheet and the highlighter's
  scripts. The chain runs independently of the `releases.xml` request, and
  `prettyPrint` rewrites only the code blocks present when it runs, so whether
  a rendered block gets highlighted depends on which finishes first. That
  timing and the highlighter's rewrite are not modelled: the sections hold the
  markup as `Render` appends it, before any highlighting.
- The JavaScript regular-expression engine. Only this one pattern is modelled.
  The `i` flag is modelled as an ASCII case fold. JavaScript's full case
  canonicalisation of non-ASCII characters is not modelled. No character outside
  ASCII canonicalises into this class, so the answer is the same.
- Strings are sequences of Unicode scalar values, not UTF-16 code units. Nothing
  modelled here depends on the difference.
- The `sp` variable in js/releases.js is never declared, so it becomes an implicit
  global. This has no effect on what is rendered.
- Releases.DependencyRoundTrip: `ParseDependency` is not sbt's full reader.
  It does not decode Scala escape sequences; a literal holding a backslash, a
  quote, a line feed or a carriage return is rejected instead of read.
- Api.ItemRoundTrip: the round trip works on the markup string, not on the
  document a browser builds from it. Character references in `v` (such as
  `&amp;`) are not decoded, and a tag inside `v` (such as `</a>`) stays in the
  anchor text, where an HTML parser would end the anchor at it.
- The two scripts stay two page classes, as in the source, rather than one
  renderer with a mode switch. Their shared parts (the classifier, the record and
  the ordered split) are defined once.
