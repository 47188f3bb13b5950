/** scripts/md_to_pdf.py: convert one Markdown file, or every Markdown file
    under a directory, to PDF. The file system is given as sets and maps of
    paths; `markdown()` and WeasyPrint's `write_pdf` are oracles that may
    fail; the stylesheet is a parameter. Console messages are not part of
    this model. */
module MdToPdf {
  import opened Optional
  import opened Text
  import opened Paths
  import opened Discovery

  /** What md_to_pdf.py sees of the world. */
  datatype DocEnv = DocEnv(
    existing: set<Path>,               // the paths `exists()` holds for
    directories: set<Path>,            // the paths `is_dir()` holds for
    files: map<Path, string>,          // the files `open(..., 'r', encoding='utf-8')` reads; any other path raises
    markdown: string -> Option<string>, // `markdown(text, extensions=[...])`; `None` when it raises
    mkdirFails: set<Path>,             // the directories `mkdir(parents=True, exist_ok=True)` raises for
    writesPdf: (string, Path) -> bool, // whether `HTML(string=html).write_pdf(path)` completes
    tree: Path -> seq<(seq<string>, string)>) // the entries under a directory, in glob order: sub-directory components and name

  /** How one call of `md_to_pdf` ends. */
  datatype Conversion =
    | NotFound                                  // returns False: the input does not exist
    | NotMarkdown                               // returns False: the suffix is not a Markdown one
    | Raised                                    // an exception escapes: reading, converting or `mkdir` failed
    | Rendered(pdf: Path, html: string, written: bool) // `write_pdf` attempted; returns `written`

  /** `md_to_pdf` returned `True`. */
  predicate Succeeded(c: Conversion) {
    c.Rendered? && c.written
  }

  /** `md_to_pdf` returned `False`. */
  predicate Failed(c: Conversion) {
    !c.Raised? && !Succeeded(c)
  }

  // ---------------------------------------------------------------------
  // The suffix check

  /** `suffix.lower() in ['.md', '.markdown']`. */
  predicate IsMarkdownSuffix(x: string) {
    Lower(x) == ".md" || Lower(x) == ".markdown"
  }

  /** `x` spells `y` up to case: each character is the one of `y`, its ASCII
      capital, or KELVIN SIGN for `k`. */
  predicate CaselessMatch(x: string, y: string) {
    |x| == |y|
    && forall k :: 0 <= k < |x| ==>
         x[k] == y[k]
         || ('a' <= y[k] <= 'z' && x[k] == (y[k] as int - 32) as char)
         || (y[k] == 'k' && x[k] == '\U{212A}')
  }

  /** A string without capitals or KELVIN SIGN is the lower case of exactly
      its spellings up to case. */
  lemma LowerMatches(x: string, y: string)
    requires forall k :: 0 <= k < |y| ==> !('A' <= y[k] <= 'Z') && y[k] != '\U{212A}'
    ensures Lower(x) == y <==> CaselessMatch(x, y)
  {
    if |x| == |y| {
      if Lower(x) == y {
        forall k | 0 <= k < |x|
          ensures x[k] == y[k]
                  || ('a' <= y[k] <= 'z' && x[k] == (y[k] as int - 32) as char)
                  || (y[k] == 'k' && x[k] == '\U{212A}')
        {
          assert LowerChar(x[k]) == y[k];
        }
      }
      if CaselessMatch(x, y) {
        forall k | 0 <= k < |x| ensures Lower(x)[k] == y[k] {
          assert LowerChar(x[k]) == y[k];
        }
      }
    }
  }

  /** The check accepts exactly `.md` and `.markdown` in any mix of case. */
  lemma MarkdownSuffixCaseless(x: string)
    ensures IsMarkdownSuffix(x) <==> CaselessMatch(x, ".md") || CaselessMatch(x, ".markdown")
  {
    LowerMatches(x, ".md");
    LowerMatches(x, ".markdown");
  }

  // ---------------------------------------------------------------------
  // The HTML document

  /** The document up to the stylesheet. */
  const HtmlHead: string :=
    "\n    <!DOCTYPE html>\n" + "    <html>\n" + "    <head>\n"
    + "        <meta charset=\"UTF-8\">\n" + "        <style>\n"

  /** From the end of the stylesheet up to the converted content. */
  const BodyOpen: string :=
    "        </style>\n" + "    </head>\n" + "    <body>\n" + "        "

  /** After the converted content. */
  const BodyClose: string :=
    "\n    </body>\n" + "    </html>\n" + "    "

  /** `full_html`: the converted content `body` in the page template whose
      style element holds `css`. */
  function HtmlDocument(css: string, body: string): string {
    HtmlHead + css + BodyOpen + body + BodyClose
  }

  /** The content of a document built on the template with `css`, or `None`
      when `doc` is not one. */
  function BodyOf(css: string, doc: string): Option<string> {
    var before := HtmlHead + css + BodyOpen;
    if |before| + |BodyClose| <= |doc| && doc[..|before|] == before && doc[|doc| - |BodyClose|..] == BodyClose
    then Some(doc[|before|..|doc| - |BodyClose|])
    else None
  }

  /** The content sits between the line opening `<body>` and the line
      closing it, and is read back from the document unchanged. */
  lemma DocumentBody(css: string, body: string)
    ensures var before := HtmlHead + css + BodyOpen;
            && HtmlDocument(css, body) == before + body + BodyClose
            && EndsWith(before, "    <body>\n        ")
            && |BodyClose| >= 13 && BodyClose[..13] == "\n    </body>\n"
    ensures BodyOf(css, HtmlDocument(css, body)) == Some(body)
  {
    var before := HtmlHead + css + BodyOpen;
    var doc := HtmlDocument(css, body);
    assert doc == before + body + BodyClose;
    var a, b := "        </style>\n" + "    </head>\n", "    <body>\n" + "        ";
    assert BodyOpen == a + b;
    assert before == (HtmlHead + css + a) + b;
    assert before[|before| - |b|..] == b;
    var c, d := "\n    </body>\n", "    </html>\n" + "    ";
    assert BodyClose == c + d;
    assert (c + d)[..|c|] == c;
    assert doc[..|before|] == before;
    assert doc[|doc| - |BodyClose|..] == BodyClose;
    assert doc[|before|..|doc| - |BodyClose|] == body;
  }

  /** Different contents give different documents. */
  lemma DocumentInjective(css: string, a: string, b: string)
    requires HtmlDocument(css, a) == HtmlDocument(css, b)
    ensures a == b
  {
    DocumentBody(css, a);
    DocumentBody(css, b);
  }

  // ---------------------------------------------------------------------
  // One file

  /** `md_to_pdf(md_file, output_file)` on the path `md`; `output` is the
      explicit output path, if any. */
  function Convert(env: DocEnv, css: string, md: Path, output: Option<Path>): (c: Conversion)
    ensures c == NotFound <==> md !in env.existing
    ensures c == NotMarkdown <==> md in env.existing && !IsMarkdownSuffix(Suffix(Name(md)))
    ensures c.Raised? <==>
              md in env.existing && IsMarkdownSuffix(Suffix(Name(md)))
              && (md !in env.files || env.markdown(TranslateNewlines(env.files[md])).None?
                  || Parent(OutputPath(md, output)) in env.mkdirFails)
    ensures c.Rendered? ==>
              && c.pdf == OutputPath(md, output)
              && c.html == HtmlDocument(css, env.markdown(TranslateNewlines(env.files[md])).value)
              && c.written == env.writesPdf(c.html, c.pdf)
    ensures Succeeded(c) <==> c.Rendered? && env.writesPdf(c.html, c.pdf)
  {
    if md !in env.existing then NotFound
    else if !IsMarkdownSuffix(Suffix(Name(md))) then NotMarkdown
    else if md !in env.files then Raised
    else
      var html := env.markdown(TranslateNewlines(env.files[md]));
      if html.None? then Raised
      else
        var pdf := OutputPath(md, output);
        if Parent(pdf) in env.mkdirFails then Raised
        else
          var full := HtmlDocument(css, html.value);
          Rendered(pdf, full, env.writesPdf(full, pdf))
  }

  /** The output path: `output` when given, otherwise `md` with its suffix
      replaced by `.pdf` (in the same directory, with the same stem). */
  function OutputPath(md: Path, output: Option<Path>): (pdf: Path)
    ensures output.Some? ==> pdf == output.value
    ensures output.None? && Name(md) != "" ==>
              Parent(pdf) == Parent(md) && Name(pdf) == Stem(Name(md)) + ".pdf"
  {
    if output.Some? then output.value
    else
      var r := WithSuffix(md, ".pdf");
      if r.Some? then r.value else md
  }

  /** With no explicit output, a Markdown file is converted next to itself,
      to a file whose suffix is `.pdf`. */
  lemma DefaultOutput(md: Path)
    requires Valid(md) && IsMarkdownSuffix(Suffix(Name(md)))
    ensures WithSuffix(md, ".pdf").Some? && OutputPath(md, None) == WithSuffix(md, ".pdf").value
    ensures var pdf := OutputPath(md, None);
            Valid(pdf) && Parent(pdf) == Parent(md) && Suffix(Name(pdf)) == ".pdf" && Stem(Name(pdf)) == Stem(Name(md))
  {
    assert Suffix(Name(md)) != [];
    WithSuffixReplaces(md, ".pdf");
  }

  // ---------------------------------------------------------------------
  // A directory

  /** The entry `sub/name` under `dir`, as the path `dir / sub / name`. */
  function EntryPath(dir: Path, entry: (seq<string>, string)): Path {
    JoinPath(dir, Path("", entry.0 + [entry.1]))
  }

  /** The entries under `dir`, as paths. */
  function Entries(env: DocEnv, dir: Path): (r: seq<Path>)
    ensures |r| == |env.tree(dir)|
    ensures forall k :: 0 <= k < |r| ==> r[k] == EntryPath(dir, env.tree(dir)[k])
  {
    seq(|env.tree(dir)|, k requires 0 <= k < |env.tree(dir)| => EntryPath(dir, env.tree(dir)[k]))
  }

  // `list(dir.glob('**/*.md')) + list(dir.glob('**/*.markdown'))`: the entries
  // whose name ends with `.md`, then those ending with `.markdown`.
  function MarkdownFiles(env: DocEnv, dir: Path): seq<Path> {
    RGlob(Entries(env, dir), ".md") + RGlob(Entries(env, dir), ".markdown")
  }

  /** `output_directory / md_file.relative_to(dir).with_suffix('.pdf')`;
      `None` stands for the `ValueError` either step raises. */
  function OutputFor(dir: Path, outDir: Path, md: Path): (r: Option<Path>)
    ensures r.Some? ==> RelativeTo(md, dir).Some?
    ensures r.Some? ==> RelativeTo(r.value, outDir) == WithSuffix(RelativeTo(md, dir).value, ".pdf")
    ensures r.Some? ==> Name(r.value) == Stem(Name(md)) + ".pdf"
  {
    var rel := RelativeTo(md, dir);
    if rel.None? then None
    else
      var pdfRel := WithSuffix(rel.value, ".pdf");
      if pdfRel.None? then None
      else
        RelativeToJoin(outDir, pdfRel.value);
        assert md.parts == dir.parts + rel.value.parts;
        Some(JoinPath(outDir, pdfRel.value))
  }

  /** An entry under `dir` with a name has an output path. */
  lemma EntryOutput(dir: Path, outDir: Path, parts: seq<string>)
    requires parts != [] && parts[|parts| - 1] != ""
    ensures OutputFor(dir, outDir, JoinPath(dir, Path("", parts))).Some?
  {
    RelativeToJoin(dir, Path("", parts));
  }

  /** What a glob finds is an entry of the walk. */
  lemma GlobbedEntry(es: seq<Path>, ext: string, md: Path)
    requires md in RGlob(es, ext)
    ensures md in es && EndsWith(Name(md), ext)
  {
    RGlobCount(es, ext, md);
    assert md in multiset(es);
  }

  /** Every file the globs find lies under `dir` and has a name, so its
      output path exists. */
  lemma MarkdownFilesMap(env: DocEnv, dir: Path, outDir: Path, md: Path)
    requires md in MarkdownFiles(env, dir)
    ensures OutputFor(dir, outDir, md).Some?
  {
    var es := Entries(env, dir);
    var ext := if md in RGlob(es, ".md") then ".md" else ".markdown";
    GlobbedEntry(es, ext, md);
    var j :| 0 <= j < |es| && es[j] == md;
    var parts := env.tree(dir)[j].0 + [env.tree(dir)[j].1];
    assert md == JoinPath(dir, Path("", parts));
    assert Name(md) != "";
    EntryOutput(dir, outDir, parts);
  }

  /** Two files in the same directory under `dir` whose names have the same
      stem are converted to the same PDF. */
  lemma SameStemSamePdf(dir: Path, outDir: Path, sub: seq<string>, a: string, b: string)
    requires a != "" && b != "" && Stem(a) == Stem(b)
    ensures var pa := OutputFor(dir, outDir, JoinPath(dir, Path("", sub + [a])));
            var pb := OutputFor(dir, outDir, JoinPath(dir, Path("", sub + [b])));
            pa.Some? && pa == pb
  {
    EntryPdf(dir, outDir, sub, a);
    EntryPdf(dir, outDir, sub, b);
  }

  /** The output path of the entry `sub/name` under `dir`: `sub/stem.pdf`
      under the output directory. */
  lemma EntryPdf(dir: Path, outDir: Path, sub: seq<string>, name: string)
    requires name != ""
    ensures OutputFor(dir, outDir, JoinPath(dir, Path("", sub + [name])))
         == Some(JoinPath(outDir, Path("", sub + [Stem(name) + ".pdf"])))
  {
    RelativeToJoin(dir, Path("", sub + [name]));
    var ps := sub + [name];
    assert ps[..|ps| - 1] == sub;
    assert WithSuffix(Path("", ps), ".pdf") == Some(Path("", sub + [Stem(name) + ".pdf"]));
  }

  /** `.md` and `.markdown` are extensions: a dot, then letters. */
  lemma MarkdownExtensionsSimple()
    ensures SimpleSuffix(".md") && SimpleSuffix(".markdown")
  {
    var x := ".markdown";
    forall k | 1 <= k < |x|
      ensures x[k] != '.' && x[k] != '/'
    {
      assert 'a' <= x[k] <= 'w';
    }
  }

  /** Two names made of one stem and two extensions, side by side, are
      converted to the same PDF, named after the stem. */
  lemma ExtensionTwinsCollide(dir: Path, outDir: Path, sub: seq<string>, stem: string, x: string, y: string)
    requires stem != "" && SimpleSuffix(x) && SimpleSuffix(y)
    ensures var pa := OutputFor(dir, outDir, JoinPath(dir, Path("", sub + [stem + x])));
            var pb := OutputFor(dir, outDir, JoinPath(dir, Path("", sub + [stem + y])));
            pa.Some? && pa == pb && Name(pa.value) == stem + ".pdf"
  {
    SuffixOfAppended(stem, x);
    SuffixOfAppended(stem, y);
    EntryPdf(dir, outDir, sub, stem + x);
    EntryPdf(dir, outDir, sub, stem + y);
  }

  /** In particular `notes.md` and `notes.markdown` side by side both become
      `notes.pdf`, and so do `a.b.md` and `a.b.markdown` as `a.b.pdf`. */
  lemma MarkdownTwinsCollide(dir: Path, outDir: Path, sub: seq<string>, stem: string)
    requires stem != ""
    ensures var pa := OutputFor(dir, outDir, JoinPath(dir, Path("", sub + [stem + ".md"])));
            var pb := OutputFor(dir, outDir, JoinPath(dir, Path("", sub + [stem + ".markdown"])));
            pa.Some? && pa == pb && Name(pa.value) == stem + ".pdf"
  {
    MarkdownExtensionsSimple();
    ExtensionTwinsCollide(dir, outDir, sub, stem, ".md", ".markdown");
  }

  /** The conversion of one file of the batch: its output path, then
      `md_to_pdf` on it; an exception when there is no output path. */
  function Step(env: DocEnv, css: string, dir: Path, outDir: Path, md: Path): Conversion {
    var out := OutputFor(dir, outDir, md);
    if out.None? then Raised else Convert(env, css, md, out)
  }

  /** The conversions the loop performs on `files`, each by `step`, in order,
      ending with the first one that raises, if any. */
  function Conversions(files: seq<Path>, step: Path -> Conversion): seq<Conversion> {
    if files == [] then []
    else
      var c := step(files[0]);
      if c.Raised? then [c] else [c] + Conversions(files[1..], step)
  }

  /** The conversions are those of the files in order; only the last may
      have raised, and when none did there is one per file. */
  lemma {:induction false} ConversionsShape(files: seq<Path>, step: Path -> Conversion)
    ensures var cs := Conversions(files, step);
            && |cs| <= |files|
            && (forall k :: 0 <= k < |cs| ==> cs[k] == step(files[k]))
            && (forall k :: 0 <= k < |cs| - 1 ==> !cs[k].Raised?)
            && (|cs| < |files| ==> cs != [] && cs[|cs| - 1].Raised?)
  {
    if files != [] {
      var c := step(files[0]);
      if !c.Raised? {
        ConversionsShape(files[1..], step);
        var rest := Conversions(files[1..], step);
        var cs := [c] + rest;
        forall k | 1 <= k < |cs|
          ensures cs[k] == step(files[k])
        {
          assert cs[k] == rest[k - 1] && files[1..][k - 1] == files[k];
        }
      }
    }
  }

  /** The conversions of the files before the `i`th, followed by that
      file's, and then, unless it raised, those of the files after it. */
  lemma ConversionsExtend(files: seq<Path>, step: Path -> Conversion, i: nat, done: seq<Conversion>)
    requires i < |files|
    requires Conversions(files, step) == done + Conversions(files[i..], step)
    ensures step(files[i]).Raised? ==> Conversions(files, step) == done + [step(files[i])]
    ensures !step(files[i]).Raised? ==>
              Conversions(files, step) == (done + [step(files[i])]) + Conversions(files[i + 1..], step)
  {
    var c := step(files[i]);
    ConversionsFrom(files, step, i);
    if !c.Raised? {
      var after := Conversions(files[i + 1..], step);
      assert done + ([c] + after) == (done + [c]) + after;
    }
  }

  /** The conversions from the `i`th file on: that file's, and then, unless
      it raised, those of the files after it. */
  lemma ConversionsFrom(files: seq<Path>, step: Path -> Conversion, i: nat)
    requires i < |files|
    ensures Conversions(files[i..], step)
         == if step(files[i]).Raised? then [step(files[i])]
            else [step(files[i])] + Conversions(files[i + 1..], step)
  {
    assert files[i..][0] == files[i] && files[i..][1..] == files[i + 1..];
  }

  /** The number of conversions that returned `True`. */
  function SuccessCount(cs: seq<Conversion>): nat {
    if cs == [] then 0 else SuccessCount(cs[..|cs| - 1]) + (if Succeeded(cs[|cs| - 1]) then 1 else 0)
  }

  /** The number of conversions that returned `False`. */
  function FailureCount(cs: seq<Conversion>): nat {
    if cs == [] then 0 else FailureCount(cs[..|cs| - 1]) + (if Failed(cs[|cs| - 1]) then 1 else 0)
  }

  /** One more conversion: it counts as a success, as a failure, or, when it
      raised, as neither. */
  lemma CountsSnoc(cs: seq<Conversion>, c: Conversion)
    ensures (cs + [c])[..|cs|] == cs
    ensures SuccessCount(cs + [c]) == SuccessCount(cs) + if Succeeded(c) then 1 else 0
    ensures FailureCount(cs + [c]) == FailureCount(cs) + if Failed(c) then 1 else 0
  {
    assert (cs + [c])[..|cs|] == cs;
  }

  /** When nothing raised, every conversion counts once: as a success or as a
      failure. */
  lemma {:induction false} CountsAddUp(cs: seq<Conversion>)
    requires forall k :: 0 <= k < |cs| ==> !cs[k].Raised?
    ensures SuccessCount(cs) + FailureCount(cs) == |cs|
  {
    if cs != [] {
      CountsAddUp(cs[..|cs| - 1]);
    }
  }

  /** When the last conversion did not raise, `step` was applied to every
      file, none raised, and each counts once. */
  lemma CompletedConversions(files: seq<Path>, step: Path -> Conversion)
    requires var cs := Conversions(files, step); cs == [] || !cs[|cs| - 1].Raised?
    ensures var cs := Conversions(files, step);
            && |cs| == |files|
            && (forall k :: 0 <= k < |cs| ==> cs[k] == step(files[k]) && !cs[k].Raised?)
            && SuccessCount(cs) + FailureCount(cs) == |files|
  {
    ConversionsShape(files, step);
    CountsAddUp(Conversions(files, step));
  }

  /** When the last conversion raised, the ones before it did not, and each
      of those counts once. */
  lemma AbortedConversions(files: seq<Path>, step: Path -> Conversion)
    requires var cs := Conversions(files, step); cs != [] && cs[|cs| - 1].Raised?
    ensures var cs := Conversions(files, step);
            && |cs| <= |files|
            && (forall k :: 0 <= k < |cs| ==> cs[k] == step(files[k]))
            && (forall k :: 0 <= k < |cs| - 1 ==> !cs[k].Raised?)
            && SuccessCount(cs[..|cs| - 1]) + FailureCount(cs[..|cs| - 1]) == |cs| - 1
  {
    var cs := Conversions(files, step);
    ConversionsShape(files, step);
    CountsAddUp(cs[..|cs| - 1]);
  }

  /** How `batch_convert` ends. */
  datatype BatchOutcome =
    | DirectoryNotFound                      // returns before converting anything
    | NoMarkdownFiles                        // returns: the globs found nothing
    | Aborted(successful: nat, failed: nat)  // an exception escaped after that many conversions
    | Completed(successful: nat, failed: nat)

  /** The output directory: `output_directory` when given, the input
      directory otherwise. */
  function OutputDirectory(directory: string, outputDirectory: Option<string>): Path {
    if outputDirectory.Some? then Parse(outputDirectory.value) else Parse(directory)
  }

  /** How the loop over `files` ends, given the conversions it performed. */
  function Tally(cs: seq<Conversion>): BatchOutcome {
    if cs != [] && cs[|cs| - 1].Raised?
    then Aborted(SuccessCount(cs[..|cs| - 1]), FailureCount(cs[..|cs| - 1]))
    else Completed(SuccessCount(cs), FailureCount(cs))
  }

  /** The tally after one more conversion, while nothing has raised: one
      that raised aborts with the counts so far, any other adds one success
      or one failure. */
  lemma TallySnoc(cs: seq<Conversion>, c: Conversion, successful: nat, failed: nat)
    requires Tally(cs) == Completed(successful, failed)
    ensures c.Raised? ==> Tally(cs + [c]) == Aborted(successful, failed)
    ensures !c.Raised? && Succeeded(c) ==> Tally(cs + [c]) == Completed(successful + 1, failed)
    ensures !c.Raised? && !Succeeded(c) ==> Tally(cs + [c]) == Completed(successful, failed + 1)
  {
    CountsSnoc(cs, c);
  }

  /** When the tally of the conversions is an abort, the last conversion
      raised, none before it did, and each of those counts once. */
  lemma TallyAborted(files: seq<Path>, step: Path -> Conversion)
    requires Tally(Conversions(files, step)).Aborted?
    ensures var cs := Conversions(files, step);
            && cs != [] && cs[|cs| - 1].Raised?
            && (forall k :: 0 <= k < |cs| - 1 ==> !cs[k].Raised?)
            && Tally(cs).successful + Tally(cs).failed == |cs| - 1
  {
    AbortedConversions(files, step);
  }

  /** The loop body as a function of the file. */
  function StepOf(env: DocEnv, css: string, dir: Path, outDir: Path): Path -> Conversion {
    md => Step(env, css, dir, outDir, md)
  }

  /** `batch_convert(directory, output_directory)`: how it ends and the
      conversions it performed, in order. */
  function Batch(env: DocEnv, css: string, directory: string, outputDirectory: Option<string>): (r: (BatchOutcome, seq<Conversion>))
    ensures r.0 == DirectoryNotFound <==> Parse(directory) !in env.existing || Parse(directory) !in env.directories
    ensures r.0 == DirectoryNotFound || r.0 == NoMarkdownFiles ==> r.1 == []
    ensures r.0 == NoMarkdownFiles ==> MarkdownFiles(env, Parse(directory)) == []
  {
    var dir := Parse(directory);
    if dir !in env.existing || dir !in env.directories then (DirectoryNotFound, [])
    else if outputDirectory.Some? && Parse(outputDirectory.value) in env.mkdirFails then (Aborted(0, 0), [])
    else
      var files := MarkdownFiles(env, dir);
      if files == [] then (NoMarkdownFiles, [])
      else
        var cs := Conversions(files, StepOf(env, css, dir, OutputDirectory(directory, outputDirectory)));
        (Tally(cs), cs)
  }

  /** A completed batch converts every Markdown file once, in glob order,
      each to its mirrored output path, and counts every one of them as a
      success or a failure. */
  lemma BatchCompleted(env: DocEnv, css: string, directory: string, outputDirectory: Option<string>)
    requires Batch(env, css, directory, outputDirectory).0.Completed?
    ensures var r := Batch(env, css, directory, outputDirectory);
            var files := MarkdownFiles(env, Parse(directory));
            var outDir := OutputDirectory(directory, outputDirectory);
            && |r.1| == |files|
            && r.0.successful + r.0.failed == |files|
            && r.0.successful == SuccessCount(r.1)
            && forall k :: 0 <= k < |files| ==>
                 && OutputFor(Parse(directory), outDir, files[k]).Some?
                 && r.1[k] == Convert(env, css, files[k], OutputFor(Parse(directory), outDir, files[k]))
  {
    var dir := Parse(directory);
    var outDir := OutputDirectory(directory, outputDirectory);
    var files := MarkdownFiles(env, dir);
    var step := StepOf(env, css, dir, outDir);
    var cs := Conversions(files, step);
    assert Batch(env, css, directory, outputDirectory) == (Tally(cs), cs);
    CompletedConversions(files, step);
    forall k | 0 <= k < |files|
      ensures OutputFor(dir, outDir, files[k]).Some?
    {
      MarkdownFilesMap(env, dir, outDir, files[k]);
    }
  }

  /** Once the loop starts, the batch is the tally of the conversions it
      performs. */
  lemma BatchLoop(env: DocEnv, css: string, directory: string, outputDirectory: Option<string>)
    requires Batch(env, css, directory, outputDirectory).1 != []
    ensures var dir := Parse(directory);
            var cs := Conversions(MarkdownFiles(env, dir), StepOf(env, css, dir, OutputDirectory(directory, outputDirectory)));
            Batch(env, css, directory, outputDirectory) == (Tally(cs), cs)
  {
  }

  /** An aborted batch stopped at the first conversion that raised, having
      counted the ones before it. */
  lemma BatchAborted(env: DocEnv, css: string, directory: string, outputDirectory: Option<string>)
    requires Batch(env, css, directory, outputDirectory).0.Aborted?
    ensures var r := Batch(env, css, directory, outputDirectory);
            && (r.1 == [] || (r.1[|r.1| - 1].Raised? && forall k :: 0 <= k < |r.1| - 1 ==> !r.1[k].Raised?))
            && r.0.successful + r.0.failed == if r.1 == [] then 0 else |r.1| - 1
  {
    var r := Batch(env, css, directory, outputDirectory);
    if r.1 != [] {
      var dir := Parse(directory);
      var files := MarkdownFiles(env, dir);
      var step := StepOf(env, css, dir, OutputDirectory(directory, outputDirectory));
      var cs := Conversions(files, step);
      assert r == (Tally(cs), cs) by {
        BatchLoop(env, css, directory, outputDirectory);
      }
      TallyAborted(files, step);
    }
  }

  /** The loop of `batch_convert` over `mdFiles`, with its two counters:
      how it ends and the conversions it performed, in order. */
  method ConvertEach(env: DocEnv, css: string, dirPath: Path, outDir: Path, mdFiles: seq<Path>)
    returns (outcome: BatchOutcome, conversions: seq<Conversion>)
    ensures conversions == Conversions(mdFiles, StepOf(env, css, dirPath, outDir))
    ensures outcome == Tally(conversions)
  {
    ghost var step := StepOf(env, css, dirPath, outDir);
    var successful, failed := 0, 0;
    conversions := [];
    assert mdFiles[0..] == mdFiles;
    for i := 0 to |mdFiles|
      invariant Conversions(mdFiles, step) == conversions + Conversions(mdFiles[i..], step)
      invariant Tally(conversions) == Completed(successful, failed)
    {
      var c := Step(env, css, dirPath, outDir, mdFiles[i]);
      assert c == step(mdFiles[i]);
      ConversionsExtend(mdFiles, step, i, conversions);
      TallySnoc(conversions, c, successful, failed);
      conversions := conversions + [c];
      if c.Raised? {
        return Aborted(successful, failed), conversions;
      }
      if Succeeded(c) {
        successful := successful + 1;
      } else {
        failed := failed + 1;
      }
    }
    assert mdFiles[|mdFiles|..] == [];
    return Completed(successful, failed), conversions;
  }

  /** `batch_convert(directory, output_directory)`. */
  method BatchConvert(env: DocEnv, css: string, directory: string, outputDirectory: Option<string>)
    returns (outcome: BatchOutcome, conversions: seq<Conversion>)
    ensures (outcome, conversions) == Batch(env, css, directory, outputDirectory)
  {
    var dirPath := Parse(directory);
    if dirPath !in env.existing || dirPath !in env.directories {
      return DirectoryNotFound, [];
    }
    var outDir := Parse(directory);
    if outputDirectory.Some? {
      outDir := Parse(outputDirectory.value);
      if outDir in env.mkdirFails {
        return Aborted(0, 0), [];
      }
    }
    var mdFiles := MarkdownFiles(env, dirPath);
    if mdFiles == [] {
      return NoMarkdownFiles, [];
    }
    outcome, conversions := ConvertEach(env, css, dirPath, outDir, mdFiles);
  }
}
