/** The notebook converter script: the format-pair resolver, the output-path
    rule of pathlib, the per-file staleness / read / resolve / export / write
    sequence with its catch-all, and the empty-scan branch of the directory
    walk. The file system and the log are the fields of a Host object; the
    notebook parser and the exporters are opaque, possibly failing, functions
    passed in by the caller. */
module NotebookConverter {
  import opened Wrappers
  import opened Text

  // ---------------------------------------------------------------------
  // Format-pair resolver (get_exporter)
  // ---------------------------------------------------------------------

  /** The two nbconvert exporters the resolver can return. */
  datatype Exporter = PythonExporter | NotebookExporter

  /** Aliases of the plain-script format. */
  const ScriptLabels: seq<string> := ["python", ".py", "py"]

  /** Aliases of the notebook format. */
  const NotebookLabels: seq<string> := ["notebook", "ipynb", ".ipynb"]

  /** The ValueError message: the string is not an f-string, so the braces
      are kept literally and the labels are not substituted. */
  const InvalidPairMessage: string := "Can't convert {from_format} to {to_format}!"

  /** Resolves a (from, to) pair of labels, compared after lower-casing.
      Script-to-notebook labels select PythonExporter and notebook-to-script
      labels select NotebookExporter, exactly as the script pairs them;
      every other pair is a ValueError. */
  function GetExporter(fromFormat: string, toFormat: string): (r: Result<Exporter, string>)
    ensures r == Success(PythonExporter) <==>
      ToLower(fromFormat) in ScriptLabels && ToLower(toFormat) in NotebookLabels
    ensures r == Success(NotebookExporter) <==>
      ToLower(toFormat) in ScriptLabels && ToLower(fromFormat) in NotebookLabels
    ensures r.Failure? ==> r.error == InvalidPairMessage
  {
    if ToLower(fromFormat) in ScriptLabels && ToLower(toFormat) in NotebookLabels then
      Success(PythonExporter)
    else if ToLower(toFormat) in ScriptLabels && ToLower(fromFormat) in NotebookLabels then
      Success(NotebookExporter)
    else
      Failure(InvalidPairMessage)
  }

  /** Upper-case spellings of the labels resolve like the originals. */
  lemma GetExporterIgnoresCase(fromFormat: string, toFormat: string)
    ensures GetExporter(ToUpper(fromFormat), ToUpper(toFormat)) == GetExporter(fromFormat, toFormat)
  {
    LowerAfterUpper(fromFormat);
    LowerAfterUpper(toFormat);
  }

  /** Two spellings that lower-case alike resolve alike. */
  lemma GetExporterDependsOnLowerCase(f1: string, t1: string, f2: string, t2: string)
    requires ToLower(f1) == ToLower(f2) && ToLower(t1) == ToLower(t2)
    ensures GetExporter(f1, t1) == GetExporter(f2, t2)
  {
  }

  lemma LowerOfLowerCase(s: string)
    requires forall i :: 0 <= i < |s| ==> !('A' <= s[i] <= 'Z')
    ensures ToLower(s) == s
  {
  }

  /** Every script alias paired with every notebook alias resolves, in one
      direction to PythonExporter and in the other to NotebookExporter. */
  lemma AliasPairsResolve(script: string, notebook: string)
    requires script in ScriptLabels && notebook in NotebookLabels
    ensures GetExporter(script, notebook) == Success(PythonExporter)
    ensures GetExporter(notebook, script) == Success(NotebookExporter)
  {
    LowerOfLowerCase(script);
    LowerOfLowerCase(notebook);
  }

  /** A same-to-same pair, such as py to py or ipynb to ipynb, is refused. */
  lemma SameFormatRefused(fmt: string)
    ensures GetExporter(fmt, fmt) == Failure(InvalidPairMessage)
  {
  }

  // ---------------------------------------------------------------------
  // Output path (Path.with_suffix(".py"), Python 3.12 rules)
  // ---------------------------------------------------------------------

  /** A path as its parent directory and its final component (Path.name). */
  datatype Path = Path(dir: string, name: string)

  /** str.rfind(c): the last index of c, or -1. */
  function RFind(s: string, c: char): (r: int)
    ensures -1 <= r < |s|
    ensures r >= 0 ==> s[r] == c
    ensures forall k :: r < k < |s| ==> s[k] != c
  {
    if s == [] then -1
    else if s[|s| - 1] == c then |s| - 1
    else RFind(s[..|s| - 1], c)
  }

  /** PurePath.suffix: the name from its last dot on, provided that dot is
      neither the first nor the last character. */
  function Suffix(name: string): string {
    var i := RFind(name, '.');
    if 0 < i < |name| - 1 then name[i..] else ""
  }

  /** PurePath.stem: the name without its suffix. */
  function Stem(name: string): string {
    var i := RFind(name, '.');
    if 0 < i < |name| - 1 then name[..i] else name
  }

  lemma StemNonEmpty(name: string)
    requires name != ""
    ensures Stem(name) != ""
  {
  }

  /** rfind finds an occurrence that no later occurrence follows. */
  lemma {:induction false} RFindLast(s: string, c: char, k: nat)
    requires k < |s| && s[k] == c
    requires forall j :: k < j < |s| ==> s[j] != c
    ensures RFind(s, c) == k
  {
    if k < |s| - 1 {
      RFindLast(s[..|s| - 1], c, k);
    }
  }

  lemma RFindAfterPySuffix(stem: string)
    ensures RFind(stem + ".py", '.') == |stem|
  {
    RFindLast(stem + ".py", '.', |stem|);
  }

  /** A name made of a dot-free stem and a dot-free extension,
      "<stem>.<ext>", becomes "<stem>.py". */
  lemma ReplaceExtension(dir: string, stem: string, ext: string)
    requires stem != "" && ext != ""
    requires forall i :: 0 <= i < |stem| ==> stem[i] != '.'
    requires forall i :: 0 <= i < |ext| ==> ext[i] != '.'
    ensures WithPySuffix(Path(dir, stem + "." + ext)) == Success(Path(dir, stem + ".py"))
  {
    var name := stem + "." + ext;
    RFindLast(name, '.', |stem|);
    assert name[..|stem|] == stem;
  }

  /** Path.with_suffix(".py"). A path without a name raises ValueError.
      The result lies in the same directory, has the suffix ".py", and keeps
      the stem of the source, whatever the requested target format. */
  function WithPySuffix(p: Path): (r: Result<Path, ConvertError>)
    ensures r.Failure? <==> p.name == ""
    ensures r.Failure? ==> r.error == EmptyName
    ensures r.Success? ==>
      r.value.dir == p.dir && Suffix(r.value.name) == ".py" && Stem(r.value.name) == Stem(p.name)
  {
    if p.name == "" then Failure(EmptyName)
    else
      StemNonEmpty(p.name);
      RFindAfterPySuffix(Stem(p.name));
      assert (Stem(p.name) + ".py")[..|Stem(p.name)|] == Stem(p.name);
      Success(Path(p.dir, Stem(p.name) + ".py"))
  }

  /** The output path coincides with the source exactly when the source
      already carries the suffix ".py". */
  lemma OutputIsSourceIff(p: Path)
    requires p.name != ""
    ensures WithPySuffix(p) == Success(p) <==> Suffix(p.name) == ".py"
  {
    if Suffix(p.name) == ".py" {
      var i := RFind(p.name, '.');
      assert p.name == p.name[..i] + p.name[i..];
    }
  }

  // ---------------------------------------------------------------------
  // Per-file conversion (convert_notebook)
  // ---------------------------------------------------------------------

  /** A file on disk: its modification time and its text. */
  datatype File = File(mtime: int, text: string)

  /** The in-memory notebook produced by nbformat.read. */
  datatype Cell = Markdown(source: string) | Code(source: string)
  type Notebook = seq<Cell>

  /** How the write of the output behaves: it succeeds, open() fails, or the
      write stops after some characters, leaving the truncated file behind. */
  datatype WriteFault = NoFault | OpenFails | StopsAfter(chars: nat)

  /** Every exception the catch-all can meet. */
  datatype ConvertError =
    | EmptyName                   // with_suffix on a path without a name
    | SourceMissing               // stat() or open() of the source fails
    | Unreadable                  // nbformat.read rejects the text
    | InvalidPair(message: string) // get_exporter raised ValueError
    | ExportFailed                // from_notebook_node raised
    | WriteFailed                 // open(..., "w") or write raised

  datatype Outcome = Skipped | Converted(exporter: Exporter, text: string) | Failed(error: ConvertError)

  /** What one call does: its outcome, whether the source was opened for
      reading, and the file left at the output path if anything was written. */
  datatype Run = Run(outcome: Outcome, readSource: bool, written: Option<File>)

  /** The skip rule: the output exists and is strictly newer than the source. */
  predicate UpToDate(files: map<Path, File>, src: Path) {
    var output := WithPySuffix(src);
    && output.Success?
    && output.value in files
    && src in files
    && files[output.value].mtime > files[src].mtime
  }

  /** The steps of convert_notebook in their order: output path, staleness
      check (stat of the output, then of the source), read, resolve, export,
      write. The first failing step ends the run; nothing propagates. */
  function ConvertSpec(files: map<Path, File>, src: Path, fromFormat: string, toFormat: string,
                       parse: string -> Option<Notebook>, render: (Exporter, Notebook) -> Option<string>,
                       fault: WriteFault, now: int): (run: Run)
    ensures run.outcome == Skipped <==> UpToDate(files, src)
    ensures run.outcome == Skipped ==> !run.readSource && run.written == None
    ensures run.readSource <==> WithPySuffix(src).Success? && src in files && !UpToDate(files, src)
    ensures run.written.Some? ==>
      && run.readSource && run.written.value.mtime == now
      && GetExporter(fromFormat, toFormat).Success? && fault != OpenFails
    ensures run.outcome.Converted? <==> run.readSource && run.written.Some? && fault == NoFault
    ensures run.outcome.Converted? ==>
      && run.outcome.exporter == GetExporter(fromFormat, toFormat).value
      && src in files && parse(files[src].text).Some?
      && render(run.outcome.exporter, parse(files[src].text).value) == Some(run.outcome.text)
      && run.written == Some(File(now, run.outcome.text))
    ensures GetExporter(fromFormat, toFormat).Failure? && run.readSource && parse(files[src].text).Some? ==>
      run.outcome == Failed(InvalidPair(InvalidPairMessage))
    ensures
      && run.readSource && parse(files[src].text).Some? && GetExporter(fromFormat, toFormat).Success?
      && render(GetExporter(fromFormat, toFormat).value, parse(files[src].text).value).Some?
      && fault == NoFault
      ==> run.outcome.Converted?
    // Each step fails with its own error and ends the run before the next.
    ensures WithPySuffix(src).Failure? ==> run.outcome == Failed(EmptyName)
    ensures WithPySuffix(src).Success? && src !in files ==> run.outcome == Failed(SourceMissing)
    ensures run.readSource && parse(files[src].text).None? ==> run.outcome == Failed(Unreadable)
    ensures
      && run.readSource && parse(files[src].text).Some? && GetExporter(fromFormat, toFormat).Success?
      && render(GetExporter(fromFormat, toFormat).value, parse(files[src].text).value).None?
      ==> run.outcome == Failed(ExportFailed)
    ensures
      && run.readSource && parse(files[src].text).Some? && GetExporter(fromFormat, toFormat).Success?
      && render(GetExporter(fromFormat, toFormat).value, parse(files[src].text).value).Some?
      && fault != NoFault
      ==> run.outcome == Failed(WriteFailed)
    // Only an exported text is ever written, in full or cut short.
    ensures run.written.Some? ==>
      && src in files && parse(files[src].text).Some? && GetExporter(fromFormat, toFormat).Success?
      && render(GetExporter(fromFormat, toFormat).value, parse(files[src].text).value).Some?
      && run.written.value.text <= render(GetExporter(fromFormat, toFormat).value, parse(files[src].text).value).value
  {
    match WithPySuffix(src)
    case Failure(e) => Run(Failed(e), false, None)
    case Success(output) =>
      if output in files && src !in files then Run(Failed(SourceMissing), false, None)
      else if output in files && files[output].mtime > files[src].mtime then Run(Skipped, false, None)
      else if src !in files then Run(Failed(SourceMissing), false, None)
      else
        match parse(files[src].text)
        case None => Run(Failed(Unreadable), true, None)
        case Some(notebook) =>
          match GetExporter(fromFormat, toFormat)
          case Failure(message) => Run(Failed(InvalidPair(message)), true, None)
          case Success(exporter) =>
            match render(exporter, notebook)
            case None => Run(Failed(ExportFailed), true, None)
            case Some(text) =>
              match fault
              case NoFault => Run(Converted(exporter, text), true, Some(File(now, text)))
              case OpenFails => Run(Failed(WriteFailed), true, None)
              case StopsAfter(k) =>
                assert text[..Min(k, |text|)] <= text;
                Run(Failed(WriteFailed), true, Some(File(now, text[..Min(k, |text|)])))
  }

  /** The file system after a run. */
  function Apply(files: map<Path, File>, src: Path, run: Run): map<Path, File>
    requires run.written.Some? ==> WithPySuffix(src).Success?
  {
    if run.written.Some? then files[WithPySuffix(src).value := run.written.value] else files
  }

  /** A pair the resolver refuses never produces a write, and fails only
      after the source has been read (or is skipped before that). */
  lemma InvalidPairNeverWrites(files: map<Path, File>, src: Path, fromFormat: string, toFormat: string,
                               parse: string -> Option<Notebook>, render: (Exporter, Notebook) -> Option<string>,
                               fault: WriteFault, now: int)
    requires GetExporter(fromFormat, toFormat).Failure?
    ensures var run := ConvertSpec(files, src, fromFormat, toFormat, parse, render, fault, now);
      && run.written == None
      && Apply(files, src, run) == files
      && (UpToDate(files, src) ==> run.outcome == Skipped)
      && (run.readSource && parse(files[src].text).Some? ==> run.outcome == Failed(InvalidPair(InvalidPairMessage)))
  {
  }

  /** Idempotence: right after a successful conversion at a time later than
      the source's mtime, converting the same source again is a skip, with
      no read and no write, whatever formats, parser, exporter or fault. */
  lemma SecondRunSkips(files: map<Path, File>, src: Path, fromFormat: string, toFormat: string,
                       parse: string -> Option<Notebook>, render: (Exporter, Notebook) -> Option<string>,
                       now: int, from2: string, to2: string,
                       parse2: string -> Option<Notebook>, render2: (Exporter, Notebook) -> Option<string>,
                       fault2: WriteFault, now2: int)
    requires ConvertSpec(files, src, fromFormat, toFormat, parse, render, NoFault, now).outcome.Converted?
    requires Suffix(src.name) != ".py"
    requires src in files ==> now > files[src].mtime
    ensures var files2 := Apply(files, src, ConvertSpec(files, src, fromFormat, toFormat, parse, render, NoFault, now));
      var run2 := ConvertSpec(files2, src, from2, to2, parse2, render2, fault2, now2);
      run2.outcome == Skipped && Apply(files2, src, run2) == files2
  {
    var output := WithPySuffix(src).value;
    OutputIsSourceIff(src);
    var files2 := Apply(files, src, ConvertSpec(files, src, fromFormat, toFormat, parse, render, NoFault, now));
    assert files2[output].mtime == now;
    assert src in files2 && files2[src] == files[src];
    assert UpToDate(files2, src);
  }

  /** A source that already ends in ".py" is its own output: converting it
      overwrites it, both mtimes become equal, and the next call reconverts
      rather than skipping. */
  lemma SelfOverwriteNeverSkips(files: map<Path, File>, src: Path, fromFormat: string, toFormat: string,
                                parse: string -> Option<Notebook>, render: (Exporter, Notebook) -> Option<string>,
                                now: int, from2: string, to2: string,
                                parse2: string -> Option<Notebook>, render2: (Exporter, Notebook) -> Option<string>,
                                fault2: WriteFault, now2: int)
    requires ConvertSpec(files, src, fromFormat, toFormat, parse, render, NoFault, now).outcome.Converted?
    requires Suffix(src.name) == ".py"
    ensures var files2 := Apply(files, src, ConvertSpec(files, src, fromFormat, toFormat, parse, render, NoFault, now));
      var run2 := ConvertSpec(files2, src, from2, to2, parse2, render2, fault2, now2);
      run2.outcome != Skipped && run2.readSource
  {
    OutputIsSourceIff(src);
    var files2 := Apply(files, src, ConvertSpec(files, src, fromFormat, toFormat, parse, render, NoFault, now));
    assert src in files2 && files2[src].mtime == now;
    assert !UpToDate(files2, src);
  }

  /** Deleting the output after a conversion and converting again writes the
      output once more, with the same content. */
  lemma RerunAfterDeletingOutput(files: map<Path, File>, src: Path, fromFormat: string, toFormat: string,
                                 parse: string -> Option<Notebook>, render: (Exporter, Notebook) -> Option<string>,
                                 now: int, now2: int)
    requires ConvertSpec(files, src, fromFormat, toFormat, parse, render, NoFault, now).outcome.Converted?
    requires Suffix(src.name) != ".py"
    ensures var run1 := ConvertSpec(files, src, fromFormat, toFormat, parse, render, NoFault, now);
      var files2 := Apply(files, src, run1) - {WithPySuffix(src).value};
      var run2 := ConvertSpec(files2, src, fromFormat, toFormat, parse, render, NoFault, now2);
      && run2.outcome == run1.outcome
      && Apply(files2, src, run2)[WithPySuffix(src).value].text == run1.outcome.text
  {
    var output := WithPySuffix(src).value;
    OutputIsSourceIff(src);
    var run1 := ConvertSpec(files, src, fromFormat, toFormat, parse, render, NoFault, now);
    var files2 := Apply(files, src, run1) - {output};
    assert output != src;
    assert src in files2 && files2[src] == files[src];
    assert output !in files2;
  }

  // ---------------------------------------------------------------------
  // The host: file system and log, and the two entry points
  // ---------------------------------------------------------------------

  /** One log line: info and warning lines carry their text; an error line
      "Error converting <name>: <message>" carries the file name and the
      exception. */
  datatype LogRecord = Info(text: string) | Warning(text: string) | Error(file: string, cause: ConvertError)

  /** The log line a per-file outcome produces. */
  function Report(src: Path, outcome: Outcome): (line: LogRecord)
    ensures line.Error? <==> outcome.Failed?
    ensures line.Error? ==> line.file == src.name && line.cause == outcome.error
  {
    match outcome
    case Skipped => Info("Skipping " + src.name + " - Python file is up to date")
    case Converted(_, _) => Info("Successfully converted " + src.name)
    case Failed(e) => Error(src.name, e)
  }

  class Host {
    var files: map<Path, File>
    var log: seq<LogRecord>

    constructor (initial: map<Path, File>)
      ensures files == initial && log == []
    {
      files := initial;
      log := [];
    }

    /** convert_notebook: runs the steps in order, returns early on a skip,
        catches every failure and logs exactly one line per call. */
    method ConvertNotebook(src: Path, fromFormat: string, toFormat: string,
                           parse: string -> Option<Notebook>, render: (Exporter, Notebook) -> Option<string>,
                           fault: WriteFault, now: int)
      modifies this
      ensures var run := ConvertSpec(old(files), src, fromFormat, toFormat, parse, render, fault, now);
        && files == Apply(old(files), src, run)
        && log == old(log) + [Report(src, run.outcome)]
    {
      var output := WithPySuffix(src);
      if output.Failure? {
        log := log + [Error(src.name, output.error)];
        return;
      }
      var out := output.value;
      if out in files {
        if src !in files {
          log := log + [Error(src.name, SourceMissing)];
          return;
        }
        if files[out].mtime > files[src].mtime {
          log := log + [Info("Skipping " + src.name + " - Python file is up to date")];
          return;
        }
      }
      if src !in files {
        log := log + [Error(src.name, SourceMissing)];
        return;
      }
      var notebook := parse(files[src].text);
      if notebook.None? {
        log := log + [Error(src.name, Unreadable)];
        return;
      }
      var exporter := GetExporter(fromFormat, toFormat);
      if exporter.Failure? {
        log := log + [Error(src.name, InvalidPair(exporter.error))];
        return;
      }
      var text := render(exporter.value, notebook.value);
      if text.None? {
        log := log + [Error(src.name, ExportFailed)];
        return;
      }
      match fault {
        case NoFault =>
          files := files[out := File(now, text.value)];
          log := log + [Info("Successfully converted " + src.name)];
        case OpenFails =>
          log := log + [Error(src.name, WriteFailed)];
        case StopsAfter(k) =>
          files := files[out := File(now, text.value[..Min(k, |text.value|)])];
          log := log + [Error(src.name, WriteFailed)];
      }
    }

    /** The scan branch of convert_notebooks_in_directory: `found` is what
        the recursive search for "*.ipynb" returned. An empty scan logs a
        warning and returns before any conversion; otherwise the count is
        logged. No file changes here. */
    method ConvertNotebooksInDirectory(directory: string, found: seq<Path>)
      modifies this
      ensures files == old(files)
      ensures found == [] ==> log == old(log) + [Warning("No notebook files found in " + directory)]
      ensures found != [] ==> log == old(log) + [Info("Found " + NatToString(|found|) + " notebook files")]
    {
      if found == [] {
        log := log + [Warning("No notebook files found in " + directory)];
        return;
      }
      log := log + [Info("Found " + NatToString(|found|) + " notebook files")];
    }
  }
}
