/** The Directory Scanner and the driver of `main`: the input files are
    selected by name, then processed one after another, each writing at most
    one file into the output directory. The directory is a map from file
    name to content; a later write to a name replaces an earlier one. */
module Normalizer {
  import opened ParsedTree
  import opened JsString
  import opened Extractor
  import opened Emitter

  const FilePrefix := "sys_script_include_"
  const FileSuffix := ".xml"

  /** The listing filter of `main`: `startsWith` the prefix and `endsWith`
      the suffix. The two cannot overlap, so a selected name is exactly the
      prefix, then any (possibly empty) middle, then the suffix. */
  function IsScriptIncludeFile(name: string): (b: bool)
    ensures b <==> |name| >= |FilePrefix| + |FileSuffix|
                   && name == FilePrefix + name[|FilePrefix|..|name| - |FileSuffix|] + FileSuffix
  {
    if StartsWith(name, FilePrefix) && EndsWith(name, FileSuffix) then
      PrefixSuffixApart(name);
      true
    else
      false
  }

  /** The prefix has no `.`, so the `.` that starts the suffix lies after it;
      the shortest selected name is `sys_script_include_.xml`. */
  lemma PrefixSuffixApart(name: string)
    requires StartsWith(name, FilePrefix) && EndsWith(name, FileSuffix)
    ensures |name| >= |FilePrefix| + |FileSuffix|
    ensures name == FilePrefix + name[|FilePrefix|..|name| - |FileSuffix|] + FileSuffix
  {
    var k := |name| - |FileSuffix|;
    assert name[k] == name[k..][0] == '.';
    assert forall j :: 0 <= j < |FilePrefix| ==> name[j] == name[..|FilePrefix|][j] == FilePrefix[j] != '.';
    assert name == name[..|FilePrefix|] + name[|FilePrefix|..k] + name[k..];
  }

  /** What reading and parsing one input file gives: the parsed tree, or a
      failure, which throws: an unreadable file, malformed XML, or a
      document the parser turns into `null` (an empty one), on which the
      shape lookup fails. */
  datatype Content = Parsed(tree: Tree) | Unreadable

  /** One entry of the update directory, in listing order. */
  datatype DirEntry = DirEntry(name: string, content: Content)

  /** The output directory: file name to file content. */
  type Directory = map<string, string>

  /** How a run ends: every selected file processed; stopped by the exception
      a failing file throws, with the files before it already written; or
      the update directory missing, before anything is read. */
  datatype Status = Completed | Aborted(file: string) | UpdateDirMissing

  datatype Outcome = Outcome(written: Directory, status: Status)

  /** `readdirSync(...).filter(...)`: exactly the entries whose names match,
      in listing order (SelectFilesAppend). */
  function SelectFiles(entries: seq<DirEntry>): (r: seq<DirEntry>)
    ensures |r| <= |entries|
    ensures forall e :: e in r <==> e in entries && IsScriptIncludeFile(e.name)
  {
    if entries == [] then []
    else (if IsScriptIncludeFile(entries[0].name) then [entries[0]] else []) + SelectFiles(entries[1..])
  }

  /** The filter distributes over concatenation, so it keeps the relative
      order of the entries it selects. */
  lemma {:induction false} SelectFilesAppend(a: seq<DirEntry>, b: seq<DirEntry>)
    ensures SelectFiles(a + b) == SelectFiles(a) + SelectFiles(b)
  {
    if a == [] {
      assert a + b == b;
    } else {
      assert (a + b)[1..] == a[1..] + b;
      SelectFilesAppend(a[1..], b);
    }
  }

  /** `processFile` on a parsed file named `source`: at most one file of the
      output directory changes, and only the one Emission names. */
  function Step(out: Directory, app: string, source: string, t: Tree): (r: Directory)
    ensures Emission(app, source, t).None? ==> r == out
    ensures Emission(app, source, t).Some? ==>
              var w := Emission(app, source, t).value;
              w.file in r && r[w.file] == w.content
              && r.Keys == out.Keys + {w.file}
              && forall k :: k in out && k != w.file ==> r[k] == out[k]
  {
    Apply(out, Emission(app, source, t))
  }

  /** Writing one file, if there is one, into the output directory. */
  function Apply(out: Directory, w: Option<Write>): Directory {
    if w.Some? then out[w.value.file := w.value.content] else out
  }

  /** The loop of `main` over the selected files, from directory `out`. No
      file is ever removed, and the run completes exactly when every file
      parses; otherwise it ends with the exception of a failing file. */
  function Run(out: Directory, app: string, files: seq<DirEntry>): (r: Outcome)
    ensures out.Keys <= r.written.Keys
    ensures r.status == Completed <==> AllParsed(files)
    ensures r.status.Completed? || r.status.Aborted?
    ensures r.status.Aborted? ==> FirstFailure(files) < |files| && r.status.file == files[FirstFailure(files)].name
    decreases |files|
  {
    if files == [] then Outcome(out, Completed)
    else
      AllParsedCons(files);
      match files[0].content
      case Unreadable => Outcome(out, Aborted(files[0].name))
      case Parsed(t) => Run(Step(out, app, files[0].name, t), app, files[1..])
  }

  lemma AllParsedCons(files: seq<DirEntry>)
    requires files != []
    ensures AllParsed(files) <==> files[0].content.Parsed? && AllParsed(files[1..])
  {
    assert forall i :: 0 < i < |files| ==> files[i] == files[1..][i - 1];
  }

  /** `main`, after the argument check: stop when the update directory is
      missing; otherwise process the selected entries in order, starting from
      the output directory as it was. */
  method NormalizeScriptIncludes(app: string, update: Option<seq<DirEntry>>, existing: Directory)
    returns (out: Directory, status: Status)
    ensures update.None? ==> out == existing && status == UpdateDirMissing
    ensures update.Some? ==> Outcome(out, status) == Run(existing, app, SelectFiles(update.value))
  {
    if update.None? {
      return existing, UpdateDirMissing;
    }
    var files := SelectFiles(update.value);
    out := existing;
    var i := 0;
    while i < |files|
      invariant 0 <= i <= |files|
      invariant Run(out, app, files[i..]) == Run(existing, app, files)
    {
      assert files[i..][1..] == files[i + 1..];
      match files[i].content
      case Unreadable =>
        return out, Aborted(files[i].name);
      case Parsed(t) =>
        out := Step(out, app, files[i].name, t);
      i := i + 1;
    }
    status := Completed;
  }

  /** What one input file writes, if anything; an unreadable one throws
      before writing. */
  function Target(app: string, file: DirEntry): Option<Write> {
    if file.content.Parsed? then Emission(app, file.name, file.content.tree) else None
  }

  predicate WritesTo(w: Option<Write>, key: string) {
    w.Some? && w.value.file == key
  }

  /** `file` is parsed and writes output file `key`. */
  predicate WritesKey(app: string, file: DirEntry, key: string) {
    WritesTo(Target(app, file), key)
  }

  /** The writes of the files, one per file, in order. */
  function Writes(app: string, files: seq<DirEntry>): (ws: seq<Option<Write>>)
    ensures |ws| == |files|
    ensures forall j :: 0 <= j < |files| ==> ws[j] == Target(app, files[j])
  {
    seq(|files|, j requires 0 <= j < |files| => Target(app, files[j]))
  }

  /** The writes applied in order, each replacing what its name held. */
  function ApplyAll(out: Directory, ws: seq<Option<Write>>): Directory
    decreases |ws|
  {
    if ws == [] then out else ApplyAll(Apply(out, ws[0]), ws[1..])
  }

  /** A run in which every file parses applies the files' writes in order. */
  lemma {:induction false} RunAllParsed(out: Directory, app: string, files: seq<DirEntry>)
    requires AllParsed(files)
    ensures Run(out, app, files) == Outcome(ApplyAll(out, Writes(app, files)), Completed)
    decreases |files|
  {
    if files != [] {
      AllParsedCons(files);
      var ws := Writes(app, files);
      var rest := files[1..];
      assert ws[0] == Target(app, files[0]);
      assert forall j :: 0 <= j < |rest| ==> rest[j] == files[j + 1];
      assert ws[1..] == Writes(app, rest);
      RunAllParsed(Step(out, app, files[0].name, files[0].content.tree), app, files[1..]);
    }
  }

  lemma {:induction false} ApplyAllUntouched(out: Directory, ws: seq<Option<Write>>, key: string)
    requires forall j :: 0 <= j < |ws| ==> !WritesTo(ws[j], key)
    ensures key in ApplyAll(out, ws) <==> key in out
    ensures key in out ==> ApplyAll(out, ws)[key] == out[key]
    decreases |ws|
  {
    if ws != [] {
      var rest := ws[1..];
      assert !WritesTo(ws[0], key);
      assert forall j :: 0 <= j < |rest| ==> rest[j] == ws[j + 1];
      ApplyAllUntouched(Apply(out, ws[0]), rest, key);
    }
  }

  lemma {:induction false} ApplyAllLast(out: Directory, ws: seq<Option<Write>>, i: nat)
    requires i < |ws| && ws[i].Some?
    requires forall j :: i < j < |ws| ==> !WritesTo(ws[j], ws[i].value.file)
    ensures ws[i].value.file in ApplyAll(out, ws) && ApplyAll(out, ws)[ws[i].value.file] == ws[i].value.content
    decreases |ws|
  {
    var rest := ws[1..];
    assert forall j :: 0 <= j < |rest| ==> rest[j] == ws[j + 1];
    if i == 0 {
      ApplyAllUntouched(Apply(out, ws[0]), rest, ws[0].value.file);
    } else {
      ApplyAllLast(Apply(out, ws[0]), rest, i - 1);
    }
  }

  predicate AllParsed(files: seq<DirEntry>) {
    forall i :: 0 <= i < |files| ==> files[i].content.Parsed?
  }

  /** Index of the first file that fails, or the number of files. */
  function FirstFailure(files: seq<DirEntry>): (n: nat)
    ensures n <= |files|
    ensures AllParsed(files[..n])
    ensures forall j :: 0 <= j < n ==> files[j].content.Parsed?
    ensures n < |files| ==> files[n].content.Unreadable?
  {
    if files == [] || files[0].content.Unreadable? then 0
    else
      var m := FirstFailure(files[1..]);
      assert files[..m + 1] == [files[0]] + files[1..][..m];
      assert forall j :: 0 < j <= m ==> files[j] == files[1..][j - 1];
      m + 1
  }

  /** A run does the work of the files before the first failing one, and
      then stops: it completes exactly when no file fails. */
  lemma {:induction false} RunStopsAtFailure(out: Directory, app: string, files: seq<DirEntry>)
    decreases |files|
    ensures var n := FirstFailure(files);
            Run(out, app, files) ==
            Outcome(Run(out, app, files[..n]).written,
                    if n == |files| then Completed else Aborted(files[n].name))
  {
    if files != [] && files[0].content.Parsed? {
      var t := files[0].content.tree;
      var n := FirstFailure(files);
      RunStopsAtFailure(Step(out, app, files[0].name, t), app, files[1..]);
      assert files[..n][1..] == files[1..][..n - 1];
      assert files[..n] != [];
    }
  }

  /** A file name no processed file writes keeps its old content, or stays
      absent. */
  lemma RunUntouched(out: Directory, app: string, files: seq<DirEntry>, key: string)
    requires AllParsed(files)
    requires forall j :: 0 <= j < |files| ==> !WritesKey(app, files[j], key)
    ensures key in Run(out, app, files).written <==> key in out
    ensures key in out ==> Run(out, app, files).written[key] == out[key]
  {
    RunAllParsed(out, app, files);
    ApplyAllUntouched(out, Writes(app, files), key);
  }

  /** Last write wins: the file `files[i]` writes holds its content at the
      end when no later file writes the same name. */
  lemma RunLastWriteWins(out: Directory, app: string, files: seq<DirEntry>, i: nat)
    requires AllParsed(files) && i < |files|
    requires Emission(app, files[i].name, files[i].content.tree).Some?
    requires var key := Emission(app, files[i].name, files[i].content.tree).value.file;
             forall j :: i < j < |files| ==> !WritesKey(app, files[j], key)
    ensures var w := Emission(app, files[i].name, files[i].content.tree).value;
            w.file in Run(out, app, files).written && Run(out, app, files).written[w.file] == w.content
  {
    var ws := Writes(app, files);
    assert ws[i] == Target(app, files[i]) == Emission(app, files[i].name, files[i].content.tree);
    RunAllParsed(out, app, files);
    ApplyAllLast(out, ws, i);
  }

  /** A name that no file before the first failing one writes keeps its
      old content, or stays absent, whatever the listing holds. */
  lemma RunKeepsUnwritten(out: Directory, app: string, files: seq<DirEntry>, key: string)
    requires forall j :: 0 <= j < FirstFailure(files) ==> !WritesKey(app, files[j], key)
    ensures key in Run(out, app, files).written <==> key in out
    ensures key in out ==> Run(out, app, files).written[key] == out[key]
  {
    var done := files[..FirstFailure(files)];
    RunStopsAtFailure(out, app, files);
    assert forall j :: 0 <= j < |done| ==> done[j] == files[j];
    RunUntouched(out, app, done, key);
  }

  /** Last write wins, whatever the listing holds: a file before the first
      failing one leaves its content under the name it writes, provided no
      file after it and before the failure writes the same name. A file at
      or after the failure is never processed. */
  lemma RunKeepsLastWrite(out: Directory, app: string, files: seq<DirEntry>, i: nat)
    requires i < FirstFailure(files)
    requires Emission(app, files[i].name, files[i].content.tree).Some?
    requires var key := Emission(app, files[i].name, files[i].content.tree).value.file;
             forall j :: i < j < FirstFailure(files) ==> !WritesKey(app, files[j], key)
    ensures var w := Emission(app, files[i].name, files[i].content.tree).value;
            w.file in Run(out, app, files).written && Run(out, app, files).written[w.file] == w.content
  {
    var done := files[..FirstFailure(files)];
    RunStopsAtFailure(out, app, files);
    assert forall j :: 0 <= j < |done| ==> done[j] == files[j];
    RunLastWriteWins(out, app, done, i);
  }

  /** The index of the last `true`, or -1 when there is none. */
  function LastTrue(flags: seq<bool>): (i: int)
    ensures -1 <= i < |flags|
    ensures i >= 0 ==> flags[i]
    ensures forall j :: i < j < |flags| ==> !flags[j]
  {
    if flags == [] || flags[|flags| - 1] then |flags| - 1
    else
      var init := flags[..|flags| - 1];
      assert forall j :: 0 <= j < |init| ==> init[j] == flags[j];
      LastTrue(init)
  }

  /** The index of the last file that writes `key`, or -1 when none does. */
  function LastWriter(app: string, files: seq<DirEntry>, key: string): (i: int)
    ensures -1 <= i < |files|
    ensures i >= 0 ==> WritesKey(app, files[i], key)
    ensures forall j :: i < j < |files| ==> !WritesKey(app, files[j], key)
  {
    var flags := seq(|files|, j requires 0 <= j < |files| => WritesKey(app, files[j], key));
    assert forall j :: 0 <= j < |files| ==> flags[j] == WritesKey(app, files[j], key);
    LastTrue(flags)
  }

  /** One name after one run and after two runs over the same files. */
  lemma RunTwiceAt(out: Directory, app: string, files: seq<DirEntry>, key: string)
    requires AllParsed(files)
    ensures var once := Run(out, app, files).written;
            var twice := Run(once, app, files).written;
            (key in twice <==> key in once) && (key in once ==> twice[key] == once[key])
  {
    var once := Run(out, app, files).written;
    var i := LastWriter(app, files, key);
    if i >= 0 {
      RunLastWriteWins(out, app, files, i);
      RunLastWriteWins(once, app, files, i);
    } else {
      RunUntouched(once, app, files, key);
    }
  }

  /** Running again over the same input yields the same directory and the
      same status: every name written gets the same last content again, and
      every other name is left as the first run left it. */
  lemma RunIdempotent(out: Directory, app: string, files: seq<DirEntry>)
    ensures Run(Run(out, app, files).written, app, files) == Run(out, app, files)
  {
    var n := FirstFailure(files);
    var done := files[..n];
    var once := Run(out, app, done).written;
    var twice := Run(once, app, done).written;
    RunStopsAtFailure(out, app, files);
    RunStopsAtFailure(once, app, files);
    forall key | key in twice || key in once
      ensures key in twice && key in once && twice[key] == once[key]
    {
      RunTwiceAt(out, app, done, key);
    }
    assert twice == once;
  }
}
