/** The File Emitter: the header, the trimmed body and the output file name
    that `processFile` writes for one Script Include. */
module Emitter {
  import opened ParsedTree
  import opened JsString
  import opened Extractor

  /** The comment block at the top of each output file; `app` is the target
      application directory's base name and `source` the input file's. */
  function Header(app: string, name: string, apiName: string, active: string, source: string): string {
    "/**" + "\n" + " * App: " + app + "\n" + " * Type: " + "Script Include" + "\n" + " * Name: " + name + "\n"
    + " * API Name: " + apiName + "\n" + " * Active: " + active + "\n" + " * Source: " + source + "\n"
    + " */" + "\n"
  }

  /** Only the five values vary in length; when none holds a line feed, the
      header is exactly the eight header lines, each ended by a line feed. */
  lemma HeaderLayout(app: string, name: string, apiName: string, active: string, source: string)
    ensures |Header(app, name, apiName, active, source)| == |app| + |name| + |apiName| + |active| + |source| + 89
    ensures SingleLine(app) && SingleLine(name) && SingleLine(apiName) && SingleLine(active) && SingleLine(source)
            ==> SplitLines(Header(app, name, apiName, active, source)) == HeaderLines(app, name, apiName, active, source) + [""]
  {
    if SingleLine(app) && SingleLine(name) && SingleLine(apiName) && SingleLine(active) && SingleLine(source) {
      var h := Header(app, name, apiName, active, source);
      assert h + "" == h;
      HeaderThen(app, name, apiName, active, source, "");
    }
  }

  /** The lines of the header followed by any text `t`: the eight header
      lines, then the lines of `t`. */
  lemma HeaderThen(app: string, name: string, apiName: string, active: string, source: string, t: string)
    requires SingleLine(app) && SingleLine(name) && SingleLine(apiName) && SingleLine(active) && SingleLine(source)
    ensures SplitLines(Header(app, name, apiName, active, source) + t)
            == HeaderLines(app, name, apiName, active, source) + SplitLines(t)
  {
    RegroupHeader("/**", " * App: ", app, " * Type: ", "Script Include", " * Name: ", name, " * API Name: ", apiName,
                  " * Active: ", active, " * Source: ", source, " */", t);
    SplitHeader("/**", " * App: ", app, " * Type: ", "Script Include", " * Name: ", name, " * API Name: ", apiName,
                " * Active: ", active, " * Source: ", source, " */", t);
  }

  /** The output file's content: header, a line feed, the trimmed script and
      a final line feed. */
  function Render(app: string, source: string, si: ScriptInclude): string {
    Header(app, si.name, si.apiName, si.active, source) + "\n" + Trim(si.script) + "\n"
  }

  /** The parts of an output file in order: the header, a line feed that
      leaves one empty line, the script without its surrounding whitespace,
      and a final line feed. */
  lemma RenderParts(app: string, source: string, si: ScriptInclude)
    ensures var c := Render(app, source, si);
            var h := Header(app, si.name, si.apiName, si.active, source);
            var n := |c| - 1;
            |c| == |h| + |Trim(si.script)| + 2 && c[..|h|] == h && c[|h|] == '\n' && c[n] == '\n'
            && c[|h| + 1..n] == Trim(si.script) && Trimmed(c[|h| + 1..n])
  {
    var c := Render(app, source, si);
    var h := Header(app, si.name, si.apiName, si.active, source);
    assert c[|h| + 1..|c| - 1] == Trim(si.script);
  }

  /** The output file name: the record's name with `.js` appended. */
  function OutputName(name: string): (f: string)
    ensures |f| == |name| + 3 && f[..|name|] == name && EndsWith(f, ".js")
  {
    name + ".js"
  }

  /** Different record names give different output files, and equal ones
      the same file. */
  lemma OutputNameInjective(a: string, b: string)
    ensures OutputName(a) == OutputName(b) <==> a == b
  {
    if OutputName(a) == OutputName(b) {
      assert a == OutputName(a)[..|a|] == OutputName(b)[..|b|] == b;
    }
  }

  /** One file written to the output directory. */
  datatype Write = Write(file: string, content: string)

  /** What `processFile` writes for a parsed document, if anything: nothing
      when no record is found or it lacks a name or a script; otherwise
      `<name>.js`, holding the rendered record. */
  function Emission(app: string, source: string, t: Tree): (w: Option<Write>)
    ensures w.None? <==>
              !ExtractScriptInclude(t).Found?
              || !HasText(ExtractScriptInclude(t).record, "name")
              || !HasText(ExtractScriptInclude(t).record, "script")
    ensures w.Some? ==>
              var rec := ExtractScriptInclude(t).record;
              w.value.file == rec.fields["name"][0] + ".js"
              && w.value.content == Render(app, source, ReadScriptInclude(rec).value)
  {
    match ExtractScriptInclude(t)
    case Found(rec) =>
      (match ReadScriptInclude(rec)
       case Some(si) => Some(Write(OutputName(si.name), Render(app, source, si)))
       case None => None)
    case _ => None
  }

  /** The header lines, as the output shows them. */
  function HeaderLines(app: string, name: string, apiName: string, active: string, source: string): seq<string> {
    ["/**", " * App: " + app, " * Type: " + "Script Include", " * Name: " + name,
     " * API Name: " + apiName, " * Active: " + active, " * Source: " + source, " */"]
  }

  predicate SingleLine(s: string) {
    '\n' !in s
  }

  /** Line layout of an output file: the eight header lines, one empty line,
      then the lines of the trimmed script, the last of which is empty
      because the file ends in a line feed. Holds when none of the header
      values contains a line feed. */
  lemma RenderLayout(app: string, source: string, si: ScriptInclude)
    requires SingleLine(app) && SingleLine(si.name) && SingleLine(si.apiName)
    requires SingleLine(si.active) && SingleLine(source)
    ensures SplitLines(Render(app, source, si)) ==
            HeaderLines(app, si.name, si.apiName, si.active, source) + [""] + SplitLines(Trim(si.script) + "\n")
  {
    var h := Header(app, si.name, si.apiName, si.active, source);
    var b := Trim(si.script) + "\n";
    assert Render(app, source, si) == h + ("\n" + b);
    HeaderThen(app, si.name, si.apiName, si.active, source, "\n" + b);
    assert "" + "\n" + b == "\n" + b;
    SplitLinesAfter("", b);
  }

  lemma LabelledLine(caption: string, value: string)
    requires SingleLine(caption) && SingleLine(value)
    ensures SingleLine(caption + value)
  {
  }

  lemma SplitThreeLines(l0: string, l1: string, l2: string, t: string)
    requires SingleLine(l0) && SingleLine(l1) && SingleLine(l2)
    ensures SplitLines(l0 + "\n" + (l1 + "\n" + (l2 + "\n" + t))) == [l0, l1, l2] + SplitLines(t)
  {
    SplitLinesAfter(l2, t);
    SplitLinesAfter(l1, l2 + "\n" + t);
    SplitLinesAfter(l0, l1 + "\n" + (l2 + "\n" + t));
  }

  /** The header text followed by `t`, regrouped line by line, so that
      SplitLinesAfter applies to one line at a time. */
  lemma RegroupHeader(l0: string, a1: string, b1: string, a2: string, b2: string, a3: string, b3: string,
                      a4: string, b4: string, a5: string, b5: string, a6: string, b6: string, l7: string, t: string)
    ensures l0 + "\n" + a1 + b1 + "\n" + a2 + b2 + "\n" + a3 + b3 + "\n" + a4 + b4 + "\n" + a5 + b5 + "\n"
            + a6 + b6 + "\n" + l7 + "\n" + t
         == l0 + "\n" + (a1 + b1 + "\n" + (a2 + b2 + "\n" + (a3 + b3 + "\n" + (a4 + b4 + "\n" + (a5 + b5 + "\n"
            + (a6 + b6 + "\n" + (l7 + "\n" + t)))))))
  {
  }

  lemma SplitHeader(l0: string, a1: string, b1: string, a2: string, b2: string, a3: string, b3: string,
                    a4: string, b4: string, a5: string, b5: string, a6: string, b6: string, l7: string, t: string)
    requires SingleLine(l0) && SingleLine(a1) && SingleLine(b1) && SingleLine(a2) && SingleLine(b2)
    requires SingleLine(a3) && SingleLine(b3) && SingleLine(a4) && SingleLine(b4) && SingleLine(a5)
    requires SingleLine(b5) && SingleLine(a6) && SingleLine(b6) && SingleLine(l7)
    ensures SplitLines(l0 + "\n" + (a1 + b1 + "\n" + (a2 + b2 + "\n" + (a3 + b3 + "\n" + (a4 + b4 + "\n"
              + (a5 + b5 + "\n" + (a6 + b6 + "\n" + (l7 + "\n" + t))))))))
            == [l0, a1 + b1, a2 + b2, a3 + b3, a4 + b4, a5 + b5, a6 + b6, l7] + SplitLines(t)
  {
    LabelledLine(a1, b1);
    LabelledLine(a2, b2);
    LabelledLine(a3, b3);
    LabelledLine(a4, b4);
    LabelledLine(a5, b5);
    LabelledLine(a6, b6);
    var r5 := a5 + b5 + "\n" + (a6 + b6 + "\n" + (l7 + "\n" + t));
    var r2 := a2 + b2 + "\n" + (a3 + b3 + "\n" + (a4 + b4 + "\n" + r5));
    SplitThreeLines(a5 + b5, a6 + b6, l7, t);
    SplitThreeLines(a2 + b2, a3 + b3, a4 + b4, r5);
    SplitLinesAfter(a1 + b1, r2);
    SplitLinesAfter(l0, a1 + b1 + "\n" + r2);
  }

  /** An output file ends in exactly one line feed after a non-empty body:
      its last character is a line feed and the one before it is the last
      character of the trimmed script, which is not whitespace. */
  lemma RenderEnding(app: string, source: string, si: ScriptInclude)
    ensures var c := Render(app, source, si);
            |c| >= 2 && c[|c| - 1] == '\n'
            && (Trim(si.script) != [] ==> !IsWhitespace(c[|c| - 2]))
  {
  }

  /** End to end for an update-set file whose record has a name, a script
      and an API name but no `active` field: the file `<name>.js` is
      written, its header shows the API name as given and the Active flag
      `true`, and a blank line separates it from the trimmed script. */
  lemma EnvelopeRecordOutput(app: string, source: string, name: string, script: string, api: string)
    requires name != "" && script != ""
    requires SingleLine(app) && SingleLine(source) && SingleLine(name) && SingleLine(api)
    ensures var rec := Record(map["name" := [name], "script" := [script], "api_name" := [api]]);
            var w := Emission(app, source, map[EnvelopeTag := Element(map[TableTag := [rec]])]);
            w.Some? && w.value.file == name + ".js"
            && SplitLines(w.value.content) ==
               HeaderLines(app, name, api, "true", source) + [""] + SplitLines(Trim(script) + "\n")
  {
    var rec := Record(map["name" := [name], "script" := [script], "api_name" := [api]]);
    var t := map[EnvelopeTag := Element(map[TableTag := [rec]])];
    assert ExtractScriptInclude(t) == Found(rec);
    var si := ScriptInclude(name, script, api, "true");
    assert ReadScriptInclude(rec) == Some(si);
    RenderLayout(app, source, si);
  }

  /** The body of that case for the script `  var x = 1;  `. */
  lemma ExampleTrim()
    ensures Trim("  var x = 1;  ") == "var x = 1;"
  {
    assert !IsWhitespace('v') && !IsWhitespace(';');
    assert "  " + "var x = 1;" + "  " == "  var x = 1;  ";
    TrimOfPadded("  ", "var x = 1;", "  ");
  }
}
