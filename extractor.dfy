/** The Record Extractor: locating the Script Include record in one of the
    two recognised document shapes (`extractScriptInclude`), and reading its
    fields with the defaults the normalizer applies (`processFile`). */
module Extractor {
  import opened ParsedTree

  /** The update-set envelope tag of a CI/CD update XML file. */
  const EnvelopeTag := "record_update"
  /** The table name of Script Include records. */
  const TableTag := "sys_script_include"

  /** What `extractScriptInclude` returns: a record, `undefined` (a matching
      list that has no first element) or `null` (neither shape present).
      The caller skips the file on both of the last two. */
  datatype Extraction = Found(record: Record) | NoFirst | NoShape

  /** `list[0]` */
  function First(items: seq<Record>): Extraction {
    if |items| > 0 then Found(items[0]) else NoFirst
  }

  /** `xml.record_update?.sys_script_include` is truthy: the envelope is an
      element with a Script Include list (which may be empty). */
  predicate HasEnvelopeList(t: Tree) {
    EnvelopeTag in t && t[EnvelopeTag].Element? && TableTag in t[EnvelopeTag].children
  }

  function EnvelopeList(t: Tree): seq<Record>
    requires HasEnvelopeList(t)
  {
    t[EnvelopeTag].children[TableTag]
  }

  /** `extractScriptInclude(xml)`. The envelope shape is tried first and,
      when present, decides alone: an empty envelope list gives no record
      even if a top-level Script Include list exists. Otherwise the
      top-level tag decides; a nested element there (not a list) has no
      element `0`, since an XML tag cannot be `0`. */
  function ExtractScriptInclude(t: Tree): (r: Extraction)
    ensures HasEnvelopeList(t) ==> r != NoShape
    ensures HasEnvelopeList(t) ==> (r.Found? <==> |EnvelopeList(t)| > 0)
    ensures HasEnvelopeList(t) && r.Found? ==> r.record == EnvelopeList(t)[0]
    ensures !HasEnvelopeList(t) ==> (r.NoShape? <==> TableTag !in t)
    ensures !HasEnvelopeList(t) ==>
              (r.Found? <==> TableTag in t && t[TableTag].Records? && |t[TableTag].items| > 0)
    ensures !HasEnvelopeList(t) && r.Found? ==> r.record == t[TableTag].items[0]
  {
    if HasEnvelopeList(t) then
      First(t[EnvelopeTag].children[TableTag])
    else if TableTag in t then
      match t[TableTag]
      case Records(items) => First(items)
      case Element(_) => NoFirst
    else
      NoShape
  }

  /** The fields of a Script Include the output uses, with defaults applied. */
  datatype ScriptInclude = ScriptInclude(name: string, script: string, apiName: string, active: string)

  /** `record[key]?.[0]` is a non-empty string. */
  predicate HasText(rec: Record, key: string) {
    key in rec.fields && |rec.fields[key]| > 0 && rec.fields[key][0] != ""
  }

  /** The field reads of `processFile`: nothing unless `name` and `script`
      are both present and non-empty; `api_name` defaults to the empty
      string and `active` to `true`, each only when missing or empty. */
  function ReadScriptInclude(rec: Record): (r: Option<ScriptInclude>)
    ensures r.Some? <==> HasText(rec, "name") && HasText(rec, "script")
    ensures r.Some? ==> r.value.name == rec.fields["name"][0] && r.value.script == rec.fields["script"][0]
    ensures r.Some? ==>
              r.value.apiName == (if HasText(rec, "api_name") then rec.fields["api_name"][0] else "")
    ensures r.Some? ==>
              r.value.active == (if HasText(rec, "active") then rec.fields["active"][0] else "true")
    ensures r.Some? ==> r.value.name != "" && r.value.script != "" && r.value.active != ""
  {
    var name := FirstValue(rec, "name");
    var script := FirstValue(rec, "script");
    var apiName := OrElse(FirstValue(rec, "api_name"), "");
    var active := OrElse(FirstValue(rec, "active"), "true");
    if !Truthy(name) || !Truthy(script) then None
    else Some(ScriptInclude(name.value, script.value, apiName, active))
  }
}
