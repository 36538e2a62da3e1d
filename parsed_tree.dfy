/** The tree the XML parser hands to the normalizer, in the parser's
    explicit-array mode: every child element becomes a list under its tag.
    Only the part of that tree the normalizer looks at is modelled. */
module ParsedTree {

  datatype Option<+T> = None | Some(value: T)

  /** A table record: each field tag maps to the text values found under it. */
  datatype Record = Record(fields: map<string, seq<string>>)

  /** The value stored under a tag: a list of records, or a nested element
      (such as the update-set envelope) whose tags map to lists of records.
      Both are objects in JavaScript, hence always truthy. */
  datatype Node = Records(items: seq<Record>) | Element(children: map<string, seq<Record>>)

  /** The document: its top-level tags and what the parser put under them. */
  type Tree = map<string, Node>

  /** `record.key?.[0]`: the first value under `key`, or `undefined` (None)
      when the key is absent or its list is empty. */
  function FirstValue(rec: Record, key: string): Option<string> {
    if key in rec.fields && |rec.fields[key]| > 0 then Some(rec.fields[key][0]) else None
  }

  /** JavaScript truthiness of an optional string: `undefined` and `''` are falsy. */
  predicate Truthy(v: Option<string>) {
    v.Some? && v.value != ""
  }

  /** `v || fallback` */
  function OrElse(v: Option<string>, fallback: string): string {
    if Truthy(v) then v.value else fallback
  }
}
