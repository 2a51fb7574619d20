/** Plugin header extraction: the `Label: value` lines that the comment at the top of a
    WordPress plugin's main PHP file carries (getPluginFileData, _cleanup_header_comment
    and getPluginHeader of plugin-meta.php). */
module PluginHeaders {
  import opened PhpStrings
  import opened Patterns
  import opened OrderedMaps

  /** A text without a comment closer keeps having none when it is cut. */
  lemma {:induction false} NoCloserSlice(s: string, a: nat, b: nat)
    requires a <= b <= |s|
    requires NoCloser(s)
    ensures NoCloser(s[a..b])
  {
    var f := FirstCloser(s[a..b], 0);
    if f.Some? {
      var k := f.value;
      var t := s[a..b];
      assert t[k..k + 2] == [t[k], t[k + 1]];
      assert s[a + k..a + k + 2] == [s[a + k], s[a + k + 1]];
      assert CloserAt(s, a + k);
      assert false;
    }
  }

  lemma {:induction false} TrimKeepsNoCloser(t: string)
    requires NoCloser(t)
    ensures NoCloser(Trim(t, DefaultTrim))
  {
    var o := TrimOffset(t, DefaultTrim);
    TrimSpec(t, DefaultTrim);
    NoCloserSlice(t, o, o + |Trim(t, DefaultTrim)|);
  }

  lemma {:induction false} TrimKeepsLine(t: string)
    requires '\n' !in t
    ensures '\n' !in Trim(t, DefaultTrim)
  {
    var r := Trim(t, DefaultTrim);
    var o := TrimOffset(t, DefaultTrim);
    TrimSpec(t, DefaultTrim);
    assert forall c :: c in r ==> c in t by {
      forall c | c in r ensures c in t {
        var k :| 0 <= k < |r| && r[k] == c;
        assert t[o + k] == c;
      }
    }
  }

  lemma {:induction false} CleanupFacts(s: string)
    requires '\n' !in s
    ensures '\n' !in Trim(s[..CloserCut(s)], DefaultTrim)
    ensures NoCloser(Trim(s[..CloserCut(s)], DefaultTrim))
    ensures FirstCloser(s, 0).None? ==> s[..CloserCut(s)] == s
    ensures var r := Trim(s[..CloserCut(s)], DefaultTrim);
            r == [] || (r[0] !in DefaultTrim && r[|r| - 1] !in DefaultTrim)
  {
    var t := s[..CloserCut(s)];
    TrimSpec(t, DefaultTrim);
    TrimKeepsNoCloser(t);
    assert '\n' !in t by {
      assert forall c :: c in t ==> c in s;
    }
    TrimKeepsLine(t);
  }

  // _cleanup_header_comment($s): everything from the `\s` run before the first "*/"
  // or "?>" on is dropped, then the rest is trimmed. `s` is always a single line,
  // the capture of `(.*)` in the field pattern.
  function CleanupHeaderComment(s: string): (r: string)
    requires '\n' !in s
    ensures '\n' !in r
    ensures NoCloser(r)
    ensures r == [] || (r[0] !in DefaultTrim && r[|r| - 1] !in DefaultTrim)
    ensures FirstCloser(s, 0).None? ==> r == Trim(s, DefaultTrim)
  {
    CleanupFacts(s);
    Trim(s[..CloserCut(s)], DefaultTrim)
  }

  /** The capture of `(.*)` after the first case-insensitive `fieldLabel:` of `data`:
      the rest of that line, or None when the label occurs nowhere. */
  function FieldLine(data: string, fieldLabel: string): (r: Option<string>)
    ensures r.Some? ==> '\n' !in r.value
  {
    match FindLabel(data, fieldLabel, 0)
    case None => None
    case Some(i) => Some(LineRest(data, i + |fieldLabel| + 1))
  }

  /** The value that getPluginFileData() finds for `fieldLabel` in `data`: "" when
      `fieldLabel:` occurs nowhere (letters compared case-insensitively), otherwise the
      cleaned-up rest of the line after its first occurrence. */
  function FieldValue(data: string, fieldLabel: string): (r: string)
    ensures '\n' !in r
    ensures NoCloser(r)
    ensures r == [] || (r[0] !in DefaultTrim && r[|r| - 1] !in DefaultTrim)
  {
    match FieldLine(data, fieldLabel)
    case None => ""
    case Some(line) => CleanupHeaderComment(line)
  }

  /** The line captured for the first occurrence of `fieldLabel:`, at `i`, is the text
      after the colon up to the end of that line. */
  lemma {:induction false} FieldLineFirst(data: string, fieldLabel: string, i: nat)
    requires LabelAt(data, fieldLabel, i)
    requires forall k: nat :: k < i ==> !LabelAt(data, fieldLabel, k)
    ensures FieldLine(data, fieldLabel) == Some(LineRest(data, i + |fieldLabel| + 1))
  {
    var f := FindLabel(data, fieldLabel, 0);
    assert f == Some(i);
  }

  /** When that rest of the line carries no comment closer, the value is exactly the
      rest of the line, trimmed. */
  lemma {:induction false} FieldValueFirst(data: string, fieldLabel: string, i: nat)
    requires LabelAt(data, fieldLabel, i)
    requires forall k: nat :: k < i ==> !LabelAt(data, fieldLabel, k)
    requires FirstCloser(LineRest(data, i + |fieldLabel| + 1), 0).None?
    ensures FieldValue(data, fieldLabel) == Trim(LineRest(data, i + |fieldLabel| + 1), DefaultTrim)
  {
    FieldLineFirst(data, fieldLabel, i);
  }

  /** On a line with a closer, _cleanup_header_comment() keeps the text before the
      `\s` run that precedes the first closer, trimmed. */
  lemma CleanupCut(s: string, j: nat, n: nat)
    requires '\n' !in s
    requires j < |s| && CloserAt(s, j) && forall k: nat :: k < j ==> !CloserAt(s, k)
    requires n <= j && AllSpace(s, n, j) && (n == 0 || !IsSpace(s[n - 1]))
    ensures CleanupHeaderComment(s) == Trim(s[..n], DefaultTrim)
  {
    CloserCutIs(s, j, n);
  }

  /** When the rest of the line after the first `fieldLabel:` carries a closer, the
      value is the text before the `\s` run that precedes the first closer, trimmed. */
  lemma FieldValueCut(data: string, fieldLabel: string, i: nat, j: nat, n: nat)
    requires LabelAt(data, fieldLabel, i)
    requires forall k: nat :: k < i ==> !LabelAt(data, fieldLabel, k)
    requires var rest := LineRest(data, i + |fieldLabel| + 1);
             j < |rest| && CloserAt(rest, j) && forall k: nat :: k < j ==> !CloserAt(rest, k)
    requires var rest := LineRest(data, i + |fieldLabel| + 1);
             n <= j && AllSpace(rest, n, j) && (n == 0 || !IsSpace(rest[n - 1]))
    ensures FieldValue(data, fieldLabel) == Trim(LineRest(data, i + |fieldLabel| + 1)[..n], DefaultTrim)
  {
    FieldLineFirst(data, fieldLabel, i);
    CleanupCut(LineRest(data, i + |fieldLabel| + 1), j, n);
  }

  /** A label that occurs nowhere in the text yields "". */
  lemma {:induction false} FieldValueAbsent(data: string, fieldLabel: string)
    requires forall k: nat :: !LabelAt(data, fieldLabel, k)
    ensures FieldValue(data, fieldLabel) == ""
  {
    assert FindLabel(data, fieldLabel, 0).None?;
  }

  /** A header schema: pairs of a result key and the label searched for. Its keys are
      distinct, as PHP array keys are, and none of them names one of
      getPluginFileData()'s own variables, which the variable-variable assignment
      `${$field}` would overwrite. */
  predicate WellFormedSchema(schema: Entries) {
    DistinctKeys(schema) &&
    forall i :: 0 <= i < |schema| ==> schema[i].0 !in {"file_data", "all_headers", "field", "regex"}
  }

  /** The array getPluginFileData() returns, as a value: one entry per schema field, in
      schema order. */
  function FileData(data: string, schema: Entries): (r: Entries)
    ensures KeysOf(r) == KeysOf(schema)
    ensures forall i :: 0 <= i < |r| ==> r[i].1 == FieldValue(data, schema[i].1)
    decreases |schema|
  {
    if schema == [] then []
    else
      var r := [(schema[0].0, FieldValue(data, schema[0].1))] + FileData(data, schema[1..]);
      assert KeysOf(r) == [r[0].0] + KeysOf(r[1..]);
      r
  }

  /** getPluginFileData($file_data, $all_headers): the loop that searches every label in
      turn and records what it found under the field's key. */
  method GetPluginFileData(data: string, schema: Entries) returns (r: Entries)
    requires WellFormedSchema(schema)
    ensures |r| == |schema|
    ensures forall i :: 0 <= i < |r| ==> r[i] == (schema[i].0, FieldValue(data, schema[i].1))
    ensures r == FileData(data, schema)
  {
    r := [];
    for i := 0 to |schema|
      invariant |r| == i
      invariant forall k :: 0 <= k < i ==> r[k] == (schema[k].0, FieldValue(data, schema[k].1))
    {
      r := r + [(schema[i].0, FieldValue(data, schema[i].1))];
    }
    FileDataElements(data, schema);
  }

  lemma {:induction false} FileDataElements(data: string, schema: Entries)
    ensures |FileData(data, schema)| == |schema|
    ensures forall i :: 0 <= i < |schema| ==> FileData(data, schema)[i] == (schema[i].0, FieldValue(data, schema[i].1))
  {
    var r := FileData(data, schema);
    forall i | 0 <= i < |schema| ensures r[i] == (schema[i].0, FieldValue(data, schema[i].1)) {
      KeysOfIndex(r, i);
      KeysOfIndex(schema, i);
    }
  }

  /** Every field of the schema can be looked up in the result and holds what its label
      finds in the text. */
  lemma {:induction false} FileDataLookup(data: string, schema: Entries, i: nat)
    requires DistinctKeys(schema)
    requires i < |schema|
    ensures Lookup(FileData(data, schema), schema[i].0) == Some(FieldValue(data, schema[i].1))
  {
    FileDataElements(data, schema);
    LookupDistinct(FileData(data, schema), i);
  }

  lemma {:induction false} LookupDistinct(m: Entries, i: nat)
    requires DistinctKeys(m)
    requires i < |m|
    ensures Lookup(m, m[i].0) == Some(m[i].1)
    decreases |m|
  {
    if i > 0 {
      assert m[0].0 != m[i].0;
      LookupDistinct(m[1..], i - 1);
    }
  }

  /** The labels getPluginHeader() searches for, under the keys it stores them by. */
  const HeaderSchema: Entries := [
    ("Name", "Plugin Name"),
    ("PluginURI", "Plugin URI"),
    ("Version", "Version"),
    ("Description", "Description"),
    ("Author", "Author"),
    ("AuthorURI", "Author URI"),
    ("TextDomain", "Text Domain"),
    ("DomainPath", "Domain Path"),
    ("Network", "Network"),
    ("_sitewide", "Site Wide Only")
  ]

  /** The array getPluginHeader() returns; `_sitewide` has been folded into `network`. */
  datatype PluginHeader = PluginHeader(
    name: string,
    pluginUri: string,
    version: string,
    description: string,
    author: string,
    authorUri: string,
    textDomain: string,
    domainPath: string,
    network: bool,
    title: string)

  /** `$plugin_data[$key]` for a key the schema is known to hold. */
  function Field(fileData: Entries, key: string): string {
    match Lookup(fileData, key)
    case Some(v) => v
    case None => ""
  }

  /** getPluginHeader($file_data) */
  function GetPluginHeader(data: string): Option<PluginHeader> {
    var fd := FileData(data, HeaderSchema);
    var network := if IsEmpty(Field(fd, "Network")) && !IsEmpty(Field(fd, "_sitewide"))
                   then Field(fd, "_sitewide") else Field(fd, "Network");
    var name := Field(fd, "Name");
    if IsEmpty(name) then None
    else Some(PluginHeader(
      name, Field(fd, "PluginURI"), Field(fd, "Version"), Field(fd, "Description"),
      Field(fd, "Author"), Field(fd, "AuthorURI"), Field(fd, "TextDomain"),
      Field(fd, "DomainPath"), ToLower(network) == "true", name))
  }

  lemma {:induction false} HeaderSchemaDistinct()
    ensures WellFormedSchema(HeaderSchema)
  {
  }

  /** Each key of the header schema holds what its label finds. */
  lemma {:induction false} HeaderFieldValues(data: string)
    ensures Field(FileData(data, HeaderSchema), "Name") == FieldValue(data, "Plugin Name")
    ensures Field(FileData(data, HeaderSchema), "PluginURI") == FieldValue(data, "Plugin URI")
    ensures Field(FileData(data, HeaderSchema), "Version") == FieldValue(data, "Version")
    ensures Field(FileData(data, HeaderSchema), "Description") == FieldValue(data, "Description")
    ensures Field(FileData(data, HeaderSchema), "Author") == FieldValue(data, "Author")
    ensures Field(FileData(data, HeaderSchema), "AuthorURI") == FieldValue(data, "Author URI")
    ensures Field(FileData(data, HeaderSchema), "TextDomain") == FieldValue(data, "Text Domain")
    ensures Field(FileData(data, HeaderSchema), "DomainPath") == FieldValue(data, "Domain Path")
    ensures Field(FileData(data, HeaderSchema), "Network") == FieldValue(data, "Network")
    ensures Field(FileData(data, HeaderSchema), "_sitewide") == FieldValue(data, "Site Wide Only")
  {
    HeaderSchemaDistinct();
    FileDataLookup(data, HeaderSchema, 0);
    FileDataLookup(data, HeaderSchema, 1);
    FileDataLookup(data, HeaderSchema, 2);
    FileDataLookup(data, HeaderSchema, 3);
    FileDataLookup(data, HeaderSchema, 4);
    FileDataLookup(data, HeaderSchema, 5);
    FileDataLookup(data, HeaderSchema, 6);
    FileDataLookup(data, HeaderSchema, 7);
    FileDataLookup(data, HeaderSchema, 8);
    FileDataLookup(data, HeaderSchema, 9);
  }

  /** A file is a plugin exactly when its "Plugin Name" value is non-empty (neither ""
      nor "0"); the header then carries every label's value, its title is its name, and
      it is network-wide exactly when the "Network" value, or the deprecated
      "Site Wide Only" value when "Network" is empty, reads "true" in any letter case. */
  lemma {:induction false} GetPluginHeaderSpec(data: string)
    ensures GetPluginHeader(data).None? <==> IsEmpty(FieldValue(data, "Plugin Name"))
    ensures GetPluginHeader(data).Some? ==>
              var h := GetPluginHeader(data).value;
              h.name == FieldValue(data, "Plugin Name") && h.title == h.name &&
              h.pluginUri == FieldValue(data, "Plugin URI") &&
              h.version == FieldValue(data, "Version") &&
              h.description == FieldValue(data, "Description") &&
              h.author == FieldValue(data, "Author") &&
              h.authorUri == FieldValue(data, "Author URI") &&
              h.textDomain == FieldValue(data, "Text Domain") &&
              h.domainPath == FieldValue(data, "Domain Path")
    ensures GetPluginHeader(data).Some? && !IsEmpty(FieldValue(data, "Network")) ==>
              (GetPluginHeader(data).value.network <==> ToLower(FieldValue(data, "Network")) == "true")
    ensures GetPluginHeader(data).Some? && IsEmpty(FieldValue(data, "Network")) ==>
              (GetPluginHeader(data).value.network <==> ToLower(FieldValue(data, "Site Wide Only")) == "true")
  {
    HeaderFieldValues(data);
    var n := FieldValue(data, "Network");
    var w := FieldValue(data, "Site Wide Only");
    if IsEmpty(n) && IsEmpty(w) {
      assert ToLower(n) != "true" && ToLower(w) != "true" by {
        assert |ToLower(n)| == |n| && |ToLower(w)| == |w|;
      }
    }
  }
}
