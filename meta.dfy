/** getPluginPackageMeta(): the result of the package scan turned into the metadata
    array of the update checker. */
module PackageMetadata {
  import opened PhpStrings
  import opened OrderedMaps
  import opened PluginHeaders
  import opened ReadmeParser
  import opened PackageScanner

  /** The array getPluginPackageMeta() returns. Its string entries are `fields`, in the
      order they are set; the nested 'sections' array, when set, comes after them, and
      'slug' comes last. */
  datatype Meta = Meta(fields: Entries, sections: Option<Entries>, slug: Option<string>)

  /** The header keys that are copied, each with the meta key it is stored under. */
  const HeaderMapping: Entries := [
    ("Name", "name"),
    ("Version", "version"),
    ("PluginURI", "homepage"),
    ("Author", "author"),
    ("AuthorURI", "author_homepage")
  ]

  /** The readme keys that are copied, under their own names. */
  const ReadmeMapping: Entries := [("requires", "requires"), ("tested", "tested")]

  /** `$header[$key]` for the string entries of the array getPluginHeader() builds; the
      boolean 'Network' entry is never read here. */
  function HeaderEntry(h: PluginHeader, key: string): Option<string> {
    if key == "Name" then Some(h.name)
    else if key == "PluginURI" then Some(h.pluginUri)
    else if key == "Version" then Some(h.version)
    else if key == "Description" then Some(h.description)
    else if key == "Author" then Some(h.author)
    else if key == "AuthorURI" then Some(h.authorUri)
    else if key == "TextDomain" then Some(h.textDomain)
    else if key == "DomainPath" then Some(h.domainPath)
    else if key == "Title" then Some(h.title)
    else None
  }

  /** `$readme[$key]` for the string entries of the array parsePluginReadme() builds. */
  function ReadmeEntry(r: Readme, key: string): Option<string> {
    if key == "name" then Some(r.name)
    else if key == "donate" then Some(r.donate)
    else if key == "requires" then Some(r.requiresAtLeast)
    else if key == "tested" then Some(r.tested)
    else if key == "stable" then Some(r.stable)
    else if key == "short_description" then r.shortDescription
    else None
  }

  /** The header array as the source of the first copying loop. */
  function HeaderSource(h: PluginHeader): string -> Option<string> {
    k => HeaderEntry(h, k)
  }

  /** The readme array as the source of the second copying loop. */
  function ReadmeSource(r: Readme): string -> Option<string> {
    k => ReadmeEntry(r, k)
  }

  /** A value that is set and not empty in PHP's sense. */
  function Kept(o: Option<string>): (r: Option<string>)
    ensures r.Some? <==> o.Some? && !IsEmpty(o.value)
    ensures r.Some? ==> r == o
  {
    match o
    case Some(v) => if IsEmpty(v) then None else Some(v)
    case None => None
  }

  /** The meta keys of a mapping. */
  function Targets(mapping: Entries): seq<string> {
    seq(|mapping|, j requires 0 <= j < |mapping| => mapping[j].1)
  }

  predicate DistinctTargets(mapping: Entries) {
    forall i, j :: 0 <= i < j < |mapping| ==> mapping[i].1 != mapping[j].1
  }

  /** The assignments one iteration of a copying loop makes: none, or one. */
  function Copy(src: string -> Option<string>, pair: (string, string)): Entries {
    match Kept(src(pair.0))
    case Some(v) => [(pair.1, v)]
    case None => []
  }

  /** The assignments a copying loop over `mapping` makes, in order. */
  function Copies(src: string -> Option<string>, mapping: Entries): Entries
    decreases |mapping|
  {
    if mapping == [] then []
    else Copies(src, mapping[..|mapping| - 1]) + Copy(src, mapping[|mapping| - 1])
  }

  /** The lower-cased section name with its spaces turned into underscores. */
  function SectionKey(name: string): string {
    ReplaceChar(ToLower(name), ' ', '_')
  }

  function RenameKeys(ps: Entries): Entries {
    seq(|ps|, i requires 0 <= i < |ps| => (SectionKey(ps[i].0), ps[i].1))
  }

  /** strtolower(basename(dirname($pluginFile))) */
  function Slug(pluginFile: string): string {
    ToLower(Basename(Dirname(pluginFile)))
  }

  /** The array getPluginPackageMeta() returns for the result of analysePluginPackage();
      None stands for `false`, which yields the empty array. */
  function PackageMeta(info: Option<PackageInfo>): Meta {
    match info
    case None => Meta([], None, None)
    case Some(pi) =>
      var fields := PutAll([], Copies(HeaderSource(pi.header), HeaderMapping));
      var slug := if IsEmpty(pi.pluginFile) then None else Some(Slug(pi.pluginFile));
      match pi.readme
      case None => Meta(fields, None, slug)
      case Some(r) =>
        Meta(PutAll(fields, Copies(ReadmeSource(r), ReadmeMapping)),
             if r.sections == [] then None else Some(PutAll([], RenameKeys(r.sections))),
             slug)
  }

  // ---------------------------------------------------------------------------
  // The loops

  /** A foreach over `mapping` that copies each set, non-empty `src` value to its meta key. */
  method CopyFields(meta: Entries, src: string -> Option<string>, mapping: Entries) returns (r: Entries)
    ensures r == PutAll(meta, Copies(src, mapping))
  {
    r := meta;
    for i := 0 to |mapping|
      invariant r == PutAll(meta, Copies(src, mapping[..i]))
    {
      var pair := mapping[i];
      assert mapping[..i + 1][..i] == mapping[..i];
      var copies := Copies(src, mapping[..i]);
      match src(pair.0)
      case Some(v) =>
        if !IsEmpty(v) {
          r := Put(r, pair.1, v);
          assert (copies + [(pair.1, v)])[..|copies|] == copies;
        } else {
          assert copies + [] == copies;
        }
      case None =>
        assert copies + [] == copies;
    }
    assert mapping[..|mapping|] == mapping;
  }

  /** The foreach over the readme sections, storing each body under its renamed key. */
  method RenameSections(sections: Entries) returns (r: Entries)
    ensures r == PutAll([], RenameKeys(sections))
  {
    r := [];
    for i := 0 to |sections|
      invariant r == PutAll([], RenameKeys(sections[..i]))
    {
      var key := SectionKey(sections[i].0);
      r := Put(r, key, sections[i].1);
      var ps := RenameKeys(sections[..i + 1]);
      assert ps[..i] == RenameKeys(sections[..i]);
    }
    assert sections[..|sections|] == sections;
  }

  /** getPluginPackageMeta($packageInfo) for the result of analysePluginPackage(). */
  method GetPluginPackageMeta(info: Option<PackageInfo>) returns (meta: Meta)
    ensures meta == PackageMeta(info)
  {
    meta := Meta([], None, None);
    if info.Some? {
      var pi := info.value;
      var fields := CopyFields([], HeaderSource(pi.header), HeaderMapping);
      var sections := None;
      if pi.readme.Some? {
        var r := pi.readme.value;
        fields := CopyFields(fields, ReadmeSource(r), ReadmeMapping);
        if r.sections != [] {
          var renamed := RenameSections(r.sections);
          sections := Some(renamed);
        }
      }
      meta := Meta(fields, sections, None);
      if !IsEmpty(pi.pluginFile) {
        meta := meta.(slug := Some(Slug(pi.pluginFile)));
      }
    }
  }

  // ---------------------------------------------------------------------------
  // Properties

  /** A copying loop only assigns the keys of its mapping. */
  lemma {:induction false} CopiesKeys(src: string -> Option<string>, mapping: Entries, k: string)
    requires k in KeysOf(Copies(src, mapping))
    ensures k in Targets(mapping)
    decreases |mapping|
  {
    var init := mapping[..|mapping| - 1];
    var last := mapping[|mapping| - 1];
    KeysOfAppend(Copies(src, init), Copy(src, last));
    if k in KeysOf(Copies(src, init)) {
      CopiesKeys(src, init, k);
      var j :| 0 <= j < |init| && Targets(init)[j] == k;
      assert Targets(mapping)[j] == k;
    } else {
      assert Targets(mapping)[|mapping| - 1] == k;
    }
  }

  /** The last assignment to a mapping's meta key holds its source value, when that is
      set and non-empty; otherwise the key is never assigned. */
  lemma {:induction false} CopiesLast(src: string -> Option<string>, mapping: Entries, i: nat)
    requires DistinctTargets(mapping) && i < |mapping|
    ensures LastValue(Copies(src, mapping), mapping[i].1) == Kept(src(mapping[i].0))
    decreases |mapping|
  {
    var init := mapping[..|mapping| - 1];
    var last := mapping[|mapping| - 1];
    var c := Copies(src, init);
    var t := mapping[i].1;
    if i < |init| {
      assert init[i] == mapping[i];
      CopiesLast(src, init, i);
      if Copy(src, last) == [] {
        assert c + [] == c;
      } else {
        var ps := c + Copy(src, last);
        assert ps[..|ps| - 1] == c;
      }
    } else if Copy(src, last) == [] {
      assert c + [] == c;
      assert t !in KeysOf(c) by {
        if t in KeysOf(c) {
          CopiesKeys(src, init, t);
          assert false;
        }
      }
    }
  }

  /** A mapping's meta key ends up holding its source value when that is set and
      non-empty, and keeps what it held otherwise. */
  lemma CopiedField(meta: Entries, src: string -> Option<string>, mapping: Entries, i: nat)
    requires DistinctTargets(mapping) && i < |mapping|
    ensures Lookup(PutAll(meta, Copies(src, mapping)), mapping[i].1) ==
              match Kept(src(mapping[i].0))
              case Some(v) => Some(v)
              case None => Lookup(meta, mapping[i].1)
  {
    var ps := Copies(src, mapping);
    PutAllLookup(meta, ps, mapping[i].1);
    CopiesLast(src, mapping, i);
  }

  /** A key outside the mapping keeps what it held. */
  lemma OtherField(meta: Entries, src: string -> Option<string>, mapping: Entries, k: string)
    requires k !in Targets(mapping)
    ensures Lookup(PutAll(meta, Copies(src, mapping)), k) == Lookup(meta, k)
  {
    PutAllLookup(meta, Copies(src, mapping), k);
    if k in KeysOf(Copies(src, mapping)) {
      CopiesKeys(src, mapping, k);
    }
  }

  /** The meta keys of the two mappings, each mapping's keys pairwise distinct. */
  lemma HeaderTargets()
    ensures Targets(HeaderMapping) == ["name", "version", "homepage", "author", "author_homepage"]
    ensures DistinctTargets(HeaderMapping)
  {
    assert forall i :: 0 <= i < |HeaderMapping| ==> |HeaderMapping[i].1| == [4, 7, 8, 6, 15][i];
  }

  lemma ReadmeTargets()
    ensures Targets(ReadmeMapping) == ["requires", "tested"]
    ensures DistinctTargets(ReadmeMapping)
  {
    assert |ReadmeMapping[0].1| != |ReadmeMapping[1].1|;
  }

  /** No meta key of the header mapping is one of the readme mapping. */
  lemma HeaderTargetNotReadme(i: nat)
    requires i < |HeaderMapping|
    ensures HeaderMapping[i].1 !in Targets(ReadmeMapping)
  {
    ReadmeTargets();
    var t := HeaderMapping[i].1;
    assert t[0] in "nvha";
  }

  /** No meta key of the readme mapping is one of the header mapping. */
  lemma ReadmeTargetNotHeader(j: nat)
    requires j < |ReadmeMapping|
    ensures ReadmeMapping[j].1 !in Targets(HeaderMapping)
  {
    HeaderTargets();
    var t := ReadmeMapping[j].1;
    assert t[0] in "rt";
  }

  /** Each header field of the mapping ends up under its meta key when it is non-empty,
      and that key is absent otherwise. */
  lemma HeaderFieldCopied(pi: PackageInfo, i: nat)
    requires i < |HeaderMapping|
    ensures Lookup(PackageMeta(Some(pi)).fields, HeaderMapping[i].1) == Kept(HeaderEntry(pi.header, HeaderMapping[i].0))
  {
    var hs := HeaderSource(pi.header);
    var fields := PutAll([], Copies(hs, HeaderMapping));
    HeaderTargets();
    CopiedField([], hs, HeaderMapping, i);
    if pi.readme.Some? {
      HeaderTargetNotReadme(i);
      OtherField(fields, ReadmeSource(pi.readme.value), ReadmeMapping, HeaderMapping[i].1);
    }
  }

  /** The header fields Name, Version, PluginURI, Author and AuthorURI are stored as
      name, version, homepage, author and author_homepage, each only when it is
      non-empty. */
  lemma PackageMetaHeaderFields(pi: PackageInfo)
    ensures var m := PackageMeta(Some(pi)).fields;
            var h := pi.header;
            Lookup(m, "name") == Kept(Some(h.name)) &&
            Lookup(m, "version") == Kept(Some(h.version)) &&
            Lookup(m, "homepage") == Kept(Some(h.pluginUri)) &&
            Lookup(m, "author") == Kept(Some(h.author)) &&
            Lookup(m, "author_homepage") == Kept(Some(h.authorUri))
  {
    HeaderFieldCopied(pi, 0);
    HeaderFieldCopied(pi, 1);
    HeaderFieldCopied(pi, 2);
    HeaderFieldCopied(pi, 3);
    HeaderFieldCopied(pi, 4);
  }

  /** The readme's requires and tested are stored under their own names, each only when
      there is a readme and the value is non-empty. */
  lemma PackageMetaReadmeFields(pi: PackageInfo)
    ensures var m := PackageMeta(Some(pi)).fields;
            Lookup(m, "requires") == (if pi.readme.Some? then Kept(Some(pi.readme.value.requiresAtLeast)) else None) &&
            Lookup(m, "tested") == (if pi.readme.Some? then Kept(Some(pi.readme.value.tested)) else None)
  {
    var hs: string -> Option<string> := HeaderSource(pi.header);
    var fields := PutAll([], Copies(hs, HeaderMapping));
    ReadmeTargetNotHeader(0);
    ReadmeTargetNotHeader(1);
    OtherField([], hs, HeaderMapping, ReadmeMapping[0].1);
    OtherField([], hs, HeaderMapping, ReadmeMapping[1].1);
    if pi.readme.Some? {
      var rs: string -> Option<string> := ReadmeSource(pi.readme.value);
      ReadmeTargets();
      CopiedField(fields, rs, ReadmeMapping, 0);
      CopiedField(fields, rs, ReadmeMapping, 1);
    }
  }

  /** No other string entry is ever set. */
  lemma PackageMetaNoOtherFields(info: Option<PackageInfo>, k: string)
    requires k !in ["name", "version", "homepage", "author", "author_homepage", "requires", "tested"]
    ensures Lookup(PackageMeta(info).fields, k).None?
  {
    if info.Some? {
      var pi := info.value;
      var hs: string -> Option<string> := HeaderSource(pi.header);
      HeaderTargets();
      OtherField([], hs, HeaderMapping, k);
      if pi.readme.Some? {
        var rs: string -> Option<string> := ReadmeSource(pi.readme.value);
        ReadmeTargets();
        OtherField(PutAll([], Copies(hs, HeaderMapping)), rs, ReadmeMapping, k);
      }
    }
  }

  /** A section key is the lower-cased name with spaces turned into underscores: it has
      the name's length, and neither spaces nor capital ASCII letters. */
  lemma SectionKeySpec(name: string)
    ensures |SectionKey(name)| == |name|
    ensures forall i :: 0 <= i < |name| ==>
              SectionKey(name)[i] == (if LowerChar(name[i]) == ' ' then '_' else LowerChar(name[i]))
    ensures ' ' !in SectionKey(name)
    ensures forall i :: 0 <= i < |name| ==> !('A' <= SectionKey(name)[i] <= 'Z')
  {
    forall i | 0 <= i < |name|
      ensures SectionKey(name)[i] == (if LowerChar(name[i]) == ' ' then '_' else LowerChar(name[i]))
    {
      ToLowerIndex(name, i);
    }
  }

  /** 'sections' is set exactly when the readme has sections; its keys are the renamed
      section names, each once at its first position, and a key that several sections
      rename to holds the body of the last of them. */
  lemma PackageMetaSections(pi: PackageInfo, k: string)
    ensures PackageMeta(Some(pi)).sections.Some? <==> pi.readme.Some? && pi.readme.value.sections != []
    ensures PackageMeta(Some(pi)).sections.Some? ==>
              var ps := RenameKeys(pi.readme.value.sections);
              var s := PackageMeta(Some(pi)).sections.value;
              KeysOf(s) == Dedup(KeysOf(ps)) && Lookup(s, k) == LastValue(ps, k) && DistinctKeys(s)
  {
    if pi.readme.Some? && pi.readme.value.sections != [] {
      var ps := RenameKeys(pi.readme.value.sections);
      PutAllKeys(ps);
      PutAllLookup([], ps, k);
      PutAllDistinct(ps);
    }
  }

  /** A renamed key stands for every section whose name renames to it. */
  lemma RenameKeysIndex(ps: Entries, i: nat)
    requires i < |ps|
    ensures KeysOf(RenameKeys(ps))[i] == SectionKey(ps[i].0)
  {
    KeysOfIndex(RenameKeys(ps), i);
  }

  /** A plugin file at the root of the archive gets the slug ".". */
  lemma SlugAtRoot(file: string)
    requires file != [] && '/' !in file
    ensures Slug(file) == "."
  {
    assert TrailLength(file, {'/'}) == 0;
    assert TrimRight(file, {'/'}) == file;
    AfterLastIs(file, '/', |file|);
    var dot := ".";
    assert TrailLength(dot, {'/'}) == 0;
    assert TrimRight(dot, {'/'}) == dot;
    AfterLastIs(dot, '/', 1);
    assert ToLower(dot) == [LowerChar('.')] + ToLower(dot[1..]);
  }

  /** A plugin file in a directory gets that directory's name, lower-cased, as its slug. */
  lemma SlugInDirectory(dir: string, file: string)
    requires dir != [] && file != [] && '/' !in dir && '/' !in file
    ensures Slug(dir + "/" + file) == ToLower(dir)
  {
    DirnameOfPair(dir, file);
    BasenameOfComponent(dir);
  }
}
