/** analysePluginPackage(): the scan over the entries of a plugin archive that finds
    the plugin's main file (the first shallow .php entry with a plugin header) and its
    readme.txt. The archive is given as the list of its entries, in archive order. */
module PackageScanner {
  import opened PhpStrings
  import opened PluginHeaders
  import opened ReadmeParser

  /** One archive entry as statIndex() and getFromIndex() report it. */
  datatype Entry = Entry(name: string, size: nat, content: string)

  /** The array analysePluginPackage() returns on success. */
  datatype PackageInfo = PackageInfo(header: PluginHeader, readme: Option<Readme>, pluginFile: string)

  /** WordPress reads only the first 8 KiB of a plugin file. */
  const HeaderScanLimit: nat := 8 * 1024

  /** Backslashes become slashes, then slashes are trimmed from both ends: what is left
      is a slice of the converted name, and only slashes are cut on either side. */
  function NormaliseName(name: string): (r: string)
    ensures Trimmed(r, {'/'}) && '\\' !in r
    ensures var t := ReplaceChar(name, '\\', '/'); var o := TrimOffset(t, {'/'});
            o + |r| <= |t| && r == t[o..o + |r|] &&
            (forall i :: 0 <= i < o ==> t[i] == '/') && (forall i :: o + |r| <= i < |t| ==> t[i] == '/')
  {
    TrimSpec(ReplaceChar(name, '\\', '/'), {'/'});
    Trim(ReplaceChar(name, '\\', '/'), {'/'})
  }

  /** The basename is "readme.txt", letters compared case-insensitively. */
  predicate IsReadmeName(name: string) {
    LowerIs(Basename(name), "readme.txt")
  }

  /** The text after the last '.', or the whole name when it has none. */
  function Extension(name: string): string {
    AfterLast(name, '.')
  }

  /** A non-empty file whose extension is "php" in any case, at the top level of the
      archive or one directory down. */
  predicate IsHeaderCandidate(name: string, size: nat) {
    size != 0 && LowerIs(Extension(name), "php") && Count(name, '/') <= 1
  }

  /** substr($contents, 0, 8 * 1024) */
  function HeaderPrefix(content: string): (r: string)
    ensures |r| <= HeaderScanLimit && |r| <= |content| && r == content[..|r|]
    ensures |content| <= HeaderScanLimit ==> r == content
    ensures |content| > HeaderScanLimit ==> |r| == HeaderScanLimit
  {
    if |content| <= HeaderScanLimit then content else content[..HeaderScanLimit]
  }

  /** The two parsers the scan hands entry contents to: parsePluginReadme() with the
      caller's markup flag, and getPluginHeader() on the first 8 KiB. The scan is
      stated for any such pair. */
  datatype Parsers = Parsers(readme: string -> Option<Readme>, header: string -> Option<PluginHeader>)

  function ParsersFor(applyMarkdown: bool, markdown: string -> string): Parsers {
    Parsers(content => ParseReadme(content, applyMarkdown, markdown), content => GetPluginHeader(HeaderPrefix(content)))
  }

  /** The plugin header an entry yields when the scan still looks for one. */
  function HeaderOf(p: Parsers, e: Entry): Option<PluginHeader> {
    if IsHeaderCandidate(NormaliseName(e.name), e.size) then p.header(e.content) else None
  }

  // ---------------------------------------------------------------------------
  // The loop

  /** The variables `$header`, `$readme` and `$pluginFile` of the loop. */
  datatype EntryScan = EntryScan(header: Option<PluginHeader>, readme: Option<Readme>, pluginFile: Option<string>)

  const Initial := EntryScan(None, None, None)

  /** The loop goes on while the readme or the header is still missing. */
  predicate Done(st: EntryScan) {
    st.readme.Some? && st.header.Some?
  }

  /** One iteration over entry `e`. */
  function Step(p: Parsers, st: EntryScan, e: Entry): EntryScan {
    var name := NormaliseName(e.name);
    if st.readme.None? && IsReadmeName(name) then
      st.(readme := p.readme(e.content))
    else if st.header.None? then
      if IsHeaderCandidate(name, e.size) then
        match p.header(e.content)
        case None => st
        case Some(h) => st.(header := Some(h), pluginFile := Some(name))
      else st
    else st
  }

  /** The iterations over `es`, from `st`, without the early stop. */
  function Run(p: Parsers, st: EntryScan, es: seq<Entry>): EntryScan
    decreases |es|
  {
    if es == [] then st else Run(p, Step(p, st, es[0]), es[1..])
  }

  /** The result: false (None) when no plugin file was found. */
  function Outcome(st: EntryScan): Option<PackageInfo> {
    match (st.header, st.pluginFile)
    case (Some(h), Some(f)) => if IsEmpty(f) then None else Some(PackageInfo(h, st.readme, f))
    case _ => None
  }

  function Analyse(es: seq<Entry>, applyMarkdown: bool, markdown: string -> string): Option<PackageInfo> {
    Outcome(Run(ParsersFor(applyMarkdown, markdown), Initial, es))
  }

  /** Once both the readme and the header are found, no further entry changes anything:
      the early stop of the loop does not change its outcome. */
  lemma {:induction false} RunDone(p: Parsers, st: EntryScan, es: seq<Entry>)
    requires Done(st)
    ensures Run(p, st, es) == st
    decreases |es|
  {
    if es != [] {
      RunDone(p, st, es[1..]);
    }
  }

  /** The body of the for loop for one entry: the readme check, then the header checks,
      with the contents handed to the parsers `p`. */
  method ScanEntry(p: Parsers, st: EntryScan, e: Entry) returns (next: EntryScan)
    ensures next == Step(p, st, e)
  {
    next := st;
    var fileName := NormaliseName(e.name);
    if st.readme.None? && IsReadmeName(fileName) {
      var readme := p.readme(e.content);
      next := next.(readme := readme);
    } else if st.header.None? {
      LowerIsSpec(Extension(fileName), "php");
      if e.size != 0 && ToLower(Extension(fileName)) == "php" && Count(fileName, '/') <= 1 {
        var header := p.header(e.content);
        if header.Some? {
          next := next.(header := header, pluginFile := Some(fileName));
        }
      }
    }
  }

  /** The for loop over the entries, which stops once the readme and the header are
      both found. */
  method ScanEntries(p: Parsers, entries: seq<Entry>) returns (st: EntryScan)
    ensures st == Run(p, Initial, entries)
  {
    st := Initial;
    var i := 0;
    assert entries[0..] == entries;
    while i < |entries| && !Done(st)
      invariant i <= |entries|
      invariant Run(p, Initial, entries) == Run(p, st, entries[i..])
    {
      assert entries[i..][1..] == entries[i + 1..];
      st := ScanEntry(p, st, entries[i]);
      i := i + 1;
    }
    if i < |entries| {
      RunDone(p, st, entries[i..]);
    }
  }

  /** analysePluginPackage() on an archive that opened: `entries` lists its entries. */
  method AnalysePluginPackage(entries: seq<Entry>, applyMarkdown: bool, markdown: string -> string)
    returns (r: Option<PackageInfo>)
    ensures r == Analyse(entries, applyMarkdown, markdown)
  {
    var st := ScanEntries(ParsersFor(applyMarkdown, markdown), entries);
    r := Outcome(st);
  }

  // ---------------------------------------------------------------------------
  // The two searches the loop interleaves

  /** The first entry that yields a plugin header, with its normalised name. */
  function FindHeader(p: Parsers, es: seq<Entry>): Option<(PluginHeader, string)>
    decreases |es|
  {
    if es == [] then None
    else match HeaderOf(p, es[0])
      case Some(h) => Some((h, NormaliseName(es[0].name)))
      case None => FindHeader(p, es[1..])
  }

  /** The parse of the first entry named readme.txt that parses. */
  function FindReadme(p: Parsers, es: seq<Entry>): Option<Readme>
    decreases |es|
  {
    if es == [] then None
    else if IsReadmeName(NormaliseName(es[0].name)) && p.readme(es[0].content).Some? then p.readme(es[0].content)
    else FindReadme(p, es[1..])
  }

  /** `$header` and `$pluginFile` are set together. */
  predicate Paired(st: EntryScan) {
    st.header.Some? <==> st.pluginFile.Some?
  }

  /** A name whose basename is readme.txt has the extension "txt", never "php", so a
      readme entry is never taken for the plugin file. */
  lemma ReadmeIsNotPhp(name: string)
    requires Trimmed(name, {'/'})
    requires IsReadmeName(name)
    ensures !LowerIs(Extension(name), "php")
  {
    var b := Basename(name);
    assert b == AfterLast(name, '/') by {
      assert TrailLength(name, {'/'}) == 0;
    }
    ReadmeBasename(b);
    ReadmeExtension(name, b);
    assert "php"[0] == 'p';
  }

  /** The extension of a name ending in a basename of the form ??????.xyz is xyz. */
  lemma ReadmeExtension(name: string, b: string)
    requires b == AfterLast(name, '/')
    requires |b| == 10 && b[6] == '.' && forall i :: 7 <= i < 10 ==> b[i] != '.'
    ensures Extension(name) == b[7..]
  {
    var ext := name[|name| - 3..];
    assert name[|name| - 4] == b[6];
    assert forall i :: 0 <= i < 3 ==> ext[i] == b[7 + i];
    AfterLastIs(name, '.', 3);
  }

  /** The characters of a name that lower-cases to readme.txt. */
  lemma ReadmeBasename(b: string)
    requires LowerIs(b, "readme.txt")
    ensures |b| == 10 && b[6] == '.' && LowerChar(b[7]) == 't'
    ensures forall i :: 7 <= i < 10 ==> b[i] != '.'
  {
    var r := "readme.txt";
    assert r[6] == '.' && r[7] == 't' && r[8] == 'x' && r[9] == 't';
    assert LowerChar(b[6]) == '.';
    assert LowerChar(b[7]) == 't';
    assert LowerChar(b[8]) == 'x';
    assert LowerChar(b[9]) == 't';
  }

  /** A readme entry never yields the plugin header. */
  lemma ReadmeNotHeader(p: Parsers, e: Entry)
    requires IsReadmeName(NormaliseName(e.name))
    ensures HeaderOf(p, e).None?
  {
    ReadmeIsNotPhp(NormaliseName(e.name));
  }

  /** The readme the scan ends with is the one already found or else the first
      readme.txt that parses. */
  lemma {:induction false} RunReadme(p: Parsers, st: EntryScan, es: seq<Entry>)
    ensures Run(p, st, es).readme == if st.readme.Some? then st.readme else FindReadme(p, es)
    decreases |es|
  {
    if es != [] {
      RunReadme(p, Step(p, st, es[0]), es[1..]);
    }
  }

  /** The header and file the scan ends with are those already found or else those of
      the first entry that yields a header; they stay set together. */
  lemma {:induction false} RunHeader(p: Parsers, st: EntryScan, es: seq<Entry>)
    requires Paired(st)
    ensures var r := Run(p, st, es);
            Paired(r) &&
            (st.header.Some? ==> r.header == st.header && r.pluginFile == st.pluginFile) &&
            (st.header.None? ==>
               match FindHeader(p, es)
               case None => r.header.None?
               case Some((h, f)) => r.header == Some(h) && r.pluginFile == Some(f))
    decreases |es|
  {
    if es != [] {
      var e := es[0];
      if IsReadmeName(NormaliseName(e.name)) {
        ReadmeNotHeader(p, e);
      }
      RunHeader(p, Step(p, st, e), es[1..]);
    }
  }

  /** analysePluginPackage() is the two searches run side by side: it fails exactly when
      no entry yields a plugin header; otherwise it returns the first such entry's header
      and name, with the first readme.txt that parses. */
  lemma AnalyseSearches(es: seq<Entry>, applyMarkdown: bool, markdown: string -> string)
    ensures var p := ParsersFor(applyMarkdown, markdown);
            Analyse(es, applyMarkdown, markdown) ==
              match FindHeader(p, es)
              case None => None
              case Some((h, f)) => Some(PackageInfo(h, FindReadme(p, es), f))
  {
    ScanSearches(ParsersFor(applyMarkdown, markdown), es);
  }

  /** The same for any pair of parsers. */
  lemma ScanSearches(p: Parsers, es: seq<Entry>)
    ensures Outcome(Run(p, Initial, es)) ==
              match FindHeader(p, es)
              case None => None
              case Some((h, f)) => Some(PackageInfo(h, FindReadme(p, es), f))
  {
    RunReadme(p, Initial, es);
    RunHeader(p, Initial, es);
    FindHeaderFile(p, es);
  }

  /** The file that yields the header is a candidate, so its name ends in "php" and is
      never empty in PHP's sense. */
  lemma {:induction false} FindHeaderFile(p: Parsers, es: seq<Entry>)
    ensures FindHeader(p, es).Some? ==>
              IsHeaderCandidate(FindHeader(p, es).value.1, 1) && !IsEmpty(FindHeader(p, es).value.1)
    decreases |es|
  {
    if es != [] {
      if HeaderOf(p, es[0]).Some? {
        var name := NormaliseName(es[0].name);
        var ext := Extension(name);
        assert |ext| == 3;
        assert ext == name[|name| - |ext|..];
      } else {
        FindHeaderFile(p, es[1..]);
      }
    }
  }
}
