/** parsePluginReadme(): a readme.txt is a title line `=== Name ===`, a block of
    `Field: value` header lines ended by a line whose label is blank, a short
    description line, and sections opened by `== Section ==` lines. */
module ReadmeParser {
  import opened PhpStrings
  import opened Patterns
  import opened OrderedMaps
  import opened Latin1
  import opened ReadmeSections

  /** The characters stripped from the whole file before it is split into lines. */
  const ReadmeTrim: set<char> := {' ', '\t', '\n', '\r'}

  /** `contributors` and `tags`: the list of comma-separated pieces, or the raw text
      when the header is present but empty in PHP's sense ("" or "0"). */
  datatype ListField = Pieces(items: seq<string>) | Raw(text: string)

  /** The array parsePluginReadme() returns. `requiresAtLeast` is the `requires` key. */
  datatype Readme = Readme(
    name: string,
    contributors: ListField,
    donate: string,
    tags: ListField,
    requiresAtLeast: string,
    tested: string,
    stable: string,
    shortDescription: Option<string>,
    sections: Entries)

  // ---------------------------------------------------------------------------
  // The header block

  /** The key stored for a header label; labels are matched exactly, case included. */
  function HeaderKey(fieldLabel: string): Option<string> {
    if fieldLabel == "Contributors" then Some("contributors")
    else if fieldLabel == "Donate link" then Some("donate")
    else if fieldLabel == "Tags" then Some("tags")
    else if fieldLabel == "Requires at least" then Some("requires")
    else if fieldLabel == "Tested up to" then Some("tested")
    else if fieldLabel == "Stable tag" then Some("stable")
    else None
  }

  /** The text before the first ':' of a header line. */
  function LabelOf(line: string): string {
    SplitOnce(line, ':').0
  }

  /** The key and the trimmed value a header line stores, if its label is recognised;
      a recognised label without a ':' stores "". */
  function HeaderPair(line: string): Option<(string, string)> {
    var (fieldLabel, rest) := SplitOnce(line, ':');
    match HeaderKey(fieldLabel)
    case None => None
    case Some(k) => Some((k, match rest case Some(v) => Trim(v, DefaultTrim) case None => ""))
  }

  /** The do-while stops after a line whose label trims to "". */
  predicate EndsHeader(line: string) {
    Trim(LabelOf(line), DefaultTrim) == ""
  }

  /** The number of lines the do-while consumes: up to and including the first line
      that ends the header, or all of them when none does. */
  function HeaderLength(rest: seq<string>): (n: nat)
    ensures n <= |rest|
    ensures rest != [] ==> n > 0
    ensures forall k :: 0 <= k < n - 1 ==> !EndsHeader(rest[k])
    ensures n < |rest| ==> EndsHeader(rest[n - 1])
    decreases |rest|
  {
    if rest == [] then 0
    else if EndsHeader(rest[0]) then 1
    else 1 + HeaderLength(rest[1..])
  }

  /** The first line that ends the header fixes the length of the block. */
  lemma {:induction false} HeaderLengthIs(rest: seq<string>, m: nat)
    requires m <= |rest|
    requires forall k :: 0 <= k < m ==> !EndsHeader(rest[k])
    ensures m < |rest| && EndsHeader(rest[m]) ==> HeaderLength(rest) == m + 1
    ensures m == |rest| ==> HeaderLength(rest) == m
    decreases m
  {
    if m > 0 {
      assert !EndsHeader(rest[0]);
      HeaderLengthIs(rest[1..], m - 1);
    }
  }

  /** `$headers` after the header lines `block`, assigned in order. */
  function HeaderFields(block: seq<string>): Entries
    decreases |block|
  {
    if block == [] then []
    else
      var h := HeaderFields(block[..|block| - 1]);
      match HeaderPair(block[|block| - 1])
      case None => h
      case Some((k, v)) => Put(h, k, v)
  }

  /** A recognised header line sets its key, unless a later line of the block sets the
      same key again: the last one wins. */
  lemma {:induction false} HeaderFieldsLast(block: seq<string>, i: nat)
    requires i < |block| && HeaderPair(block[i]).Some?
    requires forall j :: i < j < |block| ==> HeaderKey(LabelOf(block[j])) != HeaderKey(LabelOf(block[i]))
    ensures Lookup(HeaderFields(block), HeaderPair(block[i]).value.0) == Some(HeaderPair(block[i]).value.1)
    decreases |block|
  {
    var init := block[..|block| - 1];
    var k := HeaderPair(block[i]).value.0;
    PutLookup(HeaderFields(init), k, HeaderPair(block[i]).value.1, k);
    if i < |block| - 1 {
      HeaderFieldsLast(init, i);
      match HeaderPair(block[|block| - 1])
      case None =>
      case Some((k', v')) =>
        PutLookup(HeaderFields(init), k', v', k);
    }
  }

  /** A key that no line of the block names stays unset. */
  lemma {:induction false} HeaderFieldsAbsent(block: seq<string>, k: string)
    requires forall j :: 0 <= j < |block| ==> HeaderKey(LabelOf(block[j])) != Some(k)
    ensures Lookup(HeaderFields(block), k) == None
    decreases |block|
  {
    if block != [] {
      var init := block[..|block| - 1];
      HeaderFieldsAbsent(init, k);
      match HeaderPair(block[|block| - 1])
      case None =>
      case Some((k', v')) =>
        PutLookup(HeaderFields(init), k', v', k);
    }
  }

  /** A text field: the stored value, or the default "". */
  function TextOf(h: Entries, k: string): string {
    match Lookup(h, k)
    case Some(v) => v
    case None => ""
  }

  /** array_map('trim', explode(',', $v)) */
  function SplitList(v: string): seq<string> {
    var parts := Explode(v, ',');
    seq(|parts|, i requires 0 <= i < |parts| => Trim(parts[i], DefaultTrim))
  }

  /** A list field: `array()` when unset, the value itself when it is empty in PHP's
      sense, and its comma-separated pieces otherwise. */
  function ListOf(h: Entries, k: string): ListField {
    match Lookup(h, k)
    case None => Pieces([])
    case Some(v) => if IsEmpty(v) then Raw(v) else Pieces(SplitList(v))
  }

  /** The pieces of a list: one more than there are commas, none of them holding a
      comma or starting or ending with a character trim() strips. */
  lemma SplitListSpec(v: string)
    ensures |SplitList(v)| == Count(v, ',') + 1
    ensures forall i :: 0 <= i < |SplitList(v)| ==> ',' !in SplitList(v)[i] && Trimmed(SplitList(v)[i], DefaultTrim)
  {
    var parts := Explode(v, ',');
    forall i | 0 <= i < |parts| ensures ',' !in SplitList(v)[i] && Trimmed(SplitList(v)[i], DefaultTrim) {
      var t := Trim(parts[i], DefaultTrim);
      var o := TrimOffset(parts[i], DefaultTrim);
      TrimSpec(parts[i], DefaultTrim);
    }
  }

  /** Splitting the comma-join of comma-free pieces gives each piece back, trimmed; so
      pieces that are already trimmed come back unchanged. */
  lemma SplitListJoin(items: seq<string>)
    requires items != []
    requires forall i :: 0 <= i < |items| ==> ',' !in items[i]
    ensures SplitList(Join(items, ',')) == seq(|items|, i requires 0 <= i < |items| => Trim(items[i], DefaultTrim))
    ensures (forall i :: 0 <= i < |items| ==> Trimmed(items[i], DefaultTrim)) ==> SplitList(Join(items, ',')) == items
  {
    var v := Join(items, ',');
    ExplodeJoin(items, ',');
    assert Explode(v, ',') == items;
    if forall i :: 0 <= i < |items| ==> Trimmed(items[i], DefaultTrim) {
      forall i | 0 <= i < |items| ensures SplitList(v)[i] == items[i] {
        TrimNoop(items[i], DefaultTrim);
      }
    }
  }

  // ---------------------------------------------------------------------------
  // The whole file

  /** The lines of the trimmed file. */
  function ReadmeLines(contents: string): (ls: seq<string>)
    ensures ls != []
    ensures forall i :: 0 <= i < |ls| ==> '\n' !in ls[i]
  {
    Explode(Trim(contents, ReadmeTrim), '\n')
  }

  /** The first line of the trimmed file. */
  function FirstLine(contents: string): string {
    SplitOnce(Trim(contents, ReadmeTrim), '\n').0
  }

  /** The section-header recogniser on lines. Lines never hold '\n', so the first
      branch is never taken for a line of the file. */
  function SectionName(line: string): Option<string> {
    if '\n' in line then None else MatchSectionHeader(line)
  }

  /** What parsePluginReadme() returns: null when the first line carries no title. */
  function ParseReadme(contents: string, applyMarkdown: bool, markdown: string -> string): Option<Readme> {
    var lines := ReadmeLines(contents);
    match MatchTitle(lines[0])
    case None => None
    case Some(name) => Some(ReadmeAfterTitle(name, lines[1..], applyMarkdown, markdown))
  }

  /** The readme assembled from the lines after the title line. */
  function ReadmeAfterTitle(name: string, rest: seq<string>, applyMarkdown: bool, markdown: string -> string): Readme {
    var n := HeaderLength(rest);
    var h := HeaderFields(rest[..n]);
    var after := rest[n..];
    var raw := Sections(SectionName, if after == [] then [] else after[1..]);
    var rendered := if applyMarkdown then MapValues(raw, markdown) else raw;
    Readme(name, ListOf(h, "contributors"), TextOf(h, "donate"), ListOf(h, "tags"),
           TextOf(h, "requires"), TextOf(h, "tested"), TextOf(h, "stable"),
           if after == [] then None else Some(after[0]),
           MapValues(rendered, Utf8Encode))
  }

  /** The do-while over the header lines: returns `$headers` and the lines left after it. */
  method ReadHeader(rest: seq<string>) returns (headers: Entries, lines: seq<string>)
    ensures headers == HeaderFields(rest[..HeaderLength(rest)])
    ensures lines == rest[HeaderLength(rest)..]
  {
    lines := rest;
    headers := [];
    ghost var n := 0;
    var done := false;
    while !done
      invariant n <= |rest| && lines == rest[n..]
      invariant headers == HeaderFields(rest[..n])
      invariant !done ==> forall k :: 0 <= k < n ==> !EndsHeader(rest[k])
      invariant done ==> n == HeaderLength(rest)
      decreases |lines| + (if done then 0 else 1)
    {
      ghost var before := n;
      var line := "";
      if lines != [] {
        line := lines[0];
        lines := lines[1..];
        HeaderFieldsStep(rest, n);
        n := n + 1;
      } else {
        assert EndsHeader(line);
      }
      match HeaderPair(line) {
        case Some((k, v)) => headers := Put(headers, k, v);
        case None =>
      }
      done := EndsHeader(line);
      if done {
        HeaderLengthIs(rest, before);
      } else {
        assert forall k :: 0 <= k < n ==> !EndsHeader(rest[k]) by {
          assert n == before + 1 && rest[before] == line;
        }
      }
    }
  }

  /** One more header line sets its pair, if it has one. */
  lemma HeaderFieldsStep(rest: seq<string>, n: nat)
    requires n < |rest|
    ensures HeaderFields(rest[..n + 1]) ==
              match HeaderPair(rest[n])
              case Some((k, v)) => Put(HeaderFields(rest[..n]), k, v)
              case None => HeaderFields(rest[..n])
  {
    assert rest[..n + 1][..n] == rest[..n];
  }

  /** The foreach over the section lines and the final flush. */
  method ScanSections(lines: seq<string>) returns (sections: Entries)
    requires forall i :: 0 <= i < |lines| ==> '\n' !in lines[i]
    ensures sections == Sections(SectionName, lines)
  {
    sections := [];
    var buffer: seq<string> := [];
    var current := "";
    for i := 0 to |lines|
      invariant SectionScan(sections, buffer, current) == ScanFrom(SectionName, Start, lines[..i])
    {
      assert lines[..i + 1][..i] == lines[..i];
      var m := MatchSectionHeader(lines[i]);
      if m.Some? {
        if !IsEmpty(current) {
          sections := Put(sections, current, Body(buffer));
        }
        current := m.value;
        buffer := [];
      } else {
        buffer := buffer + [lines[i]];
      }
    }
    assert lines[..|lines|] == lines;
    if !IsEmpty(current) {
      sections := Put(sections, current, Body(buffer));
    }
  }

  /** parsePluginReadme(). `markdown` stands for applyMarkdown(), used when
      `applyMarkdown` is set. */
  method ParsePluginReadme(contents: string, applyMarkdown: bool, markdown: string -> string) returns (r: Option<Readme>)
    ensures r == ParseReadme(contents, applyMarkdown, markdown)
  {
    var lines := ReadmeLines(contents);
    var title := MatchTitle(lines[0]);
    lines := lines[1..];
    if title.None? {
      return None;
    }
    var headers;
    headers, lines := ReadHeader(lines);
    var contributors := ListOf(headers, "contributors");
    var tags := ListOf(headers, "tags");
    var short: Option<string> := None;
    if lines != [] {
      short := Some(lines[0]);
      lines := lines[1..];
    }
    var sections := ScanSections(lines);
    if applyMarkdown {
      sections := MapValues(sections, markdown);
    }
    sections := MapValues(sections, Utf8Encode);
    r := Some(Readme(title.value, contributors, TextOf(headers, "donate"), tags,
                     TextOf(headers, "requires"), TextOf(headers, "tested"), TextOf(headers, "stable"),
                     short, sections));
  }

  /** The result is null exactly when the first line of the trimmed file holds no two
      separate "===" markers; otherwise the name is the title captured there. */
  lemma ReadmeTitle(contents: string, applyMarkdown: bool, markdown: string -> string)
    ensures '\n' !in FirstLine(contents)
    ensures ParseReadme(contents, applyMarkdown, markdown).None? <==> !HasTitle(FirstLine(contents))
    ensures ParseReadme(contents, applyMarkdown, markdown).Some? ==>
              MatchTitle(FirstLine(contents)) == Some(ParseReadme(contents, applyMarkdown, markdown).value.name)
  {
    var lines := ReadmeLines(contents);
    ExplodeFirst(Trim(contents, ReadmeTrim), '\n');
    assert lines[0] == FirstLine(contents);
    MatchTitleSpec(lines[0]);
    var t := MatchTitle(lines[0]);
    if t.Some? {
      var r := ReadmeAfterTitle(t.value, lines[1..], applyMarkdown, markdown);
      assert ParseReadme(contents, applyMarkdown, markdown) == Some(r);
      assert r.name == t.value;
      assert MatchTitle(FirstLine(contents)) == t;
    }
  }

  /** The short description is the line right after the first line that ends the
      header, and is null when there is none. */
  lemma ShortDescriptionAfterHeader(contents: string, applyMarkdown: bool, markdown: string -> string, m: nat)
    requires ParseReadme(contents, applyMarkdown, markdown).Some?
    requires var rest := ReadmeLines(contents)[1..];
             m < |rest| && EndsHeader(rest[m]) && forall k :: 0 <= k < m ==> !EndsHeader(rest[k])
    ensures var rest := ReadmeLines(contents)[1..];
            ParseReadme(contents, applyMarkdown, markdown).value.shortDescription ==
              if m + 1 < |rest| then Some(rest[m + 1]) else None
  {
    HeaderLengthIs(ReadmeLines(contents)[1..], m);
  }

  /** When no line ends the header, the header takes the whole file: there is no short
      description and no section. */
  lemma HeaderRunsOut(contents: string, applyMarkdown: bool, markdown: string -> string)
    requires ParseReadme(contents, applyMarkdown, markdown).Some?
    requires var rest := ReadmeLines(contents)[1..];
             forall k :: 0 <= k < |rest| ==> !EndsHeader(rest[k])
    ensures ParseReadme(contents, applyMarkdown, markdown).value.shortDescription == None
    ensures ParseReadme(contents, applyMarkdown, markdown).value.sections == []
  {
    HeaderLengthIs(ReadmeLines(contents)[1..], |ReadmeLines(contents)| - 1);
  }

  /** The lines of the header block the do-while consumed. */
  function HeaderBlock(contents: string): seq<string> {
    var rest := ReadmeLines(contents)[1..];
    rest[..HeaderLength(rest)]
  }

  /** A header line of the block fills its field when no later line names the same
      field; a text field no line names keeps its default "". */
  lemma ReadmeTextField(contents: string, applyMarkdown: bool, markdown: string -> string, i: nat)
    requires ParseReadme(contents, applyMarkdown, markdown).Some?
    requires var block := HeaderBlock(contents);
             i < |block| && HeaderPair(block[i]).Some? &&
             forall j :: i < j < |block| ==> HeaderKey(LabelOf(block[j])) != HeaderKey(LabelOf(block[i]))
    ensures var r := ParseReadme(contents, applyMarkdown, markdown).value;
            var (k, v) := HeaderPair(HeaderBlock(contents)[i]).value;
            (k == "donate" ==> r.donate == v) &&
            (k == "requires" ==> r.requiresAtLeast == v) &&
            (k == "tested" ==> r.tested == v) &&
            (k == "stable" ==> r.stable == v) &&
            (k == "contributors" ==> r.contributors == if IsEmpty(v) then Raw(v) else Pieces(SplitList(v))) &&
            (k == "tags" ==> r.tags == if IsEmpty(v) then Raw(v) else Pieces(SplitList(v)))
  {
    HeaderFieldsLast(HeaderBlock(contents), i);
  }

  /** A field that no line of the header block names keeps its default. */
  lemma ReadmeFieldDefault(contents: string, applyMarkdown: bool, markdown: string -> string, k: string)
    requires ParseReadme(contents, applyMarkdown, markdown).Some?
    requires var block := HeaderBlock(contents);
             forall j :: 0 <= j < |block| ==> HeaderKey(LabelOf(block[j])) != Some(k)
    ensures var r := ParseReadme(contents, applyMarkdown, markdown).value;
            (k == "donate" ==> r.donate == "") &&
            (k == "requires" ==> r.requiresAtLeast == "") &&
            (k == "tested" ==> r.tested == "") &&
            (k == "stable" ==> r.stable == "") &&
            (k == "contributors" ==> r.contributors == Pieces([])) &&
            (k == "tags" ==> r.tags == Pieces([]))
  {
    HeaderFieldsAbsent(HeaderBlock(contents), k);
  }

  /** The lines the section loop reads: those after the short description. */
  function SectionLines(contents: string): seq<string> {
    var rest := ReadmeLines(contents)[1..];
    var after := rest[HeaderLength(rest)..];
    if after == [] then [] else after[1..]
  }

  /** For any split of the section lines into a preamble and header-led blocks, the
      sections are the blocks' non-empty names, each once and in order of first
      appearance, each holding the trimmed body of its last block, passed through
      applyMarkdown() when asked and then utf8_encode(). */
  lemma ReadmeSectionsSpec(contents: string, applyMarkdown: bool, markdown: string -> string,
                           pre: seq<string>, blocks: seq<Block>, k: string)
    requires ParseReadme(contents, applyMarkdown, markdown).Some?
    requires ValidLayout(SectionName, pre, blocks) && LinesOf(pre, blocks) == SectionLines(contents)
    ensures var r := ParseReadme(contents, applyMarkdown, markdown).value;
            KeysOf(r.sections) == Dedup(KeysOf(Named(blocks))) &&
            Lookup(r.sections, k) ==
              match LastValue(Named(blocks), k)
              case None => None
              case Some(b) => Some(Utf8Encode(if applyMarkdown then markdown(b) else b))
  {
    var raw := Sections(SectionName, SectionLines(contents));
    SectionsKeysAndValues(SectionName, pre, blocks, k);
    var rendered := if applyMarkdown then MapValues(raw, markdown) else raw;
    MapValuesLookup(raw, markdown, k);
    MapValuesLookup(rendered, Utf8Encode, k);
  }

  /** The line `== c ==`. */
  function HeaderLine(c: char): string {
    ['=', '=', ' ', c, ' ', '=', '=']
  }

  /** `== c ==` opens the section `c`. */
  lemma OneLetterHeader(c: char)
    requires !IsSpace(c) && c != '=' && c != '\n'
    ensures SectionName(HeaderLine(c)) == Some([c])
  {
    var s := HeaderLine(c);
    assert SpaceRun(s, 7) == 0;
    assert SpaceRun(s, 5) == 0;
    assert SpaceRun(s, 4) == 1;
    assert SpaceRun(s, 3) == 0;
    assert SpaceRun(s, 2) == 1;
    assert SpaceRun(s, 0) == 0;
    assert At(s, 0, "==") && At(s, 5, "==");
    assert SectionCloseAt(s, 4);
    assert SectionLazyEnd(s, 4) == Some(4);
    assert s[3..4] == [c];
  }

  /** trim() also strips NUL bytes, which the section pattern does not accept as
      spacing: a content line `== b ==` followed by a NUL is not a header, yet the
      stored body of its section reads `== b ==`, which is. */
  lemma TrailingNulBody(a: char, b: char)
    requires !IsSpace(a) && a != '=' && a != '\n' && a != '0'
    requires !IsSpace(b) && b != '=' && b != '\n' && b != '\0'
    ensures SectionName(HeaderLine(b) + ['\0']) == None
    ensures SectionName(HeaderLine(b)) == Some([b])
    ensures Sections(SectionName, [HeaderLine(a), HeaderLine(b) + ['\0']]) == [([a], HeaderLine(b))]
  {
    OneLetterHeader(a);
    OneLetterHeader(b);
    NulLine(b);
    NulBody(b);
    var l1 := HeaderLine(a);
    var l2 := HeaderLine(b) + ['\0'];
    var lines := [l1, l2];
    var st1 := SectionScan([], [], [a]);
    assert ScanFrom(SectionName, Start, lines[..1]) == st1 by {
      assert lines[..1][..0] == [];
    }
    assert lines[..2] == lines;
    assert ScanFrom(SectionName, Start, lines) == st1.(buffer := [l2]);
  }

  lemma NulLine(b: char)
    requires !IsSpace(b) && b != '=' && b != '\n'
    ensures SectionName(HeaderLine(b) + ['\0']) == None
  {
    var s := HeaderLine(b) + ['\0'];
    assert SpaceRun(s, 8) == 0;
    assert SpaceRun(s, 7) == 0;
    assert SpaceRun(s, 6) == 0;
    assert SpaceRun(s, 5) == 0;
    assert SpaceRun(s, 4) == 1;
    assert SpaceRun(s, 3) == 0;
    assert SpaceRun(s, 2) == 1;
    assert SpaceRun(s, 0) == 0;
    assert !SectionCloseAt(s, 4);
    assert SectionLazyEnd(s, 8) == None;
    assert SectionLazyEnd(s, 7) == None;
    assert SectionLazyEnd(s, 6) == None;
    assert SectionLazyEnd(s, 5) == None;
    assert SectionLazyEnd(s, 4) == None;
  }

  lemma NulBody(b: char)
    requires !IsSpace(b) && b != '\0'
    ensures Body([HeaderLine(b) + ['\0']]) == HeaderLine(b)
  {
    var s := HeaderLine(b) + ['\0'];
    assert Join([s], '\n') == s;
    assert s[0] == '=' && '=' !in DefaultTrim;
    assert TrimOffset(s, DefaultTrim) == 0;
    assert s[..7] == HeaderLine(b);
    assert s[..7][6] == '=';
    assert TrailLength(s[..7], DefaultTrim) == 0;
    assert s[7] == '\0' && '\0' in DefaultTrim;
    assert TrailLength(s, DefaultTrim) == 1;
  }
}
