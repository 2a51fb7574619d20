# WordPress plugin package metadata, modelled in Dafny

This project models the core of `plugin-meta.php` from wp-extension-meta. That
library reads a WordPress plugin's ZIP package and extracts two things from it:

- the plugin header, a block of `Label: value` lines in the comment at the top of
  the main PHP file;
- the readme, the `readme.txt` file in WordPress.org format.

It then turns both into the flat metadata array that a self-hosted update
checker serves.

The model follows the functions of that file one by one.

- `PhpStrings` (php_strings.dfy) holds the PHP string primitives the code relies
  on, written out for byte strings:
  - `trim` with an explicit character list, `explode`, `implode`;
  - `explode($c, $s, 2)`, ASCII `strtolower`, `str_replace`;
  - `basename`, and `dirname` following PHP's own algorithm.
- `Latin1` (latin1.dfy) is `utf8_encode`: ISO-8859-1 to UTF-8, as in section 3 of
  RFC 3629. It comes with a decoder as its partner.
- `OrderedMaps` (ordered_maps.dfy) models PHP arrays with string keys as
  insertion-ordered lists of pairs. Assigning to a key that is already present
  keeps the key's position.
- `Patterns` (patterns.dfy) codes the four fixed regular expressions by hand, in
  PCRE's search order: the title line, the section header, the header label and
  the comment closer. Each comes with a lemma that characterises the match
  declaratively.
- `PluginHeaders` (header.dfy) covers three functions:
  - `_cleanup_header_comment`, as a function;
  - `getPluginFileData`, as a method with a loop, specified by a function;
  - `getPluginHeader`, as a function.
- `ReadmeSections` (sections.dfy) is the section scanner of `parsePluginReadme`,
  stated for any section-header recogniser.
- `ReadmeParser` (readme.dfy) is `parsePluginReadme`:
  - the title check;
  - the do-while over the header lines;
  - the comma lists;
  - the short description;
  - the section loop;
  - the Markdown and `utf8_encode` passes.
- `PackageScanner` (package.dfy) is the entry loop of `analysePluginPackage`. The
  archive is given as the list of its entries (name, size, contents) in archive
  order.
- `PackageMetadata` (meta.dfy) is `getPluginPackageMeta`, applied to the result of
  `analysePluginPackage`.

Loops in the source are methods with loops here. Each method is proved equal to a
specification function, and the properties the source promises are proved about
those functions:

- `ParsePluginReadme`, `ReadHeader` and `ScanSections`;
- `GetPluginFileData`;
- `ScanEntry`, `ScanEntries` and `AnalysePluginPackage`;
- `CopyFields`, `RenameSections` and `GetPluginPackageMeta`.

PHP's `empty()` is reproduced throughout: the strings `""` and `"0"` are both
empty. This decides four things:

- whether a plugin has a name;
- whether a section is stored;
- whether a contributors or tags value is split;
- whether a metadata field is copied.

Where the code and its written description differ, the model follows the code:

- A `readme.txt` entry whose parse returns null does not end the search for a
  readme. `$readme` stays empty, so a later `readme.txt` entry is parsed too
  (`FindReadme`, `RunReadme`).
- The header label is searched anywhere in the text, not only at the start of a
  line, because the pattern built at line 395 has no `^`.
- A plugin file at the archive root has the slug `"."`, which is what `dirname`
  returns there (`SlugAtRoot`). The slug is not empty.
- `trim()` strips NUL bytes, but the section pattern does not accept them as
  spacing. A content line `== b ==` followed by a NUL is therefore not a section
  header, yet the stored body of its section reads `== b ==`, which is one
  (`TrailingNulBody`).

## Model

| member | source | states |
|---|---|---|
| PhpStrings.TrimSpec | plugin-meta.php:105 | trim() leaves the slice of the text after its leading run of stripped characters; every character cut off on either side is in the list, and neither end of what is left is |
| PhpStrings.TrimNoop | plugin-meta.php:150 | trim() leaves a text unchanged when neither of its ends is in the list |
| PhpStrings.Explode | plugin-meta.php:119 | explode() yields one more piece than there are separators, and no piece holds the separator |
| PhpStrings.JoinExplode | plugin-meta.php:119 | implode() of the pieces of explode() with the same separator gives the text back |
| PhpStrings.ExplodeJoin | plugin-meta.php:150 | explode() gives back the pieces implode() joined, when no piece holds the separator |
| PhpStrings.ExplodeFirst | plugin-meta.php:119-121 | the first piece of explode() is the text before the first separator, so the title line is the file's first line |
| PhpStrings.SplitOnce | plugin-meta.php:138 | explode(':', $line, 2): the first piece has no ':'; there is a second piece exactly when the line has a ':', and then the line is the first piece, ':', the second piece |
| PhpStrings.LowerIsSpec | plugin-meta.php:43 | comparing character by character under ASCII lower-casing is the same as strtolower($s) == $t |
| PhpStrings.ToLowerIndex | plugin-meta.php:252 | strtolower() lower-cases each byte in place and keeps the length |
| PhpStrings.AfterLast | plugin-meta.php:55 | end(explode($c, $s)) is the longest suffix without $c: it is preceded by $c unless it is the whole text |
| PhpStrings.DirnameOfPair | plugin-meta.php:267 | dirname("dir/file") is "dir" for single components |
| PhpStrings.BasenameOfComponent | plugin-meta.php:267 | basename() of a single component is that component |
| Latin1.Utf8RoundTrip | plugin-meta.php:195 | utf8_encode() is invertible on byte strings: decoding its output gives the input back |
| Latin1.Utf8EncodeBytes | plugin-meta.php:195 | utf8_encode() yields a byte string, one byte longer than the input for every byte from 0x80 up |
| Latin1.Utf8EncodeAscii | plugin-meta.php:195 | utf8_encode() leaves ASCII text unchanged |
| OrderedMaps.Lookup | plugin-meta.php:139 | a key is set exactly when it is among the array's keys |
| OrderedMaps.PutKeys | plugin-meta.php:173 | $m[$k] = $v keeps the key order when $k is present and appends $k otherwise |
| OrderedMaps.PutLookup | plugin-meta.php:173 | after $m[$k] = $v, $m[$k] is $v and every other key holds what it held |
| OrderedMaps.PutAllKeys | plugin-meta.php:173 | assigning pairs in order leaves each distinct key once, at its first position |
| OrderedMaps.PutAllLookup | plugin-meta.php:173 | after assigning pairs in order, each key holds the value of the last pair that named it, and other keys are untouched |
| OrderedMaps.PutAllDistinct | plugin-meta.php:173 | an array built by assignments has distinct keys |
| OrderedMaps.MapValues | plugin-meta.php:190 | array_map() keeps the keys and their order |
| OrderedMaps.MapValuesLookup | plugin-meta.php:190-195 | after array_map(), each key holds the mapped value of what it held |
| Patterns.MatchTitleSpec | plugin-meta.php:121 | '@===\s*(.+?)\s*===@' matches a line exactly when it holds two non-overlapping "===" with at least one character between them; the capture then follows the line's first "===", is separated from both markers by whitespace only, and among such captures is the one with the longest leading whitespace and then the shortest text (PCRE's greedy-then-lazy choice), so it is unique |
| Patterns.MatchSectionHeaderSpec | plugin-meta.php:169 | '@^\s*==\s+(.+?)\s+==\s*$@m' matches a line exactly when it has the shape `\s*==\s+X\s+==\s*` for a non-empty X, and the capture is then the X whose leading `\s+` is longest and which, after that, is shortest (PCRE's greedy-then-lazy choice), so it is unique |
| Patterns.FindLabel | plugin-meta.php:395 | the search for `label:` (letters case-insensitive) returns its leftmost occurrence, or none when there is none |
| Patterns.LineRest | plugin-meta.php:395 | `(.*)$` under /m captures the text up to the next newline or the end, without a newline |
| Patterns.NoCloserSpec | plugin-meta.php:418 | a text has no comment closer exactly when neither "*/" nor "?>" occurs in it |
| Patterns.CloserCut | plugin-meta.php:418 | the cut made by the closer pattern leaves no closer, and cuts nothing when there is none; when there is one, the cut falls at the start of the whitespace run that ends at the first closer |
| Patterns.CloserCutIs | plugin-meta.php:418 | given the first closer and the start of the whitespace run before it, the cut is exactly there |
| PluginHeaders.CleanupHeaderComment | plugin-meta.php:417-419 | _cleanup_header_comment() of a line yields a one-line value without "*/" or "?>" and with trimmed ends; without a closer it is just trim() |
| PluginHeaders.CleanupCut | plugin-meta.php:417-419 | with a closer, _cleanup_header_comment() is trim() of the text before the whitespace run that precedes the first closer |
| PluginHeaders.FieldValue | plugin-meta.php:394-399 | every value getPluginFileData() records is a single line without a closer, with trimmed ends |
| PluginHeaders.FieldLineFirst | plugin-meta.php:395 | the line captured for a label is the rest of the line after its first occurrence |
| PluginHeaders.FieldValueFirst | plugin-meta.php:395-397 | with no closer on that rest of the line, the value is exactly that rest, trimmed |
| PluginHeaders.FieldValueCut | plugin-meta.php:395-399 | with a closer on that rest of the line, the value is the rest up to the whitespace run before its first closer, trimmed |
| PluginHeaders.FieldValueAbsent | plugin-meta.php:396-399 | a label that occurs nowhere yields "" |
| PluginHeaders.FileData | plugin-meta.php:393-405 | the array getPluginFileData() returns has the schema's keys in schema order, each holding what its label finds |
| PluginHeaders.GetPluginFileData | plugin-meta.php:393-405 | the loop records one entry per schema field, in order, and returns exactly FileData |
| PluginHeaders.FileDataLookup | plugin-meta.php:402-404 | every schema field can be looked up in the result and holds what its label finds |
| PluginHeaders.HeaderFieldValues | plugin-meta.php:344-358 | each of the ten header keys holds the value its label ("Plugin Name", "Plugin URI", ..., "Site Wide Only") finds |
| PluginHeaders.GetPluginHeaderSpec | plugin-meta.php:342-376 | getPluginHeader() is null exactly when the "Plugin Name" value is empty; otherwise every field holds its label's value, Title equals Name, and Network is true exactly when the "Network" value, or "Site Wide Only" when "Network" is empty, lower-cases to "true" |
| ReadmeSections.ScanContent | plugin-meta.php:178-181 | lines that are not section headers only extend the content buffer |
| ReadmeSections.ScanBlock | plugin-meta.php:169-181 | a header line flushes the open section and opens its own; its content lines fill the new buffer |
| ReadmeSections.ScanLayout | plugin-meta.php:164-186 | after the lines of a layout the blocks before the last are stored and the last is open; the final flush stores every block in order |
| ReadmeSections.SectionsOfLayout | plugin-meta.php:164-186 | for any split of the lines into a header-free preamble and header-led blocks, the preamble is dropped and the blocks are stored in order under their names with their trimmed bodies |
| ReadmeSections.LayoutOf | plugin-meta.php:164-186 | every list of lines has such a split |
| ReadmeSections.SectionsKeysAndValues | plugin-meta.php:164-186 | the section keys are the non-empty names, each once in order of first appearance, each holding the body of its last block, and distinct |
| ReadmeParser.HeaderLength | plugin-meta.php:137-146 | the do-while consumes the lines up to and including the first whose label trims to "", or all of them |
| ReadmeParser.HeaderLengthIs | plugin-meta.php:146 | the first line whose label trims to "" fixes the length of the header block |
| ReadmeParser.HeaderFieldsLast | plugin-meta.php:137-145 | a recognised header line sets its key to its trimmed value ("" without a ':') unless a later line names the same key |
| ReadmeParser.HeaderFieldsAbsent | plugin-meta.php:137-145 | a key no line of the block names stays unset |
| ReadmeParser.SplitListSpec | plugin-meta.php:149-156 | a contributors or tags value splits into one more piece than it has commas, none holding a comma or untrimmed |
| ReadmeParser.SplitListJoin | plugin-meta.php:150 | splitting the comma-join of comma-free pieces gives each piece back, trimmed; pieces already trimmed come back unchanged |
| ReadmeParser.ReadmeLines | plugin-meta.php:105-119 | the trimmed file splits into at least one line, none holding a newline |
| ReadmeParser.ReadHeader | plugin-meta.php:137-146 | the do-while returns the header fields of exactly the lines HeaderLength counts, and the lines after them |
| ReadmeParser.ScanSections | plugin-meta.php:164-186 | the foreach and the final flush return exactly the sections of the scanner |
| ReadmeParser.ParsePluginReadme | plugin-meta.php:104-200 | parsePluginReadme() returns exactly ParseReadme |
| ReadmeParser.ReadmeTitle | plugin-meta.php:105-125 | the result is null exactly when the first line of the trimmed file holds no title; otherwise the name is the title captured there |
| ReadmeParser.ShortDescriptionAfterHeader | plugin-meta.php:161 | the short description is the line right after the first line that ends the header, or null when there is none |
| ReadmeParser.HeaderRunsOut | plugin-meta.php:137-186 | when no line ends the header there is no short description and no section |
| ReadmeParser.ReadmeTextField | plugin-meta.php:128-158 | a header line fills its field when no later line names the same field; contributors and tags are split into pieces unless the value is empty, when the raw value is kept |
| ReadmeParser.ReadmeFieldDefault | plugin-meta.php:106-116 | a field no header line names keeps its default: "" or the empty list |
| ReadmeParser.ReadmeSectionsSpec | plugin-meta.php:164-197 | the sections are the blocks' non-empty names, each once in order of first appearance, each holding the trimmed body of its last block, passed through applyMarkdown() when asked and then utf8_encode() |
| ReadmeParser.OneLetterHeader | plugin-meta.php:169 | the line `== c ==` opens the section c |
| ReadmeParser.TrailingNulBody | plugin-meta.php:169-186 | a content line `== b ==` followed by NUL is no header, yet the body stored for its section is `== b ==`, which is one |
| PackageScanner.NormaliseName | plugin-meta.php:40 | the normalised entry name has no backslash and no '/' at either end, and is the name with backslashes turned into slashes less only the slashes at its two ends |
| PackageScanner.HeaderPrefix | plugin-meta.php:65 | only the first 8192 bytes of a candidate file are parsed; shorter files are parsed whole, longer ones cut to exactly 8192 |
| PackageScanner.RunDone | plugin-meta.php:38 | once both the readme and the header are found no further entry changes anything, so the early stop does not change the outcome |
| PackageScanner.ScanEntry | plugin-meta.php:39-70 | one iteration does exactly Step: the readme check first, then the size, extension and depth checks before the header parse |
| PackageScanner.ScanEntries | plugin-meta.php:38-71 | the loop with its early stop ends in the state of the full run over the entries |
| PackageScanner.AnalysePluginPackage | plugin-meta.php:38-77 | analysePluginPackage() on the entries returns exactly Analyse |
| PackageScanner.ReadmeIsNotPhp | plugin-meta.php:43-58 | a name whose basename is readme.txt in any case has the extension "txt", never "php" |
| PackageScanner.ReadmeNotHeader | plugin-meta.php:43-66 | a readme entry never yields the plugin header |
| PackageScanner.RunReadme | plugin-meta.php:43-47 | the readme found is the first readme.txt entry that parses; one that parses to null does not stop the search |
| PackageScanner.RunHeader | plugin-meta.php:49-70 | the header and plugin file found are those of the first candidate entry that yields a header; they are set together |
| PackageScanner.ScanSearches | plugin-meta.php:38-77 | for any parsers, the scan's result is false exactly when no entry yields a header, and otherwise that entry's header and name with the first readme that parses |
| PackageScanner.AnalyseSearches | plugin-meta.php:38-77 | the same for parsePluginReadme() and getPluginHeader() on the first 8 KiB |
| PackageScanner.FindHeaderFile | plugin-meta.php:51-74 | the plugin file found is a candidate name, so it is never empty and the result is never false once a header was found |
| PackageMetadata.Kept | plugin-meta.php:237 | a value is copied exactly when it is set and not empty in PHP's sense, and then unchanged |
| PackageMetadata.CopyFields | plugin-meta.php:236-240 | the copying foreach makes exactly the assignments Copies lists, in order |
| PackageMetadata.RenameSections | plugin-meta.php:251-254 | the section foreach assigns each body under its renamed key, in order |
| PackageMetadata.GetPluginPackageMeta | plugin-meta.php:226-270 | getPluginPackageMeta() returns exactly PackageMeta |
| PackageMetadata.CopiesKeys | plugin-meta.php:236-240 | a copying loop assigns only the meta keys of its mapping |
| PackageMetadata.CopiesLast | plugin-meta.php:236-240 | with distinct meta keys, the last assignment to a mapping's key holds its source value when set and non-empty, and the key is never assigned otherwise |
| PackageMetadata.CopiedField | plugin-meta.php:236-240 | a mapping's key ends up holding its source value when non-empty and keeps what it held otherwise |
| PackageMetadata.OtherField | plugin-meta.php:236-247 | a key outside the mapping keeps what it held |
| PackageMetadata.HeaderFieldCopied | plugin-meta.php:228-247 | each header field of the mapping ends up under its meta key when non-empty, whatever the readme holds, and is absent otherwise |
| PackageMetadata.PackageMetaHeaderFields | plugin-meta.php:228-241 | Name, Version, PluginURI, Author and AuthorURI are stored as name, version, homepage, author and author_homepage, each only when non-empty |
| PackageMetadata.PackageMetaReadmeFields | plugin-meta.php:243-249 | requires and tested are stored under their own names, each only when there is a readme and the value is non-empty |
| PackageMetadata.PackageMetaNoOtherFields | plugin-meta.php:226-249 | no other string entry is ever set |
| PackageMetadata.SectionKeySpec | plugin-meta.php:252 | a section key has the name's length, lower-cases each letter and turns spaces into underscores, so it has no space and no capital |
| PackageMetadata.PackageMetaSections | plugin-meta.php:250-255 | sections is set exactly when the readme has sections; its keys are the renamed names, each once at its first position, each holding the body of the last section renamed to it |
| PackageMetadata.RenameKeysIndex | plugin-meta.php:252-253 | the i-th renamed key is the renamed i-th section name |
| PackageMetadata.SlugAtRoot | plugin-meta.php:266-268 | a plugin file at the archive root gets the slug "." |
| PackageMetadata.SlugInDirectory | plugin-meta.php:266-268 | a plugin file one directory down gets that directory's name, lower-cased |

## Left out

- Opening the archive is not modelled: the `file_exists` and `is_readable` checks, `ZipArchive::open`, `statIndex` and `getFromIndex` (lines 24-32, 39, 45, 65). The archive is a given list of entries.
- The path branch of `getPluginPackageMeta` (lines 222-224), which runs `analysePluginPackage` on a file name, is I/O. The model takes the analysis result.
- The upgrade notice (lines 257-263) is not modelled. It relies on `preg_quote`, a case-insensitive regular expression over HTML, and `strip_tags`.
- `applyMarkdown()` (lines 281-285) is a parameter `markdown` applied to each section body when the flag is set. `Markdown()` belongs to markdown.php, which is not part of this model.
- ScanEntry (PackageScanner.ScanEntry): hands an entry's contents to the parser functions of a `Parsers` value rather than calling the `ParsePluginReadme` method. That method is proved equal to the function used.
- GetPluginFileData (PluginHeaders.GetPluginFileData): requires distinct field names that do not name the function's own variables. The source assigns each value through a variable variable (`${$field}`), which would overwrite `$file_data` or the loop variables. The one schema the source passes meets this (`HeaderSchemaDistinct`).
- Characters from U+0100 up cannot occur in PHP's byte strings. `utf8_encode` passes them through unchanged, and the round trip is proved for byte strings only.
- `SectionName` rejects a line holding a newline. Lines of the file never hold one, so the `/m` behaviour of the section pattern across newlines is not modelled.
- PHP turns numeric string keys such as `"12"` into integer keys. Section names are kept as strings, so key order and collisions between `"12"` and `"012"` follow string comparison.
- The metadata array is a record: string entries in assignment order, then `sections`, then `slug`. It is not one interleaved PHP array.
- The boolean `Network` entry of the header is never read by `getPluginPackageMeta`, so the header as a copying source has only string entries.
- PCRE in general is not modelled: only the four fixed patterns are coded.
- The demo page (demo/index.php) is not modelled. It is an upload form that prints the result.
