/** The section scanner of parsePluginReadme(): after the header and the short
    description, every line is either a section header or a content line of the section
    opened last. The scanner is stated for any recogniser `header` that maps a line to
    the section name it opens, if any; the parser instantiates it with the
    `== Name ==` pattern. */
module ReadmeSections {
  import opened PhpStrings
  import opened OrderedMaps

  /** The body stored for a section: its buffered lines joined with "\n" and trimmed. */
  function Body(buffer: seq<string>): string {
    Trim(Join(buffer, '\n'), DefaultTrim)
  }

  /** The variables of the scanning loop: `$sections`, `$contentBuffer`, `$currentSection`. */
  datatype SectionScan = SectionScan(sections: Entries, buffer: seq<string>, current: string)

  const Start := SectionScan([], [], "")

  /** Storing the buffer under the current section, unless that section's name is
      empty in PHP's sense ("" or "0"). */
  function Flush(st: SectionScan): Entries {
    if IsEmpty(st.current) then st.sections else Put(st.sections, st.current, Body(st.buffer))
  }

  /** One iteration of the foreach over the remaining lines. */
  function ScanLine(header: string -> Option<string>, st: SectionScan, line: string): SectionScan {
    match header(line)
    case Some(name) => SectionScan(Flush(st), [], name)
    case None => st.(buffer := st.buffer + [line])
  }

  /** The loop run over `ls` from the state `st`. */
  function ScanFrom(header: string -> Option<string>, st: SectionScan, ls: seq<string>): SectionScan
    decreases |ls|
  {
    if ls == [] then st else ScanLine(header, ScanFrom(header, st, ls[..|ls| - 1]), ls[|ls| - 1])
  }

  /** `$sections` once the loop and the final flush are done. */
  function Sections(header: string -> Option<string>, ls: seq<string>): Entries {
    Flush(ScanFrom(header, Start, ls))
  }

  lemma {:induction false} ScanFromAppend(header: string -> Option<string>, st: SectionScan, a: seq<string>, b: seq<string>)
    ensures ScanFrom(header, st, a + b) == ScanFrom(header, ScanFrom(header, st, a), b)
    decreases |b|
  {
    if b != [] {
      ScanFromAppend(header, st, a, b[..|b| - 1]);
      assert (a + b)[..|a + b| - 1] == a + b[..|b| - 1];
    } else {
      assert a + b == a;
    }
  }

  /** Content lines: none of them opens a section. */
  predicate NoHeaders(header: string -> Option<string>, ls: seq<string>) {
    forall i :: 0 <= i < |ls| ==> header(ls[i]).None?
  }

  /** Content lines only extend the buffer. */
  lemma {:induction false} ScanContent(header: string -> Option<string>, st: SectionScan, body: seq<string>)
    requires NoHeaders(header, body)
    ensures ScanFrom(header, st, body) == st.(buffer := st.buffer + body)
    decreases |body|
  {
    if body != [] {
      ScanContent(header, st, body[..|body| - 1]);
      assert st.buffer + body[..|body| - 1] + [body[|body| - 1]] == st.buffer + body;
    } else {
      assert st.buffer + body == st.buffer;
    }
  }

  // ---------------------------------------------------------------------------
  // The layout of the lines: a preamble without headers, then blocks that each start
  // with a header line followed by content lines.

  datatype Block = Block(header: string, name: string, body: seq<string>)

  predicate ValidBlock(header: string -> Option<string>, b: Block) {
    header(b.header) == Some(b.name) && NoHeaders(header, b.body)
  }

  predicate ValidLayout(header: string -> Option<string>, pre: seq<string>, blocks: seq<Block>) {
    NoHeaders(header, pre) && forall i :: 0 <= i < |blocks| ==> ValidBlock(header, blocks[i])
  }

  /** The lines a layout stands for. */
  function LinesOf(pre: seq<string>, blocks: seq<Block>): seq<string>
    decreases |blocks|
  {
    if blocks == [] then pre
    else LinesOf(pre, blocks[..|blocks| - 1]) + [blocks[|blocks| - 1].header] + blocks[|blocks| - 1].body
  }

  /** The (name, body) pairs the blocks contribute, in order; blocks whose name is
      empty in PHP's sense contribute nothing. */
  function Named(blocks: seq<Block>): Entries
    decreases |blocks|
  {
    if blocks == [] then []
    else
      var b := blocks[|blocks| - 1];
      Named(blocks[..|blocks| - 1]) + (if IsEmpty(b.name) then [] else [(b.name, Body(b.body))])
  }

  /** A block run from a state: its header flushes the state and opens the block, its
      content lines fill the buffer. */
  lemma {:induction false} ScanBlock(header: string -> Option<string>, st: SectionScan, b: Block)
    requires ValidBlock(header, b)
    ensures ScanFrom(header, st, [b.header] + b.body) == SectionScan(Flush(st), b.body, b.name)
  {
    var one: seq<string> := [b.header];
    assert ScanFrom(header, st, one) == SectionScan(Flush(st), [], b.name) by {
      assert one[..0] == [];
    }
    ScanFromAppend(header, st, one, b.body);
    ScanContent(header, SectionScan(Flush(st), [], b.name), b.body);
    assert [] + b.body == b.body;
  }

  lemma {:induction false} PutAllNamed(blocks: seq<Block>)
    requires blocks != []
    ensures var b := blocks[|blocks| - 1];
            var m := PutAll([], Named(blocks[..|blocks| - 1]));
            PutAll([], Named(blocks)) == if IsEmpty(b.name) then m else Put(m, b.name, Body(b.body))
  {
    var b := blocks[|blocks| - 1];
    var ps := Named(blocks);
    var init := Named(blocks[..|blocks| - 1]);
    if IsEmpty(b.name) {
      assert ps == init + [];
      assert init + [] == init;
    } else {
      assert ps == init + [(b.name, Body(b.body))];
      assert ps[..|ps| - 1] == init;
      assert ps[|ps| - 1] == (b.name, Body(b.body));
    }
  }

  /** The state of the loop after the lines of a layout: the blocks before the last are
      stored, the last one is open, and flushing it stores every block in order. */
  lemma {:induction false} ScanLayout(header: string -> Option<string>, pre: seq<string>, blocks: seq<Block>)
    requires ValidLayout(header, pre, blocks)
    ensures blocks == [] ==> ScanFrom(header, Start, LinesOf(pre, blocks)) == SectionScan([], pre, "")
    ensures blocks != [] ==>
              ScanFrom(header, Start, LinesOf(pre, blocks)) ==
              SectionScan(PutAll([], Named(blocks[..|blocks| - 1])), blocks[|blocks| - 1].body, blocks[|blocks| - 1].name)
    ensures Flush(ScanFrom(header, Start, LinesOf(pre, blocks))) == PutAll([], Named(blocks))
    decreases |blocks|
  {
    if blocks == [] {
      ScanContent(header, Start, pre);
    } else {
      var init := blocks[..|blocks| - 1];
      assert ValidLayout(header, pre, init);
      ScanLayout(header, pre, init);
      ScanLayoutStep(header, pre, blocks);
      PutAllNamed(blocks);
    }
  }

  /** The last block of a layout run after the lines before it. */
  lemma ScanLayoutStep(header: string -> Option<string>, pre: seq<string>, blocks: seq<Block>)
    requires ValidLayout(header, pre, blocks) && blocks != []
    requires Flush(ScanFrom(header, Start, LinesOf(pre, blocks[..|blocks| - 1]))) == PutAll([], Named(blocks[..|blocks| - 1]))
    ensures ScanFrom(header, Start, LinesOf(pre, blocks)) ==
              SectionScan(PutAll([], Named(blocks[..|blocks| - 1])), blocks[|blocks| - 1].body, blocks[|blocks| - 1].name)
  {
    var b := blocks[|blocks| - 1];
    var a := LinesOf(pre, blocks[..|blocks| - 1]);
    var st := ScanFrom(header, Start, a);
    assert ValidBlock(header, b);
    ScanBlock(header, st, b);
    ScanFromAppend(header, Start, a, [b.header] + b.body);
    assert LinesOf(pre, blocks) == a + ([b.header] + b.body);
  }

  /** Any decomposition of the lines into a header-free preamble and header-led blocks
      determines the sections: the preamble is dropped, and the blocks are stored one
      after the other, each under its captured name and with its trimmed body. */
  lemma SectionsOfLayout(header: string -> Option<string>, pre: seq<string>, blocks: seq<Block>)
    requires ValidLayout(header, pre, blocks)
    ensures Sections(header, LinesOf(pre, blocks)) == PutAll([], Named(blocks))
  {
    ScanLayout(header, pre, blocks);
  }

  /** Every list of lines has such a decomposition. */
  function LayoutOf(header: string -> Option<string>, ls: seq<string>): (r: (seq<string>, seq<Block>))
    ensures ValidLayout(header, r.0, r.1) && LinesOf(r.0, r.1) == ls
    decreases |ls|
  {
    if ls == [] then ([], [])
    else
      var (pre, bs) := LayoutOf(header, ls[..|ls| - 1]);
      var x := ls[|ls| - 1];
      assert ls == ls[..|ls| - 1] + [x];
      match header(x)
      case Some(name) =>
        LayoutSnocHeader(header, pre, bs, x);
        (pre, bs + [Block(x, name, [])])
      case None =>
        if bs == [] then
          assert (pre + [x])[..|pre|] == pre;
          (pre + [x], bs)
        else
          LayoutSnocContent(header, pre, bs, x);
          (pre, bs[..|bs| - 1] + [bs[|bs| - 1].(body := bs[|bs| - 1].body + [x])])
  }

  /** A header line opens a new block. */
  lemma {:induction false} LayoutSnocHeader(header: string -> Option<string>, pre: seq<string>, bs: seq<Block>, x: string)
    requires ValidLayout(header, pre, bs) && header(x).Some?
    ensures var bs' := bs + [Block(x, header(x).value, [])];
            ValidLayout(header, pre, bs') && LinesOf(pre, bs') == LinesOf(pre, bs) + [x]
  {
    var bs' := bs + [Block(x, header(x).value, [])];
    assert bs'[..|bs'| - 1] == bs;
    assert LinesOf(pre, bs') == LinesOf(pre, bs) + [x] + [];
  }

  /** A content line after a header joins the last block. */
  lemma {:induction false} LayoutSnocContent(header: string -> Option<string>, pre: seq<string>, bs: seq<Block>, x: string)
    requires ValidLayout(header, pre, bs) && bs != [] && header(x).None?
    ensures var bs' := bs[..|bs| - 1] + [bs[|bs| - 1].(body := bs[|bs| - 1].body + [x])];
            ValidLayout(header, pre, bs') && LinesOf(pre, bs') == LinesOf(pre, bs) + [x]
  {
    var last := bs[|bs| - 1];
    var init := bs[..|bs| - 1];
    var last' := last.(body := last.body + [x]);
    var bs' := init + [last'];
    assert bs'[..|bs'| - 1] == init;
    assert ValidBlock(header, last');
    assert LinesOf(pre, bs') == LinesOf(pre, init) + [last.header] + (last.body + [x]);
  }

  /** The keys of the sections are the non-empty captured names, each once, in the
      order in which they first appear; a name that appears again keeps its place and
      takes the body of its last block. */
  lemma SectionsKeysAndValues(header: string -> Option<string>, pre: seq<string>, blocks: seq<Block>, k: string)
    requires ValidLayout(header, pre, blocks)
    ensures KeysOf(Sections(header, LinesOf(pre, blocks))) == Dedup(KeysOf(Named(blocks)))
    ensures Lookup(Sections(header, LinesOf(pre, blocks)), k) == LastValue(Named(blocks), k)
    ensures DistinctKeys(Sections(header, LinesOf(pre, blocks)))
  {
    SectionsOfLayout(header, pre, blocks);
    PutAllKeys(Named(blocks));
    PutAllLookup([], Named(blocks), k);
    PutAllDistinct(Named(blocks));
  }
}
