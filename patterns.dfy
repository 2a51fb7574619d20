/** The fixed regular expressions of plugin-meta.php, each coded by hand with PCRE's
    search order: the leftmost start position first, greedy `\s*` / `\s+` trying the
    longest run first, lazy `.+?` trying the shortest capture first. */
module Patterns {
  import opened PhpStrings

  /** `t` occurs in `s` at position `i`. */
  predicate At(s: string, i: nat, t: string) {
    i + |t| <= |s| && s[i..i + |t|] == t
  }

  /** Every character of `s[i..j]` is `\s`. */
  predicate AllSpace(s: string, i: nat, j: nat)
    requires i <= j <= |s|
  {
    forall k :: i <= k < j ==> IsSpace(s[k])
  }

  /** Length of the run of `\s` characters that starts at `i`. */
  function SpaceRun(s: string, i: nat): (n: nat)
    requires i <= |s|
    ensures i + n <= |s|
    ensures AllSpace(s, i, i + n)
    ensures i + n == |s| || !IsSpace(s[i + n])
    decreases |s| - i
  {
    if i < |s| && IsSpace(s[i]) then 1 + SpaceRun(s, i + 1) else 0
  }

  /** A run of `\s` that starts at `i` is never longer than the one SpaceRun measures. */
  lemma SpaceRunCovers(s: string, i: nat, c: nat)
    requires i <= c <= |s| && AllSpace(s, i, c)
    ensures c <= i + SpaceRun(s, i)
  {
  }

  // ---------------------------------------------------------------------------
  // The title line: '@===\s*(.+?)\s*===@' (plugin-meta.php, line 121)

  /** `\s*===` matches at `e`. A run of `\s` never contains '=', so the greedy `\s*`
      can only be followed by "===" when it takes the whole run. */
  predicate TitleCloseAt(s: string, e: nat)
    requires e <= |s|
  {
    At(s, e + SpaceRun(s, e), "===")
  }

  /** The lazy `(.+?)` whose end is searched from `e` on. */
  function TitleLazyEnd(s: string, e: nat): (r: Option<nat>)
    ensures r.Some? ==> e <= r.value <= |s| && TitleCloseAt(s, r.value)
    ensures r.Some? ==> forall k :: e <= k < r.value ==> !TitleCloseAt(s, k)
    ensures r.None? ==> forall k :: e <= k <= |s| ==> !TitleCloseAt(s, k)
    decreases |s| + 1 - e
  {
    if e > |s| then None
    else if TitleCloseAt(s, e) then Some(e)
    else TitleLazyEnd(s, e + 1)
  }

  /** After the opening "===" that ends at `open`, the greedy `\s*` tries `w`, `w - 1`, ..., 0 characters. */
  function TitleTry(s: string, open: nat, w: nat): Option<string>
    requires open + w <= |s|
    decreases w
  {
    match TitleLazyEnd(s, open + w + 1)
    case Some(e) => Some(s[open + w..e])
    case None => if w == 0 then None else TitleTry(s, open, w - 1)
  }

  /** The match attempt at start position `i`, then at the positions after it. */
  function TitleFrom(s: string, i: nat): Option<string>
    decreases |s| - i
  {
    if i + 3 > |s| then None
    else if At(s, i, "===") && TitleTry(s, i + 3, SpaceRun(s, i + 3)).Some? then
      TitleTry(s, i + 3, SpaceRun(s, i + 3))
    else TitleFrom(s, i + 1)
  }

  /** preg_match('@===\s*(.+?)\s*===@', $line): the captured title, if the line matches. */
  function MatchTitle(line: string): Option<string>
    requires '\n' !in line
  {
    TitleFrom(line, 0)
  }

  /** The pattern matches `s` from `i`, with the capture `s[c..e]`. */
  ghost predicate TitleMatch(s: string, i: nat, c: nat, e: nat) {
    i + 3 <= c < e <= |s| && At(s, i, "===") && AllSpace(s, i + 3, c) && TitleCloseAt(s, e)
  }

  /** Among the matches that start at `i`, PCRE reports the one whose greedy `\s*` is
      longest and, for that, whose lazy capture is shortest: `(c, e)` is that one. */
  ghost predicate TitlePreferred(s: string, i: nat, c: nat, e: nat) {
    forall c': nat, e': nat :: TitleMatch(s, i, c', e') ==> c' <= c && (c' == c ==> e <= e')
  }

  /** The line holds two "===" markers that do not overlap and leave at least one character between them. */
  ghost predicate HasTitle(s: string) {
    exists i: nat, q: nat :: i + 4 <= q && At(s, i, "===") && At(s, q, "===")
  }

  lemma {:induction false} TitleLazyEndSome(s: string, e: nat)
    ensures TitleLazyEnd(s, e).Some? <==> exists q: nat :: e <= q && At(s, q, "===")
  {
    var r := TitleLazyEnd(s, e);
    if r.Some? {
      var q := r.value + SpaceRun(s, r.value);
      assert e <= q && At(s, q, "===");
    }
    forall q: nat | e <= q && At(s, q, "===") ensures r.Some? {
      MarkerCloses(s, q);
    }
  }

  /** A "===" marker closes the title by itself: `\s*` matches nothing before it. */
  lemma MarkerCloses(s: string, q: nat)
    requires At(s, q, "===")
    ensures TitleCloseAt(s, q)
  {
    assert s[q] == s[q..q + 3][0] == '=';
    assert SpaceRun(s, q) == 0;
  }

  /** Backtracking the greedy `\s*` succeeds at some width exactly when it succeeds at width 0. */
  lemma {:induction false} TitleTrySome(s: string, open: nat, w: nat)
    requires open + w <= |s|
    ensures TitleTry(s, open, w).Some? <==> TitleLazyEnd(s, open + 1).Some?
    decreases w
  {
    if w > 0 {
      TitleTrySome(s, open, w - 1);
      if TitleLazyEnd(s, open + w + 1).Some? {
        var e := TitleLazyEnd(s, open + w + 1).value;
        assert TitleCloseAt(s, e);
      }
    }
  }

  /** The match attempt at `i` succeeds exactly when another "===" starts at least four characters later. */
  lemma TitleAtSome(s: string, i: nat)
    requires At(s, i, "===")
    ensures TitleTry(s, i + 3, SpaceRun(s, i + 3)).Some? <==> exists q: nat :: i + 4 <= q && At(s, q, "===")
  {
    TitleTrySome(s, i + 3, SpaceRun(s, i + 3));
    TitleLazyEndSome(s, i + 4);
  }

  lemma {:induction false} TitleFromSome(s: string, i: nat)
    ensures TitleFrom(s, i).Some? <==> exists j: nat, q: nat :: i <= j && j + 4 <= q && At(s, j, "===") && At(s, q, "===")
    decreases |s| - i
  {
    if i + 3 <= |s| {
      TitleFromSome(s, i + 1);
      if At(s, i, "===") {
        TitleAtSome(s, i);
      }
      if exists j: nat, q: nat :: i <= j && j + 4 <= q && At(s, j, "===") && At(s, q, "===") {
        var j: nat, q: nat :| i <= j && j + 4 <= q && At(s, j, "===") && At(s, q, "===");
        if j == i {
          TitleAtSome(s, i);
        }
      }
    }
  }

  /** Returns the title exactly when the line holds two non-overlapping "===" markers with
      something between them; the title is then the lazy capture after the FIRST "===" of
      the line, separated from both markers by `\s` only, and the one PCRE prefers among
      the captures there, which pins it down. */
  lemma {:induction false} MatchTitleSpec(line: string)
    requires '\n' !in line
    ensures MatchTitle(line).Some? <==> HasTitle(line)
    ensures MatchTitle(line).Some? ==>
              exists i: nat, c: nat, e: nat :: TitleMatch(line, i, c, e) && MatchTitle(line).value == line[c..e] &&
                                (forall j: nat :: j < i ==> !At(line, j, "===")) && TitlePreferred(line, i, c, e)
  {
    TitleFromSome(line, 0);
    if MatchTitle(line).Some? {
      TitleFound(line, 0);
    }
  }

  lemma {:induction false} TitleFound(s: string, i: nat)
    requires TitleFrom(s, i).Some?
    requires forall j: nat :: j < i ==> !At(s, j, "===")
    ensures exists j: nat, c: nat, e: nat :: TitleMatch(s, j, c, e) && TitleFrom(s, i).value == s[c..e] &&
                             (forall k: nat :: k < j ==> !At(s, k, "===")) && TitlePreferred(s, j, c, e)
    decreases |s| - i
  {
    if At(s, i, "===") && TitleTry(s, i + 3, SpaceRun(s, i + 3)).Some? {
      var c, e := TitleTryFound(s, i + 3, SpaceRun(s, i + 3));
      assert TitleMatch(s, i, c, e);
      TitleTieBreak(s, i, c, e);
    } else {
      if At(s, i, "===") {
        // a later match would also have served this start position
        TitleAtSome(s, i);
        TitleFromSome(s, i + 1);
        assert false;
      }
      TitleFound(s, i + 1);
    }
  }

  /** The capture the backtracking search finds first is the one PCRE prefers. */
  lemma TitleTieBreak(s: string, i: nat, c: nat, e: nat)
    requires TitleMatch(s, i, c, e) && i + 3 + SpaceRun(s, i + 3) <= |s|
    requires c < i + 3 + SpaceRun(s, i + 3) ==> forall k :: c + 1 < k <= |s| ==> !TitleCloseAt(s, k)
    requires forall k :: c < k < e ==> !TitleCloseAt(s, k)
    ensures TitlePreferred(s, i, c, e)
  {
    forall c': nat, e': nat | TitleMatch(s, i, c', e') ensures c' <= c && (c' == c ==> e <= e') {
      SpaceRunCovers(s, i + 3, c');
    }
  }

  lemma {:induction false} TitleTryFound(s: string, open: nat, w: nat) returns (c: nat, e: nat)
    requires open + w <= |s|
    requires AllSpace(s, open, open + w)
    requires TitleTry(s, open, w).Some?
    ensures open <= c < e <= |s| && AllSpace(s, open, c) && TitleCloseAt(s, e)
    ensures TitleTry(s, open, w).value == s[c..e]
    ensures c < open + w ==> forall k :: c + 1 < k <= |s| ==> !TitleCloseAt(s, k)
    ensures forall k :: c < k < e ==> !TitleCloseAt(s, k)
    decreases w
  {
    match TitleLazyEnd(s, open + w + 1)
    case Some(end) =>
      c, e := open + w, end;
    case None =>
      c, e := TitleTryFound(s, open, w - 1);
  }

  // ---------------------------------------------------------------------------
  // Section headers: '@^\s*==\s+(.+?)\s+==\s*$@m' (plugin-meta.php, line 169)

  /** `\s+==\s*$` matches the rest of `s` from `e`. */
  predicate SectionCloseAt(s: string, e: nat)
    requires e <= |s|
  {
    var k := SpaceRun(s, e);
    k >= 1 && At(s, e + k, "==") && e + k + 2 + SpaceRun(s, e + k + 2) == |s|
  }

  /** `^\s*==\s+` matches `s[..c]`. The leading `\s*` must take the whole leading run,
      as '=' is not `\s`. */
  predicate SectionOpenTo(s: string, c: nat) {
    var lead := SpaceRun(s, 0);
    At(s, lead, "==") && lead + 2 < c <= |s| && AllSpace(s, lead + 2, c)
  }

  function SectionLazyEnd(s: string, e: nat): (r: Option<nat>)
    ensures r.Some? ==> e <= r.value <= |s| && SectionCloseAt(s, r.value)
    ensures r.Some? ==> forall k :: e <= k < r.value ==> !SectionCloseAt(s, k)
    ensures r.None? ==> forall k :: e <= k <= |s| ==> !SectionCloseAt(s, k)
    decreases |s| + 1 - e
  {
    if e > |s| then None
    else if SectionCloseAt(s, e) then Some(e)
    else SectionLazyEnd(s, e + 1)
  }

  /** The greedy `\s+` after "==" tries `w`, `w - 1`, ..., 1 characters. */
  function SectionTry(s: string, open: nat, w: nat): Option<string>
    requires 1 <= w && open + w <= |s|
    decreases w
  {
    match SectionLazyEnd(s, open + w + 1)
    case Some(e) => Some(s[open + w..e])
    case None => if w == 1 then None else SectionTry(s, open, w - 1)
  }

  /** preg_match('@^\s*==\s+(.+?)\s+==\s*$@m', $line): the section name, if the line is a section header. */
  function MatchSectionHeader(line: string): Option<string>
    requires '\n' !in line
  {
    var lead := SpaceRun(line, 0);
    if !At(line, lead, "==") then None
    else
      var w := SpaceRun(line, lead + 2);
      if w == 0 then None else SectionTry(line, lead + 2, w)
  }

  /** The line has the shape `\s*==\s+X\s+==\s*` for some non-empty `X`. */
  ghost predicate IsSectionShaped(s: string) {
    exists c: nat, e: nat :: c < e <= |s| && SectionOpenTo(s, c) && SectionCloseAt(s, e)
  }

  /** Of the section-header matches of a line, PCRE reports the one whose greedy `\s+`
      after "==" is longest and, for that, whose lazy capture is shortest. */
  ghost predicate SectionPreferred(s: string, c: nat, e: nat) {
    forall c': nat, e': nat :: c' < e' <= |s| && SectionOpenTo(s, c') && SectionCloseAt(s, e') ==>
      c' <= c && (c' == c ==> e <= e')
  }

  lemma {:induction false} SectionTrySome(s: string, open: nat, w: nat)
    requires 1 <= w && open + w <= |s|
    ensures SectionTry(s, open, w).Some? <==> SectionLazyEnd(s, open + 2).Some?
    decreases w
  {
    if w > 1 {
      SectionTrySome(s, open, w - 1);
    }
  }

  lemma {:induction false} SectionTryFound(s: string, open: nat, w: nat) returns (c: nat, e: nat)
    requires 1 <= w && open + w <= |s|
    requires AllSpace(s, open, open + w)
    requires SectionTry(s, open, w).Some?
    ensures open < c < e <= |s| && AllSpace(s, open, c) && SectionCloseAt(s, e)
    ensures SectionTry(s, open, w).value == s[c..e]
    ensures c < open + w ==> forall k :: c + 1 < k <= |s| ==> !SectionCloseAt(s, k)
    ensures forall k :: c < k < e ==> !SectionCloseAt(s, k)
    decreases w
  {
    match SectionLazyEnd(s, open + w + 1)
    case Some(end) =>
      c, e := open + w, end;
    case None =>
      c, e := SectionTryFound(s, open, w - 1);
  }

  /** A line is a section header exactly when it has the shape `\s*==\s+X\s+==\s*`,
      and the captured name is then such an `X`. */
  lemma MatchSectionHeaderSpec(line: string)
    requires '\n' !in line
    ensures MatchSectionHeader(line).Some? <==> IsSectionShaped(line)
    ensures MatchSectionHeader(line).Some? ==>
              exists c: nat, e: nat :: c < e <= |line| && SectionOpenTo(line, c) && SectionCloseAt(line, e) &&
                                      MatchSectionHeader(line).value == line[c..e] && SectionPreferred(line, c, e)
  {
    if MatchSectionHeader(line).Some? {
      var c, e := SectionHeaderSound(line);
    }
    if IsSectionShaped(line) {
      SectionHeaderComplete(line);
    }
  }

  lemma SectionHeaderSound(line: string) returns (c: nat, e: nat)
    requires '\n' !in line
    requires MatchSectionHeader(line).Some?
    ensures c < e <= |line| && SectionOpenTo(line, c) && SectionCloseAt(line, e)
    ensures MatchSectionHeader(line).value == line[c..e]
    ensures SectionPreferred(line, c, e)
  {
    var lead := SpaceRun(line, 0);
    var w := SpaceRun(line, lead + 2);
    c, e := SectionTryFound(line, lead + 2, w);
    forall c': nat, e': nat | c' < e' <= |line| && SectionOpenTo(line, c') && SectionCloseAt(line, e')
      ensures c' <= c && (c' == c ==> e <= e')
    {
      SpaceRunCovers(line, lead + 2, c');
    }
  }

  lemma SectionHeaderComplete(line: string)
    requires '\n' !in line
    requires IsSectionShaped(line)
    ensures MatchSectionHeader(line).Some?
  {
    var c: nat, e: nat :| c < e <= |line| && SectionOpenTo(line, c) && SectionCloseAt(line, e);
    var lead := SpaceRun(line, 0);
    assert IsSpace(line[lead + 2]);
    var w := SpaceRun(line, lead + 2);
    SectionTrySome(line, lead + 2, w);
    assert SectionLazyEnd(line, lead + 4).Some? by {
      assert lead + 4 <= e;
    }
  }

  // ---------------------------------------------------------------------------
  // Header fields: '/' . preg_quote($fieldLabel, '/') . ':(.*)$/mi' (plugin-meta.php, line 395)

  /** `fieldLabel:` occurs at `i`, its letters compared without regard to ASCII case (PCRE /i). */
  predicate LabelAt(s: string, fieldLabel: string, i: nat) {
    i + |fieldLabel| < |s| && ToLower(s[i..i + |fieldLabel|]) == ToLower(fieldLabel) && s[i + |fieldLabel|] == ':'
  }

  /** The leftmost occurrence of `fieldLabel:` at or after `i`. */
  function FindLabel(s: string, fieldLabel: string, i: nat): (r: Option<nat>)
    ensures r.Some? ==> i <= r.value && LabelAt(s, fieldLabel, r.value)
    ensures r.Some? ==> forall k :: i <= k < r.value ==> !LabelAt(s, fieldLabel, k)
    ensures r.None? ==> forall k :: i <= k ==> !LabelAt(s, fieldLabel, k)
    decreases |s| - i
  {
    if i + |fieldLabel| >= |s| then None
    else if LabelAt(s, fieldLabel, i) then Some(i)
    else FindLabel(s, fieldLabel, i + 1)
  }

  /** `(.*)$` under /m: the text from `j` up to the next newline or the end. */
  function LineRest(s: string, j: nat): (r: string)
    requires j <= |s|
    ensures '\n' !in r
    ensures j + |r| <= |s| && r == s[j..j + |r|]
    ensures j + |r| == |s| || s[j + |r|] == '\n'
    decreases |s| - j
  {
    if j == |s| || s[j] == '\n' then [] else [s[j]] + LineRest(s, j + 1)
  }

  // ---------------------------------------------------------------------------
  // Comment closers: "/\s*(?:\*\/|\?>).*/" (plugin-meta.php, line 418)

  // A comment closer "*/" or a PHP closing tag "?>" starts at `j`.
  predicate CloserAt(s: string, j: nat) {
    At(s, j, "*/") || At(s, j, "?>")
  }

  /** No closer occurs anywhere in `s`. */
  predicate NoCloser(s: string) {
    FirstCloser(s, 0).None?
  }

  lemma {:induction false} NoCloserSpec(s: string)
    ensures NoCloser(s) <==> forall j: nat :: !CloserAt(s, j)
  {
  }

  /** The first closer at or after `j`. */
  function FirstCloser(s: string, j: nat): (r: Option<nat>)
    ensures r.Some? ==> j <= r.value < |s| && CloserAt(s, r.value)
    ensures r.Some? ==> forall k :: j <= k < r.value ==> !CloserAt(s, k)
    ensures r.None? ==> forall k :: j <= k ==> !CloserAt(s, k)
    decreases |s| - j
  {
    if j + 2 > |s| then None
    else if CloserAt(s, j) then Some(j)
    else FirstCloser(s, j + 1)
  }

  lemma CloserInPrefix(s: string, n: nat)
    requires n <= |s|
    requires forall k: nat :: k < n ==> !CloserAt(s, k)
    ensures NoCloser(s[..n])
  {
    var f := FirstCloser(s[..n], 0);
    if f.Some? {
      var k := f.value;
      assert s[..n][k..k + 2] == s[k..k + 2];
      assert CloserAt(s, k);
      assert false;
    }
  }

  /** The start of the run of `\s` that ends at `j`. */
  function SpaceStart(s: string, j: nat): (i: nat)
    requires j <= |s|
    ensures i <= j && AllSpace(s, i, j)
    ensures i == 0 || !IsSpace(s[i - 1])
    decreases j
  {
    if j > 0 && IsSpace(s[j - 1]) then SpaceStart(s, j - 1) else j
  }

  // Where preg_replace("/\s*(?:\*\/|\?>).*/", '', $s) cuts a single line: at the
  // `\s` run before its first closer, or nowhere.
  function CloserCut(s: string): (n: nat)
    ensures n <= |s|
    ensures NoCloser(s[..n])
    ensures FirstCloser(s, 0).None? ==> n == |s|
    ensures FirstCloser(s, 0).Some? ==>
              n <= FirstCloser(s, 0).value && AllSpace(s, n, FirstCloser(s, 0).value) && (n == 0 || !IsSpace(s[n - 1]))
  {
    match FirstCloser(s, 0)
    case None => assert s[..|s|] == s; |s|
    case Some(j) =>
      var n := SpaceStart(s, j);
      CloserInPrefix(s, n);
      n
  }

  /** The cut falls at the start of the whole `\s` run before the first closer: any
      position that ends a non-space character (or is 0) and is followed by spaces only
      up to the first closer is that cut. */
  lemma CloserCutIs(s: string, j: nat, n: nat)
    requires j < |s| && CloserAt(s, j) && forall k: nat :: k < j ==> !CloserAt(s, k)
    requires n <= j && AllSpace(s, n, j) && (n == 0 || !IsSpace(s[n - 1]))
    ensures CloserCut(s) == n
  {
  }
}
