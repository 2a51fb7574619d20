/** The PHP string primitives the plugin metadata extractor relies on.
    PHP strings are byte strings: every `char` of a Dafny `string` here stands for one
    byte, so its code is below 256. Case conversion is PHP's ASCII-only strtolower. */
module PhpStrings {

  datatype Option<+T> = None | Some(value: T)

  /** PHP's empty() applied to a string: both "" and "0" are empty. */
  predicate IsEmpty(s: string) {
    s == "" || s == "0"
  }

  /** The characters PHP's trim() strips when it is given no character list. */
  const DefaultTrim: set<char> := {' ', '\t', '\n', '\r', '\0', '\U{B}'}

  /** `\s` of PCRE without the UTF flag: space, tab, LF, VT, FF and CR. */
  predicate IsSpace(c: char) {
    c == ' ' || c == '\t' || c == '\n' || c == '\U{B}' || c == '\U{C}' || c == '\r'
  }

  /** Number of leading characters of `s` that belong to `cs`. */
  function TrimOffset(s: string, cs: set<char>): (n: nat)
    ensures n <= |s|
    decreases |s|
  {
    if s != [] && s[0] in cs then 1 + TrimOffset(s[1..], cs) else 0
  }

  /** Number of trailing characters of `s` that belong to `cs`. */
  function TrailLength(s: string, cs: set<char>): (n: nat)
    ensures n <= |s|
    decreases |s|
  {
    if s != [] && s[|s| - 1] in cs then 1 + TrailLength(s[..|s| - 1], cs) else 0
  }

  /** ltrim($s, $cs) */
  function TrimLeft(s: string, cs: set<char>): string {
    s[TrimOffset(s, cs)..]
  }

  /** rtrim($s, $cs) */
  function TrimRight(s: string, cs: set<char>): string {
    s[..|s| - TrailLength(s, cs)]
  }

  /** trim($s, $cs) */
  function Trim(s: string, cs: set<char>): (r: string)
    ensures |r| <= |s|
  {
    TrimRight(TrimLeft(s, cs), cs)
  }

  lemma {:induction false} TrimOffsetSpec(s: string, cs: set<char>)
    ensures forall i :: 0 <= i < TrimOffset(s, cs) ==> s[i] in cs
    ensures TrimOffset(s, cs) == |s| || s[TrimOffset(s, cs)] !in cs
    decreases |s|
  {
    if s != [] && s[0] in cs {
      TrimOffsetSpec(s[1..], cs);
    }
  }

  lemma {:induction false} TrailLengthSpec(s: string, cs: set<char>)
    ensures forall i :: |s| - TrailLength(s, cs) <= i < |s| ==> s[i] in cs
    ensures TrailLength(s, cs) == |s| || s[|s| - TrailLength(s, cs) - 1] !in cs
    decreases |s|
  {
    if s != [] && s[|s| - 1] in cs {
      TrailLengthSpec(s[..|s| - 1], cs);
    }
  }

  /** What trim() leaves is a slice of `s` starting at `TrimOffset(s, cs)`; everything
      cut off on either side belongs to `cs`, and the ends of what is left do not. */
  lemma TrimSpec(s: string, cs: set<char>)
    ensures TrimOffset(s, cs) + |Trim(s, cs)| <= |s|
    ensures Trim(s, cs) == s[TrimOffset(s, cs)..TrimOffset(s, cs) + |Trim(s, cs)|]
    ensures forall i :: 0 <= i < TrimOffset(s, cs) ==> s[i] in cs
    ensures forall i :: TrimOffset(s, cs) + |Trim(s, cs)| <= i < |s| ==> s[i] in cs
    ensures Trim(s, cs) == [] || (Trim(s, cs)[0] !in cs && Trim(s, cs)[|Trim(s, cs)| - 1] !in cs)
  {
    var o := TrimOffset(s, cs);
    var l := TrimLeft(s, cs);
    var r := TrimRight(l, cs);
    TrimOffsetSpec(s, cs);
    TrimRightSpec(l, cs);
    assert r == s[o..o + |r|];
    if r != [] {
      assert r[0] == l[0];
    }
    forall i | o + |r| <= i < |s| ensures s[i] in cs {
      assert s[i] == l[i - o];
    }
  }

  /** What rtrim() leaves is a prefix of `s`; everything cut off belongs to `cs`, and
      the last character left does not. */
  lemma TrimRightSpec(s: string, cs: set<char>)
    ensures TrimRight(s, cs) == s[..|TrimRight(s, cs)|]
    ensures forall i :: |TrimRight(s, cs)| <= i < |s| ==> s[i] in cs
    ensures TrimRight(s, cs) == [] || TrimRight(s, cs)[|TrimRight(s, cs)| - 1] !in cs
  {
    TrailLengthSpec(s, cs);
  }

  /** Neither end of `s` belongs to `cs`. */
  predicate Trimmed(s: string, cs: set<char>) {
    s == [] || (s[0] !in cs && s[|s| - 1] !in cs)
  }

  /** Trimming a text none of whose ends belongs to `cs` leaves it as it is. */
  lemma TrimNoop(s: string, cs: set<char>)
    requires Trimmed(s, cs)
    ensures Trim(s, cs) == s
  {
  }

  /** Number of occurrences of `c` in `s` (substr_count for one character). */
  function Count(s: string, c: char): nat {
    if s == [] then 0 else (if s[0] == c then 1 else 0) + Count(s[1..], c)
  }

  /** explode($sep, $s) */
  function Explode(s: string, sep: char): (parts: seq<string>)
    ensures |parts| == Count(s, sep) + 1
    ensures forall i :: 0 <= i < |parts| ==> sep !in parts[i]
    decreases |s|
  {
    if s == [] then [[]]
    else
      var rest := Explode(s[1..], sep);
      if s[0] == sep then [[]] + rest
      else [[s[0]] + rest[0]] + rest[1..]
  }

  /** implode($sep, $parts) */
  function Join(parts: seq<string>, sep: char): string
    decreases |parts|
  {
    if parts == [] then []
    else if |parts| == 1 then parts[0]
    else parts[0] + [sep] + Join(parts[1..], sep)
  }

  /** Joining the pieces of explode() with the same separator gives the text back. */
  lemma {:induction false} JoinExplode(s: string, sep: char)
    ensures Join(Explode(s, sep), sep) == s
    decreases |s|
  {
    if s != [] {
      JoinExplode(s[1..], sep);
      var rest := Explode(s[1..], sep);
      if s[0] == sep {
        assert Explode(s, sep) == [[]] + rest;
        assert s == [sep] + s[1..];
      } else {
        var parts := Explode(s, sep);
        assert parts == [[s[0]] + rest[0]] + rest[1..];
        if |rest| == 1 {
          assert Join(parts, sep) == [s[0]] + rest[0];
        } else {
          assert parts[1..] == rest[1..];
          assert Join(rest, sep) == rest[0] + [sep] + Join(rest[1..], sep);
          assert Join(parts, sep) == ([s[0]] + rest[0]) + [sep] + Join(rest[1..], sep);
        }
      }
    }
  }

  /** explode() of a text that has no separator in front of `t` glues that text to the first piece of `t`. */
  lemma {:induction false} ExplodePrefix(p: string, t: string, sep: char)
    requires sep !in p
    ensures Explode(p + t, sep) == [p + Explode(t, sep)[0]] + Explode(t, sep)[1..]
    decreases |p|
  {
    if p != [] {
      ExplodePrefix(p[1..], t, sep);
      assert (p + t)[1..] == p[1..] + t;
      assert (p + t)[0] == p[0] && p[0] != sep;
      var rest := Explode(p[1..] + t, sep);
      assert rest == [p[1..] + Explode(t, sep)[0]] + Explode(t, sep)[1..];
      assert Explode(p + t, sep) == [[p[0]] + rest[0]] + rest[1..];
      assert rest[1..] == Explode(t, sep)[1..];
      assert [p[0]] + (p[1..] + Explode(t, sep)[0]) == p + Explode(t, sep)[0];
    } else {
      var e := Explode(t, sep);
      assert p + t == t && p + e[0] == e[0];
      assert e == [e[0]] + e[1..];
    }
  }

  /** explode() recovers the pieces that implode() joined, when no piece holds the separator. */
  lemma {:induction false} ExplodeJoin(parts: seq<string>, sep: char)
    requires |parts| >= 1
    requires forall i :: 0 <= i < |parts| ==> sep !in parts[i]
    ensures Explode(Join(parts, sep), sep) == parts
    decreases |parts|
  {
    if |parts| == 1 {
      ExplodePrefix(parts[0], [], sep);
      assert parts[0] + [] == parts[0];
    } else {
      var tail := Join(parts[1..], sep);
      ExplodeJoin(parts[1..], sep);
      ExplodePrefix(parts[0], [sep] + tail, sep);
      assert Join(parts, sep) == parts[0] + ([sep] + tail);
      var e := Explode([sep] + tail, sep);
      assert e == [[]] + Explode(tail, sep) by {
        assert ([sep] + tail)[1..] == tail;
      }
      assert e[0] == [] && e[1..] == parts[1..];
      assert parts[0] + e[0] == parts[0];
      assert parts == [parts[0]] + parts[1..];
    }
  }

  /** The first piece of explode() is the text before the first separator. */
  lemma {:induction false} ExplodeFirst(s: string, sep: char)
    ensures Explode(s, sep)[0] == SplitOnce(s, sep).0
    decreases |s|
  {
    if s != [] {
      ExplodeFirst(s[1..], sep);
    }
  }

  /** explode($c, $s, 2): the text before the first `c`, and the text after it when there is one. */
  function SplitOnce(s: string, c: char): (r: (string, Option<string>))
    ensures c !in r.0
    ensures r.1.None? <==> c !in s
    ensures r.1.None? ==> r.0 == s
    ensures r.1.Some? ==> s == r.0 + [c] + r.1.value
    decreases |s|
  {
    if s == [] then ([], None)
    else if s[0] == c then ([], Some(s[1..]))
    else
      var t := SplitOnce(s[1..], c);
      ([s[0]] + t.0, t.1)
  }

  /** strtolower() on one byte. */
  function LowerChar(c: char): char {
    if 'A' <= c <= 'Z' then (c as int + 32) as char else c
  }

  /** strtolower() */
  function ToLower(s: string): (r: string)
    ensures |r| == |s|
    decreases |s|
  {
    if s == [] then [] else [LowerChar(s[0])] + ToLower(s[1..])
  }

  lemma {:induction false} ToLowerIndex(s: string, i: nat)
    requires i < |s|
    ensures ToLower(s)[i] == LowerChar(s[i])
    decreases i
  {
    if i > 0 {
      ToLowerIndex(s[1..], i - 1);
    }
  }

  /** strtolower($s) == $t, compared character by character. */
  predicate LowerIs(s: string, t: string) {
    |s| == |t| && forall i :: 0 <= i < |s| ==> LowerChar(s[i]) == t[i]
  }

  lemma LowerIsSpec(s: string, t: string)
    ensures LowerIs(s, t) <==> ToLower(s) == t
  {
    if LowerIs(s, t) {
      forall i | 0 <= i < |s| ensures ToLower(s)[i] == t[i] {
        ToLowerIndex(s, i);
      }
    }
    if ToLower(s) == t {
      forall i | 0 <= i < |s| ensures LowerChar(s[i]) == t[i] {
        ToLowerIndex(s, i);
      }
    }
  }

  lemma {:induction false} CountAbsent(s: string, c: char)
    requires c !in s
    ensures Count(s, c) == 0
    decreases |s|
  {
    if s != [] {
      CountAbsent(s[1..], c);
    }
  }

  /** str_replace($from, $to, $s) for single characters. */
  function ReplaceChar(s: string, from: char, to: char): string {
    seq(|s|, i requires 0 <= i < |s| => if s[i] == from then to else s[i])
  }

  /** The text after the last `c`, or all of `s` when it has none (end(explode($c, $s))). */
  function AfterLast(s: string, c: char): (r: string)
    ensures c !in r
    ensures |r| <= |s| && r == s[|s| - |r|..]
    ensures |r| < |s| ==> s[|s| - |r| - 1] == c
    decreases |s|
  {
    if s == [] then []
    else if s[|s| - 1] == c then []
    else
      var r := AfterLast(s[..|s| - 1], c);
      assert s[|s| - |r| - 1..] == s[..|s| - 1][|s| - 1 - |r|..] + [s[|s| - 1]];
      r + [s[|s| - 1]]
  }

  /** The text after the last `c` is the suffix of length `n` when that suffix holds no
      `c` and is preceded by one (or is all of `s`). */
  lemma AfterLastIs(s: string, c: char, n: nat)
    requires n <= |s| && c !in s[|s| - n..]
    requires n < |s| ==> s[|s| - n - 1] == c
    ensures AfterLast(s, c) == s[|s| - n..]
  {
  }

  /** A path without trailing slashes keeps its last character under rtrim. */
  lemma TrimRightNoTrail(s: string, cs: set<char>)
    requires s != [] && s[|s| - 1] !in cs
    ensures TrimRight(s, cs) == s
  {
  }

  /** rtrim removes the one trailing slash of `d + "/"` when `d` has none. */
  lemma TrimRightOneSlash(d: string)
    requires d != [] && d[|d| - 1] != '/'
    ensures TrimRight(d + "/", {'/'}) == d
  {
    var b := d + "/";
    assert b[..|b| - 1] == d;
    assert TrailLength(d, {'/'}) == 0;
  }

  /** The directory part of `dir/file` for a single-component directory and file. */
  lemma DirnameOfPair(dir: string, file: string)
    requires dir != [] && file != [] && '/' !in dir && '/' !in file
    ensures Dirname(dir + "/" + file) == dir
  {
    var p := dir + "/" + file;
    TrimRightNoTrail(p, {'/'});
    assert p[|p| - |file|..] == file;
    AfterLastIs(p, '/', |file|);
    assert p[..|p| - |file|] == dir + "/";
    TrimRightOneSlash(dir);
  }

  /** basename of a single component is that component. */
  lemma BasenameOfComponent(s: string)
    requires s != [] && '/' !in s
    ensures Basename(s) == s
  {
    TrimRightNoTrail(s, {'/'});
    AfterLastIs(s, '/', |s|);
  }

  /** basename($p): the last component once trailing slashes are removed. */
  function Basename(p: string): string {
    AfterLast(TrimRight(p, {'/'}), '/')
  }

  /** dirname($p), following PHP's own algorithm: strip trailing slashes, then the last
      component, then the slashes before it; "." when no slash is left, "/" for the root. */
  function Dirname(p: string): string {
    if p == [] then []
    else
      var a := TrimRight(p, {'/'});
      if a == [] then "/"
      else
        var b := a[..|a| - |AfterLast(a, '/')|];
        if b == [] then "."
        else
          var d := TrimRight(b, {'/'});
          if d == [] then "/" else d
  }
}
