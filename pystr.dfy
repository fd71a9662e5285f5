/**
 * The parts of Python's `str` that the server relies on: `strip`, `split`
 * and `join`, with Python's own notion of whitespace.
 */
module PyStr {

  /** The characters for which Python's `str.isspace()` holds; `str.strip()` with no argument removes these. */
  predicate IsSpace(c: char) {
    || c == ' '
    || '\t' <= c <= '\r'                  // \t \n \v \f \r
    || '\U{1C}' <= c <= '\U{1F}'          // file, group, record and unit separators
    || c == '\U{85}' || c == '\U{A0}' || c == '\U{1680}'
    || '\U{2000}' <= c <= '\U{200A}'
    || c == '\U{2028}' || c == '\U{2029}' || c == '\U{202F}' || c == '\U{205F}' || c == '\U{3000}'
  }

  /** True when every character is whitespace, i.e. `s.strip()` is falsy. */
  predicate IsBlank(s: string) {
    forall i :: 0 <= i < |s| ==> IsSpace(s[i])
  }

  /** `s.lstrip(chars)`: the suffix left after dropping leading characters that satisfy `chars`. */
  function LStrip(s: string, chars: char -> bool): (r: string)
    ensures |r| <= |s| && r == s[|s| - |r|..]
    ensures r == [] || !chars(r[0])
    ensures forall i :: 0 <= i < |s| - |r| ==> chars(s[i])
    decreases |s|
  {
    if s != [] && chars(s[0]) then
      var r := LStrip(s[1..], chars);
      assert s[1..][|s| - 1 - |r|..] == s[|s| - |r|..];
      assert forall i :: 1 <= i < |s| - |r| ==> s[1..][i - 1] == s[i];
      r
    else s
  }

  /** `s.rstrip(chars)`: the prefix left after dropping trailing characters that satisfy `chars`. */
  function RStrip(s: string, chars: char -> bool): (r: string)
    ensures |r| <= |s| && r == s[..|r|]
    ensures r == [] || !chars(r[|r| - 1])
    ensures forall i :: |r| <= i < |s| ==> chars(s[i])
    decreases |s|
  {
    if s != [] && chars(s[|s| - 1]) then
      var r := RStrip(s[..|s| - 1], chars);
      assert s[..|s| - 1][..|r|] == s[..|r|];
      assert forall i :: |r| <= i < |s| - 1 ==> s[..|s| - 1][i] == s[i];
      r
    else s
  }

  /** `s.strip(chars)`: characters that satisfy `chars` removed from both ends. */
  function Strip(s: string, chars: char -> bool): (r: string)
    ensures |r| <= |s|
    ensures r != [] ==> !chars(r[0]) && !chars(r[|r| - 1])
    ensures r == [] <==> forall i :: 0 <= i < |s| ==> chars(s[i])
    ensures exists i, j :: StrippedAt(s, chars, i, j) && r == s[i..j]
  {
    var left := LStrip(s, chars);
    var r := RStrip(left, chars);
    assert r != [] ==> r[0] == left[0];
    assert r == [] ==> left == [];
    var i := |s| - |left|;
    assert r == s[i..i + |r|];
    assert StrippedAt(s, chars, i, i + |r|);
    r
  }

  /** `s[i..j]` is what is left of `s` once the characters outside it, all satisfying `chars`, are removed. */
  predicate StrippedAt(s: string, chars: char -> bool, i: int, j: int) {
    && 0 <= i <= j <= |s|
    && (forall k :: 0 <= k < i ==> chars(s[k]))
    && (forall k :: j <= k < |s| ==> chars(s[k]))
  }

  /** Left-stripping removes exactly the leading run of stripped characters. */
  lemma LStripExact(s: string, chars: char -> bool, i: nat)
    requires i <= |s| && (forall k :: 0 <= k < i ==> chars(s[k])) && (i < |s| ==> !chars(s[i]))
    ensures LStrip(s, chars) == s[i..]
  {
    var r := LStrip(s, chars);
    var m := |s| - |r|;
    assert r != [] ==> r[0] == s[m];
  }

  /** Right-stripping what follows a stripped run removes exactly the trailing run of stripped characters. */
  lemma RStripExact(s: string, chars: char -> bool, i: nat, j: nat)
    requires StrippedAt(s, chars, i, j) && i < j && !chars(s[j - 1])
    ensures RStrip(s[i..], chars) == s[i..j]
  {
    var left := s[i..];
    var r := RStrip(left, chars);
    var m := |r|;
    assert r != [] ==> r[m - 1] == s[i + m - 1];
    assert left[j - i - 1] == s[j - 1];
    assert m == j - i;
  }

  /**
   * Stripping keeps exactly the middle part whose two ends are kept
   * characters: any split of `s` into a stripped run, such a middle, and a
   * stripped run gives that middle.
   */
  lemma StripExact(s: string, chars: char -> bool, i: nat, j: nat)
    requires StrippedAt(s, chars, i, j)
    requires i < j ==> !chars(s[i]) && !chars(s[j - 1])
    ensures Strip(s, chars) == s[i..j]
  {
    if i < j {
      LStripExact(s, chars, i);
      RStripExact(s, chars, i, j);
    } else {
      assert forall k :: 0 <= k < |s| ==> chars(s[k]);
    }
  }

  /** Stripping leaves a text alone when neither end is a stripped character. */
  lemma StripUnchanged(s: string, chars: char -> bool)
    requires s == [] || (!chars(s[0]) && !chars(s[|s| - 1]))
    ensures LStrip(s, chars) == s && Strip(s, chars) == s
  {
  }

  /** Right-stripping stops at the last kept character `c`: nothing before it is touched. */
  lemma {:induction false} RStripStopsAt(p: string, c: char, t: string, chars: char -> bool)
    requires !chars(c)
    ensures RStrip(p + [c] + t, chars) == p + [c] + RStrip(t, chars)
    decreases |t|
  {
    var s := p + [c] + t;
    if t != [] && chars(t[|t| - 1]) {
      assert s[..|s| - 1] == p + [c] + t[..|t| - 1];
      RStripStopsAt(p, c, t[..|t| - 1], chars);
    }
  }

  /** `s.split(sep)[0]`: the text before the first `sep`, or all of `s` when it has none. */
  function BeforeFirst(s: string, sep: char): (r: string)
    ensures |r| <= |s| && r == s[..|r|]
    ensures sep !in r
    ensures |r| == |s| || s[|r|] == sep
  {
    if s == [] || s[0] == sep then [] else [s[0]] + BeforeFirst(s[1..], sep)
  }

  /** `s.split(sep)`: the pieces between separators; `n` separators give `n + 1` pieces. */
  function Split(s: string, sep: char): (r: seq<string>)
    ensures |r| >= 1
    ensures r[0] == BeforeFirst(s, sep)
    ensures forall k :: 0 <= k < |r| ==> sep !in r[k]
    decreases |s|
  {
    var head := BeforeFirst(s, sep);
    if |head| == |s| then [s] else [head] + Split(s[|head| + 1..], sep)
  }

  /** `sep.join(parts)`. */
  function Join(parts: seq<string>, sep: char): string
  {
    if |parts| == 0 then []
    else if |parts| == 1 then parts[0]
    else parts[0] + [sep] + Join(parts[1..], sep)
  }

  /** Joining `head` in front of a non-empty list puts one separator between them. */
  lemma JoinCons(head: string, pieces: seq<string>, sep: char)
    requires |pieces| >= 1
    ensures Join([head] + pieces, sep) == head + [sep] + Join(pieces, sep)
  {
    assert ([head] + pieces)[1..] == pieces;
  }

  /** A text is the part before its first separator, the separator, and the rest. */
  lemma SplitAtFirst(s: string, sep: char)
    requires |BeforeFirst(s, sep)| < |s|
    ensures s == BeforeFirst(s, sep) + [sep] + s[|BeforeFirst(s, sep)| + 1..]
  {
    var n := |BeforeFirst(s, sep)|;
    assert s == s[..n] + [s[n]] + s[n + 1..];
  }

  /** Splitting a text that holds a separator gives the part before it, then the pieces of the rest. */
  lemma SplitUnfold(s: string, sep: char)
    requires |BeforeFirst(s, sep)| < |s|
    ensures Split(s, sep) == [BeforeFirst(s, sep)] + Split(s[|BeforeFirst(s, sep)| + 1..], sep)
  {
  }

  /** Joining the pieces of a split gives back the original text. */
  lemma {:induction false} JoinSplit(s: string, sep: char)
    ensures Join(Split(s, sep), sep) == s
    decreases |s|
  {
    var head := BeforeFirst(s, sep);
    if |head| < |s| {
      var tail := s[|head| + 1..];
      var pieces := Split(tail, sep);
      SplitUnfold(s, sep);
      JoinCons(head, pieces, sep);
      JoinSplit(tail, sep);
      SplitAtFirst(s, sep);
    }
  }

  /** The text before the first separator of `p + [sep] + t` is `p` when `p` has no separator. */
  lemma BeforeFirstOfJoined(p: string, sep: char, t: string)
    requires sep !in p
    ensures BeforeFirst(p + [sep] + t, sep) == p
  {
    var s := p + [sep] + t;
    assert s[|p|] == sep;
    assert forall i :: 0 <= i < |p| ==> s[i] == p[i];
  }

  /** Splitting a join of separator-free pieces gives back the pieces. */
  lemma {:induction false} SplitJoin(parts: seq<string>, sep: char)
    requires |parts| >= 1
    requires forall k :: 0 <= k < |parts| ==> sep !in parts[k]
    ensures Split(Join(parts, sep), sep) == parts
  {
    if |parts| == 1 {
      var r := BeforeFirst(parts[0], sep);
      assert |r| == |parts[0]|;
    } else {
      var rest := Join(parts[1..], sep);
      var s := parts[0] + [sep] + rest;
      assert parts == [parts[0]] + parts[1..];
      JoinCons(parts[0], parts[1..], sep);
      assert Join(parts, sep) == s;
      BeforeFirstOfJoined(parts[0], sep, rest);
      assert s[|parts[0]| + 1..] == rest;
      SplitUnfold(s, sep);
      SplitJoin(parts[1..], sep);
    }
  }

  /** A text is blank exactly when stripping whitespace leaves nothing. */
  lemma BlankIffStripEmpty(s: string)
    ensures IsBlank(s) <==> Strip(s, IsSpace) == []
  {
  }
}
