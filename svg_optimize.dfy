/**
 * The last step of `optimize_svg`: the pretty-printed document is split into
 * lines, the blank ones are dropped, and the rest are joined again.
 */
module SvgOptimize {
  import opened PyStr

  /** The list comprehension `[line for line in lines if line.strip()]`. */
  function NonBlankLines(lines: seq<string>): (kept: seq<string>)
    ensures |kept| <= |lines|
    ensures forall k :: 0 <= k < |kept| ==> !IsBlank(kept[k]) && kept[k] in lines
    ensures forall i :: 0 <= i < |lines| && !IsBlank(lines[i]) ==> lines[i] in kept
  {
    if lines == [] then []
    else (if IsBlank(lines[0]) then [] else [lines[0]]) + NonBlankLines(lines[1..])
  }

  /** A kept line is one of the split's pieces, so it holds no newline. */
  lemma KeptLinesHaveNoNewline(pretty: string)
    ensures forall k :: 0 <= k < |NonBlankLines(Split(pretty, '\n'))| ==> '\n' !in NonBlankLines(Split(pretty, '\n'))[k]
  {
    var lines := Split(pretty, '\n');
    var kept := NonBlankLines(lines);
    forall k | 0 <= k < |kept| ensures '\n' !in kept[k] {
      assert kept[k] in lines;
    }
  }

  /**
   * `optimize_svg` on the pretty-printed text `pretty`: the lines of the
   * output are exactly the non-blank lines of the input, in order, and none
   * of them is blank; when every input line is blank the output is empty.
   */
  function OptimizeLines(pretty: string): (out: string)
    ensures NonBlankLines(Split(pretty, '\n')) != [] ==> Split(out, '\n') == NonBlankLines(Split(pretty, '\n'))
    ensures NonBlankLines(Split(pretty, '\n')) == [] ==> out == []
    ensures out != [] ==> forall k :: 0 <= k < |Split(out, '\n')| ==> !IsBlank(Split(out, '\n')[k])
  {
    var kept := NonBlankLines(Split(pretty, '\n'));
    KeptLinesHaveNoNewline(pretty);
    if kept != [] then
      SplitJoin(kept, '\n');
      Join(kept, '\n')
    else
      []
  }

  /** Filtering distributes over concatenation, so the kept lines stay in their original order. */
  lemma {:induction false} NonBlankLinesAppend(a: seq<string>, b: seq<string>)
    ensures NonBlankLines(a + b) == NonBlankLines(a) + NonBlankLines(b)
  {
    if a != [] {
      assert (a + b)[1..] == a[1..] + b;
      NonBlankLinesAppend(a[1..], b);
    } else {
      assert a + b == b;
    }
  }

  /** Filtering twice is filtering once. */
  lemma {:induction false} NonBlankLinesIdempotent(lines: seq<string>)
    ensures NonBlankLines(NonBlankLines(lines)) == NonBlankLines(lines)
  {
    if lines != [] {
      NonBlankLinesIdempotent(lines[1..]);
      var head := if IsBlank(lines[0]) then [] else [lines[0]];
      NonBlankLinesAppend(head, NonBlankLines(lines[1..]));
    }
  }

  /** Optimising an optimised document changes nothing. */
  lemma OptimizeIdempotent(pretty: string)
    ensures OptimizeLines(OptimizeLines(pretty)) == OptimizeLines(pretty)
  {
    var kept := NonBlankLines(Split(pretty, '\n'));
    if kept != [] {
      NonBlankLinesIdempotent(Split(pretty, '\n'));
    } else {
      assert Split([], '\n') == [[]];
      assert IsBlank([]);
    }
  }
}
