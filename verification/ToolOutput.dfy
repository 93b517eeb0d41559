/** The shortening of long tool answers: five lines at each end and the critical ones in between. */
module ToolOutput {
  import opened Text
  import opened Sequences

  const MAX_CHARS := 25000
  const EDGE := 5
  const OMITTED := "... [omitted safe logs] ..."

  function LowerChar(c: char): char {
    if 'A' <= c <= 'Z' then c - 'A' + 'a' else c
  }

  function Lower(s: string): string {
    seq(|s|, i requires 0 <= i < |s| => LowerChar(s[i]))
  }

  predicate Contains(s: string, sub: string) {
    Index(s, sub) >= 0
  }

  predicate Critical(line: string) {
    var lower := Lower(line);
    Contains(lower, "panic") || Contains(lower, "error") || Contains(lower, "fatal") || Contains(line, ".go:")
  }

  function Head(lines: seq<string>): seq<string> {
    if |lines| > EDGE then lines[..EDGE] else lines
  }

  function Tail(lines: seq<string>): seq<string> {
    if |lines| > EDGE then lines[|lines| - EDGE..] else lines
  }

  function Middle(lines: seq<string>, p: string -> bool): seq<string> {
    if |lines| > 2 * EDGE then Filter(lines[EDGE..|lines| - EDGE], p) else []
  }

  /** The lines of the shortened text. */
  function Shortened(lines: seq<string>, p: string -> bool): seq<string> {
    Assemble(Head(lines), Marked(Middle(lines, p)), Tail(lines))
  }

  function Assemble(head: seq<string>, middle: seq<string>, tail: seq<string>): seq<string> {
    head + middle + [OMITTED] + tail
  }

  function Marked(middle: seq<string>): seq<string> {
    if middle == [] then [] else [OMITTED] + middle
  }

  method CollectCritical(middle: seq<string>) returns (critical: seq<string>)
    ensures critical == Filter(middle, Critical)
  {
    critical := [];
    for i := 0 to |middle|
      invariant critical == Filter(middle[..i], Critical)
    {
      FilterNext(middle, i, Critical);
      if Critical(middle[i]) {
        critical := critical + [middle[i]];
      }
    }
    assert middle[..|middle|] == middle;
  }

  method TruncateToolResult(text: string) returns (out: string)
    ensures out == if |text| <= 25000 then text else Join(Shortened(Split(text, '\n'), Critical), '\n')
  {
    if |text| <= MAX_CHARS {
      return text;
    }
    var lines := Split(text, '\n');
    var head, tail := Head(lines), Tail(lines);
    var critical: seq<string> := [];
    if |lines| > 2 * EDGE {
      critical := CollectCritical(lines[EDGE..|lines| - EDGE]);
    }
    out := Join(head, '\n');
    if |critical| > 0 {
      JoinAround(head, OMITTED, critical);
      out := Around(out, OMITTED, Join(critical, '\n'));
    }
    assert out == Join(head + Marked(critical), '\n') by {
      assert head + [] == head;
    }
    JoinAround(head + Marked(critical), OMITTED, tail);
    out := Around(out, OMITTED, Join(tail, '\n'));
  }

  function Around(before: string, mark: string, after: string): string {
    before + ("\n" + mark + "\n") + after
  }

  lemma JoinAround(a: seq<string>, mark: string, b: seq<string>)
    requires a != [] && b != []
    ensures Join(a + [mark] + b, '\n') == Around(Join(a, '\n'), mark, Join(b, '\n'))
    ensures a + ([mark] + b) == a + [mark] + b
  {
    JoinConcat(a + [mark], b, '\n');
    JoinConcat(a, [mark], '\n');
    assert Join([mark], '\n') == mark;
    assert "\n" == ['\n'];
  }

  /** The selected lines of the middle, which between six and ten lines is empty, are all kept. */
  lemma MiddleKept(lines: seq<string>, p: string -> bool, cut: nat)
    requires |lines| > EDGE && cut == if |lines| > 2 * EDGE then |lines| - EDGE else EDGE
    ensures Filter(lines[EDGE..cut], p) == Middle(lines, p)
    ensures Subsequence(Middle(lines, p), Marked(Middle(lines, p)) + [OMITTED])
    ensures Subsequence(Filter(lines[cut..], p), Tail(lines))
  {
    var middle := Middle(lines, p);
    SubsequenceReflexive(middle);
    SubsequencePadded(middle, [OMITTED], middle);
    SubsequenceConcat(middle, Marked(middle), [], [OMITTED]);
    assert middle + [] == middle;
    FilterIsSubsequence(lines[cut..], p);
    var n := |lines|;
    assert Tail(lines) == lines[n - EDGE..cut] + lines[cut..];
    SubsequencePadded(Filter(lines[cut..], p), lines[n - EDGE..cut], lines[cut..]);
  }

  lemma AssembleKeeps(h: seq<string>, head: seq<string>, m: seq<string>, middle: seq<string>,
                      t: seq<string>, tail: seq<string>)
    requires Subsequence(h, head) && Subsequence(m, middle + [OMITTED]) && Subsequence(t, tail)
    ensures Subsequence(h + (m + t), Assemble(head, middle, tail))
  {
    SubsequenceConcat(m, middle + [OMITTED], t, tail);
    SubsequenceConcat(h, head, m + t, middle + [OMITTED] + tail);
    assert head + (middle + [OMITTED] + tail) == Assemble(head, middle, tail);
  }

  /** Whatever the length of the text, no selected line is lost and their order is kept. */
  lemma NoSelectedLineLost(lines: seq<string>, p: string -> bool)
    ensures Subsequence(Filter(lines, p), Shortened(lines, p))
  {
    if |lines| <= EDGE {
      FilterIsSubsequence(lines, p);
      FewLinesAreDoubled(lines, p);
      SubsequencePadded(Filter(lines, p), lines + [OMITTED], lines);
    } else {
      var cut := if |lines| > 2 * EDGE then |lines| - EDGE else EDGE;
      var head, body, end := lines[..EDGE], lines[EDGE..cut], lines[cut..];
      assert lines == head + (body + end);
      FilterConcat(head, body + end, p);
      FilterConcat(body, end, p);
      FilterIsSubsequence(head, p);
      MiddleKept(lines, p, cut);
      AssembleKeeps(Filter(head, p), head, Middle(lines, p), Marked(Middle(lines, p)), Filter(end, p), Tail(lines));
    }
  }

  /** In particular no critical line. */
  lemma NoCriticalLineLost(lines: seq<string>)
    ensures Subsequence(Filter(lines, Critical), Shortened(lines, Critical))
  {
    NoSelectedLineLost(lines, Critical);
  }

  /** Up to five lines are written twice, around the mark. */
  lemma FewLinesAreDoubled(lines: seq<string>, p: string -> bool)
    requires |lines| <= 5
    ensures Shortened(lines, p) == lines + [OMITTED] + lines
  {
    assert lines + [] == lines;
  }

  /** More than five lines: the first five, the mark and the last five, and with more than ten, the selected
      lines in between after a mark of their own. */
  lemma EdgesExactly(lines: seq<string>, p: string -> bool)
    requires |lines| > 5
    ensures var mark, n := ["... [omitted safe logs] ..."], |lines|;
            var middle := if n > 10 then Filter(lines[5..n - 5], p) else [];
            Shortened(lines, p) ==
            if middle == [] then lines[..5] + mark + lines[n - 5..]
            else lines[..5] + (mark + middle) + mark + lines[n - 5..]
  {
    assert lines[..5] + [] == lines[..5];
  }

  // ---------- which lines are critical ----------

  predicate Spells(c: char, letter: char) {
    c == letter || c as int + 32 == letter as int
  }

  /** The word stands in the line at `i`, in small or capital letters. */
  ghost predicate SpelledAt(line: string, word: string, i: int) {
    0 <= i <= |line| - |word| && forall k :: 0 <= k < |word| ==> Spells(line[i + k], word[k])
  }

  ghost predicate SmallLetters(word: string) {
    forall k :: 0 <= k < |word| ==> 'a' <= word[k] <= 'z'
  }

  lemma SpelledExactly(line: string, word: string, i: int)
    requires SmallLetters(word)
    ensures OccursAt(Lower(line), word, i) <==> SpelledAt(line, word, i)
  {
    if 0 <= i <= |line| - |word| {
      var lower := Lower(line);
      assert forall k :: 0 <= k < |word| ==> (LowerChar(line[i + k]) == word[k] <==> Spells(line[i + k], word[k]));
      if SpelledAt(line, word, i) {
        assert lower[i..i + |word|] == word;
      }
      forall k | lower[i..i + |word|] == word && 0 <= k < |word|
        ensures Spells(line[i + k], word[k])
      {
        assert lower[i..i + |word|][k] == word[k];
      }
    }
  }

  lemma ContainsSpelled(line: string, word: string)
    requires SmallLetters(word)
    ensures Contains(Lower(line), word) <==> exists i :: SpelledAt(line, word, i)
  {
    forall i
      ensures OccursAt(Lower(line), word, i) <==> SpelledAt(line, word, i)
    {
      SpelledExactly(line, word, i);
    }
    assert Contains(Lower(line), word) ==> SpelledAt(line, word, Index(Lower(line), word));
    if i :| SpelledAt(line, word, i) { assert OccursAt(Lower(line), word, i); }
  }

  /** A line is critical if and only if one of three words stands in it, in any case, or a position in a Go
      file does. */
  lemma CriticalExactly(line: string)
    ensures Critical(line) <==>
            || (exists i :: SpelledAt(line, "panic", i))
            || (exists i :: SpelledAt(line, "error", i))
            || (exists i :: SpelledAt(line, "fatal", i))
            || (exists i :: OccursAt(line, ".go:", i))
  {
    ContainsSpelled(line, "panic");
    ContainsSpelled(line, "error");
    ContainsSpelled(line, "fatal");
    if Contains(line, ".go:") { assert OccursAt(line, ".go:", Index(line, ".go:")); }
    if i :| OccursAt(line, ".go:", i) { assert Index(line, ".go:") >= 0; }
  }

  // ---------- when the answer gets shorter ----------

  /** The characters of the lines, each with its newline. */
  function Weight(lines: seq<string>): nat {
    if lines == [] then 0 else Weight(lines[..|lines| - 1]) + |lines[|lines| - 1]| + 1
  }

  lemma {:induction false} WeightConcat(a: seq<string>, b: seq<string>)
    ensures Weight(a + b) == Weight(a) + Weight(b)
  {
    if b == [] {
      assert a + b == a;
    } else {
      WeightConcat(a, b[..|b| - 1]);
      assert (a + b)[..|a + b| - 1] == a + b[..|b| - 1];
    }
  }

  lemma WeightSplit(lines: seq<string>, i: nat)
    requires i <= |lines|
    ensures Weight(lines) == Weight(lines[..i]) + Weight(lines[i..])
  {
    WeightConcat(lines[..i], lines[i..]);
    assert lines[..i] + lines[i..] == lines;
  }

  lemma WeightOne(line: string)
    ensures Weight([line]) == |line| + 1
  {
    assert [line][..0] == [];
  }

  lemma {:induction false} JoinLength(lines: seq<string>)
    requires lines != []
    ensures |Join(lines, '\n')| + 1 == Weight(lines)
  {
    var n := |lines| - 1;
    if n == 0 {
      assert lines[..0] == [];
    } else {
      JoinLength(lines[..n]);
      JoinConcat(lines[..n], [lines[n]], '\n');
      assert lines == lines[..n] + [lines[n]];
    }
  }

  function Not(p: string -> bool): string -> bool {
    l => !p(l)
  }

  lemma WeightAppend(lines: seq<string>, line: string)
    ensures Weight(lines + [line]) == Weight(lines) + |line| + 1
  {
    assert (lines + [line])[..|lines|] == lines;
  }

  /** What is kept and what is dropped make up the whole. */
  lemma {:induction false} KeptAndDropped(lines: seq<string>, p: string -> bool)
    ensures Weight(Filter(lines, p)) + Weight(Filter(lines, Not(p))) == Weight(lines)
  {
    if lines != [] {
      var init, last := lines[..|lines| - 1], lines[|lines| - 1];
      assert lines == init + [last];
      KeptAndDropped(init, p);
      FilterAppend(init, last, p);
      FilterAppend(init, last, Not(p));
      WeightAppend(init, last);
      WeightAppend(if p(last) then Filter(init, p) else Filter(init, Not(p)), last);
    }
  }

  /** How much the marks add: one always, and one more before kept lines. */
  function MarksWeight(middle: seq<string>): nat {
    if middle == [] then |OMITTED| + 1 else 2 * (|OMITTED| + 1)
  }

  lemma AssembledWeight(head: seq<string>, middle: seq<string>, tail: seq<string>)
    ensures Weight(Assemble(head, Marked(middle), tail)) ==
            Weight(head) + Weight(middle) + Weight(tail) + MarksWeight(middle)
  {
    WeightOne(OMITTED);
    WeightConcat([OMITTED], middle);
    WeightConcat(head, Marked(middle));
    WeightConcat(head + Marked(middle), [OMITTED]);
    WeightConcat(head + Marked(middle) + [OMITTED], tail);
  }

  /** Head and tail cover up to ten lines, and repeat some of them unless there are exactly ten. */
  lemma EdgesCover(lines: seq<string>)
    requires |lines| <= 2 * EDGE
    ensures Weight(Head(lines)) + Weight(Tail(lines)) >= Weight(lines)
  {
    if |lines| > EDGE {
      assert Head(lines) == lines[..EDGE] && Tail(lines) == lines[|lines| - EDGE..];
      WeightSplit(lines, EDGE);
      TailWeight(lines);
    }
  }

  lemma TailWeight(lines: seq<string>)
    requires EDGE < |lines| <= 2 * EDGE
    ensures Weight(lines[|lines| - EDGE..]) >= Weight(lines[EDGE..])
  {
    var tail := lines[|lines| - EDGE..];
    WeightSplit(tail, 2 * EDGE - |lines|);
    assert tail[2 * EDGE - |lines|..] == lines[EDGE..];
  }

  /** The lines of the middle that are left out. */
  function Dropped(lines: seq<string>, p: string -> bool): seq<string> {
    Middle(lines, Not(p))
  }

  lemma ThreeParts(lines: seq<string>, p: string -> bool)
    requires |lines| > 2 * EDGE
    ensures Weight(lines) == Weight(Head(lines)) + Weight(Tail(lines))
                             + Weight(Middle(lines, p)) + Weight(Dropped(lines, p))
  {
    WeightSplit(lines, EDGE);
    BodyAndTail(lines);
    KeptAndDropped(lines[EDGE..|lines| - EDGE], p);
  }

  lemma BodyAndTail(lines: seq<string>)
    requires |lines| > 2 * EDGE
    ensures Weight(lines[EDGE..]) == Weight(lines[EDGE..|lines| - EDGE]) + Weight(lines[|lines| - EDGE..])
  {
    var rest, m := lines[EDGE..], |lines| - 2 * EDGE;
    WeightSplit(rest, m);
    assert rest[..m] == lines[EDGE..|lines| - EDGE];
    assert rest[m..] == lines[|lines| - EDGE..];
  }

  /** The lines that remain are shorter as a text if and only if there are more than ten lines and
      the dropped ones outweigh the marks. Up to ten lines always come out longer. */
  lemma ShorterExactly(lines: seq<string>, p: string -> bool)
    requires lines != []
    ensures |lines| <= 10 ==> |Join(Shortened(lines, p), '\n')| > |Join(lines, '\n')|
    ensures |Join(Shortened(lines, p), '\n')| < |Join(lines, '\n')| <==>
            |lines| > 10 && Weight(Dropped(lines, p)) > MarksWeight(Middle(lines, p))
  {
    JoinLength(lines);
    JoinLength(Shortened(lines, p));
    AssembledWeight(Head(lines), Middle(lines, p), Tail(lines));
    if |lines| <= 2 * EDGE {
      EdgesCover(lines);
    } else {
      ThreeParts(lines, p);
    }
  }

  /** The answer for a text over the limit is shorter than the text exactly then. */
  lemma TruncationShortensExactly(text: string)
    ensures var lines := Split(text, '\n');
            |Join(Shortened(lines, Critical), '\n')| < |text| <==>
            |lines| > 10 && Weight(Dropped(lines, Critical)) > MarksWeight(Middle(lines, Critical))
  {
    JoinSplit(text, '\n');
    ShorterExactly(Split(text, '\n'), Critical);
  }
}
