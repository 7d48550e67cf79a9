/** Fitting a text block on a page: greedy word wrapping against the
    font's string width, shrinking the font until the block is short
    enough, and placing the lines centred on the page. The font metric is a
    parameter: `measure(line, size)` is the width of `line` set in the book
    font at point size `size`. */
module TextFit {
  import opened Strings

  type Measure = (string, int) -> real

  /** The size a text block is first set in. */
  const BaseFontSize: int := 26
  /** Shrinking stops once the size is below this. */
  const MinFontSize: int := 14
  /** Each shrinking step. */
  const FontStep: int := 2
  /** Lines may be this fraction of the page width. */
  const MaxWidthRatio: real := 0.7
  /** A block may be this fraction of the page height. */
  const HeightRatio: real := 0.85
  /** Line spacing as a multiple of the point size. */
  const SpacingRatio: real := 1.35
  /** A blank line (a paragraph break) takes this fraction of a line's
      spacing when the block is drawn. */
  const BlankRatio: real := 0.3

  /** The distance between baselines at one point size. */
  function Spacing(size: int): real {
    size as real * SpacingRatio
  }

  predicate Fits(measure: Measure, size: int, maxWidth: real, line: string) {
    measure(line, size) <= maxWidth
  }

  /** The words of a line set with single spaces. */
  function Render(ws: seq<string>): string {
    JoinWith(ws, " ")
  }

  /** The rendering of every group of words. */
  function Rendered(gs: seq<seq<string>>): (lines: seq<string>)
    ensures |lines| == |gs|
  {
    seq(|gs|, i requires 0 <= i < |gs| => Render(gs[i]))
  }

  // ---- greedy filling of one paragraph ----

  /** The lines of one paragraph as groups of words. `cur` holds the words of
      the line being built; each next word joins it when the extended line
      still fits, and otherwise the line is closed and the word starts the
      next one. The first word of a line is taken whether it fits or not. */
  function Greedy(cur: seq<string>, ws: seq<string>, measure: Measure, size: int, maxWidth: real): seq<seq<string>>
    decreases |ws|
  {
    if ws == [] then (if cur == [] then [] else [cur])
    else if cur == [] then Greedy([ws[0]], ws[1..], measure, size, maxWidth)
    else if Fits(measure, size, maxWidth, Render(cur + [ws[0]])) then
      Greedy(cur + [ws[0]], ws[1..], measure, size, maxWidth)
    else [cur] + Greedy([ws[0]], ws[1..], measure, size, maxWidth)
  }

  /** Greedy filling keeps every word, in order, and adds none. */
  lemma {:induction false} GreedyKeepsWords(cur: seq<string>, ws: seq<string>, measure: Measure, size: int, maxWidth: real)
    ensures Concat(Greedy(cur, ws, measure, size, maxWidth)) == cur + ws
    decreases |ws|
  {
    var gs := Greedy(cur, ws, measure, size, maxWidth);
    if ws == [] {
      if cur != [] {
        assert Concat(gs) == cur + Concat(gs[1..]);
      }
    } else {
      var w, rest := ws[0], ws[1..];
      assert ws == [w] + rest;
      if cur == [] {
        GreedyKeepsWords([w], rest, measure, size, maxWidth);
      } else if Fits(measure, size, maxWidth, Render(cur + [w])) {
        GreedyKeepsWords(cur + [w], rest, measure, size, maxWidth);
      } else {
        var tail := Greedy([w], rest, measure, size, maxWidth);
        GreedyKeepsWords([w], rest, measure, size, maxWidth);
        assert gs[1..] == tail;
        assert Concat(gs) == cur + Concat(tail);
      }
    }
  }

  predicate WordGroups(gs: seq<seq<string>>) {
    forall i :: 0 <= i < |gs| ==> gs[i] != [] && AllWords(gs[i])
  }

  /** Every line of a greedy filling is a non-empty list of words, and the
      first line starts with the first word. */
  lemma {:induction false} GreedyGroups(cur: seq<string>, ws: seq<string>, measure: Measure, size: int, maxWidth: real)
    requires AllWords(cur) && AllWords(ws)
    ensures WordGroups(Greedy(cur, ws, measure, size, maxWidth))
    ensures cur + ws != [] ==>
      (Greedy(cur, ws, measure, size, maxWidth) != [] && Greedy(cur, ws, measure, size, maxWidth)[0][0] == (cur + ws)[0])
    decreases |ws|
  {
    if ws != [] {
      var w, rest := ws[0], ws[1..];
      if cur == [] {
        GreedyGroups([w], rest, measure, size, maxWidth);
      } else if Fits(measure, size, maxWidth, Render(cur + [w])) {
        GreedyGroups(cur + [w], rest, measure, size, maxWidth);
      } else {
        GreedyGroups([w], rest, measure, size, maxWidth);
      }
    }
  }

  predicate WideLinesFit(gs: seq<seq<string>>, measure: Measure, size: int, maxWidth: real) {
    forall i :: 0 <= i < |gs| && |gs[i]| >= 2 ==> Fits(measure, size, maxWidth, Render(gs[i]))
  }

  /** Every line of two or more words fits the width. (A line of one word is
      kept even when that word alone is too wide.) */
  lemma {:induction false} GreedyFits(cur: seq<string>, ws: seq<string>, measure: Measure, size: int, maxWidth: real)
    requires |cur| >= 2 ==> Fits(measure, size, maxWidth, Render(cur))
    ensures WideLinesFit(Greedy(cur, ws, measure, size, maxWidth), measure, size, maxWidth)
    decreases |ws|
  {
    if ws != [] {
      var w, rest := ws[0], ws[1..];
      if cur == [] {
        GreedyFits([w], rest, measure, size, maxWidth);
        assert Greedy(cur, ws, measure, size, maxWidth) == Greedy([w], rest, measure, size, maxWidth);
      } else if Fits(measure, size, maxWidth, Render(cur + [w])) {
        GreedyFits(cur + [w], rest, measure, size, maxWidth);
        assert Greedy(cur, ws, measure, size, maxWidth) == Greedy(cur + [w], rest, measure, size, maxWidth);
      } else {
        var tail := Greedy([w], rest, measure, size, maxWidth);
        GreedyFits([w], rest, measure, size, maxWidth);
        var gs := Greedy(cur, ws, measure, size, maxWidth);
        assert gs == [cur] + tail;
        forall i | 0 <= i < |gs| && |gs[i]| >= 2
          ensures Fits(measure, size, maxWidth, Render(gs[i]))
        {
          if i > 0 {
            assert gs[i] == tail[i - 1];
          }
        }
      }
    }
  }

  /** No line could have taken the first word of the line after it. */
  predicate GroupsMaximal(gs: seq<seq<string>>, measure: Measure, size: int, maxWidth: real) {
    forall i :: 1 <= i < |gs| ==> gs[i] != [] && !Fits(measure, size, maxWidth, Render(gs[i - 1] + [gs[i][0]]))
  }

  /** Greedy filling closes a line only when the next word does not fit on
      it: each line extended by the first word of the following line would
      be too wide. */
  lemma {:induction false} GreedyMaximal(cur: seq<string>, ws: seq<string>, measure: Measure, size: int, maxWidth: real)
    requires AllWords(cur) && AllWords(ws)
    ensures GroupsMaximal(Greedy(cur, ws, measure, size, maxWidth), measure, size, maxWidth)
    decreases |ws|
  {
    var gs := Greedy(cur, ws, measure, size, maxWidth);
    if ws != [] {
      var w, rest := ws[0], ws[1..];
      if cur == [] {
        GreedyMaximal([w], rest, measure, size, maxWidth);
        assert gs == Greedy([w], rest, measure, size, maxWidth);
      } else if Fits(measure, size, maxWidth, Render(cur + [w])) {
        assert AllWords(cur + [w]);
        GreedyMaximal(cur + [w], rest, measure, size, maxWidth);
        assert gs == Greedy(cur + [w], rest, measure, size, maxWidth);
      } else {
        var tail := Greedy([w], rest, measure, size, maxWidth);
        GreedyMaximal([w], rest, measure, size, maxWidth);
        GreedyGroups([w], rest, measure, size, maxWidth);
        assert gs == [cur] + tail;
        forall i | 1 <= i < |gs|
          ensures gs[i] != [] && !Fits(measure, size, maxWidth, Render(gs[i - 1] + [gs[i][0]]))
        {
          if i == 1 {
            assert gs[1] == tail[0] && tail[0][0] == w;
          } else {
            assert gs[i - 1] == tail[i - 2] && gs[i] == tail[i - 1];
          }
        }
      }
    }
  }

  /** One step of the greedy filling. */
  lemma GreedyStep(cur: seq<string>, w: string, rest: seq<string>, measure: Measure, size: int, maxWidth: real)
    ensures Greedy(cur, [w] + rest, measure, size, maxWidth) ==
      if cur == [] then Greedy([w], rest, measure, size, maxWidth)
      else if Fits(measure, size, maxWidth, Render(cur + [w])) then Greedy(cur + [w], rest, measure, size, maxWidth)
      else [cur] + Greedy([w], rest, measure, size, maxWidth)
  {
    assert ([w] + rest)[0] == w && ([w] + rest)[1..] == rest;
  }

  lemma RenderedCons(g: seq<string>, gs: seq<seq<string>>)
    ensures Rendered([g] + gs) == [Render(g)] + Rendered(gs)
  {
  }

  // ---- the lines of a whole text ----

  /** The lines of one paragraph. */
  function ParaLines(p: string, measure: Measure, size: int, maxWidth: real): seq<string> {
    Rendered(Greedy([], Words(p), measure, size, maxWidth))
  }

  /** The lines of the paragraphs in turn, each paragraph followed by a
      blank line. */
  function Marked(ps: seq<string>, measure: Measure, size: int, maxWidth: real): seq<string>
    decreases |ps|
  {
    if ps == [] then []
    else Marked(ps[..|ps| - 1], measure, size, maxWidth) + ParaLines(ps[|ps| - 1], measure, size, maxWidth) + [""]
  }

  /** The wrapped lines of a text: its paragraphs are its newline-separated
      pieces, a blank line separates consecutive paragraphs, and the blank
      line after the last paragraph is dropped. */
  function Wrap(text: string, measure: Measure, size: int, maxWidth: real): seq<string> {
    var all := Marked(SplitOn(text, "\n"), measure, size, maxWidth);
    if |all| > 0 && all[|all| - 1] == "" then all[..|all| - 1] else all
  }

  /** The candidate line of wrap_block is the current line extended by the
      next word, and the current line is empty exactly when it has no words. */
  lemma CandidateLine(cur: seq<string>, w: string)
    requires AllWords(cur) && IsWord(w)
    ensures Render(cur) == "" <==> cur == []
    ensures cur != [] ==> Strip(Render(cur) + " " + w) == Render(cur + [w])
    ensures cur == [] ==> w == Render(cur + [w])
  {
    JoinOfWordsTrimmed(cur);
    if cur != [] {
      JoinSnoc(cur, w, " ");
      assert AllWords(cur + [w]);
      JoinOfWordsTrimmed(cur + [w]);
    } else {
      assert cur + [w] == [w];
    }
  }

  /** One pass of the inner loop of wrap_block, on the rendered lines: the
      word joins the current line when the candidate fits; otherwise the
      current line, if any, is closed and the word starts a new one. */
  lemma FillStep(cur: seq<string>, line: string, w: string, rest: seq<string>, candidate: string,
                 measure: Measure, size: int, maxWidth: real)
    requires AllWords(cur) && IsWord(w) && line == Render(cur)
    requires candidate == if line != "" then Strip(line + " " + w) else w
    ensures measure(candidate, size) <= maxWidth ==>
      candidate == Render(cur + [w])
      && Rendered(Greedy(cur, [w] + rest, measure, size, maxWidth)) == Rendered(Greedy(cur + [w], rest, measure, size, maxWidth))
    ensures !(measure(candidate, size) <= maxWidth) && line != "" ==>
      Rendered(Greedy(cur, [w] + rest, measure, size, maxWidth)) == [line] + Rendered(Greedy([w], rest, measure, size, maxWidth))
    ensures !(measure(candidate, size) <= maxWidth) && line == "" ==>
      Rendered(Greedy(cur, [w] + rest, measure, size, maxWidth)) == Rendered(Greedy([w], rest, measure, size, maxWidth))
  {
    GreedyStep(cur, w, rest, measure, size, maxWidth);
    CandidateLine(cur, w);
    if measure(candidate, size) <= maxWidth {
      assert candidate == Render(cur + [w]);
      if cur != [] {
        assert Fits(measure, size, maxWidth, Render(cur + [w]));
      } else {
        assert cur + [w] == [w];
      }
    } else if line != "" {
      assert Greedy(cur, [w] + rest, measure, size, maxWidth) == [cur] + Greedy([w], rest, measure, size, maxWidth);
      RenderedCons(cur, Greedy([w], rest, measure, size, maxWidth));
    }
  }

  /** The state of the inner loop of wrap_block: the lines closed so far,
      then the rendering of the greedy filling from the current line `cur`
      (set as `line`) over the words still to come, make up `goal`. */
  predicate FillState(lines: seq<string>, cur: seq<string>, line: string, ws: seq<string>, goal: seq<string>,
                      measure: Measure, size: int, maxWidth: real) {
    AllWords(cur) && AllWords(ws) && line == Render(cur)
    && lines + Rendered(Greedy(cur, ws, measure, size, maxWidth)) == goal
  }

  lemma FillStart(p: string, measure: Measure, size: int, maxWidth: real)
    ensures FillState([], [], "", Words(p), ParaLines(p, measure, size, maxWidth), measure, size, maxWidth)
  {
    assert [] + ParaLines(p, measure, size, maxWidth) == ParaLines(p, measure, size, maxWidth);
  }

  /** One pass of the inner loop keeps the loop state. */
  lemma FillAdvance(lines: seq<string>, cur: seq<string>, line: string, w: string, rest: seq<string>, goal: seq<string>,
                    candidate: string, measure: Measure, size: int, maxWidth: real)
    requires FillState(lines, cur, line, [w] + rest, goal, measure, size, maxWidth)
    requires candidate == if line != "" then Strip(line + " " + w) else w
    ensures measure(candidate, size) <= maxWidth ==>
      FillState(lines, cur + [w], candidate, rest, goal, measure, size, maxWidth)
    ensures !(measure(candidate, size) <= maxWidth) && line != "" ==>
      FillState(lines + [line], [w], w, rest, goal, measure, size, maxWidth)
    ensures !(measure(candidate, size) <= maxWidth) && line == "" ==>
      FillState(lines, [w], w, rest, goal, measure, size, maxWidth)
  {
    WordsSplit(w, rest);
    FillStep(cur, line, w, rest, candidate, measure, size, maxWidth);
    if measure(candidate, size) <= maxWidth {
      WordsSnoc(cur, w);
    } else {
      assert AllWords([w]);
      if line != "" {
        assert (lines + [line]) + Rendered(Greedy([w], rest, measure, size, maxWidth))
            == lines + ([line] + Rendered(Greedy([w], rest, measure, size, maxWidth)));
      }
    }
  }

  lemma WordsSplit(w: string, rest: seq<string>)
    requires AllWords([w] + rest)
    ensures IsWord(w) && AllWords(rest)
  {
    assert IsWord(([w] + rest)[0]);
    forall i | 0 <= i < |rest| ensures IsWord(rest[i]) {
      assert rest[i] == ([w] + rest)[i + 1];
    }
  }

  lemma WordsSnoc(cur: seq<string>, w: string)
    requires AllWords(cur) && IsWord(w)
    ensures AllWords(cur + [w])
  {
    forall i | 0 <= i < |cur + [w]| ensures IsWord((cur + [w])[i]) {
      if i < |cur| { assert (cur + [w])[i] == cur[i]; }
    }
  }

  /** Once no word is left, the current line, if any, is the last line. */
  lemma FillFinish(lines: seq<string>, cur: seq<string>, line: string, goal: seq<string>,
                   measure: Measure, size: int, maxWidth: real)
    requires FillState(lines, cur, line, [], goal, measure, size, maxWidth)
    ensures (if line != "" then lines + [line] else lines) == goal
  {
    JoinOfWordsTrimmed(cur);
    if cur != [] {
      assert Rendered([cur]) == [line];
    } else {
      assert Rendered([]) == [];
    }
  }

  /** One pass of the inner loop of wrap_block: the word joins the current
      line when the candidate line fits, and otherwise the current line, if
      any, is closed and the word starts the next one. */
  method FillWord(lines: seq<string>, ghost cur: seq<string>, line: string, w: string, ghost rest: seq<string>,
                  ghost goal: seq<string>, measure: Measure, size: int, maxWidth: real)
    returns (lines': seq<string>, ghost cur': seq<string>, line': string)
    requires FillState(lines, cur, line, [w] + rest, goal, measure, size, maxWidth)
    ensures FillState(lines', cur', line', rest, goal, measure, size, maxWidth)
  {
    var candidate := if line != "" then Strip(line + " " + w) else w;
    FillAdvance(lines, cur, line, w, rest, goal, candidate, measure, size, maxWidth);
    if measure(candidate, size) <= maxWidth {
      lines', cur', line' := lines, cur + [w], candidate;
    } else if line != "" {
      lines', cur', line' := lines + [line], [w], w;
    } else {
      lines', cur', line' := lines, [w], w;
    }
  }

  /** The inner loop of wrap_block: fills one paragraph word by word, the
      candidate line being the current line, a space and the next word,
      stripped. */
  method FillParagraph(p: string, measure: Measure, size: int, maxWidth: real) returns (lines: seq<string>)
    ensures lines == ParaLines(p, measure, size, maxWidth)
  {
    var words := Words(p);
    ghost var goal := ParaLines(p, measure, size, maxWidth);
    ghost var cur: seq<string> := [];
    var line := "";
    lines := [];
    FillStart(p, measure, size, maxWidth);
    var j := 0;
    while j < |words|
      invariant 0 <= j <= |words|
      invariant FillState(lines, cur, line, words[j..], goal, measure, size, maxWidth)
    {
      var w := words[j];
      assert words[j..] == [w] + words[j + 1..];
      lines, cur, line := FillWord(lines, cur, line, w, words[j + 1..], goal, measure, size, maxWidth);
      j := j + 1;
    }
    assert words[j..] == [];
    FillFinish(lines, cur, line, goal, measure, size, maxWidth);
    if line != "" {
      lines := lines + [line];
    }
  }

  /** wrap_block: the lines of every paragraph followed by a blank line, the
      last blank line dropped. */
  method WrapBlock(text: string, measure: Measure, size: int, maxWidth: real) returns (lines: seq<string>)
    ensures lines == Wrap(text, measure, size, maxWidth)
  {
    var paragraphs := SplitOn(text, "\n");
    lines := [];
    var i := 0;
    while i < |paragraphs|
      invariant 0 <= i <= |paragraphs|
      invariant lines == Marked(paragraphs[..i], measure, size, maxWidth)
    {
      var plines := FillParagraph(paragraphs[i], measure, size, maxWidth);
      lines := lines + plines + [""];
      assert paragraphs[..i + 1][..i] == paragraphs[..i];
      i := i + 1;
    }
    assert paragraphs[..i] == paragraphs;
    if |lines| > 0 && lines[|lines| - 1] == "" {
      lines := lines[..|lines| - 1];
    }
  }

  // ---- what the wrapped lines satisfy ----

  /** The number of blank lines (paragraph breaks). */
  function Blanks(lines: seq<string>): nat {
    if lines == [] then 0 else (if lines[0] == "" then 1 else 0) + Blanks(lines[1..])
  }

  /** The words on the lines, in order. */
  function WordsOf(lines: seq<string>): seq<string> {
    if lines == [] then [] else Words(lines[0]) + WordsOf(lines[1..])
  }

  /** The words of the paragraphs, in order. */
  function ParagraphWords(ps: seq<string>): seq<string>
    decreases |ps|
  {
    if ps == [] then [] else ParagraphWords(ps[..|ps| - 1]) + Words(ps[|ps| - 1])
  }

  /** The words of the paragraphs are the words of the lines they make. */
  lemma {:induction false} ParagraphWordsOf(ps: seq<string>)
    ensures ParagraphWords(ps) == WordsOf(ps)
    decreases |ps|
  {
    if ps != [] {
      var init, last := ps[..|ps| - 1], ps[|ps| - 1];
      ParagraphWordsOf(init);
      WordsOfAppend(init, [last]);
      assert ps == init + [last];
      assert WordsOf([last]) == Words(last) + WordsOf([]);
    }
  }

  /** Cutting a text into its paragraphs at the line breaks keeps its words:
      a line break is white space. */
  lemma {:induction false} ParagraphsKeepWords(text: string)
    ensures ParagraphWords(SplitOn(text, "\n")) == Words(text)
    decreases |text|
  {
    ParagraphWordsOf(SplitOn(text, "\n"));
    var k := Find(text, "\n", 0);
    if k == |text| {
      assert SplitOn(text, "\n") == [text];
      assert WordsOf([text]) == Words(text) + WordsOf([]);
    } else {
      var rest := text[k + 1..];
      ParagraphsKeepWords(rest);
      ParagraphWordsOf(SplitOn(rest, "\n"));
      assert text[k..k + 1] == "\n";
      assert text == text[..k] + ['\n'] + rest;
      WordsAcrossSpace(text[..k], '\n', rest);
      assert SplitOn(text, "\n") == [text[..k]] + SplitOn(rest, "\n");
    }
  }

  /** Every line of two or more words fits the width. */
  predicate LinesFit(lines: seq<string>, measure: Measure, size: int, maxWidth: real) {
    forall i :: 0 <= i < |lines| && |Words(lines[i])| >= 2 ==> Fits(measure, size, maxWidth, lines[i])
  }

  /** Within a paragraph, no line could have taken the first word of the
      line below it. */
  predicate LinesMaximal(lines: seq<string>, measure: Measure, size: int, maxWidth: real) {
    forall i :: 1 <= i < |lines| && lines[i - 1] != "" && Words(lines[i]) != [] ==>
      !Fits(measure, size, maxWidth, lines[i - 1] + " " + Words(lines[i])[0])
  }

  lemma {:induction false} BlanksAppend(a: seq<string>, b: seq<string>)
    ensures Blanks(a + b) == Blanks(a) + Blanks(b)
  {
    if a != [] {
      assert (a + b)[1..] == a[1..] + b;
      BlanksAppend(a[1..], b);
    } else {
      assert a + b == b;
    }
  }

  lemma {:induction false} WordsOfAppend(a: seq<string>, b: seq<string>)
    ensures WordsOf(a + b) == WordsOf(a) + WordsOf(b)
  {
    if a != [] {
      assert (a + b)[1..] == a[1..] + b;
      WordsOfAppend(a[1..], b);
    } else {
      assert a + b == b;
    }
  }

  lemma LinesFitAppend(a: seq<string>, b: seq<string>, measure: Measure, size: int, maxWidth: real)
    requires LinesFit(a, measure, size, maxWidth) && LinesFit(b, measure, size, maxWidth)
    ensures LinesFit(a + b, measure, size, maxWidth)
  {
    forall i | 0 <= i < |a + b| && |Words((a + b)[i])| >= 2
      ensures Fits(measure, size, maxWidth, (a + b)[i])
    {
      if i >= |a| {
        assert (a + b)[i] == b[i - |a|];
      }
    }
  }

  /** Joining two runs of lines keeps maximality when a blank line separates
      them. */
  lemma LinesMaximalAppend(a: seq<string>, b: seq<string>, measure: Measure, size: int, maxWidth: real)
    requires LinesMaximal(a, measure, size, maxWidth) && LinesMaximal(b, measure, size, maxWidth)
    requires a == [] || b == [] || a[|a| - 1] == "" || b[0] == ""
    ensures LinesMaximal(a + b, measure, size, maxWidth)
  {
    var ab := a + b;
    assert Words("") == [];
    forall i | 1 <= i < |ab| && ab[i - 1] != "" && Words(ab[i]) != []
      ensures !Fits(measure, size, maxWidth, ab[i - 1] + " " + Words(ab[i])[0])
    {
      if i < |a| {
        assert ab[i - 1] == a[i - 1] && ab[i] == a[i];
      } else if i > |a| {
        assert ab[i - 1] == b[i - 1 - |a|] && ab[i] == b[i - |a|];
      }
    }
  }

  /** The rendered lines of a greedy filling: none is blank, each reads back
      as its words, they carry the paragraph's words in order, the wide ones
      fit and each is maximal. */
  lemma {:induction false} RenderedGroups(gs: seq<seq<string>>, measure: Measure, size: int, maxWidth: real)
    requires WordGroups(gs)
    ensures var lines := Rendered(gs);
      && (forall i :: 0 <= i < |lines| ==> lines[i] != "" && Words(lines[i]) == gs[i])
      && Blanks(lines) == 0
      && WordsOf(lines) == Concat(gs)
      && (WideLinesFit(gs, measure, size, maxWidth) ==> LinesFit(lines, measure, size, maxWidth))
      && (GroupsMaximal(gs, measure, size, maxWidth) ==> LinesMaximal(lines, measure, size, maxWidth))
  {
    var lines := Rendered(gs);
    forall i | 0 <= i < |lines|
      ensures lines[i] != "" && Words(lines[i]) == gs[i]
    {
      JoinOfWordsTrimmed(gs[i]);
      WordsOfJoin(gs[i]);
    }
    if gs != [] {
      assert lines[1..] == Rendered(gs[1..]);
      RenderedGroups(gs[1..], measure, size, maxWidth);
    }
    if GroupsMaximal(gs, measure, size, maxWidth) {
      forall i | 1 <= i < |lines| && lines[i - 1] != "" && Words(lines[i]) != []
        ensures !Fits(measure, size, maxWidth, lines[i - 1] + " " + Words(lines[i])[0])
      {
        JoinSnoc(gs[i - 1], gs[i][0], " ");
      }
    }
  }

  /** The facts above for the lines of one paragraph. */
  lemma ParagraphFacts(p: string, measure: Measure, size: int, maxWidth: real)
    ensures var lines := ParaLines(p, measure, size, maxWidth);
      && Blanks(lines) == 0
      && WordsOf(lines) == Words(p)
      && LinesFit(lines, measure, size, maxWidth)
      && LinesMaximal(lines, measure, size, maxWidth)
  {
    var ws := Words(p);
    var gs := Greedy([], ws, measure, size, maxWidth);
    GreedyKeepsWords([], ws, measure, size, maxWidth);
    GreedyGroups([], ws, measure, size, maxWidth);
    GreedyFits([], ws, measure, size, maxWidth);
    GreedyMaximal([], ws, measure, size, maxWidth);
    RenderedGroups(gs, measure, size, maxWidth);
    assert [] + ws == ws;
  }

  /** The marked lines of several paragraphs: one blank line per paragraph,
      ending with one. */
  lemma {:induction false} MarkedFacts(ps: seq<string>, measure: Measure, size: int, maxWidth: real)
    ensures var lines := Marked(ps, measure, size, maxWidth);
      && Blanks(lines) == |ps|
      && WordsOf(lines) == ParagraphWords(ps)
      && LinesFit(lines, measure, size, maxWidth)
      && LinesMaximal(lines, measure, size, maxWidth)
      && (ps != [] ==> lines != [] && lines[|lines| - 1] == "")
    decreases |ps|
  {
    if ps != [] {
      var init, last := ps[..|ps| - 1], ps[|ps| - 1];
      var a := Marked(init, measure, size, maxWidth);
      var b := ParaLines(last, measure, size, maxWidth);
      MarkedFacts(init, measure, size, maxWidth);
      ParagraphFacts(last, measure, size, maxWidth);
      BlanksAppend(a, b);
      BlanksAppend(a + b, [""]);
      WordsOfAppend(a, b);
      WordsOfAppend(a + b, [""]);
      assert WordsOf([""]) == [] by {
        assert Words("") == [];
      }
      LinesFitAppend(a, b, measure, size, maxWidth);
      LinesFitAppend(a + b, [""], measure, size, maxWidth);
      LinesMaximalAppend(a, b, measure, size, maxWidth);
      LinesMaximalAppend(a + b, [""], measure, size, maxWidth);
    }
  }

  /** Dropping the last line keeps the word order when that line is blank,
      and always keeps the fit and maximality. */
  lemma DropLast(lines: seq<string>, measure: Measure, size: int, maxWidth: real)
    requires lines != [] && lines[|lines| - 1] == ""
    ensures var init := lines[..|lines| - 1];
      && Blanks(init) + 1 == Blanks(lines)
      && WordsOf(init) == WordsOf(lines)
      && (LinesFit(lines, measure, size, maxWidth) ==> LinesFit(init, measure, size, maxWidth))
      && (LinesMaximal(lines, measure, size, maxWidth) ==> LinesMaximal(init, measure, size, maxWidth))
  {
    var init := lines[..|lines| - 1];
    assert lines == init + [""];
    BlanksAppend(init, [""]);
    WordsOfAppend(init, [""]);
    assert Words("") == [];
  }

  /** Wrapping a text: one blank line between consecutive paragraphs and no
      other, exactly the words of the text on the lines in order, every line
      of two or more words within the width, and no line closed while the
      next word would still have fitted on it. */
  lemma WrapFacts(text: string, measure: Measure, size: int, maxWidth: real)
    ensures var lines := Wrap(text, measure, size, maxWidth);
      && Blanks(lines) == |SplitOn(text, "\n")| - 1
      && WordsOf(lines) == ParagraphWords(SplitOn(text, "\n"))
      && WordsOf(lines) == Words(text)
      && LinesFit(lines, measure, size, maxWidth)
      && LinesMaximal(lines, measure, size, maxWidth)
  {
    ParagraphsKeepWords(text);
    var ps := SplitOn(text, "\n");
    MarkedFacts(ps, measure, size, maxWidth);
    DropLast(Marked(ps, measure, size, maxWidth), measure, size, maxWidth);
  }

  // ---- choosing the font size ----

  /** The height the block is reckoned to need: one spacing per line, less
      0.3 of a spacing for each blank line. */
  function BlockHeight(lines: seq<string>, size: int): real {
    |lines| as real * Spacing(size) - Spacing(size) * BlankRatio * Blanks(lines) as real
  }

  /** The text wrapped at this size is short enough for the page. */
  predicate FitsPage(text: string, measure: Measure, size: int, pageWidth: real, pageHeight: real) {
    BlockHeight(Wrap(text, measure, size, pageWidth * MaxWidthRatio), size) <= pageHeight * HeightRatio
  }

  /** The shrinking loop over any fit test: from `size`, down in steps of 2
      until the test passes or the size is below 14. The test comes before
      the decrement, so a start of 12 or more never ends below 12. */
  function Shrink(fits: int -> bool, size: int): int
    decreases size
  {
    if fits(size) || size < MinFontSize then size
    else Shrink(fits, size - FontStep)
  }

  /** The loop never grows the size, moves in steps of 2, stops at a size
      that passes the test or is below 14, stops at once when the start
      passes, and from 12 or more never ends below 12. */
  lemma {:induction false} ShrinkFacts(fits: int -> bool, size: int)
    ensures var f := Shrink(fits, size);
      && f <= size && (size - f) % FontStep == 0
      && (fits(f) || f < MinFontSize)
      && (fits(size) || size < MinFontSize ==> f == size)
      && (size >= MinFontSize - FontStep ==> f >= MinFontSize - FontStep)
    decreases size
  {
    if !(fits(size) || size < MinFontSize) {
      ShrinkFacts(fits, size - FontStep);
    }
  }

  /** The j-th size the loop tries from `start`. */
  function Tried(start: int, j: nat): int {
    start - FontStep * j
  }

  /** The loop from `start` stops at its n-th size when every size it tries
      before was at least 14 and failed, and the n-th passes or is below 14. */
  lemma {:induction false} ShrinkFromTrials(fits: int -> bool, start: int, n: nat)
    requires forall j :: 0 <= j < n ==> Tried(start, j) >= MinFontSize && !fits(Tried(start, j))
    requires fits(Tried(start, n)) || Tried(start, n) < MinFontSize
    ensures Shrink(fits, start) == Tried(start, n)
    decreases n
  {
    if n > 0 {
      assert Tried(start, 0) == start;
      var next := start - FontStep;
      forall j | 0 <= j < n - 1
        ensures Tried(next, j) >= MinFontSize && !fits(Tried(next, j))
      {
        assert Tried(next, j) == Tried(start, j + 1);
      }
      assert Tried(next, n - 1) == Tried(start, n);
      ShrinkFromTrials(fits, next, n - 1);
    } else {
      assert Tried(start, 0) == start;
    }
  }

  /** The size is the largest candidate the loop accepts: every larger size it
      tried was at least 14 and failed the test. */
  lemma {:induction false} ShrinkIsLargest(fits: int -> bool, size: int, k: int)
    requires Shrink(fits, size) < k <= size && (size - k) % FontStep == 0
    ensures k >= MinFontSize && !fits(k)
    decreases size
  {
    if k < size {
      ShrinkIsLargest(fits, size - FontStep, k);
    }
  }

  /** When no size passes the test, shrinking from an even size of at least 12
      ends at 12, not at 14. */
  lemma {:induction false} ShrinkBottomsOut(fits: int -> bool, size: int)
    requires size >= MinFontSize - FontStep && size % 2 == 0
    requires forall k :: k >= MinFontSize - FontStep ==> !fits(k)
    ensures Shrink(fits, size) == MinFontSize - FontStep
    decreases size
  {
    if size >= MinFontSize {
      ShrinkBottomsOut(fits, size - FontStep);
    }
  }

  /** The size wrap_and_draw_text settles on when it starts from `size`. */
  function FittedSize(text: string, measure: Measure, size: int, pageWidth: real, pageHeight: real): int {
    Shrink(PageFits(text, measure, pageWidth, pageHeight), size)
  }

  /** The fit test of wrap_and_draw_text as a function of the size. */
  function PageFits(text: string, measure: Measure, pageWidth: real, pageHeight: real): int -> bool {
    k => FitsPage(text, measure, k, pageWidth, pageHeight)
  }

  /** The first n sizes tried on the way down from 26 were at least 14 and
      too tall for the page. */
  ghost predicate TooTall(text: string, measure: Measure, n: nat, pageWidth: real, pageHeight: real) {
    forall j :: 0 <= j < n ==>
      Tried(BaseFontSize, j) >= MinFontSize && !FitsPage(text, measure, Tried(BaseFontSize, j), pageWidth, pageHeight)
  }

  /** A size of at least 14 whose wrapped block is too tall joins the sizes
      tried and rejected. */
  lemma TooTallStep(text: string, measure: Measure, n: nat, pageWidth: real, pageHeight: real, lines: seq<string>)
    requires TooTall(text, measure, n, pageWidth, pageHeight) && Tried(BaseFontSize, n) >= MinFontSize
    requires lines == Wrap(text, measure, Tried(BaseFontSize, n), pageWidth * MaxWidthRatio)
    requires !(BlockHeight(lines, Tried(BaseFontSize, n)) <= pageHeight * HeightRatio)
    ensures TooTall(text, measure, n + 1, pageWidth, pageHeight)
  {
    assert !FitsPage(text, measure, Tried(BaseFontSize, n), pageWidth, pageHeight);
  }

  /** The size the loop stops at, after rejecting every larger one, is the
      size wrap_and_draw_text settles on. */
  lemma FittedFromTrials(text: string, measure: Measure, n: nat, pageWidth: real, pageHeight: real, lines: seq<string>)
    requires TooTall(text, measure, n, pageWidth, pageHeight)
    requires lines == Wrap(text, measure, Tried(BaseFontSize, n), pageWidth * MaxWidthRatio)
    requires BlockHeight(lines, Tried(BaseFontSize, n)) <= pageHeight * HeightRatio || Tried(BaseFontSize, n) < MinFontSize
    ensures FittedSize(text, measure, BaseFontSize, pageWidth, pageHeight) == Tried(BaseFontSize, n)
  {
    var fits := PageFits(text, measure, pageWidth, pageHeight);
    assert fits(Tried(BaseFontSize, n)) || Tried(BaseFontSize, n) < MinFontSize;
    forall j | 0 <= j < n
      ensures Tried(BaseFontSize, j) >= MinFontSize && !fits(Tried(BaseFontSize, j))
    {
      assert !FitsPage(text, measure, Tried(BaseFontSize, j), pageWidth, pageHeight);
    }
    ShrinkFromTrials(fits, BaseFontSize, n);
  }

  /** A one-word text wraps to that one word at every size and width. */
  lemma WrapOneWord(w: string, measure: Measure, size: int, maxWidth: real)
    requires IsWord(w)
    ensures Wrap(w, measure, size, maxWidth) == [w]
  {
    NoOccurrenceBefore(w, "\n", |w|);
    assert SplitOn(w, "\n") == [w];
    WordsOfJoin([w]);
    assert Words(w) == [w];
    assert Greedy([], [w], measure, size, maxWidth) == [[w]];
    assert ParaLines(w, measure, size, maxWidth) == [w];
    assert [w][..0] == [];
    assert Marked([w], measure, size, maxWidth) == [w, ""];
  }

  /** On a page with no height a one-word text never fits, and shrinking it
      from 26 ends at 12. */
  lemma ShrinksToTwelve(measure: Measure, pageWidth: real)
    ensures FittedSize("a", measure, BaseFontSize, pageWidth, 0.0) == MinFontSize - FontStep
  {
    var fits := PageFits("a", measure, pageWidth, 0.0);
    assert IsWord("a");
    forall k | k >= MinFontSize - FontStep
      ensures !fits(k)
    {
      WrapOneWord("a", measure, k, pageWidth * MaxWidthRatio);
      assert Blanks(["a"]) == 0;
    }
    ShrinkBottomsOut(fits, BaseFontSize);
  }

  // ---- placing the lines ----

  /** One drawn line: its left edge, its baseline and its text. */
  datatype Placed = Placed(x: real, y: real, text: string)

  /** The baseline of the first line: the block of BlockHeight is centred
      vertically on the page. */
  function StartY(lines: seq<string>, size: int, pageHeight: real): real {
    var h := BlockHeight(lines, size);
    (pageHeight - h) / 2.0 + h - Spacing(size)
  }

  /** The drawing loop from baseline y: a blank line moves the cursor down
      0.3 of a spacing; any other line is drawn centred horizontally and
      moves it down one spacing. */
  function Layout(lines: seq<string>, measure: Measure, size: int, pageWidth: real, y: real): seq<Placed>
    decreases |lines|
  {
    if lines == [] then []
    else if lines[0] == "" then Layout(lines[1..], measure, size, pageWidth, y - Spacing(size) * BlankRatio)
    else
      [Placed((pageWidth - measure(lines[0], size)) / 2.0, y, lines[0])]
      + Layout(lines[1..], measure, size, pageWidth, y - Spacing(size))
  }

  /** How far the drawing loop moves the cursor in all. */
  function Advance(lines: seq<string>, size: int): real {
    if lines == [] then 0.0
    else (if lines[0] == "" then Spacing(size) * BlankRatio else Spacing(size)) + Advance(lines[1..], size)
  }

  /** The lines that are not blank, in order. */
  function NonBlank(lines: seq<string>): seq<string> {
    if lines == [] then []
    else (if lines[0] == "" then [] else [lines[0]]) + NonBlank(lines[1..])
  }

  predicate Centred(p: Placed, measure: Measure, size: int, pageWidth: real) {
    2.0 * p.x + measure(p.text, size) == pageWidth
  }

  /** The drawing loop of wrap_and_draw_text. */
  method PlaceLines(lines: seq<string>, measure: Measure, size: int, pageWidth: real, pageHeight: real) returns (placed: seq<Placed>)
    ensures placed == Layout(lines, measure, size, pageWidth, StartY(lines, size, pageHeight))
  {
    var spacing := Spacing(size);
    var height := BlockHeight(lines, size);
    var y := (pageHeight - height) / 2.0 + height - spacing;
    placed := [];
    var i := 0;
    while i < |lines|
      invariant 0 <= i <= |lines|
      invariant placed + Layout(lines[i..], measure, size, pageWidth, y)
        == Layout(lines, measure, size, pageWidth, StartY(lines, size, pageHeight))
    {
      assert lines[i..][1..] == lines[i + 1..];
      var ln := lines[i];
      if ln == "" {
        y := y - spacing * BlankRatio;
      } else {
        var lw := measure(ln, size);
        var x := (pageWidth - lw) / 2.0;
        assert placed + [Placed(x, y, ln)] + Layout(lines[i + 1..], measure, size, pageWidth, y - spacing)
          == placed + ([Placed(x, y, ln)] + Layout(lines[i + 1..], measure, size, pageWidth, y - spacing));
        placed := placed + [Placed(x, y, ln)];
        y := y - spacing;
      }
      i := i + 1;
    }
  }

  /** Exactly the non-blank lines are drawn, in order, each centred
      horizontally, at baselines that go strictly down the page from y. */
  lemma LayoutFacts(lines: seq<string>, measure: Measure, size: int, pageWidth: real, y: real)
    requires size > 0
    ensures var placed := Layout(lines, measure, size, pageWidth, y);
      && |placed| == |NonBlank(lines)|
      && (forall i :: 0 <= i < |placed| ==> placed[i].text == NonBlank(lines)[i])
      && (forall i :: 0 <= i < |placed| ==> Centred(placed[i], measure, size, pageWidth))
      && (forall i :: 0 <= i < |placed| ==> placed[i].y <= y)
      && (forall i, j :: 0 <= i < j < |placed| ==> placed[i].y > placed[j].y)
  {
    LayoutTexts(lines, measure, size, pageWidth, y);
    LayoutCentred(lines, measure, size, pageWidth, y);
    LayoutDescends(lines, measure, size, pageWidth, y);
  }

  /** The first drawn line, when the first line is not blank. */
  lemma LayoutHead(lines: seq<string>, measure: Measure, size: int, pageWidth: real, y: real)
    requires lines != [] && lines[0] != ""
    ensures Layout(lines, measure, size, pageWidth, y)
         == [Placed((pageWidth - measure(lines[0], size)) / 2.0, y, lines[0])]
            + Layout(lines[1..], measure, size, pageWidth, y - Spacing(size))
  {
  }

  /** The drawn texts are the non-blank lines, in order. */
  lemma {:induction false} LayoutTexts(lines: seq<string>, measure: Measure, size: int, pageWidth: real, y: real)
    ensures var placed := Layout(lines, measure, size, pageWidth, y);
      && |placed| == |NonBlank(lines)|
      && (forall i :: 0 <= i < |placed| ==> placed[i].text == NonBlank(lines)[i])
    decreases |lines|
  {
    if lines != [] {
      var y' := if lines[0] == "" then y - Spacing(size) * BlankRatio else y - Spacing(size);
      LayoutTexts(lines[1..], measure, size, pageWidth, y');
      if lines[0] != "" {
        LayoutHead(lines, measure, size, pageWidth, y);
        assert NonBlank(lines) == [lines[0]] + NonBlank(lines[1..]);
      } else {
        assert NonBlank(lines) == NonBlank(lines[1..]);
      }
    }
  }

  /** Every drawn line is centred on the page. */
  lemma {:induction false} LayoutCentred(lines: seq<string>, measure: Measure, size: int, pageWidth: real, y: real)
    ensures var placed := Layout(lines, measure, size, pageWidth, y);
      forall i :: 0 <= i < |placed| ==> Centred(placed[i], measure, size, pageWidth)
    decreases |lines|
  {
    if lines != [] {
      var y' := if lines[0] == "" then y - Spacing(size) * BlankRatio else y - Spacing(size);
      LayoutCentred(lines[1..], measure, size, pageWidth, y');
      if lines[0] != "" {
        LayoutHead(lines, measure, size, pageWidth, y);
        var placed, rest := Layout(lines, measure, size, pageWidth, y), Layout(lines[1..], measure, size, pageWidth, y');
        forall i | 0 < i < |placed|
          ensures placed[i] == rest[i - 1]
        {
        }
        assert Centred(placed[0], measure, size, pageWidth);
      } else {
        assert Layout(lines, measure, size, pageWidth, y) == Layout(lines[1..], measure, size, pageWidth, y');
      }
    }
  }

  /** The baselines start at y at most and go strictly down. */
  lemma {:induction false} LayoutDescends(lines: seq<string>, measure: Measure, size: int, pageWidth: real, y: real)
    requires size > 0
    ensures var placed := Layout(lines, measure, size, pageWidth, y);
      && (forall i :: 0 <= i < |placed| ==> placed[i].y <= y)
      && (forall i, j :: 0 <= i < j < |placed| ==> placed[i].y > placed[j].y)
    decreases |lines|
  {
    if lines != [] {
      var ls := Spacing(size);
      assert ls > 0.0;
      var y' := if lines[0] == "" then y - ls * BlankRatio else y - ls;
      assert y' < y;
      LayoutDescends(lines[1..], measure, size, pageWidth, y');
      if lines[0] != "" {
        LayoutHead(lines, measure, size, pageWidth, y);
        var placed, rest := Layout(lines, measure, size, pageWidth, y), Layout(lines[1..], measure, size, pageWidth, y');
        forall i | 0 < i < |placed|
          ensures placed[i] == rest[i - 1]
        {
        }
        assert placed[0].y == y;
        assert forall j :: 0 < j < |placed| ==> placed[j].y <= y';
      } else {
        assert Layout(lines, measure, size, pageWidth, y) == Layout(lines[1..], measure, size, pageWidth, y');
      }
    }
  }

  /** The cursor moves one spacing per line, less 0.7 of a spacing per blank
      line. */
  lemma {:induction false} AdvanceSplit(lines: seq<string>, size: int)
    ensures Advance(lines, size)
      == (|lines| - Blanks(lines)) as real * Spacing(size) + Spacing(size) * BlankRatio * Blanks(lines) as real
  {
    if lines != [] {
      AdvanceSplit(lines[1..], size);
    }
  }

  /** The white space above the first line's box. */
  function TopMargin(lines: seq<string>, size: int, pageHeight: real): real {
    pageHeight - (StartY(lines, size, pageHeight) + Spacing(size))
  }

  /** The white space below the box of the last line, where the cursor ends. */
  function BottomMargin(lines: seq<string>, size: int, pageHeight: real): real {
    StartY(lines, size, pageHeight) + Spacing(size) - Advance(lines, size)
  }

  /** The height formula counts a blank line as 0.7 of a spacing but drawing
      moves only 0.3, so the drawn block sits 0.4 of a spacing per blank line
      above centre: it is centred exactly when the text has one paragraph. */
  lemma BlockOffCentre(lines: seq<string>, size: int, pageHeight: real)
    ensures BottomMargin(lines, size, pageHeight) - TopMargin(lines, size, pageHeight)
      == 0.4 * Spacing(size) * Blanks(lines) as real
    ensures size > 0 ==>
      (BottomMargin(lines, size, pageHeight) == TopMargin(lines, size, pageHeight) <==> Blanks(lines) == 0)
  {
    AdvanceSplit(lines, size);
    var n, g, ls := |lines| as real, Blanks(lines) as real, Spacing(size);
    MarginAlgebra(n, g, ls, pageHeight);
  }

  lemma MarginAlgebra(n: real, g: real, ls: real, pageHeight: real)
    ensures var h := n * ls - ls * BlankRatio * g;
      var start := (pageHeight - h) / 2.0 + h - ls;
      (start + ls - ((n - g) * ls + ls * BlankRatio * g)) - (pageHeight - (start + ls)) == 0.4 * ls * g
  {
  }

  // ---- the whole text block ----

  /** A fitted block: the size chosen, its lines and where each is drawn. */
  datatype FittedText = FittedText(size: int, lines: seq<string>, placed: seq<Placed>)

  /** wrap_and_draw_text as a value: the size the shrinking loop settles on
      from 26, the text wrapped at that size to 0.7 of the page width, and
      the lines laid out from the centred start. */
  function FitSpec(text: string, measure: Measure, pageWidth: real, pageHeight: real): FittedText {
    var size := FittedSize(text, measure, BaseFontSize, pageWidth, pageHeight);
    var lines := Wrap(text, measure, size, pageWidth * MaxWidthRatio);
    FittedText(size, lines, Layout(lines, measure, size, pageWidth, StartY(lines, size, pageHeight)))
  }

  /** wrap_and_draw_text: wraps at the current size, shrinks by 2 while the
      block is too tall and the size is at least 14, then draws the lines. */
  method FitText(text: string, measure: Measure, pageWidth: real, pageHeight: real) returns (r: FittedText)
    ensures r == FitSpec(text, measure, pageWidth, pageHeight)
  {
    var size := BaseFontSize;
    ghost var n: nat := 0;
    var maxWidth := pageWidth * MaxWidthRatio;
    var lines := WrapBlock(text, measure, size, maxWidth);
    while !(BlockHeight(lines, size) <= pageHeight * HeightRatio || size < MinFontSize)
      invariant size == Tried(BaseFontSize, n)
      invariant lines == Wrap(text, measure, size, maxWidth)
      invariant TooTall(text, measure, n, pageWidth, pageHeight)
      decreases size
    {
      TooTallStep(text, measure, n, pageWidth, pageHeight, lines);
      size, n := size - FontStep, n + 1;
      lines := WrapBlock(text, measure, size, maxWidth);
    }
    FittedFromTrials(text, measure, n, pageWidth, pageHeight, lines);
    var placed := PlaceLines(lines, measure, size, pageWidth, pageHeight);
    r := FittedText(size, lines, placed);
  }

  /** The size wrap_and_draw_text settles on: at least 12 and at most 26,
      reached from 26 in steps of 2, and 26 itself whenever the text fits at
      26. */
  lemma FittedSizeFacts(text: string, measure: Measure, pageWidth: real, pageHeight: real)
    ensures var f := FittedSize(text, measure, BaseFontSize, pageWidth, pageHeight);
      && MinFontSize - FontStep <= f <= BaseFontSize
      && (BaseFontSize - f) % FontStep == 0
      && (FitsPage(text, measure, BaseFontSize, pageWidth, pageHeight) ==> f == BaseFontSize)
  {
    var fits := PageFits(text, measure, pageWidth, pageHeight);
    ShrinkFacts(fits, BaseFontSize);
    assert fits(BaseFontSize) == FitsPage(text, measure, BaseFontSize, pageWidth, pageHeight);
  }

  /** Every size above the one settled on that the loop tried was at least 14
      and too tall: the size is the largest that fits, down to the floor. */
  lemma FittedSizeIsLargest(text: string, measure: Measure, pageWidth: real, pageHeight: real, k: int)
    requires FittedSize(text, measure, BaseFontSize, pageWidth, pageHeight) < k <= BaseFontSize
    requires (BaseFontSize - k) % FontStep == 0
    ensures k >= MinFontSize && !FitsPage(text, measure, k, pageWidth, pageHeight)
  {
    var fits := PageFits(text, measure, pageWidth, pageHeight);
    ShrinkIsLargest(fits, BaseFontSize, k);
    assert fits(k) == FitsPage(text, measure, k, pageWidth, pageHeight);
  }
}
