/** The rendering loop of wikipedia.py (get_html_answers, lines 66-106): the
    top rows by score, each split around its answer span into the text
    before, the highlighted answer and the text after, using Python slices
    exactly as the code writes them.  Each block is modelled as a record of
    its pieces rather than as HTML markup. */
module Rendering {
  import opened Document
  import opened Sections
  import opened Answers
  import opened Ranking

  /** A Python slice bound: a negative bound counts from the end, and bounds
      are clipped to [0, n]. */
  function SliceBound(i: int, n: nat): (b: nat)
    ensures b <= n
    ensures 0 <= i <= n ==> b == i
    ensures i < 0 && i + n >= 0 ==> b == n + i
    ensures i + n < 0 ==> b == 0
    ensures i > n ==> b == n
  {
    if i < 0 then (if i + n < 0 then 0 else i + n)
    else if i > n then n
    else i
  }

  /** Python's s[i:j]. */
  function PySlice(s: string, i: int, j: int): (r: string)
    ensures 0 <= i <= j <= |s| ==> r == s[i..j]
    ensures SliceBound(j, |s|) <= SliceBound(i, |s|) ==> r == ""
    ensures |r| <= |s|
  {
    var a, b := SliceBound(i, |s|), SliceBound(j, |s|);
    if a < b then s[a..b] else ""
  }

  /** One rendered answer: the model's answer and score, the section title
      and its tag, and the paragraph cut into three pieces. */
  datatype Block = Block(
    answer: string, score: real, title: string, titleTag: string,
    pre: string, highlight: string, post: string)

  /** The pieces get_html_answers renders for one row:
      paragraph[0:start-1], paragraph[start:end] and paragraph[end:len-1]. */
  function RenderAsWritten(row: Answer): (b: Block)
    ensures b.answer == row.answer && b.score == row.score
    ensures b.title == row.title && b.titleTag == row.titleTag
    ensures b.pre <= row.paragraph
    ensures |b.highlight| <= |row.paragraph| && |b.post| <= |row.paragraph|
  {
    var p := row.paragraph;
    Block(row.answer, row.score, row.title, row.titleTag,
          PySlice(p, 0, row.start - 1), PySlice(p, row.start, row.end),
          PySlice(p, row.end, |p| - 1))
  }

  /** The highlighted piece is exactly the answer span of the paragraph. */
  lemma HighlightIsSpan(row: Answer)
    requires 0 <= row.start <= row.end <= |row.paragraph|
    ensures RenderAsWritten(row).highlight == row.paragraph[row.start..row.end]
  {
  }

  /** The piece before the answer stops one character short of the answer. */
  lemma PreStopsShort(row: Answer)
    requires 1 <= row.start <= |row.paragraph| + 1
    ensures RenderAsWritten(row).pre == row.paragraph[..row.start - 1]
  {
  }

  /** An answer at the very start wraps round: the slice bound -1 counts from
      the end, so the piece before it is the whole paragraph but its last
      character. */
  lemma PreWrapsAtStart(row: Answer)
    requires row.start == 0 && |row.paragraph| >= 1
    ensures RenderAsWritten(row).pre == row.paragraph[..|row.paragraph| - 1]
  {
  }

  /** The piece after the answer stops before the paragraph's last character. */
  lemma PostDropsLast(row: Answer)
    requires 0 <= row.end <= |row.paragraph| - 1
    ensures RenderAsWritten(row).post == row.paragraph[row.end..|row.paragraph| - 1]
  {
  }

  /** An answer that reaches the paragraph's last character, or its end, is
      followed by nothing: the slice paragraph[end:len-1] has crossed bounds. */
  lemma PostEmptyAtEnd(row: Answer)
    requires row.end >= |row.paragraph| - 1
    ensures RenderAsWritten(row).post == ""
  {
  }

  /** With a proper span inside the paragraph the three pieces as written
      lose the character just before the answer and the last character. */
  lemma AsWrittenLosesTwo(row: Answer)
    requires 1 <= row.start <= row.end <= |row.paragraph| - 1
    ensures var b, p := RenderAsWritten(row), row.paragraph;
            b.pre + b.highlight + b.post == p[..row.start - 1] + p[row.start..|p| - 1]
    ensures var b := RenderAsWritten(row);
            |b.pre + b.highlight + b.post| == |row.paragraph| - 2
  {
    var b, p := RenderAsWritten(row), row.paragraph;
    assert p[row.start..row.end] + p[row.end..|p| - 1] == p[row.start..|p| - 1];
  }

  /** A concrete row on which the split as written is not lossless. */
  lemma AsWrittenNotLossless(row: Answer)
    requires row.paragraph == "abcde" && row.start == 2 && row.end == 3
    ensures var b := RenderAsWritten(row);
            b.pre == "a" && b.highlight == "c" && b.post == "d" &&
            b.pre + b.highlight + b.post != row.paragraph
  {
    var p := row.paragraph;
    assert p[..1] == "a" && p[2..3] == "c" && p[3..4] == "d";
    assert |"a" + "c" + "d"| == 3;
  }

  /** A concrete answer at position 0: text is repeated. */
  lemma AsWrittenRepeatsAtStart(row: Answer)
    requires row.paragraph == "abcde" && row.start == 0 && row.end == 1
    ensures var b := RenderAsWritten(row);
            b.pre == "abcd" && b.highlight == "a" && b.post == "bcd"
  {
    var p := row.paragraph;
    assert p[..4] == "abcd" && p[0..1] == "a" && p[1..4] == "bcd";
  }

  /** The evidently intended split: paragraph[:start], paragraph[start:end],
      paragraph[end:]. */
  function RenderLossless(row: Answer): (b: Block)
    ensures b.answer == row.answer && b.score == row.score
    ensures b.title == row.title && b.titleTag == row.titleTag
    ensures 0 <= row.start <= row.end <= |row.paragraph| ==>
              b.pre + b.highlight + b.post == row.paragraph &&
              b.highlight == row.paragraph[row.start..row.end] &&
              |b.pre| == row.start
  {
    var p := row.paragraph;
    var b := Block(row.answer, row.score, row.title, row.titleTag,
                   PySlice(p, 0, row.start), PySlice(p, row.start, row.end),
                   PySlice(p, row.end, |p|));
    assert 0 <= row.start <= row.end <= |p| ==>
             p[..row.start] + p[row.start..row.end] + p[row.end..] == p;
    b
  }

  /** The loop over the selected rows, one block per row, in row order. */
  method RenderAnswers(rows: seq<Answer>) returns (blocks: seq<Block>)
    ensures |blocks| == |rows|
    ensures forall k :: 0 <= k < |rows| ==> blocks[k] == RenderAsWritten(rows[k])
  {
    blocks := [];
    var i := 0;
    while i < |rows|
      invariant 0 <= i <= |rows|
      invariant |blocks| == i
      invariant forall k :: 0 <= k < i ==> blocks[k] == RenderAsWritten(rows[k])
    {
      var row := rows[i];
      var p := row.paragraph;
      var parStart := 0;
      var parEnd := |p| - 1;
      var block := Block(row.answer, row.score, row.title, row.titleTag,
                         PySlice(p, parStart, row.start - 1), PySlice(p, row.start, row.end),
                         PySlice(p, row.end, parEnd));
      blocks := blocks + [block];
      i := i + 1;
    }
  }

  /** pd.DataFrame([]) has no 'score' column, so nlargest on it raises. */
  datatype Error = NoScoreColumn

  datatype Result<T> = Success(value: T) | Failure(error: Error)

  /** The top_n that get_html_answers uses when its caller gives none. */
  const DefaultTopN: int := 3

  /** get_html_answers over the already parsed page: score every section,
      keep the top_n best (all of them when there are no more than top_n),
      and render each kept row. */
  method GetHtmlAnswers(question: string, doc: seq<Node>, scorer: Scorer, topN: int := DefaultTopN)
    returns (r: Result<seq<Block>>)
    ensures r.Failure? <==> Extract(doc) == []
    ensures r.Success? ==>
              var top := NLargest(Scored(question, Extract(doc), scorer), topN);
              |r.value| == |top| && |top| == (if topN <= 0 then 0 else Min(topN, |Extract(doc)|)) &&
              forall k :: 0 <= k < |top| ==> r.value[k] == RenderAsWritten(top[k])
  {
    var answers := GetAnswers(question, doc, scorer);
    var nSections := |answers|;
    if nSections == 0 {
      return Failure(NoScoreColumn);
    }
    var dfAnswers;
    if nSections <= topN {
      dfAnswers := NLargest(answers, nSections);
      assert KeptRows(answers, nSections) == KeptRows(answers, topN);
    } else {
      dfAnswers := NLargest(answers, topN);
    }
    NLargestSpec(answers, topN);
    var blocks := RenderAnswers(dfAnswers);
    r := Success(blocks);
  }
}
