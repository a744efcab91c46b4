/** The scoring adapter of wikipedia.py (get_answers): one call of the
    extractive question-answering model per section, with the section's
    paragraph as the context, and one answer record per section merging the
    section's fields with the model's result. */
module Answers {
  import opened Document
  import opened Sections

  /** What the question-answering model returns: the answer text, its
      confidence and the answer's character span in the context.  Nothing
      checks the span. */
  datatype QAResult = QAResult(answer: string, score: real, start: int, end: int)

  /** The model, as a function of (question, context). */
  type Scorer = (string, string) -> QAResult

  /** One row of the answers table. */
  datatype Answer = Answer(
    title: string, titleTag: string, paragraph: string,
    answer: string, score: real, start: int, end: int)

  /** The dictionary {'title', 'title_tag', 'paragraph', **result}.  No key
      is shared, so both the section and the result can be read back. */
  function Merge(section: Section, result: QAResult): (r: Answer)
    ensures Section(r.title, r.titleTag, r.paragraph) == section
    ensures QAResult(r.answer, r.score, r.start, r.end) == result
  {
    Answer(section.title, section.tag, section.paragraph,
           result.answer, result.score, result.start, result.end)
  }

  /** The answers for a list of sections, in section order. */
  function Scored(question: string, sections: seq<Section>, scorer: Scorer): (r: seq<Answer>)
    ensures |r| == |sections|
    ensures forall k :: 0 <= k < |r| ==>
              Section(r[k].title, r[k].titleTag, r[k].paragraph) == sections[k] &&
              QAResult(r[k].answer, r[k].score, r[k].start, r[k].end) ==
                scorer(question, sections[k].paragraph)
  {
    var r := seq(|sections|, k requires 0 <= k < |sections| =>
      Merge(sections[k], scorer(question, sections[k].paragraph)));
    assert forall k :: 0 <= k < |r| ==> r[k] == Merge(sections[k], scorer(question, sections[k].paragraph));
    r
  }

  /** get_answers, over the already parsed page. */
  method GetAnswers(question: string, doc: seq<Node>, scorer: Scorer) returns (answers: seq<Answer>)
    ensures answers == Scored(question, Extract(doc), scorer)
    ensures |answers| == |Extract(doc)|
    ensures forall k :: 0 <= k < |answers| ==>
              var s, r := Extract(doc)[k], scorer(question, Extract(doc)[k].paragraph);
              answers[k].title == s.title && answers[k].titleTag == s.tag &&
              answers[k].paragraph == s.paragraph &&
              answers[k].answer == r.answer && answers[k].score == r.score &&
              answers[k].start == r.start && answers[k].end == r.end
  {
    var wikiExtract := GetWikiExtract(doc);
    answers := [];
    var i := 0;
    while i < |wikiExtract|
      invariant 0 <= i <= |wikiExtract|
      invariant |answers| == i
      invariant forall k :: 0 <= k < i ==>
                  answers[k] == Merge(wikiExtract[k], scorer(question, wikiExtract[k].paragraph))
    {
      var section := wikiExtract[i];
      var result := scorer(question, section.paragraph);
      answers := answers + [Merge(section, result)];
      i := i + 1;
    }
  }
}
