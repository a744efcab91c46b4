# Wikipedia section question answering — a Dafny model

This project models the answer pipeline of `wikipedia.py` in the
WikipediaURL-Chatbot-QnA repository. The pipeline takes a parsed article and
cuts it into sections: each heading `h1`–`h6`, except the table-of-contents
heading `Contents`, collects the paragraphs that follow it up to the next
heading. Citation markers such as `[12]` and `[edit]` tokens are removed from
titles and bodies. Each section is scored by an extractive question-answering
model. The best `top_n` sections are kept by score, and each kept answer is
rendered split around its answer span.

Modules, one per stage after a helper module, in dependency order:

- `SeqFacts` (`seqfacts.dfy`) holds the concatenation facts the proofs
  use as explicit steps.
- `Cleaner` (`cleaner.dfy`) models `clean_wiki_content`. Citation markers are
  removed with the left-to-right, non-overlapping scan of `re.sub`, then
  `[edit]` with the scan of `str.replace`.
- `Document` (`document.dfy`) models the page as a flattened pre-order
  sequence of nodes, plus `get_paragraph_text`. Each node is a tag, carrying
  its name and its children's texts, or a bare string.
- `Sections` (`sections.dfy`) models `get_wiki_extract`. It is a method with
  the outer loop over all tags and the inner `next_elements` loop with its
  `break`, proved against the function `Extract`.
- `Answers` (`answers.dfy`) models `get_answers`. The model is a `Scorer`
  parameter, a function of (question, context).
- `Ranking` (`ranking.dfy`) models `DataFrame.nlargest(n, 'score')` with
  `keep='first'`. It is a reference ranking: higher score first, equal
  scores in table order.
- `Rendering` (`rendering.dfy`) models the selection branch and rendering
  loop of `get_html_answers`, with Python slice semantics written out.

Notes on what the code does, where a reader might expect otherwise:

- A heading yields a section when its *raw* collected text is non-empty
  (`p != ''`), not when the cleaned text is. A body can be empty after
  cleaning (`Sections.CitationOnlyBodyKept`).
- The `Contents` test compares the *raw* heading text. A heading whose raw
  text is `Contents[edit]` is not skipped. It yields a section titled `Contents` when a
  non-empty paragraph follows it before the next heading.
- The scorer's span is not checked. An out-of-range span is sliced the way
  Python slices it.
- With no sections at all, `pd.DataFrame([])` has no `score` column, so
  `nlargest` raises instead of returning an empty list. The model returns
  `Failure(NoScoreColumn)` exactly when the extract is empty.
- The rendered split is not lossless (see Findings).

## Model

| member | source | states |
|---|---|---|
| `Cleaner.MarkerLength` | wikipedia.py:20 | the length of the citation marker `[digits]` the text starts with, or 0; a non-zero result always marks off a marker |
| `Cleaner.MarkerLengthExact` | wikipedia.py:20 | a text that starts with a marker of length l gets length l, never a longer or shorter one (greedy `\d+`, and `]` is not a digit) |
| `Cleaner.RemoveCitations` | wikipedia.py:20 | the citation pass never lengthens the text and leaves text without `[` unchanged |
| `Cleaner.RemoveEdits` | wikipedia.py:21 | the `[edit]` pass never lengthens the text and leaves text without `[` unchanged |
| `Cleaner.Clean` | wikipedia.py:18-23 | `clean_wiki_content` output is never longer than its input, and text with no `[` is returned unchanged; the output is fixed completely by `NoMarkerUnchanged` and `NoEditUnchanged` (nothing but matches is deleted) together with `CitationDeleted` and `EditDeleted` (every match is deleted) |
| `Cleaner.SplitAtBracket` | wikipedia.py:20 | text from a `[` onward is cleaned of citations independently of the text before it: a marker that starts before the `[` never reaches past it |
| `Cleaner.CitationDeleted` | wikipedia.py:20 | every `[digits]` marker is deleted wherever it stands, and the text on either side is cleaned independently |
| `Cleaner.EditDeleted` | wikipedia.py:21 | every literal `[edit]` is deleted wherever it stands, and the text on either side is cleaned independently |
| `Cleaner.RemoveCitationsDeletes` | wikipedia.py:20 | the citation pass only deletes characters, keeps the rest in order, and deletes none outside brackets, digits and `edit` |
| `Cleaner.RemoveEditsDeletes` | wikipedia.py:21 | the `[edit]` pass only deletes characters, keeps the rest in order, and deletes none outside brackets, digits and `edit` |
| `Cleaner.CleanDeletesOnlyMarkup` | wikipedia.py:18-23 | the cleaned text is a subsequence of the input, and every character outside `[]`, digits and `e d i t` keeps its count |
| `Cleaner.NoMarkerUnchanged` | wikipedia.py:20 | the citation pass deletes only matches: text in which no stretch is a `[digits]` marker comes out unchanged, whatever brackets and digits it holds |
| `Cleaner.NoEditUnchanged` | wikipedia.py:21 | the `[edit]` pass deletes only matches: text in which no stretch is `[edit]` comes out unchanged |
| `Cleaner.CleanKeepsUnmarked` | wikipedia.py:18-23 | text holding neither a citation marker nor `[edit]` is returned unchanged |
| `Cleaner.CleanKeepsBracketedWord` | wikipedia.py:18-23 | `"[a] 1971"` has brackets and digits but no marker, and is returned unchanged |
| `Cleaner.CleanTrailingCitation` | wikipedia.py:20 | a sentence without `[` followed by one citation marker cleans to the bare sentence |
| `Cleaner.CleanExample` | wikipedia.py:18-23 | `"Born in 1971.[12]"` cleans to `"Born in 1971."` |
| `Document.GetParagraphText` | wikipedia.py:25-31 | the loop returns the children's texts concatenated in child order, which is the tag's text |
| `Document.ConcatLayout` | wikipedia.py:25-31 | the paragraph text is each child's text at its offset, in child order, and nothing else |
| `Sections.Window` | wikipedia.py:41-47 | reference definition of the raw text collected after a heading: paragraph texts up to the next heading or the end of the page; described by `WindowNonEmpty`, `WindowIsRunBeforeHeading` and `WindowIsRunAtEnd` |
| `Sections.SectionAt` | wikipedia.py:49 | reference definition of one section: cleaned heading text, tag name, cleaned window |
| `Sections.Extract` | wikipedia.py:38-50 | reference definition of the extract: one `SectionAt` per heading that is not raw `Contents` and has raw text, in document order; described by `ExtractCharacterization` |
| `Sections.CollectParagraphs` | wikipedia.py:41-47 | the inner `next_elements` loop with its `break` returns exactly the window after the heading |
| `Sections.GetWikiExtract` | wikipedia.py:33-52 | the nested scan with early `break` returns exactly `Extract(doc)` |
| `Sections.ExtractCharacterization` | wikipedia.py:38-50 | the sections correspond one to one, in strictly increasing document order, to exactly the headings that are not raw `Contents` and whose window has raw text; each section is built from its heading |
| `Sections.ExtractTags` | wikipedia.py:36-50 | every section's tag is one of `h1`–`h6`, and no section comes from a heading whose raw text is `Contents` |
| `Sections.ExtractBound` | wikipedia.py:38-50 | there are no more sections than headings that are not titled `Contents` |
| `Sections.WindowNonEmpty` | wikipedia.py:41-48 | the raw text collected after a heading is non-empty if and only if a non-empty paragraph comes before the next heading or the end of the page |
| `Sections.WindowIsRunBeforeHeading` | wikipedia.py:41-47 | the collected text is the concatenation, in document order, of exactly the paragraphs before the next heading; nothing after that heading contributes |
| `Sections.WindowIsRunAtEnd` | wikipedia.py:41-47 | with no later heading, every later paragraph is collected, in document order |
| `Sections.WindowPrefix` | wikipedia.py:43-47 | a window that starts before a heading is unaffected by anything after that heading |
| `Sections.ExtractSplit` | wikipedia.py:38-50 | a page cut just before a heading yields the sections of the first part followed by those of the second; no text crosses a heading |
| `Sections.ContentsSkipped` | wikipedia.py:39 | a heading whose raw text is `Contents` yields nothing, and its paragraphs go to no section |
| `Sections.OneSection` | wikipedia.py:48-50 | a heading followed by one non-empty paragraph yields the section [cleaned title, tag name, cleaned paragraph] |
| `Sections.CitationOnlyBodyKept` | wikipedia.py:48-49 | a paragraph made only of a citation marker still yields a section, whose body is empty: the emptiness test uses the raw text |
| `Sections.LoneHeadingDropped` | wikipedia.py:48 | a heading with nothing after it yields no section |
| `Sections.TrailingHeadingDropped` | wikipedia.py:38-50 | headings Intro, Early Life and Career, where Career has no paragraph after it, give exactly two sections, Intro and Early Life |
| `Sections.HeaderNames` | wikipedia.py:36 | the header names are exactly `h` followed by a digit 1–6 |
| `Answers.Merge` | wikipedia.py:61 | the merged record has no shared key: the section and the scorer's result can both be read back from it unchanged |
| `Answers.Scored` | wikipedia.py:59-62 | one answer per section, in section order; each gives back its section and the scorer's result on that section's paragraph |
| `Answers.GetAnswers` | wikipedia.py:54-64 | one answer per section, in section order; title, tag and paragraph are copied unchanged; the scorer is called with that paragraph as context; its answer, score and span are added |
| `Ranking.NLargest` | wikipedia.py:72-74 | `nlargest(n)` returns min(n, rows) rows (none for n ≤ 0), each an input row; `NLargestSpec` gives the order and what is left out |
| `Ranking.Order` | wikipedia.py:72-74 | the ranking of the first m rows has m entries, each a position below m |
| `Ranking.OrderRanked` | wikipedia.py:72-74 | the ranking lists every row position exactly once, by score descending, with ties in table order |
| `Ranking.NLargestSpec` | wikipedia.py:70-74 | `nlargest` keeps min(n, rows) distinct input rows (none for n ≤ 0), highest score first, ties in table order; every row left out has a score no higher than every kept row, and a later position when the scores are equal |
| `Ranking.NLargestAll` | wikipedia.py:71-72 | with `top_n` at least the number of sections, every section is kept, without padding |
| `Ranking.NLargestIdempotent` | wikipedia.py:70-74 | selecting again from a selection returns it unchanged |
| `Ranking.TieKeepsEarlier` | wikipedia.py:74 | two sections with equal scores and n = 1: the earlier section is kept |
| `Rendering.SliceBound` | wikipedia.py:97-99 | a Python slice bound: a negative bound counts from the end, and bounds are clipped to the length |
| `Rendering.PySlice` | wikipedia.py:97-99 | `s[i:j]` is `s[i..j]` for in-range bounds, is empty when the normalised bounds cross, and is never longer than `s` |
| `Rendering.HighlightIsSpan` | wikipedia.py:98 | the highlighted piece is exactly `paragraph[start:end]` |
| `Rendering.PreStopsShort` | wikipedia.py:97 | the piece before the answer is `paragraph[0:start-1]`, one character short of the answer |
| `Rendering.PreWrapsAtStart` | wikipedia.py:81-97 | with `start == 0` the slice is `paragraph[0:-1]`: the whole paragraph but its last character |
| `Rendering.PostEmptyAtEnd` | wikipedia.py:82-99 | an answer that ends at the paragraph's last character or at its end is followed by the empty piece, since `paragraph[end:len-1]` then has crossed bounds |
| `Rendering.PostDropsLast` | wikipedia.py:82-99 | the piece after the answer is `paragraph[end:len-1]`, without the final character |
| `Rendering.AsWrittenLosesTwo` | wikipedia.py:97-99 | for a span with 1 ≤ start ≤ end ≤ len−1, the three pieces are the paragraph without the character before the answer and without the last character |
| `Rendering.AsWrittenNotLossless` | wikipedia.py:97-99 | on `"abcde"` with span [2, 3) the pieces are `"a"`, `"c"`, `"d"`, which do not rebuild the paragraph |
| `Rendering.AsWrittenRepeatsAtStart` | wikipedia.py:97-99 | on `"abcde"` with span [0, 1) the pieces are `"abcd"`, `"a"`, `"bcd"`, so text is repeated |
| `Rendering.RenderLossless` | wikipedia.py:97-99 | the corrected split `paragraph[:start]`, `[start:end]`, `[end:]` rebuilds the paragraph exactly for every valid span |
| `Rendering.RenderAsWritten` | wikipedia.py:81-99 | a rendered block keeps the row's answer, score, title and tag; the piece before the answer is a prefix of the paragraph and no piece is longer than it; the pieces are detailed by `HighlightIsSpan`, `PreStopsShort` and `PostDropsLast` |
| `Rendering.RenderAnswers` | wikipedia.py:77-104 | one block per selected row, in selected order, each with the pieces as written |
| `Rendering.GetHtmlAnswers` | wikipedia.py:66-106 | fails exactly when the page has no sections; otherwise it renders, in order, `nlargest(min(top_n, count))` of the scored sections, with min(top_n, count) rows (none for top_n ≤ 0); `top_n` defaults to 3 |

## Left out

- `get_soup` (wikipedia.py:8-16) is HTTP I/O plus BeautifulSoup parsing. The model takes the parsed page as a flattened pre-order node sequence. A heading or paragraph counts as a leaf whose text is its children's texts joined.
- Paragraphs nested inside paragraphs or headings are not modelled. There, BeautifulSoup's `next_elements` would visit the inner tag again. The model assumes headings and paragraphs do not nest.
- Comment nodes and other string subclasses that BeautifulSoup's `.text` skips are not modelled. Every string counts as text.
- The question-answering pipeline construction and the model itself (wikipedia.py:56) are not modelled. The model is the `Scorer` function parameter; it is deterministic, and its span is not checked.
- `Answers.Scored`: a section whose body is empty after cleaning (`Sections.CitationOnlyBodyKept`) is passed to the scorer with an empty context. The model does not capture what the real question-answering library does with an empty context; the `Scorer` parameter returns some result for it.
- `Ranking.NLargest`: ties are kept in table order in both branches of wikipedia.py:71-74. When `top_n` is at least the row count, pandas computes `nlargest(len(df))` by sorting, and there the order of tied scores is the sort's. The model does not capture that.
- The pandas DataFrame (wikipedia.py:69-70) is modelled as a sequence of `Answer` records. Scores are `real`; the NaN scores that `nlargest` would drop cannot occur.
- `round(row['score'] * 100, 2)` (wikipedia.py:86) is float formatting and is not modelled. A block carries the raw score.
- The HTML f-string template (wikipedia.py:88-102) is not modelled. Each answer is a `Block` record (answer, score, title, tag, pre, highlight, post). The string concatenation at wikipedia.py:104 is a sequence append.
- Python's regular-expression `\d` also matches non-ASCII digits. The model matches ASCII digits only.
- `Rendering.GetHtmlAnswers`: the source raises an exception when the page has no sections. The model returns `Failure(NoScoreColumn)` instead.
- `Rendering.GetHtmlAnswers`: it renders with the as-written split, because it models the code. The corrected split is `Rendering.RenderLossless`.
- wikipedia1.py is Streamlit UI, LangChain splitting, OpenAI embeddings, FAISS, pickle caching and chat-session state: all framework and foreign calls. It is not part of this model.
- app1.py is Streamlit page layout that calls `get_html_answers(question, url, 3)`. It is not part of this model. The default `top_n=3` of `get_html_answers` is the default value `Rendering.DefaultTopN` of `GetHtmlAnswers`' `topN` parameter.

## Findings

| source | as written | input that shows it | evidently intended | confidence | as-written member | corrected member |
|---|---|---|---|---|---|---|
| wikipedia.py:97 | the text before the answer is `paragraph[par_start:ans_start-1]`, which drops the character just before the answer | paragraph `"abcde"`, start 2, end 3: pieces `"a"`, `"c"`, `"d"` | `paragraph[:start]` | not executed; high | `Rendering.AsWrittenNotLossless` | `Rendering.RenderLossless` |
| wikipedia.py:82 | `par_end = len(paragraph) - 1` makes the text after the answer `paragraph[ans_end:len-1]`, which drops the last character | paragraph `"abcde"`, start 2, end 3: the last piece is `"d"`, not `"de"` | `paragraph[end:]` | not executed; high | `Rendering.AsWrittenLosesTwo` | `Rendering.RenderLossless` |
| wikipedia.py:97 | with `ans_start == 0` the bound `-1` counts from the end, so the text before the answer is the whole paragraph except its last character | paragraph `"abcde"`, start 0, end 1: pieces `"abcd"`, `"a"`, `"bcd"` | an empty piece before the answer | not executed; high | `Rendering.AsWrittenRepeatsAtStart` | `Rendering.RenderLossless` |
