/** The section extractor of wikipedia.py (get_wiki_extract).  Every heading
    tag h1..h6 whose text is not exactly "Contents" opens a window that runs
    over the following elements up to the next heading of any level; the
    texts of the paragraphs in the window are concatenated, and when that
    raw concatenation is not empty the heading yields one section
    [cleaned title, tag name, cleaned body]. */
module Sections {
  import opened SeqFacts
  import opened Cleaner
  import opened Document

  const Headers: seq<string> := ["h1", "h2", "h3", "h4", "h5", "h6"]

  /** The title of the table of contents, which never opens a section. */
  const ContentsTitle: string := "Contents"

  datatype Section = Section(title: string, tag: string, paragraph: string)

  predicate IsHeader(n: Node) { n.Tag? && n.name in Headers }

  predicate IsPara(n: Node) { n.Tag? && n.name == "p" }

  /** The raw text collected from position j on: paragraph texts up to the
      next heading or the end of the document. */
  function Window(doc: seq<Node>, j: nat): string
    decreases |doc| - j
  {
    if j >= |doc| || IsHeader(doc[j]) then ""
    else (if IsPara(doc[j]) then NodeText(doc[j]) else "") + Window(doc, j + 1)
  }

  /** Element i is a heading that yields a section. */
  predicate Emits(doc: seq<Node>, i: nat) {
    i < |doc| && IsHeader(doc[i]) && NodeText(doc[i]) != ContentsTitle && Window(doc, i + 1) != ""
  }

  function SectionAt(doc: seq<Node>, i: nat): Section
    requires i < |doc| && doc[i].Tag?
  {
    Section(Clean(NodeText(doc[i])), doc[i].name, Clean(Window(doc, i + 1)))
  }

  /** The sections yielded by the first n elements, in document order. */
  function ExtractPrefix(doc: seq<Node>, n: nat): seq<Section>
    requires n <= |doc|
  {
    if n == 0 then []
    else ExtractPrefix(doc, n - 1) + (if Emits(doc, n - 1) then [SectionAt(doc, n - 1)] else [])
  }

  function Extract(doc: seq<Node>): seq<Section> {
    ExtractPrefix(doc, |doc|)
  }

  /** The positions of the headings that yield sections, in document order. */
  function OriginsPrefix(doc: seq<Node>, n: nat): seq<nat>
    requires n <= |doc|
  {
    if n == 0 then []
    else OriginsPrefix(doc, n - 1) + (if Emits(doc, n - 1) then [n - 1] else [])
  }

  function Origins(doc: seq<Node>): seq<nat> {
    OriginsPrefix(doc, |doc|)
  }

  /** The inner loop of get_wiki_extract: walk the elements after a heading,
      appending each paragraph's text, and stop at the next heading. */
  method CollectParagraphs(doc: seq<Node>, start: nat) returns (p: string)
    requires start <= |doc|
    ensures p == Window(doc, start)
  {
    p := "";
    var j := start;
    while j < |doc|
      invariant start <= j <= |doc|
      invariant Window(doc, start) == p + Window(doc, j)
    {
      var ne := doc[j];
      ghost var before := p;
      if ne.Tag? && ne.name == "p" {
        var text := GetParagraphText(ne);
        p := p + text;
      }
      if ne.Tag? && ne.name in Headers {
        assert p == before;
        break;
      }
      assert p == before + (if IsPara(ne) then NodeText(ne) else "");
      AppendAssoc(before, if IsPara(ne) then NodeText(ne) else "", Window(doc, j + 1));
      j := j + 1;
    }
  }

  /** get_wiki_extract, over the already parsed page. */
  method GetWikiExtract(doc: seq<Node>) returns (sections: seq<Section>)
    ensures sections == Extract(doc)
  {
    sections := [];
    var i := 0;
    while i < |doc|
      invariant 0 <= i <= |doc|
      invariant sections == ExtractPrefix(doc, i)
    {
      var tag := doc[i];
      ExtractPrefixNext(doc, i, i + 1);
      if tag.Tag? && tag.name in Headers && NodeText(tag) != ContentsTitle {
        var p := CollectParagraphs(doc, i + 1);
        SlotOfHeading(doc, i, i + 1, p);
        if p != "" {
          sections := sections + [Section(Clean(NodeText(tag)), tag.name, Clean(p))];
        } else {
          AppendEmpty(sections);
        }
      } else {
        AppendEmpty(sections);
      }
      i := i + 1;
    }
  }

  /** A heading not titled "Contents" contributes the section of its window,
      when the window holds raw text.
      The position is a parameter of its own, tied by a requires, so that
      callers pass a plain variable rather than a sum of terms. */
  lemma SlotOfHeading(doc: seq<Node>, i: nat, j: nat, p: string)
    requires i < |doc| && j == i + 1 && IsHeader(doc[i]) && NodeText(doc[i]) != ContentsTitle
    requires p == Window(doc, j)
    ensures Slot(doc, i) == if p != "" then [Section(Clean(NodeText(doc[i])), doc[i].name, Clean(p))] else []
  {
  }

  /** One more element adds its contribution.
      The position is a parameter of its own, tied by a requires, so that
      callers pass a plain variable rather than a sum of terms. */
  lemma ExtractPrefixNext(doc: seq<Node>, i: nat, n: nat)
    requires n == i + 1 && n <= |doc|
    ensures ExtractPrefix(doc, n) == ExtractPrefix(doc, i) + Slot(doc, i)
  {
    assert n - 1 == i;
  }

  /** One more element adds its position when it emits.
      The position is a parameter of its own, tied by a requires, so that
      callers pass a plain variable rather than a sum of terms. */
  lemma OriginsNext(doc: seq<Node>, i: nat, n: nat)
    requires n == i + 1 && n <= |doc|
    ensures OriginsPrefix(doc, n) == OriginsPrefix(doc, i) + (if Emits(doc, i) then [i] else [])
  {
  }

  /** Appending one emitting heading keeps sections and origins aligned.
      The position is a parameter of its own, tied by a requires, so that
      callers pass a plain variable rather than a sum of terms. */
  lemma FollowsAppend(doc: seq<Node>, i: nat, n: nat, e: seq<Section>, o: seq<nat>, e': seq<Section>, o': seq<nat>)
    requires n == i + 1 && n <= |doc| && doc[i].Tag? && |e| == |o|
    requires forall k :: 0 <= k < |o| ==> o[k] < i && doc[o[k]].Tag? && e[k] == SectionAt(doc, o[k])
    requires e' == e + [SectionAt(doc, i)] && o' == o + [i]
    ensures |e'| == |o'|
    ensures forall k :: 0 <= k < |o'| ==> o'[k] < n && doc[o'[k]].Tag? && e'[k] == SectionAt(doc, o'[k])
  {
    forall k | 0 <= k < |o'|
      ensures o'[k] < n && doc[o'[k]].Tag? && e'[k] == SectionAt(doc, o'[k])
    {
      if k < |o| {
        assert o'[k] == o[k] && e'[k] == e[k];
      }
    }
  }

  /** The extract is the sections of exactly the emitting headings. */
  lemma {:induction false} ExtractFollowsOrigins(doc: seq<Node>, n: nat)
    requires n <= |doc|
    ensures |ExtractPrefix(doc, n)| == |OriginsPrefix(doc, n)|
    ensures forall k :: 0 <= k < |OriginsPrefix(doc, n)| ==>
              OriginsPrefix(doc, n)[k] < n && doc[OriginsPrefix(doc, n)[k]].Tag? &&
              ExtractPrefix(doc, n)[k] == SectionAt(doc, OriginsPrefix(doc, n)[k])
  {
    if n > 0 {
      var i := n - 1;
      ExtractFollowsOrigins(doc, i);
      ExtractPrefixNext(doc, i, n);
      OriginsNext(doc, i, n);
      var e, o := ExtractPrefix(doc, i), OriginsPrefix(doc, i);
      if Emits(doc, i) {
        FollowsAppend(doc, i, n, e, o, ExtractPrefix(doc, n), OriginsPrefix(doc, n));
      } else {
        AppendEmpty(e);
        AppendEmpty(o);
      }
    }
  }

  /** The origins are strictly increasing -- so each heading yields at most one
      section, in document order -- and are exactly the emitting headings. */
  lemma OriginsExact(doc: seq<Node>, n: nat)
    requires n <= |doc|
    ensures forall a, b :: 0 <= a < b < |OriginsPrefix(doc, n)| ==>
              OriginsPrefix(doc, n)[a] < OriginsPrefix(doc, n)[b]
    ensures forall i: nat :: i in OriginsPrefix(doc, n) <==> i < n && Emits(doc, i)
  {
    OriginsMembers(doc, n);
    OriginsIncreasing(doc, n);
  }

  lemma {:induction false} OriginsMembers(doc: seq<Node>, n: nat)
    requires n <= |doc|
    ensures forall i: nat :: i in OriginsPrefix(doc, n) <==> i < n && Emits(doc, i)
  {
    if n > 0 {
      var i := n - 1;
      OriginsMembers(doc, i);
      OriginsNext(doc, i, n);
    }
  }

  lemma {:induction false} OriginsIncreasing(doc: seq<Node>, n: nat)
    requires n <= |doc|
    ensures forall a, b :: 0 <= a < b < |OriginsPrefix(doc, n)| ==>
              OriginsPrefix(doc, n)[a] < OriginsPrefix(doc, n)[b]
    ensures forall k :: 0 <= k < |OriginsPrefix(doc, n)| ==> OriginsPrefix(doc, n)[k] < n
  {
    if n > 0 {
      var i := n - 1;
      OriginsIncreasing(doc, i);
      OriginsNext(doc, i, n);
      var o := OriginsPrefix(doc, i);
      if Emits(doc, i) {
        OriginsAppend(o, OriginsPrefix(doc, n), i, n);
      } else {
        AppendEmpty(o);
      }
    }
  }

  /** Appending a position above all listed ones keeps the list increasing. */
  lemma OriginsAppend(o: seq<nat>, o': seq<nat>, m: nat, n: nat)
    requires n == m + 1
    requires forall a, b :: 0 <= a < b < |o| ==> o[a] < o[b]
    requires forall k :: 0 <= k < |o| ==> o[k] < m
    requires o' == o + [m]
    ensures forall a, b :: 0 <= a < b < |o'| ==> o'[a] < o'[b]
    ensures forall k :: 0 <= k < |o'| ==> o'[k] < n
  {
  }

  /** get_wiki_extract emits, in document order, one section for each heading
      that is not titled "Contents" and whose window holds some raw text, and
      nothing else. */
  lemma ExtractCharacterization(doc: seq<Node>)
    ensures |Extract(doc)| == |Origins(doc)|
    ensures forall a, b :: 0 <= a < b < |Origins(doc)| ==> Origins(doc)[a] < Origins(doc)[b]
    ensures forall i: nat :: i in Origins(doc) <==> Emits(doc, i)
    ensures forall k :: 0 <= k < |Origins(doc)| ==>
              Origins(doc)[k] < |doc| && IsHeader(doc[Origins(doc)[k]]) &&
              Extract(doc)[k] == SectionAt(doc, Origins(doc)[k])
  {
    ExtractFollowsOrigins(doc, |doc|);
    OriginsExact(doc, |doc|);
    forall k | 0 <= k < |Origins(doc)|
      ensures IsHeader(doc[Origins(doc)[k]])
    {
      assert Origins(doc)[k] in Origins(doc);
    }
  }

  /** Every section's tag field is one of h1..h6, and no section comes from a
      heading whose raw text is exactly "Contents". */
  lemma ExtractTags(doc: seq<Node>)
    ensures forall k :: 0 <= k < |Extract(doc)| ==> Extract(doc)[k].tag in Headers
    ensures forall k :: 0 <= k < |Origins(doc)| ==>
              Origins(doc)[k] < |doc| && NodeText(doc[Origins(doc)[k]]) != ContentsTitle
  {
    ExtractCharacterization(doc);
    forall k | 0 <= k < |Origins(doc)|
      ensures Origins(doc)[k] < |doc| && Extract(doc)[k].tag in Headers &&
              NodeText(doc[Origins(doc)[k]]) != ContentsTitle
    {
      assert Origins(doc)[k] in Origins(doc);
    }
  }

  /** How many headings other than "Contents" the first n elements hold. */
  function HeadingCount(doc: seq<Node>, n: nat): nat
    requires n <= |doc|
  {
    if n == 0 then 0
    else HeadingCount(doc, n - 1) +
         (if IsHeader(doc[n - 1]) && NodeText(doc[n - 1]) != ContentsTitle then 1 else 0)
  }

  /** At most one section per candidate heading. */
  lemma {:induction false} ExtractBound(doc: seq<Node>, n: nat)
    requires n <= |doc|
    ensures |ExtractPrefix(doc, n)| <= HeadingCount(doc, n)
  {
    if n > 0 { ExtractBound(doc, n - 1); }
  }

  /** The text between positions j and m contributes a paragraph at m. */
  predicate ContributesAt(doc: seq<Node>, j: nat, m: nat) {
    j <= m < |doc| && IsPara(doc[m]) && NodeText(doc[m]) != "" &&
    forall q :: j <= q < m ==> !IsHeader(doc[q])
  }

  /** A window holds raw text exactly when some non-empty paragraph stands
      before the next heading (or the end of the document). */
  lemma {:induction false} WindowNonEmpty(doc: seq<Node>, j: nat)
    ensures Window(doc, j) != "" <==> exists m: nat :: ContributesAt(doc, j, m)
    decreases |doc| - j
  {
    if j < |doc| && !IsHeader(doc[j]) {
      WindowNonEmpty(doc, j + 1);
      var head := if IsPara(doc[j]) then NodeText(doc[j]) else "";
      assert Window(doc, j) == head + Window(doc, j + 1);
      forall m: nat | ContributesAt(doc, j, m) && m != j ensures ContributesAt(doc, j + 1, m) {
      }
      forall m: nat | ContributesAt(doc, j + 1, m) ensures ContributesAt(doc, j, m) {
      }
      if head != "" {
        assert ContributesAt(doc, j, j);
      } else if m: nat :| ContributesAt(doc, j, m) {
        assert m != j;
        assert ContributesAt(doc, j + 1, m);
      } else {
        assert Window(doc, j) == Window(doc, j + 1);
        if Window(doc, j + 1) != "" {
          var m: nat :| ContributesAt(doc, j + 1, m);
          assert ContributesAt(doc, j, m);
        }
      }
    } else if j < |doc| {
      HeaderIsNotPara(doc, j);
      forall m: nat | j <= m < |doc| ensures !ContributesAt(doc, j, m) {
        assert IsHeader(doc[j]);
      }
    }
  }

  lemma HeaderIsNotPara(doc: seq<Node>, j: nat)
    ensures j < |doc| && IsHeader(doc[j]) ==> !IsPara(doc[j])
  {
  }

  /** The paragraph texts of a run of elements, joined in document order. */
  function ParaTexts(run: seq<Node>): string
    decreases |run|
  {
    if run == [] then ""
    else ParaTexts(run[..|run| - 1]) +
         (if IsPara(run[|run| - 1]) then NodeText(run[|run| - 1]) else "")
  }

  lemma {:induction false} ParaTextsCons(n: Node, run: seq<Node>)
    ensures ParaTexts([n] + run) == (if IsPara(n) then NodeText(n) else "") + ParaTexts(run)
    decreases |run|
  {
    if run != [] {
      var whole := [n] + run;
      assert whole[..|whole| - 1] == [n] + run[..|run| - 1];
      ParaTextsCons(n, run[..|run| - 1]);
    } else {
      assert ([n] + run)[..0] == [];
    }
  }

  /** A heading's window is exactly the paragraphs between it and the next
      heading: with a heading-free run followed by a heading, whatever comes
      after that heading contributes nothing. */
  lemma {:induction false} WindowIsRunBeforeHeading(run: seq<Node>, next: Node, rest: seq<Node>)
    requires forall q :: 0 <= q < |run| ==> !IsHeader(run[q])
    requires IsHeader(next)
    ensures Window(run + [next] + rest, 0) == ParaTexts(run)
    decreases |run|
  {
    var doc := run + [next] + rest;
    if run == [] {
      assert doc[0] == next;
    } else {
      WindowShift(doc);
      assert doc[1..] == run[1..] + [next] + rest;
      WindowIsRunBeforeHeading(run[1..], next, rest);
      ParaTextsCons(run[0], run[1..]);
      assert [run[0]] + run[1..] == run;
    }
  }

  /** A heading-free run that reaches the end of the document: all of its
      paragraphs are collected. */
  lemma {:induction false} WindowIsRunAtEnd(run: seq<Node>)
    requires forall q :: 0 <= q < |run| ==> !IsHeader(run[q])
    ensures Window(run, 0) == ParaTexts(run)
    decreases |run|
  {
    if run != [] {
      WindowShift(run);
      WindowIsRunAtEnd(run[1..]);
      ParaTextsCons(run[0], run[1..]);
      assert [run[0]] + run[1..] == run;
    }
  }

  /** Dropping a leading element that is not a heading from the window. */
  lemma WindowShift(doc: seq<Node>)
    requires |doc| >= 1 && !IsHeader(doc[0])
    ensures Window(doc, 0) == (if IsPara(doc[0]) then NodeText(doc[0]) else "") + Window(doc[1..], 0)
  {
    WindowDrop(doc, 1, 0);
  }

  /** The window from j + d of doc is the window from j of doc[d..]. */
  lemma WindowDrop(doc: seq<Node>, d: nat, j: nat)
    requires d <= |doc|
    ensures Window(doc, d + j) == Window(doc[d..], j)
  {
    WindowDropAt(doc, d, j, d + j);
  }

  /** WindowDrop, with the position i = d + j in doc named.
      The position is a parameter of its own, tied by a requires, so that
      callers pass a plain variable rather than a sum of terms. */
  lemma {:induction false} WindowDropAt(doc: seq<Node>, d: nat, j: nat, i: nat)
    requires d <= |doc| && i == d + j
    ensures Window(doc, i) == Window(doc[d..], j)
    decreases |doc| - i
  {
    if i < |doc| && !IsHeader(doc[i]) {
      assert doc[d..][j] == doc[i];
      WindowDropAt(doc, d, j + 1, i + 1);
    }
  }

  /** The header list is the six names h1 .. h6. */
  lemma HeaderNames(name: string)
    ensures name in Headers <==> |name| == 2 && name[0] == 'h' && '1' <= name[1] <= '6'
  {
    if |name| == 2 && name[0] == 'h' && '1' <= name[1] <= '6' {
      assert name == Headers[(name[1] as int) - ('1' as int)];
    }
  }

  /** A window that starts before a heading stops at it: what follows the
      heading contributes nothing. */
  lemma {:induction false} WindowPrefix(pre: seq<Node>, post: seq<Node>, j: nat)
    requires post == [] || IsHeader(post[0])
    requires j <= |pre|
    ensures Window(pre + post, j) == Window(pre, j)
    decreases |pre| - j
  {
    if j < |pre| {
      WindowPrefix(pre, post, j + 1);
    }
  }

  /** What precedes a window's start plays no part in it. */
  lemma WindowSuffix(pre: seq<Node>, post: seq<Node>, j: nat)
    ensures Window(pre + post, |pre| + j) == Window(post, j)
  {
    WindowDrop(pre + post, |pre|, j);
    assert (pre + post)[|pre|..] == post;
  }

  lemma {:induction false} ExtractPrefixLeft(pre: seq<Node>, post: seq<Node>, n: nat)
    requires post == [] || IsHeader(post[0])
    requires n <= |pre|
    ensures ExtractPrefix(pre + post, n) == ExtractPrefix(pre, n)
  {
    if n > 0 {
      ExtractPrefixLeft(pre, post, n - 1);
      WindowPrefix(pre, post, n);
    }
  }

  /** What element i contributes to the extract. */
  function Slot(doc: seq<Node>, i: nat): seq<Section>
    requires i < |doc|
  {
    if Emits(doc, i) then [SectionAt(doc, i)] else []
  }

  /** The contribution of every element, in document order. */
  function Slots(doc: seq<Node>): (r: seq<seq<Section>>)
    ensures |r| == |doc|
  {
    seq(|doc|, i requires 0 <= i < |doc| => Slot(doc, i))
  }

  /** The first n contributions, one after the other. */
  function Gather(xs: seq<seq<Section>>, n: nat): seq<Section>
    requires n <= |xs|
  {
    if n == 0 then [] else Gather(xs, n - 1) + xs[n - 1]
  }

  lemma {:induction false} GatherIsExtract(doc: seq<Node>, n: nat)
    requires n <= |doc|
    ensures Gather(Slots(doc), n) == ExtractPrefix(doc, n)
  {
    if n > 0 {
      var k := n - 1;
      GatherIsExtract(doc, k);
      GatherNext(Slots(doc), k, n);
      assert Slots(doc)[k] == Slot(doc, k);
      ExtractPrefixNext(doc, k, n);
    }
  }

  /** One more entry adds its contribution to the concatenation.
      The position is a parameter of its own, tied by a requires, so that
      callers pass a plain variable rather than a sum of terms. */
  lemma GatherNext(xs: seq<seq<Section>>, k: nat, n: nat)
    requires n == k + 1 && n <= |xs|
    ensures Gather(xs, n) == Gather(xs, k) + xs[k]
  {
  }

  lemma {:induction false} GatherDrop(xs: seq<seq<Section>>, off: nat, m: nat)
    requires off + m <= |xs|
    ensures Gather(xs, off + m) == Gather(xs, off) + Gather(xs[off..], m)
  {
    if m > 0 {
      GatherDrop(xs, off, m - 1);
      assert xs[off..][m - 1] == xs[off + (m - 1)];
      AppendAssoc(Gather(xs, off), Gather(xs[off..], m - 1), xs[off + (m - 1)]);
    } else {
      AppendEmpty(Gather(xs, off));
    }
  }

  /** Two elements that are equal and see equal windows contribute the same.
      The position is a parameter of its own, tied by a requires, so that
      callers pass a plain variable rather than a sum of terms. */
  lemma SlotsAgree(d: seq<Node>, i: nat, j: nat, e: seq<Node>, k: nat)
    requires i < |d| && k < |e| && d[i] == e[k] && j == i + 1
    requires Window(d, j) == Window(e, k + 1)
    ensures Slot(d, i) == Slot(e, k)
  {
  }

  /** Element k of post contributes what it does after pre. */
  lemma SlotSuffix(pre: seq<Node>, post: seq<Node>, k: nat)
    requires k < |post|
    ensures Slot(pre + post, |pre| + k) == Slot(post, k)
  {
    WindowSuffix(pre, post, k + 1);
    assert (pre + post)[|pre| + k] == post[k];
    SlotsAgree(pre + post, |pre| + k, |pre| + (k + 1), post, k);
  }

  /** Past the end of pre, every element contributes what it does in post. */
  lemma SlotsSuffix(pre: seq<Node>, post: seq<Node>)
    ensures Slots(pre + post)[|pre|..] == Slots(post)
  {
    forall k | 0 <= k < |post|
      ensures Slots(pre + post)[|pre|..][k] == Slots(post)[k]
    {
      SlotSuffix(pre, post, k);
    }
  }

  /** The concatenation of the first n entries splits at off.
      The position is a parameter of its own, tied by a requires, so that
      callers pass a plain variable rather than a sum of terms. */
  lemma GatherAfter(xs: seq<seq<Section>>, off: nat, ys: seq<seq<Section>>, m: nat, n: nat)
    requires n == off + m && n <= |xs| && xs[off..] == ys
    ensures Gather(xs, n) == Gather(xs, off) + Gather(ys, m)
  {
    GatherDrop(xs, off, m);
  }

  /** Elements that contribute as those of post do yield post's sections.
      The position is a parameter of its own, tied by a requires, so that
      callers pass a plain variable rather than a sum of terms. */
  lemma ExtractPrefixAfter(doc: seq<Node>, off: nat, post: seq<Node>, m: nat, n: nat)
    requires n == off + m && n <= |doc| && m <= |post| && Slots(doc)[off..] == Slots(post)
    ensures ExtractPrefix(doc, n) == ExtractPrefix(doc, off) + ExtractPrefix(post, m)
  {
    GatherIsExtract(doc, n);
    GatherIsExtract(doc, off);
    GatherIsExtract(post, m);
    GatherAfter(Slots(doc), off, Slots(post), m, n);
  }

  lemma ExtractPrefixRight(pre: seq<Node>, post: seq<Node>, m: nat)
    requires m <= |post|
    ensures ExtractPrefix(pre + post, |pre| + m) ==
            ExtractPrefix(pre + post, |pre|) + ExtractPrefix(post, m)
  {
    SlotsSuffix(pre, post);
    ExtractPrefixAfter(pre + post, |pre|, post, m, |pre| + m);
  }

  /** Sections never straddle a heading: a page cut just before a heading
      yields the sections of its two parts, one after the other. */
  lemma ExtractSplit(pre: seq<Node>, post: seq<Node>)
    requires post == [] || IsHeader(post[0])
    ensures Extract(pre + post) == Extract(pre) + Extract(post)
  {
    ExtractPrefixRight(pre, post, |post|);
    ExtractPrefixLeft(pre, post, |pre|);
  }

  /** A heading titled exactly "Contents" yields nothing, and the paragraphs
      after it are attributed to no section. */
  lemma ContentsSkipped(contents: Node, rest: seq<Node>)
    requires IsHeader(contents) && NodeText(contents) == ContentsTitle
    ensures Extract([contents] + rest) == Extract(rest)
  {
    var doc := [contents] + rest;
    assert !Emits(doc, 0);
    assert ExtractPrefix(doc, 1) == [];
    ExtractPrefixRight([contents], rest, |rest|);
  }

  /** A heading followed by one paragraph yields one section. */
  lemma OneSection(h: Node, p: Node)
    requires IsHeader(h) && NodeText(h) != ContentsTitle && IsPara(p) && NodeText(p) != ""
    ensures Extract([h, p]) == [Section(Clean(NodeText(h)), h.name, Clean(NodeText(p)))]
  {
    var doc := [h, p];
    HeaderIsNotPara(doc, 1);
    assert Window(doc, 1) == NodeText(p);
    assert ExtractPrefix(doc, 1) == [SectionAt(doc, 0)];
  }

  /** The emptiness test is on the raw text: a paragraph made only of a
      citation marker still yields a section, whose body is empty. */
  lemma CitationOnlyBodyKept(h: Node, p: Node)
    requires IsHeader(h) && NodeText(h) != ContentsTitle && IsPara(p) && IsMarker(NodeText(p))
    ensures Extract([h, p]) == [Section(Clean(NodeText(h)), h.name, "")]
  {
    OneSection(h, p);
    CitationDeleted([], NodeText(p), []);
    assert [] + NodeText(p) + [] == NodeText(p);
  }

  /** A heading with nothing after it yields nothing. */
  lemma LoneHeadingDropped(h: Node)
    requires IsHeader(h)
    ensures Extract([h]) == []
  {
    var doc := [h];
    assert Window(doc, 1) == "";
    assert !Emits(doc, 0);
    assert ExtractPrefix(doc, 1) == ExtractPrefix(doc, 0) + [];
  }

  /** Headings "Intro", "Early Life", "Career" where only the first two are
      followed by a paragraph: exactly two sections, the last heading is
      dropped. */
  lemma TrailingHeadingDropped(doc: seq<Node>, intro: Node, born: Node, early: Node, school: Node, career: Node)
    requires doc == [intro, born, early, school, career]
    requires IsHeader(intro) && IsHeader(early) && IsHeader(career)
    requires NodeText(intro) != ContentsTitle && NodeText(early) != ContentsTitle
    requires IsPara(born) && IsPara(school) && NodeText(born) != "" && NodeText(school) != ""
    ensures Extract(doc) ==
            [Section(Clean(NodeText(intro)), intro.name, Clean(NodeText(born))),
             Section(Clean(NodeText(early)), early.name, Clean(NodeText(school)))]
  {
    var head, mid, last := [intro, born], [early, school], [career];
    assert Extract(mid + last) == Extract(mid) by {
      ExtractSplit(mid, last);
      LoneHeadingDropped(career);
    }
    assert Extract(doc) == Extract(head) + Extract(mid + last) by {
      assert doc == head + (mid + last);
      ExtractSplit(head, mid + last);
    }
    OneSection(intro, born);
    OneSection(early, school);
    PairAppend(Section(Clean(NodeText(intro)), intro.name, Clean(NodeText(born))),
               Section(Clean(NodeText(early)), early.name, Clean(NodeText(school))));
  }
}
