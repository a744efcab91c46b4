/** The markup cleaner of wikipedia.py (clean_wiki_content): first every
    citation marker -- a '[', one or more ASCII digits, a ']' -- is deleted,
    scanning left to right as a regular-expression substitution does, and
    then every literal "[edit]" is deleted, as a plain string replacement does. */
module Cleaner {
  import opened SeqFacts

  predicate IsDigit(c: char) { '0' <= c <= '9' }

  /** A citation marker such as "[12]". */
  predicate IsMarker(m: string) {
    |m| >= 3 && m[0] == '[' && m[|m| - 1] == ']' &&
    forall q :: 1 <= q < |m| - 1 ==> IsDigit(m[q])
  }

  const Edit: string := "[edit]"

  /** Length of the longest run of digits of s starting at i. */
  function DigitRun(s: string, i: nat): (k: nat)
    requires i <= |s|
    ensures i + k <= |s|
    ensures forall m :: i <= m < i + k ==> IsDigit(s[m])
    ensures i + k == |s| || !IsDigit(s[i + k])
    decreases |s| - i
  {
    if i < |s| && IsDigit(s[i]) then 1 + DigitRun(s, i + 1) else 0
  }

  /** Length of the citation marker that s starts with, or 0 when it starts
      with none (MarkerLengthExact: the digit class is greedy and ']' is not
      a digit, so at most one prefix of s is a marker). */
  function MarkerLength(s: string): (r: nat)
    ensures r == 0 || (3 <= r <= |s| && IsMarker(s[..r]))
  {
    if |s| >= 1 && s[0] == '[' then
      var k := DigitRun(s, 1);
      if k >= 1 && 1 + k < |s| && s[1 + k] == ']' then
        assert IsMarker(s[..k + 2]);
        k + 2
      else 0
    else 0
  }

  /** Whenever a prefix of s is a marker, MarkerLength finds exactly it. */
  lemma MarkerLengthExact(s: string, l: nat)
    requires 3 <= l <= |s| && IsMarker(s[..l])
    ensures MarkerLength(s) == l
  {
    assert s[0] == s[..l][0];
    MarkerIsRun(s, l);
  }

  lemma {:induction false} DigitRunAtLeast(s: string, i: nat, j: nat)
    requires i <= j <= |s|
    requires forall q :: i <= q < j ==> IsDigit(s[q])
    ensures DigitRun(s, i) >= j - i
    decreases j - i
  {
    if i < j { DigitRunAtLeast(s, i + 1, j); }
  }

  lemma {:induction false} DigitRunAtMost(s: string, i: nat, j: nat)
    requires i <= j < |s| && !IsDigit(s[j])
    ensures DigitRun(s, i) <= j - i
    decreases j - i
  {
    if i < j { DigitRunAtMost(s, i + 1, j); }
  }

  /** A marker prefix of s is exactly the digit run after its '[', closed by ']'. */
  lemma MarkerIsRun(s: string, l: nat)
    requires 3 <= l <= |s| && IsMarker(s[..l])
    ensures DigitRun(s, 1) == l - 2
  {
    forall q | 1 <= q < l - 1 ensures IsDigit(s[q]) {
      assert IsDigit(s[..l][q]);
    }
    assert s[l - 1] == s[..l][l - 1];
    DigitRunAtLeast(s, 1, l - 1);
    DigitRunAtMost(s, 1, l - 1);
  }

  /** Inside a marker (after its first character) there is no '['. */
  lemma MarkerHasNoInnerBracket(m: string, q: nat)
    requires IsMarker(m) && 0 < q < |m|
    ensures m[q] != '['
  {
    if q < |m| - 1 { assert IsDigit(m[q]); }
  }

  /** A marker holds none of the characters the cleaner must keep. */
  lemma MarkerHasOnlyMarkup(m: string, c: char)
    requires IsMarker(m) && !MarkupChar(c)
    ensures multiset(m)[c] == 0
  {
    forall q | 0 <= q < |m| ensures m[q] != c {
      assert 0 < q < |m| - 1 ==> IsDigit(m[q]);
    }
  }

  /** The regular-expression substitution of every citation marker by "". */
  function RemoveCitations(s: string): (r: string)
    ensures |r| <= |s|
    ensures '[' !in s ==> r == s
    decreases |s|
  {
    if s == [] then []
    else
      var l := MarkerLength(s);
      if l > 0 then RemoveCitations(s[l..])
      else [s[0]] + RemoveCitations(s[1..])
  }

  /** The string replacement of every "[edit]" by "". */
  function RemoveEdits(s: string): (r: string)
    ensures |r| <= |s|
    ensures '[' !in s ==> r == s
    decreases |s|
  {
    if |s| >= 6 && s[..6] == Edit then
      assert s[0] == '[';
      RemoveEdits(s[6..])
    else if s == [] then []
    else [s[0]] + RemoveEdits(s[1..])
  }

  /** clean_wiki_content. */
  function Clean(text: string): (r: string)
    ensures |r| <= |text|
    ensures '[' !in text ==> r == text
  {
    RemoveEdits(RemoveCitations(text))
  }

  /** a is b with some characters deleted, the rest kept in their order. */
  predicate Subseq(a: string, b: string)
    decreases |b|
  {
    if b == [] then a == []
    else (a != [] && a[0] == b[0] && Subseq(a[1..], b[1..])) || Subseq(a, b[1..])
  }

  /** The characters the cleaner may delete. */
  predicate MarkupChar(c: char) {
    c == '[' || c == ']' || IsDigit(c) || c == 'e' || c == 'd' || c == 'i' || c == 't'
  }

  lemma {:induction false} SubseqDropPrefix(a: string, b: string, k: nat)
    requires k <= |b| && Subseq(a, b[k..])
    ensures Subseq(a, b)
    decreases k
  {
    if k > 0 {
      assert b[1..][k - 1..] == b[k..];
      SubseqDropPrefix(a, b[1..], k - 1);
    }
  }

  lemma {:induction false} SubseqTransitive(a: string, b: string, c: string)
    requires Subseq(a, b) && Subseq(b, c)
    ensures Subseq(a, c)
    decreases |b| + |c|
  {
    if c == [] {
    } else if b != [] && b[0] == c[0] && Subseq(b[1..], c[1..]) {
      if a != [] && a[0] == b[0] && Subseq(a[1..], b[1..]) {
        SubseqTransitive(a[1..], b[1..], c[1..]);
      } else if b[1..] == [] {
        assert a == [];
        EmptySubseq(c);
      } else {
        SubseqTransitive(a, b[1..], c[1..]);
      }
    } else {
      SubseqTransitive(a, b, c[1..]);
    }
  }

  lemma {:induction false} EmptySubseq(c: string)
    ensures Subseq([], c)
    decreases |c|
  {
    if c != [] { EmptySubseq(c[1..]); }
  }

  /** r keeps, in order, the characters of s it does not delete, and deletes
      no character outside the markup. */
  predicate DeletesOnlyMarkup(r: string, s: string) {
    Subseq(r, s) && forall c :: !MarkupChar(c) ==> multiset(r)[c] == multiset(s)[c]
  }

  /** Deleting a prefix of markup characters in front of a cleaned rest. */
  lemma DropMarkup(s: string, l: nat, r: string)
    requires l <= |s| && forall c :: !MarkupChar(c) ==> multiset(s[..l])[c] == 0
    requires DeletesOnlyMarkup(r, s[l..])
    ensures DeletesOnlyMarkup(r, s)
  {
    SubseqDropPrefix(r, s, l);
    assert multiset(s) == multiset(s[..l]) + multiset(s[l..]) by {
      assert s == s[..l] + s[l..];
    }
  }

  /** Keeping the first character in front of a cleaned rest. */
  lemma KeepFirst(s: string, rest: string)
    requires s != [] && DeletesOnlyMarkup(rest, s[1..])
    ensures DeletesOnlyMarkup([s[0]] + rest, s)
  {
    var r := [s[0]] + rest;
    assert r[0] == s[0] && r[1..] == rest;
    assert multiset(s) == multiset([s[0]]) + multiset(s[1..]) by {
      assert s == [s[0]] + s[1..];
    }
  }

  /** The citation pass only deletes characters, and only markup ones. */
  lemma {:induction false} RemoveCitationsDeletes(s: string)
    ensures DeletesOnlyMarkup(RemoveCitations(s), s)
    decreases |s|
  {
    if s != [] {
      var l := MarkerLength(s);
      if l > 0 {
        RemoveCitationsDeletes(s[l..]);
        forall c | !MarkupChar(c) ensures multiset(s[..l])[c] == 0 {
          MarkerHasOnlyMarkup(s[..l], c);
        }
        DropMarkup(s, l, RemoveCitations(s[l..]));
      } else {
        RemoveCitationsDeletes(s[1..]);
        KeepFirst(s, RemoveCitations(s[1..]));
      }
    } else {
      EmptySubseq(s);
    }
  }

  /** The "[edit]" pass only deletes characters, and only markup ones. */
  lemma {:induction false} RemoveEditsDeletes(s: string)
    ensures DeletesOnlyMarkup(RemoveEdits(s), s)
    decreases |s|
  {
    if |s| >= 6 && s[..6] == Edit {
      RemoveEditsDeletes(s[6..]);
      forall c | !MarkupChar(c) ensures multiset(s[..6])[c] == 0 {
        assert c !in Edit;
      }
      DropMarkup(s, 6, RemoveEdits(s[6..]));
    } else if s != [] {
      RemoveEditsDeletes(s[1..]);
      KeepFirst(s, RemoveEdits(s[1..]));
    } else {
      EmptySubseq(s);
    }
  }

  /** clean_wiki_content keeps every character it does not delete, in order,
      and deletes only brackets, digits and the letters of "edit". */
  lemma CleanDeletesOnlyMarkup(text: string)
    ensures Subseq(Clean(text), text)
    ensures forall c :: !MarkupChar(c) ==> multiset(Clean(text))[c] == multiset(text)[c]
  {
    RemoveCitationsDeletes(text);
    RemoveEditsDeletes(RemoveCitations(text));
    SubseqTransitive(Clean(text), RemoveCitations(text), text);
  }

  /** No stretch of s is a citation marker. */
  predicate NoMarker(s: string) {
    forall i, j :: 0 <= i < j <= |s| ==> !IsMarker(s[i..j])
  }

  /** "[edit]" stands in s at position i. */
  predicate EditAt(s: string, i: nat)
    requires i + 6 <= |s|
  {
    s[i..i + 6] == Edit
  }

  /** No stretch of s is "[edit]". */
  predicate NoEdit(s: string) {
    forall i: nat :: i + 6 <= |s| ==> !EditAt(s, i)
  }

  lemma NoMarkerStart(s: string)
    requires NoMarker(s)
    ensures MarkerLength(s) == 0
  {
    NoMarkerPrefix(s, MarkerLength(s));
  }

  lemma NoMarkerPrefix(s: string, l: nat)
    requires NoMarker(s) && l <= |s|
    ensures !IsMarker(s[..l])
  {
    if l > 0 {
      assert s[0..l] == s[..l];
    }
  }

  lemma NoEditStart(s: string)
    requires NoEdit(s) && |s| >= 6
    ensures s[..6] != Edit
  {
    assert !EditAt(s, 0);
    assert s[0..6] == s[..6];
  }

  lemma NoMarkerTail(s: string)
    requires s != [] && NoMarker(s)
    ensures NoMarker(s[1..])
  {
    var t := s[1..];
    forall i, j | 0 <= i < j <= |t| ensures !IsMarker(t[i..j]) {
      assert t[i..j] == s[i + 1..j + 1];
    }
  }

  lemma NoEditTail(s: string)
    requires s != [] && NoEdit(s)
    ensures NoEdit(s[1..])
  {
    var t := s[1..];
    forall i: nat | i + 6 <= |t| ensures !EditAt(t, i) {
      assert t[i..i + 6] == s[i + 1..i + 7];
      assert !EditAt(s, i + 1);
    }
  }

  /** The substitution deletes nothing but markers: text holding none comes
      out unchanged, whatever brackets and digits it has. */
  lemma {:induction false} NoMarkerUnchanged(s: string)
    requires NoMarker(s)
    ensures RemoveCitations(s) == s
    decreases |s|
  {
    if s != [] {
      NoMarkerStart(s);
      NoMarkerTail(s);
      NoMarkerUnchanged(s[1..]);
      assert [s[0]] + s[1..] == s;
    }
  }

  /** The replacement deletes nothing but "[edit]": text holding none comes
      out unchanged. */
  lemma {:induction false} NoEditUnchanged(s: string)
    requires NoEdit(s)
    ensures RemoveEdits(s) == s
    decreases |s|
  {
    if s != [] {
      if |s| >= 6 {
        NoEditStart(s);
      }
      NoEditTail(s);
      NoEditUnchanged(s[1..]);
      assert [s[0]] + s[1..] == s;
    }
  }

  /** clean_wiki_content changes only markers and "[edit]": text with neither
      is returned as it is, even when it holds '[', ']' or digits. */
  lemma CleanKeepsUnmarked(text: string)
    requires NoMarker(text) && NoEdit(text)
    ensures Clean(text) == text
  {
    NoMarkerUnchanged(text);
    NoEditUnchanged(text);
  }

  /** "[a] 1971" has brackets and digits but no marker, so it is kept. */
  lemma CleanKeepsBracketedWord()
    ensures Clean("[a] 1971") == "[a] 1971"
  {
    var s := "[a] 1971";
    forall i, j | 0 <= i < j <= |s| ensures !IsMarker(s[i..j]) {
      if i != 0 {
        assert s[i..j][0] == s[i];
      } else if j >= 3 {
        assert s[i..j][1] == 'a';
      }
    }
    forall i: nat | i + 6 <= |s| ensures !EditAt(s, i) {
      assert s[i..i + 6][1] == s[i + 1];
    }
    CleanKeepsUnmarked(s);
  }

  /** A marker starting inside x cannot run into a following piece y that
      opens with '['. */
  lemma MarkerLengthPrefix(x: string, y: string)
    requires x != [] && y != [] && y[0] == '['
    ensures MarkerLength(x + y) == MarkerLength(x)
  {
    var l1, l2 := MarkerLength(x + y), MarkerLength(x);
    if l2 > 0 {
      assert (x + y)[..l2] == x[..l2];
      MarkerLengthExact(x + y, l2);
    }
    if l1 > 0 {
      var m := (x + y)[..l1];
      forall q | 0 < q < l1 ensures (x + y)[q] != '[' {
        MarkerHasNoInnerBracket(m, q);
      }
      assert (x + y)[|x|] == '[';
      assert l1 <= |x|;
      assert m == x[..l1];
      MarkerLengthExact(x, l1);
    }
  }

  /** How far one step of the citation scan advances over s. */
  function Skip(s: string): (d: nat)
    requires s != []
    ensures 1 <= d <= |s|
  {
    var l := MarkerLength(s);
    if l > 0 then l else 1
  }

  /** What one step of the citation scan keeps of s. */
  function Kept(s: string): string
    requires s != []
  {
    if MarkerLength(s) > 0 then "" else [s[0]]
  }

  /** Text t opening with '[' does not change the first scan step over a. */
  lemma SharedFirstStep(a: string, t: string)
    requires a != [] && t != [] && t[0] == '['
    ensures RemoveCitations(a) == Kept(a) + RemoveCitations(a[Skip(a)..])
    ensures RemoveCitations(a + t) == Kept(a) + RemoveCitations(a[Skip(a)..] + t)
  {
    MarkerLengthPrefix(a, t);
    var d := Skip(a);
    assert (a + t)[0] == a[0];
    assert (a + t)[d..] == a[d..] + t;
  }

  /** No citation marker runs across a '[': text that opens with '[' is
      cleaned independently of the text before it. */
  lemma {:induction false} SplitAtBracket(a: string, t: string)
    requires t != [] && t[0] == '['
    ensures RemoveCitations(a + t) == RemoveCitations(a) + RemoveCitations(t)
    decreases |a|
  {
    if a == [] {
      assert a + t == t;
    } else {
      var rest := a[Skip(a)..];
      SharedFirstStep(a, t);
      SplitAtBracket(rest, t);
      AppendAssoc(Kept(a), RemoveCitations(rest), RemoveCitations(t));
    }
  }

  /** Every citation marker is deleted, wherever it stands, and the text on
      either side of it is cleaned independently. */
  lemma CitationDeleted(a: string, m: string, b: string)
    requires IsMarker(m)
    ensures RemoveCitations(a + m + b) == RemoveCitations(a) + RemoveCitations(b)
  {
    assert a + m + b == a + (m + b);
    SplitAtBracket(a, m + b);
    CitationAtStart(m, b);
  }

  /** A marker at the very start is matched whole and dropped. */
  lemma CitationAtStart(m: string, b: string)
    requires IsMarker(m)
    ensures RemoveCitations(m + b) == RemoveCitations(b)
  {
    var s := m + b;
    assert s[..|m|] == m;
    MarkerLengthExact(s, |m|);
    assert s[|m|..] == b;
  }

  /** Every "[edit]" is deleted, wherever it stands. */
  lemma {:induction false} EditDeleted(a: string, b: string)
    ensures RemoveEdits(a + Edit + b) == RemoveEdits(a) + RemoveEdits(b)
    decreases |a|
  {
    var s := a + Edit + b;
    if a == [] {
      assert s == Edit + b;
      assert s[..6] == Edit && s[6..] == b;
    } else if |a| >= 6 && a[..6] == Edit {
      assert s[..6] == a[..6];
      assert s[6..] == a[6..] + Edit + b;
      EditDeleted(a[6..], b);
      assert RemoveEdits(s) == RemoveEdits(s[6..]);
    } else {
      EditStartsNoEarlier(a, b);
      assert s[1..] == a[1..] + Edit + b;
      EditDeleted(a[1..], b);
      assert RemoveEdits(s) == [s[0]] + RemoveEdits(s[1..]);
      assert RemoveEdits(a) == [a[0]] + RemoveEdits(a[1..]);
      AppendAssoc([a[0]], RemoveEdits(a[1..]), RemoveEdits(b));
    }
  }

  /** An "[edit]" cannot begin inside a and end inside the "[edit]" after a. */
  lemma EditStartsNoEarlier(a: string, b: string)
    requires a != [] && !(|a| >= 6 && a[..6] == Edit)
    ensures (a + Edit + b)[..6] != Edit
  {
    var s := a + Edit + b;
    assert s[|a|] == '[';
    if |a| >= 6 {
      assert s[..6] == a[..6];
    } else {
      assert s[..6][|a|] == '[';
      assert Edit[|a|] != '[';
    }
  }

  /** A sentence followed by a citation, as in "Born in 1971.[12]", cleans
      to the bare sentence. */
  lemma CleanTrailingCitation(sentence: string, marker: string)
    requires '[' !in sentence && IsMarker(marker)
    ensures Clean(sentence + marker) == sentence
  {
    CitationDeleted(sentence, marker, "");
    assert sentence + marker + "" == sentence + marker;
  }

  /** The example of a citation at the end of a sentence. */
  lemma CleanExample(text: string)
    requires text == "Born in 1971.[12]"
    ensures Clean(text) == "Born in 1971."
  {
    var m := "[12]";
    assert IsMarker(m) by { assert IsDigit(m[1]) && IsDigit(m[2]); }
    assert text == "Born in 1971." + m;
    CleanTrailingCitation("Born in 1971.", m);
  }
}
