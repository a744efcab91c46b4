/** The parsed page as the section extractor sees it: the elements of the
    HTML tree flattened in document order (pre-order).  A tag carries its
    name and the text of each of its children; a bare string carries its
    text.  Headings and paragraphs are taken as leaves: the text of a tag
    is the concatenation of its children's texts. */
module Document {

  datatype Node =
    | Tag(name: string, children: seq<string>)
    | Text(value: string)

  /** The children's texts glued together in child order. */
  function Concat(parts: seq<string>): string
    decreases |parts|
  {
    if parts == [] then "" else parts[0] + Concat(parts[1..])
  }

  /** The text of a node (BeautifulSoup's `.text`). */
  function NodeText(n: Node): string {
    match n
    case Tag(_, children) => Concat(children)
    case Text(value) => value
  }

  /** Where child k starts in the concatenation. */
  function Offset(parts: seq<string>, k: nat): nat
    requires k <= |parts|
  {
    |Concat(parts[..k])|
  }

  lemma {:induction false} ConcatAppend(parts: seq<string>, last: string)
    ensures Concat(parts + [last]) == Concat(parts) + last
    decreases |parts|
  {
    if parts != [] {
      assert (parts + [last])[1..] == parts[1..] + [last];
      ConcatAppend(parts[1..], last);
    } else {
      assert [last][1..] == [];
    }
  }

  lemma {:induction false} ConcatSplit(parts: seq<string>, k: nat)
    requires k <= |parts|
    ensures Concat(parts) == Concat(parts[..k]) + Concat(parts[k..])
    decreases k
  {
    if k > 0 {
      assert parts[1..][..k - 1] == parts[1..k];
      assert parts[1..][k - 1..] == parts[k..];
      ConcatSplit(parts[1..], k - 1);
      assert parts[..k][1..] == parts[1..k];
    }
  }

  /** The concatenation is made of the children, each at its offset, in
      child order, and of nothing else. */
  lemma ConcatLayout(parts: seq<string>, k: nat)
    requires k < |parts|
    ensures Offset(parts, k) + |parts[k]| == Offset(parts, k + 1) <= |Concat(parts)|
    ensures Concat(parts)[Offset(parts, k)..Offset(parts, k + 1)] == parts[k]
    ensures Offset(parts, |parts|) == |Concat(parts)|
  {
    assert parts[..k + 1] == parts[..k] + [parts[k]];
    ConcatAppend(parts[..k], parts[k]);
    ConcatSplit(parts, k + 1);
    assert parts[..|parts|] == parts;
  }

  /** get_paragraph_text: the paragraph's children's texts appended one by
      one to an accumulator. */
  method GetParagraphText(p: Node) returns (text: string)
    requires p.Tag?
    ensures text == Concat(p.children)
    ensures text == NodeText(p)
  {
    text := "";
    var i := 0;
    while i < |p.children|
      invariant 0 <= i <= |p.children|
      invariant text == Concat(p.children[..i])
    {
      assert p.children[..i + 1] == p.children[..i] + [p.children[i]];
      ConcatAppend(p.children[..i], p.children[i]);
      text := text + p.children[i];
      i := i + 1;
    }
    assert p.children[..i] == p.children;
  }
}
