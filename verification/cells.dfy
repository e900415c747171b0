/** The span branch of `get_score` in tsw/util.py: a score cell of the draw
    page holds one `<span>` per set, and each span's first text is a dashed
    set score. */
module Cells {
  import opened Wrappers
  import opened Text
  import opened Scores

  /** A parsed HTML fragment: text, or an element with its children in
      document order. */
  datatype Node = TextNode(text: string) | Element(tag: string, children: seq<Node>)

  /** What `get_score` makes of a cell. */
  datatype CellScore =
    | Sets(sets: seq<seq<nat>>)    // one parsed score per direct child span
    | Contents(nodes: seq<Node>)   // no direct child span: the cell's own contents
    | Malformed                    // a span that is empty or opens with markup: Python raises

  predicate IsSpan(n: Node) {
    n.Element? && n.tag == "span"
  }

  /** `findAll("span", recursive=False)`: the direct children that are spans,
      in document order. */
  function Spans(children: seq<Node>): (r: seq<Node>)
    ensures |r| <= |children|
    ensures forall n :: n in r <==> n in children && IsSpan(n)
  {
    if |children| == 0 then []
    else (if IsSpan(children[0]) then [children[0]] else []) + Spans(children[1..])
  }

  /** A span `get_score` can read: its first child is text. */
  predicate Readable(span: Node) {
    span.Element? && |span.children| > 0 && span.children[0].TextNode?
  }

  /** `dashed_score_to_score(set_score.contents[0])` for each span, or None
      as soon as one span cannot be read. */
  function ReadSpans(spans: seq<Node>): (r: Option<seq<seq<nat>>>)
    ensures r.Some? <==> forall i :: 0 <= i < |spans| ==> Readable(spans[i])
    ensures r.Some? ==>
              |r.value| == |spans| &&
              forall i :: 0 <= i < |spans| ==>
                r.value[i] == DashedScoreToScore(spans[i].children[0].text)
  {
    if |spans| == 0 then Some([])
    else if !Readable(spans[0]) then None
    else
      match ReadSpans(spans[1..])
      case None => None
      case Some(rest) => Some([DashedScoreToScore(spans[0].children[0].text)] + rest)
  }

  /** `get_score`: the cell's contents stand as they are when no child is a
      span; otherwise every span is read as one set. */
  function GetScore(children: seq<Node>): (r: CellScore)
    ensures r.Contents? <==> forall n :: n in children ==> !IsSpan(n)
    ensures r.Contents? ==> r.nodes == children
    ensures r.Malformed? <==> exists n :: n in children && IsSpan(n) && !Readable(n)
    ensures r.Sets? ==>
              |r.sets| == |Spans(children)| &&
              forall i :: 0 <= i < |r.sets| ==>
                (Readable(Spans(children)[i]) &&
                 r.sets[i] == DashedScoreToScore(Spans(children)[i].children[0].text))
  {
    var spans := Spans(children);
    if |spans| == 0 then Contents(children)
    else
      assert spans[0] in spans;
      match ReadSpans(spans)
      case None => Malformed
      case Some(sets) => Sets(sets)
  }

  /** Text and other markup between the spans is ignored: only the spans count. */
  lemma {:induction false} SpansIdempotent(children: seq<Node>)
    ensures Spans(Spans(children)) == Spans(children)
  {
    if |children| > 0 {
      SpansIdempotent(children[1..]);
      SpansOfAppend(if IsSpan(children[0]) then [children[0]] else [], Spans(children[1..]));
    }
  }

  lemma {:induction false} SpansOfAppend(a: seq<Node>, b: seq<Node>)
    ensures Spans(a + b) == Spans(a) + Spans(b)
  {
    if |a| == 0 {
      assert a + b == b;
    } else {
      assert (a + b)[1..] == a[1..] + b;
      SpansOfAppend(a[1..], b);
    }
  }

  /** A cell reads the same once everything but its spans is dropped. */
  lemma OnlySpansMatter(children: seq<Node>)
    requires exists n :: n in children && IsSpan(n)
    ensures GetScore(Spans(children)) == GetScore(children)
  {
    SpansIdempotent(children);
  }

  /** The cell the site writes for a match: one span per set. */
  function Markup(sets: seq<TennisSet>, gap: string): seq<Node>
  {
    seq(|sets|, i requires 0 <= i < |sets| => Element("span", [TextNode(Render(sets[i], gap))]))
  }

  /** The numbers of each set, in order. */
  function AllNumbers(sets: seq<TennisSet>): seq<seq<nat>>
  {
    seq(|sets|, i requires 0 <= i < |sets| => Numbers(sets[i]))
  }

  /** `get_score` reads back every set of a rendered cell, in order. */
  lemma MarkupRoundTrip(sets: seq<TennisSet>, gap: string)
    requires |sets| > 0 && AllSpaces(gap)
    ensures GetScore(Markup(sets, gap)) == Sets(AllNumbers(sets))
  {
    var cell := Markup(sets, gap);
    var numbers := AllNumbers(sets);
    forall i | 0 <= i < |cell|
      ensures IsSpan(cell[i]) && Readable(cell[i])
      ensures DashedScoreToScore(cell[i].children[0].text) == numbers[i]
    {
      RenderRoundTrip(sets[i], gap);
    }
    ReadableCell(cell, numbers);
  }

  /** A cell of readable spans only scores as the spans' texts do. */
  lemma ReadableCell(cell: seq<Node>, scores: seq<seq<nat>>)
    requires |cell| > 0 && |cell| == |scores|
    requires forall i :: 0 <= i < |cell| ==>
               IsSpan(cell[i]) && Readable(cell[i]) && DashedScoreToScore(cell[i].children[0].text) == scores[i]
    ensures GetScore(cell) == Sets(scores)
  {
    AllSpansKept(cell);
    ReadsAll(cell, scores);
  }

  lemma ReadsAll(spans: seq<Node>, scores: seq<seq<nat>>)
    requires |spans| == |scores|
    requires forall i :: 0 <= i < |spans| ==>
               Readable(spans[i]) && DashedScoreToScore(spans[i].children[0].text) == scores[i]
    ensures ReadSpans(spans) == Some(scores)
  {
    var r := ReadSpans(spans);
    assert r.Some?;
    assert r.value == scores;
  }

  lemma {:induction false} AllSpansKept(cell: seq<Node>)
    requires forall i :: 0 <= i < |cell| ==> IsSpan(cell[i])
    ensures Spans(cell) == cell
  {
    if |cell| > 0 {
      AllSpansKept(cell[1..]);
    }
  }

  /** The two-set cell of the project's tests: 6-1, then 7-6 with a tiebreak of 5. */
  lemma TwoSetCellExample()
    ensures GetScore([Element("span", [TextNode("6-1")]), Element("span", [TextNode("7-6(5)")])])
            == Sets([[6, 1], [7, 6, 5]])
  {
    var sets := [TennisSet(6, 1, None), TennisSet(7, 6, Some(5))];
    TwoSetCellRendered(sets);
    MarkupRoundTrip(sets, "");
  }

  lemma TwoSetCellRendered(sets: seq<TennisSet>)
    requires sets == [TennisSet(6, 1, None), TennisSet(7, 6, Some(5))]
    ensures Markup(sets, "") == [Element("span", [TextNode("6-1")]), Element("span", [TextNode("7-6(5)")])]
    ensures AllNumbers(sets) == [[6, 1], [7, 6, 5]]
  {
    assert Render(sets[0], "") == "6-1";
    assert Render(sets[1], "") == "7-6(5)";
    assert Numbers(sets[0]) == [6, 1];
    assert Numbers(sets[1]) == [7, 6, 5];
  }
}
