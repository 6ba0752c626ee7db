/** In-place span rewriting (`replace_entity` in UgraSage/entityextractor.py).
    A recognised span of the phrase is replaced by a placeholder token so that
    later extraction steps cannot match inside it. */
module Spans {

  /** A half-open character range `[start, end)` of a phrase. */
  datatype Span = Span(start: nat, end: nat)

  /** The spans without the last one. */
  function Init(spans: seq<Span>): seq<Span>
    requires spans != []
  {
    spans[..|spans| - 1]
  }

  /** The last span. */
  function Last(spans: seq<Span>): Span
    requires spans != []
  {
    spans[|spans| - 1]
  }

  /** The end of the last span, or `lo` when there is none. */
  function LastEnd(spans: seq<Span>, lo: nat): nat {
    if spans == [] then lo else Last(spans).end
  }

  /** The spans are sorted ascending, do not overlap, start at or after `lo`
      and lie inside a text of length `n`. This is what the matchers that
      produce the spans guarantee. */
  predicate Ordered(spans: seq<Span>, lo: nat, n: nat)
    decreases |spans|
  {
    spans == [] ||
    (Ordered(Init(spans), lo, n) && LastEnd(Init(spans), lo) <= Last(spans).start <= Last(spans).end <= n)
  }

  /** Total number of characters covered by the spans. */
  function Width(spans: seq<Span>): int
    decreases |spans|
  {
    if spans == [] then 0 else Width(Init(spans)) + Last(spans).end - Last(spans).start
  }

  /** Reference definition of the rewrite up to the end of the last span, in
      positions of the ORIGINAL text: every gap before a span is kept and
      every span becomes `holder`. */
  function Gaps(t: string, spans: seq<Span>, holder: string, lo: nat): string
    requires lo <= |t| && Ordered(spans, lo, |t|)
    decreases |spans|
  {
    if spans == [] then []
    else Gaps(t, Init(spans), holder, lo) + t[LastEnd(Init(spans), lo)..Last(spans).start] + holder
  }

  /** The whole phrase with every span replaced by `holder`. */
  function ReplaceSpans(t: string, spans: seq<Span>, holder: string): string
    requires Ordered(spans, 0, |t|)
  {
    Gaps(t, spans, holder, 0) + t[LastEnd(spans, 0)..]
  }

  lemma InitPrefix(spans: seq<Span>, j: nat)
    requires j < |spans|
    ensures Init(spans[..j + 1]) == spans[..j] && Last(spans[..j + 1]) == spans[j]
  {
    assert spans[..j + 1][..j] == spans[..j];
  }

  /** Every prefix of an ordered list of spans is ordered. */
  lemma {:induction false} OrderedPrefix(spans: seq<Span>, lo: nat, n: nat, j: nat)
    requires Ordered(spans, lo, n) && j <= |spans|
    ensures Ordered(spans[..j], lo, n)
    decreases |spans| - j
  {
    if j < |spans| {
      InitPrefix(spans, j);
      OrderedPrefix(spans, lo, n, j + 1);
    } else {
      assert spans[..j] == spans;
    }
  }

  /** Each span of total width `Width(spans)` is replaced by one copy of
      `holder`. */
  lemma {:induction false} GapsLength(t: string, spans: seq<Span>, holder: string, lo: nat)
    requires lo <= |t| && Ordered(spans, lo, |t|)
    ensures lo <= LastEnd(spans, lo) <= |t|
    ensures |Gaps(t, spans, holder, lo)| == LastEnd(spans, lo) - lo - Width(spans) + |spans| * |holder|
    decreases |spans|
  {
    if spans != [] {
      GapsLength(t, Init(spans), holder, lo);
      assert |spans| * |holder| == (|spans| - 1) * |holder| + |holder|;
    }
  }

  /** Taking one more span of an ordered list: the reference grows by the
      gap before that span and one `holder`. */
  lemma GapsStep(t: string, spans: seq<Span>, holder: string, j: nat)
    requires Ordered(spans, 0, |t|) && j < |spans|
    ensures Ordered(spans[..j], 0, |t|) && Ordered(spans[..j + 1], 0, |t|)
    ensures LastEnd(spans[..j], 0) <= spans[j].start <= spans[j].end <= |t|
    ensures LastEnd(spans[..j + 1], 0) == spans[j].end
    ensures Gaps(t, spans[..j + 1], holder, 0)
         == Gaps(t, spans[..j], holder, 0) + t[LastEnd(spans[..j], 0)..spans[j].start] + holder
  {
    OrderedPrefix(spans, 0, |t|, j + 1);
    InitPrefix(spans, j);
  }

  /** Cutting a phrase `cur == p + t[e..]`, which is `d` characters shorter
      than `t`, at the positions `a - d` and `b - d` replaces `t[a..b]`. */
  lemma CutShifted(cur: string, p: string, t: string, e: nat, a: nat, b: nat, d: int, holder: string)
    requires e <= a <= b <= |t| && cur == p + t[e..] && d == |t| - |cur|
    ensures 0 <= a - d <= b - d <= |cur|
    ensures cur[..a - d] + holder + cur[b - d..] == p + t[e..a] + holder + t[b..]
  {
    assert cur[..a - d] == p + t[e..a];
    assert cur[b - d..] == t[b..] by {
      forall i | b - d <= i < |cur|
        ensures cur[i] == t[i + d]
      {
      }
    }
  }

  /** The source's loop: spans are addressed in ORIGINAL positions, and the
      running offset `d` maps them into the partly rewritten phrase. The
      result is the reference rewrite, so every span is replaced by `holder`,
      the text between spans is kept in order, and the length changes by
      `k * |holder| - Width(spans)`. */
  method ReplaceEntity(phrase: string, spans: seq<Span>, holder: string) returns (r: string)
    requires Ordered(spans, 0, |phrase|)
    ensures r == ReplaceSpans(phrase, spans, holder)
    ensures |r| == |phrase| - Width(spans) + |spans| * |holder|
  {
    r := phrase;
    var d: int := 0;
    var j := 0;
    while j < |spans|
      invariant 0 <= j <= |spans| && Ordered(spans[..j], 0, |phrase|)
      invariant r == Gaps(phrase, spans[..j], holder, 0) + phrase[LastEnd(spans[..j], 0)..]
      invariant d == |phrase| - |r|
    {
      var sp := spans[j];
      GapsStep(phrase, spans, holder, j);
      CutShifted(r, Gaps(phrase, spans[..j], holder, 0), phrase, LastEnd(spans[..j], 0),
                 sp.start, sp.end, d, holder);
      r := r[..sp.start - d] + holder + r[sp.end - d..];
      d := d + (sp.end - sp.start) - |holder|;
      j := j + 1;
    }
    assert spans[..j] == spans;
    GapsLength(phrase, spans, holder, 0);
  }

  /** A single span: the text before it, the holder, the text after it. */
  lemma OneSpan(t: string, s: nat, e: nat, holder: string)
    requires s <= e <= |t|
    ensures Ordered([Span(s, e)], 0, |t|)
    ensures ReplaceSpans(t, [Span(s, e)], holder) == t[..s] + holder + t[e..]
  {
    var one := [Span(s, e)];
    assert Init(one) == [] && Last(one) == Span(s, e);
    assert Gaps(t, one, holder, 0) == t[0..s] + holder;
  }
}
