/** The foreign recognisers the extractor consults (natasha's organisation
    and name extractors, the yargy class/day/reference grammars, and Python's
    `re.search` over the regex variants), as deterministic oracles. Only what
    the extractor relies on is stated about them: every reported span lies in
    the phrase, and the spans of one multi-match call come in text order
    without overlapping. */
module Matchers {
  import opened Wrappers
  import opened Spans

  /** natasha organisation match: normalised name and its span. */
  datatype OrgMatch = OrgMatch(name: string, span: Span)

  /** natasha name match: first name, last name, patronymic. */
  datatype NameMatch = NameMatch(first: Option<string>, last: Option<string>, middle: Option<string>, span: Span)

  /** Class-name grammar match (`Cls` fact). */
  datatype ClassMatch = ClassMatch(name: Option<string>, spec: Option<string>, span: Span)

  /** Day grammar match: either a day offset scaled by `count`, or a weekday;
      `backward` flips the direction. */
  datatype DayMatch = DayMatch(offset: Option<int>, count: int, weekday: int, backward: bool, span: Span)

  /** Reference grammar match: the anchor lemma and an optional preposition. */
  datatype Ref = Ref(main: string, hint: Option<string>)

  /** A regular expression, abstractly: a named pattern, or two patterns
      separated by whitespace (`left \s+ right`). */
  datatype Pattern = Named(id: string) | Spaced(left: Pattern, right: Pattern)

  /** A regex search result: the text and span of the named capture group. */
  datatype Hit = Hit(value: string, span: Span)

  datatype Oracles = Oracles(
    orgs: string -> seq<OrgMatch>,
    names: string -> seq<NameMatch>,
    classes: string -> seq<ClassMatch>,
    days: string -> seq<DayMatch>,
    refs: string -> seq<Ref>,
    search: (Pattern, string) -> Option<Hit>)

  predicate Inside(t: string, sp: Span) {
    sp.start <= sp.end <= |t|
  }

  /** The spans of the name matches, in match order. */
  function NameSpans(ms: seq<NameMatch>): seq<Span> {
    seq(|ms|, i requires 0 <= i < |ms| => ms[i].span)
  }

  /** The spans of the day matches, in match order. */
  function DaySpans(ms: seq<DayMatch>): seq<Span> {
    seq(|ms|, i requires 0 <= i < |ms| => ms[i].span)
  }

  predicate OrgsFit(t: string, ms: seq<OrgMatch>) {
    forall i :: 0 <= i < |ms| ==> Inside(t, ms[i].span)
  }

  predicate ClassesFit(t: string, ms: seq<ClassMatch>) {
    forall i :: 0 <= i < |ms| ==> Inside(t, ms[i].span)
  }

  predicate HitFits(t: string, h: Option<Hit>) {
    h.Some? ==> Inside(t, h.value.span)
  }

  /** What the extractor assumes of the recognisers, for every phrase. */
  ghost predicate Valid(o: Oracles) {
    && (forall t {:trigger o.orgs(t)} :: OrgsFit(t, o.orgs(t)))
    && (forall t {:trigger o.names(t)} :: Ordered(NameSpans(o.names(t)), 0, |t|))
    && (forall t {:trigger o.classes(t)} :: ClassesFit(t, o.classes(t)))
    && (forall t {:trigger o.days(t)} :: Ordered(DaySpans(o.days(t)), 0, |t|))
    && (forall p, t {:trigger o.search(p, t)} :: HitFits(t, o.search(p, t)))
  }
}
