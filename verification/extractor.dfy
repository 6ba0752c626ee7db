/** Entity extraction (`extract` and its per-kind extractors in
    UgraSage/entityextractor.py). Each extractor is a step
    `phrase -> (phrase', fields)`: it reads the recognisers' matches on the
    phrase, collects the entity's fields and rewrites the recognised spans to
    a placeholder token so that later steps cannot match inside them. The
    cascade runs the steps in a fixed order, each on the previous step's
    output. */
module Extractor {
  import opened Wrappers
  import opened Spans
  import opened Phrase
  import opened Matchers
  import opened Entities

  /** The empty entity value `{}`. */
  const NoFields: Fields := map[]

  // ---------------------------------------------------------------------
  // Regex variants

  /** `get_simple_variants(ENTITY, ENV)`: "ENV ENTITY", then "ENTITY ENV". */
  function SimpleVariants(entity: Pattern, env: Pattern): seq<Pattern> {
    [Spaced(env, entity), Spaced(entity, env)]
  }

  /** Index and hit of the first variant from `i` on that matches `t`. */
  function FirstHit(search: (Pattern, string) -> Option<Hit>, vs: seq<Pattern>, t: string, i: nat): (r: Option<(nat, Hit)>)
    requires i <= |vs|
    ensures r.None? ==> forall j :: i <= j < |vs| ==> search(vs[j], t).None?
    ensures r.Some? ==> i <= r.value.0 < |vs| && search(vs[r.value.0], t) == Some(r.value.1)
    ensures r.Some? ==> forall j :: i <= j < r.value.0 ==> search(vs[j], t).None?
    decreases |vs| - i
  {
    if i == |vs| then None
    else
      match search(vs[i], t)
      case Some(h) => Some((i, h))
      case None => FirstHit(search, vs, t, i + 1)
  }

  /** `regexp_extract`: the first variant, in list order, that matches wins
      (`FirstHit`); it sets `fields[field]` to the captured text and replaces
      only the capture's span by `holder`. With no match nothing changes. */
  function RegexpExtract(o: Oracles, t: string, vs: seq<Pattern>, holder: string, fields: Fields, field: string)
    : (r: (string, Fields))
    requires Valid(o)
    ensures FirstHit(o.search, vs, t, 0).None? ==> r == (t, fields)
    ensures FirstHit(o.search, vs, t, 0).Some? ==>
      var h := FirstHit(o.search, vs, t, 0).value.1;
      && h.span.start <= h.span.end <= |t|
      && r.1 == fields[field := Text(h.value)]
      && r.0 == t[..h.span.start] + holder + t[h.span.end..]
    ensures fields.Keys <= r.1.Keys <= fields.Keys + {field}
    ensures forall k :: k in fields && k != field ==> r.1[k] == fields[k]
  {
    match FirstHit(o.search, vs, t, 0)
    case None => (t, fields)
    case Some((i, h)) =>
      assert HitFits(t, o.search(vs[i], t));
      OneSpan(t, h.span.start, h.span.end, holder);
      (ReplaceSpans(t, [h.span], holder), fields[field := Text(h.value)])
  }

  const CampusEnv := Named("campus-env")
  const Campus := Named("campus")
  const RoomEnv := Named("room-env")
  const Room := Named("room")
  const GroupCode := Named("group")
  const SubgpEnv := Named("subgp-env")
  const SubgpNum := Named("subgp")

  /** `extract_place`: campus number next to a building word, then room
      number next to a room word, on the phrase the campus step left. */
  function ExtractPlace(o: Oracles, t: string): (r: (string, Fields))
    requires Valid(o)
    ensures r.1.Keys <= {"campus", "room"}
  {
    var (t1, f1) := RegexpExtract(o, t, SimpleVariants(Campus, CampusEnv), "campus", NoFields, "campus");
    RegexpExtract(o, t1, SimpleVariants(Room, RoomEnv), "room", f1, "room")
  }

  /** The two steps of `extract_place` in sequence: the campus comes from
      the first campus variant that hits the phrase, and its capture becomes
      "campus"; the room comes from the first room variant that hits the
      phrase so rewritten, and its capture there becomes "room". A step that
      finds nothing leaves its field absent and the phrase unchanged. */
  lemma ExtractPlaceSpec(o: Oracles, t: string)
    requires Valid(o)
    ensures var c := FirstHit(o.search, SimpleVariants(Campus, CampusEnv), t, 0);
            var t1 := if c.None? then t
                      else t[..c.value.1.span.start] + "campus" + t[c.value.1.span.end..];
            var h := FirstHit(o.search, SimpleVariants(Room, RoomEnv), t1, 0);
            var r := ExtractPlace(o, t);
      && (c.Some? ==> c.value.1.span.start <= c.value.1.span.end <= |t|)
      && ("campus" in r.1 <==> c.Some?)
      && (c.Some? ==> r.1["campus"] == Text(c.value.1.value))
      && ("room" in r.1 <==> h.Some?)
      && (h.Some? ==> h.value.1.span.start <= h.value.1.span.end <= |t1|)
      && (h.Some? ==> r.1["room"] == Text(h.value.1.value)
                      && r.0 == t1[..h.value.1.span.start] + "room" + t1[h.value.1.span.end..])
      && (h.None? ==> r.0 == t1)
  {
  }

  /** `extract_group`: a group code, stored as `name`. */
  function ExtractGroup(o: Oracles, t: string): (r: (string, Fields))
    requires Valid(o)
    ensures r.1.Keys <= {"name"}
  {
    RegexpExtract(o, t, [GroupCode], "group", NoFields, "name")
  }

  /** `extract_subgp`: a subgroup number next to the word "подгруппа". */
  function ExtractSubgp(o: Oracles, t: string): (r: (string, Fields))
    requires Valid(o)
    ensures r.1.Keys <= {"name"}
  {
    RegexpExtract(o, t, SimpleVariants(SubgpNum, SubgpEnv), "subgp", NoFields, "name")
  }

  /** `get_simple_variants` tries "ENV ENTITY" first: when both orders match,
      the campus comes from the building-word-first reading. */
  lemma PlaceTriesEnvFirst(o: Oracles, t: string)
    requires Valid(o)
    requires o.search(Spaced(CampusEnv, Campus), t).Some?
    ensures "campus" in ExtractPlace(o, t).1
    ensures ExtractPlace(o, t).1["campus"] == Text(o.search(Spaced(CampusEnv, Campus), t).value.value)
  {
    var vs := SimpleVariants(Campus, CampusEnv);
    var (t1, f1) := RegexpExtract(o, t, vs, "campus", NoFields, "campus");
    assert vs[0] == Spaced(CampusEnv, Campus);
    assert f1["campus"] == Text(o.search(vs[0], t).value.value);
  }

  // ---------------------------------------------------------------------
  // Organisation

  /** Words that make a recognised organisation an educational one. */
  const OrgCues: seq<string> := ["универ", "школ", "колледж"]

  /** `w in s` on strings: `w` occurs in `s` at some position. */
  predicate Contains(s: string, w: string)
    decreases |s|
  {
    |w| <= |s| && (s[..|w|] == w || Contains(s[1..], w))
  }

  predicate HasOrgCue(name: string) {
    exists i | 0 <= i < |OrgCues| :: Contains(name, OrgCues[i])
  }

  function FirstOrg(ms: seq<OrgMatch>, i: nat): (r: Option<nat>)
    requires i <= |ms|
    ensures r.None? ==> forall j :: i <= j < |ms| ==> !HasOrgCue(ms[j].name)
    ensures r.Some? ==> i <= r.value < |ms| && HasOrgCue(ms[r.value].name)
    ensures r.Some? ==> forall j :: i <= j < r.value ==> !HasOrgCue(ms[j].name)
    decreases |ms| - i
  {
    if i == |ms| then None
    else if HasOrgCue(ms[i].name) then Some(i)
    else FirstOrg(ms, i + 1)
  }

  /** `extract_org`: the first recognised organisation whose name contains
      one of the cue words gives the `name` and is rewritten to "org"; the
      other matches are ignored. */
  function ExtractOrg(o: Oracles, t: string): (string, Fields)
    requires Valid(o)
  {
    var ms := o.orgs(t);
    match FirstOrg(ms, 0)
    case None => (t, NoFields)
    case Some(i) =>
      assert OrgsFit(t, ms);
      var sp := ms[i].span;
      OneSpan(t, sp.start, sp.end, "org");
      (ReplaceSpans(t, [sp], "org"), map["name" := Text(ms[i].name)])
  }

  /** With no cue word in any match nothing changes; otherwise the FIRST
      match with a cue word is the organisation and only its span is
      rewritten. */
  lemma ExtractOrgSpec(o: Oracles, t: string)
    requires Valid(o)
    ensures var ms := o.orgs(t);
            var r := ExtractOrg(o, t);
      && ((forall j :: 0 <= j < |ms| ==> !HasOrgCue(ms[j].name)) ==> r == (t, NoFields))
      && (forall j ::
            (0 <= j < |ms| && HasOrgCue(ms[j].name) &&
             (forall m :: 0 <= m < j ==> !HasOrgCue(ms[m].name))) ==>
            && ms[j].span.start <= ms[j].span.end <= |t|
            && r.1 == map["name" := Text(ms[j].name)]
            && r.0 == t[..ms[j].span.start] + "org" + t[ms[j].span.end..])
  {
    var ms := o.orgs(t);
    assert OrgsFit(t, ms);
    match FirstOrg(ms, 0)
    case None =>
    case Some(i) =>
      OneSpan(t, ms[i].span.start, ms[i].span.end, "org");
  }

  // ---------------------------------------------------------------------
  // Employee name

  datatype NamePart = First | Last | Middle

  function PartOf(m: NameMatch, p: NamePart): Option<string> {
    match p
    case First => m.first
    case Last => m.last
    case Middle => m.middle
  }

  /** Key of a name part in the employee's `name` dictionary. */
  function PartKey(p: NamePart): string {
    match p
    case First => "firstn"
    case Last => "surn"
    case Middle => "patro"
  }

  /** One iteration of the source's loop over name matches: every non-empty
      part overwrites the collected one. */
  function AbsorbName(acc: map<string, Value>, m: NameMatch): map<string, Value> {
    var a1 := if Truthy(m.first) then acc["firstn" := Text(m.first.value)] else acc;
    var a2 := if Truthy(m.last) then a1["surn" := Text(m.last.value)] else a1;
    if Truthy(m.middle) then a2["patro" := Text(m.middle.value)] else a2
  }

  function NameFold(ms: seq<NameMatch>, acc: map<string, Value>): map<string, Value>
    decreases |ms|
  {
    if ms == [] then acc else NameFold(ms[1..], AbsorbName(acc, ms[0]))
  }

  /** Independent reference: the LAST non-empty value of part `p`. */
  function LastPart(ms: seq<NameMatch>, p: NamePart): Option<string>
    decreases |ms|
  {
    if ms == [] then None
    else
      var rest := LastPart(ms[1..], p);
      if rest.Some? then rest
      else if Truthy(PartOf(ms[0], p)) then PartOf(ms[0], p)
      else None
  }

  /** Later matches overwrite earlier ones, part by part; an empty part
      never overwrites. */
  lemma {:induction false} NameFoldIsLastPart(ms: seq<NameMatch>, acc: map<string, Value>, p: NamePart)
    ensures var r := NameFold(ms, acc);
      && (LastPart(ms, p).Some? ==> PartKey(p) in r && r[PartKey(p)] == Text(LastPart(ms, p).value))
      && (LastPart(ms, p).None? ==> (PartKey(p) in r <==> PartKey(p) in acc))
      && (LastPart(ms, p).None? && PartKey(p) in acc ==> r[PartKey(p)] == acc[PartKey(p)])
    decreases |ms|
  {
    if ms != [] {
      NameFoldIsLastPart(ms[1..], AbsorbName(acc, ms[0]), p);
    }
  }

  lemma {:induction false} NameFoldKeys(ms: seq<NameMatch>, acc: map<string, Value>)
    ensures NameFold(ms, acc).Keys <= acc.Keys + {"firstn", "surn", "patro"}
    decreases |ms|
  {
    if ms != [] {
      NameFoldKeys(ms[1..], AbsorbName(acc, ms[0]));
    }
  }

  lemma NoNameIffNoParts(ms: seq<NameMatch>)
    ensures NameFold(ms, map[]) == map[] <==> forall p: NamePart :: LastPart(ms, p).None?
  {
    var name := NameFold(ms, map[]);
    NameFoldKeys(ms, map[]);
    if name == map[] {
      forall p: NamePart ensures LastPart(ms, p).None? {
        NameFoldIsLastPart(ms, map[], p);
      }
    } else {
      var k :| k in name;
      if k == "firstn" {
        NameFoldIsLastPart(ms, map[], First);
      } else if k == "surn" {
        NameFoldIsLastPart(ms, map[], Last);
      } else {
        NameFoldIsLastPart(ms, map[], Middle);
      }
    }
  }

  /** `extract_empee`: the parts of every name match are merged, later ones
      winning; when any part was found, ALL matched spans (also those of
      matches without parts) are rewritten to "empee". */
  function ExtractEmpee(o: Oracles, t: string): (string, Fields)
    requires Valid(o)
  {
    var ms := o.names(t);
    var name := NameFold(ms, map[]);
    if name != map[] then
      assert Ordered(NameSpans(o.names(t)), 0, |t|);
      (ReplaceSpans(t, NameSpans(ms), "empee"), map["name" := Obj(name)])
    else (t, NoFields)
  }

  /** The entity is empty exactly when no match carries any part, and then
      the phrase is unchanged. */
  lemma ExtractEmpeeEmpty(o: Oracles, t: string)
    requires Valid(o)
    ensures var r := ExtractEmpee(o, t);
      && (r.1 == NoFields <==> forall p: NamePart :: LastPart(o.names(t), p).None?)
      && (r.1 == NoFields ==> r.0 == t)
  {
    var ms := o.names(t);
    var name := NameFold(ms, map[]);
    NoNameIffNoParts(ms);
    if name != map[] {
      assert "name" in ExtractEmpee(o, t).1 && "name" !in NoFields;
    }
  }

  /** A found name holds, for every part, its LAST non-empty value, and all
      name spans are rewritten. */
  lemma ExtractEmpeeSpec(o: Oracles, t: string)
    requires Valid(o)
    ensures var ms := o.names(t);
            var r := ExtractEmpee(o, t);
      r.1 != NoFields ==>
        && Ordered(NameSpans(ms), 0, |t|)
        && r.0 == ReplaceSpans(t, NameSpans(ms), "empee")
        && r.1.Keys == {"name"} && r.1["name"].Obj?
        && r.1["name"].fields.Keys <= {"firstn", "surn", "patro"}
        && forall p: NamePart :: LastPart(ms, p).Some? ==>
             PartKey(p) in r.1["name"].fields &&
             r.1["name"].fields[PartKey(p)] == Text(LastPart(ms, p).value)
  {
    var ms := o.names(t);
    var name := NameFold(ms, map[]);
    if name != map[] {
      NameFoldKeys(ms, map[]);
      assert Ordered(NameSpans(o.names(t)), 0, |t|);
      forall p: NamePart | LastPart(ms, p).Some?
        ensures PartKey(p) in name && name[PartKey(p)] == Text(LastPart(ms, p).value)
      {
        NameFoldIsLastPart(ms, map[], p);
      }
    }
  }

  // ---------------------------------------------------------------------
  // Class name

  function ClassFields(m: ClassMatch): (r: Fields) {
    var f1 := if Truthy(m.name) then NoFields["name" := Text(m.name.value)] else NoFields;
    if Truthy(m.spec) then f1["spec" := Text(m.spec.value)] else f1
  }

  /** `extract_class`: only the first match is used; its non-empty name and
      speciality are kept, and its span is rewritten to "class" even when it
      had neither (the empty entity is then dropped by the cascade). */
  function ExtractClass(o: Oracles, t: string): (string, Fields)
    requires Valid(o)
  {
    var ms := o.classes(t);
    if ms == [] then (t, NoFields)
    else
      assert ClassesFit(t, ms);
      OneSpan(t, ms[0].span.start, ms[0].span.end, "class");
      (ReplaceSpans(t, [ms[0].span], "class"), ClassFields(ms[0]))
  }

  /** Only the first match counts: a field is present exactly when that
      match's part is non-empty, and its span is rewritten in any case. */
  lemma ExtractClassSpec(o: Oracles, t: string)
    requires Valid(o)
    ensures var ms := o.classes(t);
            var r := ExtractClass(o, t);
      && (ms == [] ==> r == (t, NoFields))
      && (ms != [] ==>
            && ms[0].span.start <= ms[0].span.end <= |t|
            && r.0 == t[..ms[0].span.start] + "class" + t[ms[0].span.end..]
            && r.1.Keys <= {"name", "spec"}
            && ("name" in r.1 <==> Truthy(ms[0].name))
            && ("spec" in r.1 <==> Truthy(ms[0].spec))
            && ("name" in r.1 ==> r.1["name"] == Text(ms[0].name.value))
            && ("spec" in r.1 ==> r.1["spec"] == Text(ms[0].spec.value)))
  {
    var ms := o.classes(t);
    if ms != [] {
      assert ClassesFit(t, ms);
      OneSpan(t, ms[0].span.start, ms[0].span.end, "class");
    }
  }

  // ---------------------------------------------------------------------
  // Day

  function Sign(backward: bool): int {
    if backward then -1 else 1
  }

  lemma SignScales(x: int, backward: bool)
    ensures x * Sign(backward) == if backward then -x else x
  {
  }

  /** One iteration of the source's loop over day matches. */
  function AbsorbDay(acc: Fields, m: DayMatch): (r: Fields)
    ensures m.offset.Some? ==> r.Keys == acc.Keys + {"offset"} && OffsetOf(m, r["offset"])
    ensures m.offset.None? ==> r.Keys == acc.Keys + {"weekday"} && WeekdayOf(m, r["weekday"])
    ensures forall k :: k in acc && k != (if m.offset.Some? then "offset" else "weekday") ==> r[k] == acc[k]
  {
    if m.offset.Some? then
      SignScales(m.offset.value * m.count, m.backward);
      acc["offset" := Num(m.offset.value * m.count * Sign(m.backward))]
    else
      SignScales(m.weekday, m.backward);
      acc["weekday" := Num(m.weekday * Sign(m.backward))]
  }

  function DayFold(ms: seq<DayMatch>, acc: Fields): Fields
    decreases |ms|
  {
    if ms == [] then acc else DayFold(ms[1..], AbsorbDay(acc, ms[0]))
  }

  /** Independent reference: the last match that carries an offset. */
  function LastOffset(ms: seq<DayMatch>): Option<DayMatch>
    decreases |ms|
  {
    if ms == [] then None
    else
      var rest := LastOffset(ms[1..]);
      if rest.Some? then rest else if ms[0].offset.Some? then Some(ms[0]) else None
  }

  /** Independent reference: the last match that names a weekday. */
  function LastWeekday(ms: seq<DayMatch>): Option<DayMatch>
    decreases |ms|
  {
    if ms == [] then None
    else
      var rest := LastWeekday(ms[1..]);
      if rest.Some? then rest else if ms[0].offset.None? then Some(ms[0]) else None
  }

  /** The scaled offset, negated exactly when the match points backward. */
  predicate OffsetOf(m: DayMatch, v: Value) {
    m.offset.Some? &&
    v == Num(if m.backward then -(m.offset.value * m.count) else m.offset.value * m.count)
  }

  /** The weekday, negated exactly when the match points backward. */
  predicate WeekdayOf(m: DayMatch, v: Value) {
    v == Num(if m.backward then -m.weekday else m.weekday)
  }

  /** The `offset` field ends up holding the last offset match's value. */
  lemma {:induction false} DayFoldOffset(ms: seq<DayMatch>, acc: Fields)
    ensures var r := DayFold(ms, acc);
      && ("offset" in r <==> "offset" in acc || LastOffset(ms).Some?)
      && (LastOffset(ms).Some? ==> OffsetOf(LastOffset(ms).value, r["offset"]))
      && (LastOffset(ms).None? && "offset" in acc ==> r["offset"] == acc["offset"])
    decreases |ms|
  {
    if ms != [] {
      DayFoldOffset(ms[1..], AbsorbDay(acc, ms[0]));
    }
  }

  /** The `weekday` field ends up holding the last weekday match's value. */
  lemma {:induction false} DayFoldWeekday(ms: seq<DayMatch>, acc: Fields)
    ensures var r := DayFold(ms, acc);
      && ("weekday" in r <==> "weekday" in acc || LastWeekday(ms).Some?)
      && (LastWeekday(ms).Some? ==> WeekdayOf(LastWeekday(ms).value, r["weekday"]))
      && (LastWeekday(ms).None? && "weekday" in acc ==> r["weekday"] == acc["weekday"])
    decreases |ms|
  {
    if ms != [] {
      DayFoldWeekday(ms[1..], AbsorbDay(acc, ms[0]));
    }
  }

  lemma {:induction false} DayFoldKeys(ms: seq<DayMatch>, acc: Fields)
    ensures DayFold(ms, acc).Keys <= acc.Keys + {"offset", "weekday"}
    decreases |ms|
  {
    if ms != [] {
      DayFoldKeys(ms[1..], AbsorbDay(acc, ms[0]));
    }
  }

  lemma LastDayExists(ms: seq<DayMatch>)
    ensures ms != [] ==> LastOffset(ms).Some? || LastWeekday(ms).Some?
  {
    if ms != [] {
      var x := ms[|ms| - 1];
      LastDayTail(ms);
    }
  }

  lemma {:induction false} LastDayTail(ms: seq<DayMatch>)
    requires ms != []
    ensures LastOffset(ms).Some? || LastWeekday(ms).Some?
    decreases |ms|
  {
    if |ms| > 1 {
      LastDayTail(ms[1..]);
    }
  }

  /** `extract_day`: each match sets `offset` (scaled by `count`) or
      `weekday`, negated when it points backward, later matches overwriting
      earlier ones; the spans of all matches become "day" exactly when some
      match was found. */
  function ExtractDay(o: Oracles, t: string): (string, Fields)
    requires Valid(o)
  {
    var ms := o.days(t);
    var f := DayFold(ms, NoFields);
    if f != NoFields then
      assert Ordered(DaySpans(o.days(t)), 0, |t|);
      (ReplaceSpans(t, DaySpans(ms), "day"), f)
    else (t, f)
  }

  /** With no match nothing changes; otherwise all day spans are
      rewritten. */
  lemma ExtractDayPhrase(o: Oracles, t: string)
    requires Valid(o)
    ensures var ms := o.days(t);
            var r := ExtractDay(o, t);
      && (ms == [] ==> r == (t, NoFields))
      && (ms != [] ==> Ordered(DaySpans(ms), 0, |t|) && r.0 == ReplaceSpans(t, DaySpans(ms), "day"))
  {
    var ms := o.days(t);
    var f := DayFold(ms, NoFields);
    assert Ordered(DaySpans(o.days(t)), 0, |t|);
    if ms != [] {
      LastDayExists(ms);
      DayFoldOffset(ms, NoFields);
      DayFoldWeekday(ms, NoFields);
      if LastOffset(ms).Some? {
        assert "offset" in f && "offset" !in NoFields;
      } else {
        assert "weekday" in f && "weekday" !in NoFields;
      }
    }
  }

  /** `offset` holds the last offset match's value and `weekday` the last
      weekday match's value, each present exactly when such a match
      exists. */
  lemma ExtractDayFields(o: Oracles, t: string)
    requires Valid(o)
    ensures var ms := o.days(t);
            var r := ExtractDay(o, t);
      && r.1.Keys == (if LastOffset(ms).Some? then {"offset"} else {})
                   + (if LastWeekday(ms).Some? then {"weekday"} else {})
      && (LastOffset(ms).Some? ==> OffsetOf(LastOffset(ms).value, r.1["offset"]))
      && (LastWeekday(ms).Some? ==> WeekdayOf(LastWeekday(ms).value, r.1["weekday"]))
  {
    var ms := o.days(t);
    var f := DayFold(ms, NoFields);
    DayFoldOffset(ms, NoFields);
    DayFoldWeekday(ms, NoFields);
    DayFoldKeys(ms, NoFields);
    assert ExtractDay(o, t).1 == f;
  }

  // ---------------------------------------------------------------------
  // The cascade

  /** A step of the cascade: the extractor of one kind, applied to a phrase. */
  type Stepper = (Kind, string) -> (string, Fields)

  /** The cascade of extractors, the extractor of each kind given by `step`.
      A non-empty result is stored under its kind, and the next step sees
      the rewritten phrase. */
  function Cascade(step: Stepper, ks: seq<Kind>, t: string, e: Store): (string, Store)
    decreases |ks|
  {
    if ks == [] then (t, e)
    else
      var (t1, f) := step(ks[0], t);
      Cascade(step, ks[1..], t1, if f != NoFields then e[ks[0] := f] else e)
  }

  /** The phrases the steps see: `tr[i]` is the input of step `i`. */
  function Trace(step: Stepper, ks: seq<Kind>, t: string): (tr: seq<string>)
    ensures |tr| == |ks| + 1 && tr[0] == t
    ensures forall i :: 0 <= i < |ks| ==> tr[i + 1] == step(ks[i], tr[i]).0
    decreases |ks|
  {
    if ks == [] then [t] else [t] + Trace(step, ks[1..], step(ks[0], t).0)
  }

  predicate Distinct(ks: seq<Kind>) {
    forall i, j :: 0 <= i < j < |ks| ==> ks[i] != ks[j]
  }

  /** The cascade's result phrase is the one the last step produced. */
  lemma {:induction false} CascadePhrase(step: Stepper, ks: seq<Kind>, t: string, e: Store)
    ensures Cascade(step, ks, t, e).0 == Trace(step, ks, t)[|ks|]
    decreases |ks|
  {
    if ks != [] {
      var (t1, f) := step(ks[0], t);
      CascadePhrase(step, ks[1..], t1, if f != NoFields then e[ks[0] := f] else e);
      assert Trace(step, ks, t)[1..] == Trace(step, ks[1..], t1);
    }
  }

  /** Kinds stored before the cascade and not run by it are kept; every
      kind added is one of the kinds run, with a non-empty entity. */
  lemma {:induction false} CascadeKeeps(step: Stepper, ks: seq<Kind>, t: string, e: Store)
    requires Distinct(ks)
    ensures var r := Cascade(step, ks, t, e).1;
      && (forall k :: k in e && k !in ks ==> k in r && r[k] == e[k])
      && (forall k :: k in r && k !in e ==> k in ks && r[k] != NoFields)
    decreases |ks|
  {
    if ks != [] {
      var (t1, f) := step(ks[0], t);
      var e1 := if f != NoFields then e[ks[0] := f] else e;
      CascadeKeeps(step, ks[1..], t1, e1);
      assert forall k :: k in ks[1..] ==> k in ks;
      assert ks[0] !in ks[1..] by {
        forall i | 0 <= i < |ks| - 1
          ensures ks[1..][i] != ks[0]
        {
          assert ks[1..][i] == ks[i + 1];
        }
      }
    }
  }

  /** A kind run by the cascade is stored exactly when its step found a
      non-empty entity, and then holds that entity. */
  lemma {:induction false} CascadeStores(step: Stepper, ks: seq<Kind>, t: string, e: Store)
    requires Distinct(ks)
    requires forall i :: 0 <= i < |ks| ==> ks[i] !in e
    ensures var tr := Trace(step, ks, t);
            var r := Cascade(step, ks, t, e).1;
      forall i :: 0 <= i < |ks| ==>
        && (ks[i] in r <==> step(ks[i], tr[i]).1 != NoFields)
        && (ks[i] in r ==> r[ks[i]] == step(ks[i], tr[i]).1)
    decreases |ks|
  {
    if ks != [] {
      var (t1, f) := step(ks[0], t);
      var e1 := if f != NoFields then e[ks[0] := f] else e;
      forall i | 0 <= i < |ks| - 1
        ensures ks[1..][i] !in e1
      {
        assert ks[1..][i] == ks[i + 1] && ks[0] != ks[i + 1];
      }
      CascadeStores(step, ks[1..], t1, e1);
      CascadeKeeps(step, ks[1..], t1, e1);
      assert Trace(step, ks, t)[1..] == Trace(step, ks[1..], t1);
    }
  }

  /** The extractor of kind `k`. */
  function Step(o: Oracles, k: Kind, t: string): (string, Fields)
    requires Valid(o)
  {
    match k
    case Org => ExtractOrg(o, t)
    case Empee => ExtractEmpee(o, t)
    case Group => ExtractGroup(o, t)
    case Subgp => ExtractSubgp(o, t)
    case Class => ExtractClass(o, t)
    case Day => ExtractDay(o, t)
    case Place => ExtractPlace(o, t)
  }

  /** The extractors over the recognisers `o`, as a cascade step. */
  function Runner(o: Oracles): Stepper
    requires Valid(o)
  {
    (k, s) => Step(o, k, s)
  }

  /** The extractors, in the order the source runs them. */
  const Order: seq<Kind> := [Org, Empee, Group, Subgp, Class, Day, Place]

  /** `extract`: the phrase is normalised, then the extractors run in the
      order org, empee, group, subgp, class, day, place. */
  function Extract(o: Oracles, ch: Chars, phrase: string): (Store, string)
    requires Valid(o)
  {
    var (t, e) := Cascade(Runner(o), Order, DropSubstrs(ch, phrase), map[]);
    (e, t)
  }

  lemma OrderDistinct()
    ensures Distinct(Order)
  {
  }

  /** Each step receives the previous step's rewritten phrase; a kind is
      present exactly when its step found a non-empty entity, and then holds
      that entity; no other kind appears. */
  lemma ExtractSpec(o: Oracles, ch: Chars, phrase: string)
    requires Valid(o)
    ensures var tr := Trace(Runner(o), Order, DropSubstrs(ch, phrase));
            var r := Extract(o, ch, phrase);
      && r.1 == tr[|Order|]
      && (forall i :: 0 <= i < |Order| ==>
            (Order[i] in r.0 <==> Runner(o)(Order[i], tr[i]).1 != NoFields) &&
            (Order[i] in r.0 ==> r.0[Order[i]] == Runner(o)(Order[i], tr[i]).1))
      && (forall k :: k in r.0 ==> k in Order && r.0[k] != NoFields)
  {
    var t := DropSubstrs(ch, phrase);
    OrderDistinct();
    CascadePhrase(Runner(o), Order, t, map[]);
    CascadeKeeps(Runner(o), Order, t, map[]);
    CascadeStores(Runner(o), Order, t, map[]);
  }
}
