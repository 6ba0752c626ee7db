/** Reference and context resolution (`cont_fill`, `clar_fill`,
    `clar_name_fill`, `clar_org_fill` in UgraSage/entityextractor.py). Both
    passes only ever ADD kinds to the entity store (`Fill`), so an entity
    found directly in the phrase is never replaced. */
module Resolver {
  import opened Wrappers
  import opened Entities
  import opened Matchers

  // ---------------------------------------------------------------------
  // Context fill

  /** The anaphora table: which kinds a reference may stand for. Personal
      pronouns are disambiguated by their preposition; a reference outside
      the table (for example "я") stands for nothing. */
  function RefKinds(r: Ref): seq<Kind> {
    if r.main == "она" || r.main == "он" then
      if r.hint == Some("о") || r.hint == Some("у") || r.hint == Some("с") || r.hint == None then [Empee, Group]
      else if r.hint == Some("в") then [Group]
      else if r.hint == Some("по") then [Class]
      else []
    else if r.main == "они" then [Group]
    else if r.main == "университет" || r.main == "школа" || r.main == "колледж" then [Org]
    else if r.main == "группа" || r.main == "класс" then [Group]
    else if r.main == "преподаватель" || r.main == "учитель" || r.main == "человек" then [Empee]
    else if r.main == "дисциплина" || r.main == "занятие" || r.main == "пара" || r.main == "урок" then [Class]
    else if r.main == "день" then [Day]
    else []
  }

  /** Kinds a list of table kinds selects from the context: the kinds
      themselves, plus the organisation whenever a group or an employee is
      taken from the context. */
  function Selected(ks: seq<Kind>, cont: Store): set<Kind>
    decreases |ks|
  {
    if ks == [] then {}
    else
      {ks[0]} + (if (ks[0] == Group || ks[0] == Empee) && ks[0] in cont then {Org} else {})
      + Selected(ks[1..], cont)
  }

  /** Kinds all references together select from the context. */
  function Wanted(refs: seq<Ref>, cont: Store): set<Kind>
    decreases |refs|
  {
    if refs == [] then {} else Selected(RefKinds(refs[0]), cont) + Wanted(refs[1..], cont)
  }

  /** The inner `fill(ent_names)` of `cont_fill`: each kind present in the
      context is filled from it, and a group or employee taken from the
      context also pulls in the context's organisation. */
  function FillFrom(e: Store, cont: Store, ks: seq<Kind>): (r: Store)
    ensures forall k :: k in e ==> k in r && r[k] == e[k]
    ensures forall k :: k in r && k !in e ==> k in cont && k in Selected(ks, cont) && r[k] == cont[k]
    ensures forall k :: k in cont && k in Selected(ks, cont) ==> k in r
    decreases |ks|
  {
    if ks == [] then e
    else
      var k := ks[0];
      var e1 := if k in cont then Fill(e, k, cont[k]) else e;
      var e2 := if k in cont && (k == Group || k == Empee) && Org in cont then Fill(e1, Org, cont[Org]) else e1;
      FillFrom(e2, cont, ks[1..])
  }

  /** `cont_fill`: for every reference in order, the kinds the table selects
      are copied from the previous turn's context when absent. */
  function ContFill(e: Store, cont: Store, refs: seq<Ref>): Store
    decreases |refs|
  {
    if refs == [] then e
    else ContFill(FillFrom(e, cont, RefKinds(refs[0])), cont, refs[1..])
  }

  /** The result is the current store plus exactly those context kinds that
      some reference wants and that are not yet present. */
  lemma {:induction false} ContFillSpec(e: Store, cont: Store, refs: seq<Ref>)
    ensures var r := ContFill(e, cont, refs);
      && (forall k :: k in e ==> k in r && r[k] == e[k])
      && (forall k :: k in r && k !in e ==> k in cont && k in Wanted(refs, cont) && r[k] == cont[k])
      && (forall k :: k in cont && k in Wanted(refs, cont) ==> k in r)
    decreases |refs|
  {
    if refs != [] {
      ContFillSpec(FillFrom(e, cont, RefKinds(refs[0])), cont, refs[1..]);
    }
  }

  /** A reference to a group or an employee found in the context brings the
      context's organisation with it. */
  lemma {:induction false} ContFillBringsOrg(e: Store, cont: Store, refs: seq<Ref>, i: nat, k: Kind)
    requires i < |refs| && (k == Group || k == Empee)
    requires k in RefKinds(refs[i]) && k in cont && Org in cont
    ensures Org in ContFill(e, cont, refs)
    ensures Org !in e ==> ContFill(e, cont, refs)[Org] == cont[Org]
  {
    SelectedOrg(RefKinds(refs[i]), cont, k);
    WantedHas(refs, cont, i, Org);
    ContFillSpec(e, cont, refs);
  }

  lemma {:induction false} SelectedOrg(ks: seq<Kind>, cont: Store, k: Kind)
    requires (k == Group || k == Empee) && k in ks && k in cont
    ensures Org in Selected(ks, cont)
    decreases |ks|
  {
    if ks[0] != k {
      SelectedOrg(ks[1..], cont, k);
    }
  }

  lemma {:induction false} WantedHas(refs: seq<Ref>, cont: Store, i: nat, k: Kind)
    requires i < |refs| && k in Selected(RefKinds(refs[i]), cont)
    ensures k in Wanted(refs, cont)
    decreases i
  {
    if i > 0 {
      assert refs[1..][i - 1] == refs[i];
      WantedHas(refs[1..], cont, i - 1, k);
    }
  }

  /** References outside the table add nothing: a list of which no
      reference selects a kind leaves the store as it is. "я" is such a
      reference, and so is either pronoun with a preposition the table does
      not list. */
  lemma {:induction false} UnlistedRefAddsNothing(e: Store, cont: Store, refs: seq<Ref>, hint: string)
    requires hint !in {"о", "у", "с", "в", "по"}
    ensures (forall i :: 0 <= i < |refs| ==> RefKinds(refs[i]) == []) ==> ContFill(e, cont, refs) == e
    ensures RefKinds(Ref("я", None)) == []
    ensures RefKinds(Ref("он", Some(hint))) == [] && RefKinds(Ref("она", Some(hint))) == []
    ensures ContFill(e, cont, [Ref("я", None)]) == e
    ensures ContFill(e, cont, [Ref("он", Some(hint))]) == e
    decreases |refs|
  {
    if refs != [] && forall i :: 0 <= i < |refs| ==> RefKinds(refs[i]) == [] {
      assert RefKinds(refs[0]) == [];
      assert FillFrom(e, cont, RefKinds(refs[0])) == e;
      UnlistedRefAddsNothing(e, cont, refs[1..], hint);
    }
    assert RefKinds(Ref("я", None)) == [];
    assert RefKinds(Ref("он", Some(hint))) == [];
  }

  // ---------------------------------------------------------------------
  // Profile (clarification) fill

  /** The user's registered profile: a member of a group (with an optional
      subgroup) or a member of staff. */
  datatype Profile =
    | GroupMember(name: string, subgp: Option<string>, org: string)
    | Staff(firstn: string, surn: string, patro: string, exid: string, org: string)

  /** The kind a profile identifies its owner by. */
  function Identity(p: Profile): Kind {
    if p.GroupMember? then Group else Empee
  }

  /** `clar_org_fill`: the profile's organisation, when none is known. */
  function ClarOrgFill(p: Profile, e: Store): (r: Store)
    ensures Org in r && r.Keys == e.Keys + {Org}
    ensures Org !in e ==> r[Org] == map["name" := Text(p.org)]
    ensures forall k :: k in e ==> r[k] == e[k]
  {
    Fill(e, Org, map["name" := Text(p.org)])
  }

  /** The entity that identifies the profile's owner: `{name}` of the
      group, or `{name: {firstn, surn, patro}, exid}` of the employee. */
  function IdentityFields(p: Profile): Fields {
    match p
    case GroupMember(name, _, _) => map["name" := Text(name)]
    case Staff(firstn, surn, patro, exid, _) =>
      map["name" := Obj(map["firstn" := Text(firstn), "surn" := Text(surn), "patro" := Text(patro)]),
          "exid" := Text(exid)]
  }

  /** `clar_name_fill`: the owner's identity and, for a group member whose
      profile subgroup is non-empty, `subgp {name}`. */
  function ClarNameFill(p: Profile, e: Store): Store {
    var e1 := Fill(e, Identity(p), IdentityFields(p));
    if p.GroupMember? && Truthy(p.subgp) then Fill(e1, Subgp, map["name" := Text(p.subgp.value)]) else e1
  }

  /** Nothing is overwritten; the owner's identity is present afterwards; a
      group member adds at most group and subgroup, the subgroup only when
      the profile has one; staff add exactly the employee. */
  lemma ClarNameFillSpec(p: Profile, e: Store)
    ensures var r := ClarNameFill(p, e);
      && (forall k :: k in e ==> k in r && r[k] == e[k])
      && Identity(p) in r
      && (p.GroupMember? ==> r.Keys <= e.Keys + {Group, Subgp})
      && (p.GroupMember? && Group !in e ==> r[Group] == map["name" := Text(p.name)])
      && (p.GroupMember? ==> (Subgp in r <==> Subgp in e || Truthy(p.subgp)))
      && (p.GroupMember? && Subgp !in e && Truthy(p.subgp) ==> r[Subgp] == map["name" := Text(p.subgp.value)])
      && (p.Staff? ==> r.Keys == e.Keys + {Empee})
      && (p.Staff? && Empee !in e ==>
            r[Empee] == map["name" := Obj(map["firstn" := Text(p.firstn), "surn" := Text(p.surn), "patro" := Text(p.patro)]),
                            "exid" := Text(p.exid)])
  {
  }

  /** Some reference is the self-reference "я". */
  predicate SelfRef(refs: seq<Ref>) {
    exists i :: 0 <= i < |refs| && refs[i].main == "я"
  }

  /** `clar_fill`: the self-reference fills the organisation and the
      owner's identity from the profile; otherwise the organisation is
      filled, and the identity only when none of group, employee, place is
      known. */
  function ClarFill(e: Store, prof: Option<Profile>, refs: seq<Ref>): Store {
    if prof.None? then e
    else
      var p := prof.value;
      if SelfRef(refs) then ClarNameFill(p, ClarOrgFill(p, e))
      else
        var e1 := ClarOrgFill(p, e);
        if Group in e1 || Empee in e1 || Place in e1 then e1 else ClarNameFill(p, e1)
  }

  /** What filling from profile `p` leaves in `r`, starting from `e`: the
      organisation and the owner's identity are present, each with the
      profile's value when it was absent; a group member's non-empty
      subgroup likewise; no other kind is added. */
  predicate ProfileFilled(e: Store, p: Profile, r: Store) {
    && Org in r && (Org !in e ==> r[Org] == map["name" := Text(p.org)])
    && Identity(p) in r && (Identity(p) !in e ==> r[Identity(p)] == IdentityFields(p))
    && (p.GroupMember? && Truthy(p.subgp) ==>
          Subgp in r && (Subgp !in e ==> r[Subgp] == map["name" := Text(p.subgp.value)]))
    && r.Keys <= e.Keys + {Org, Identity(p)} + (if p.GroupMember? && Truthy(p.subgp) then {Subgp} else {})
  }

  /** Without a profile nothing happens. Nothing already present changes. A
      self-reference fills the organisation and the identity even when a
      group, employee or place is known; without one the organisation is
      always filled and the identity only when none of the three is
      present. */
  lemma ClarFillSpec(e: Store, prof: Option<Profile>, refs: seq<Ref>)
    ensures var r := ClarFill(e, prof, refs);
      && (prof.None? ==> r == e)
      && (forall k :: k in e ==> k in r && r[k] == e[k])
      && (prof.Some? && SelfRef(refs) ==> ProfileFilled(e, prof.value, r))
      && (prof.Some? && !SelfRef(refs) && !(Group in e || Empee in e || Place in e) ==> ProfileFilled(e, prof.value, r))
      && (prof.Some? && !SelfRef(refs) && (Group in e || Empee in e || Place in e) ==>
            && r.Keys == e.Keys + {Org}
            && (Org !in e ==> r[Org] == map["name" := Text(prof.value.org)]))
  {
    if prof.Some? {
      var p := prof.value;
      var e1 := ClarOrgFill(p, e);
      ClarNameFillSpec(p, e1);
    }
  }
}
