/** One turn of the schedule dialog (`manage` in UgraSage/ansmanager.py) as a
    pure transition from the stored turn data to the reply and the data
    stored for the next turn. The intent classifier, the entity checker, the
    intent handlers and `shuffle_now` are injected collaborators; the user's
    profile and the stored turn data are inputs, and what the source writes
    back to its database is part of the result. */
module Dialog {
  import opened Wrappers
  import opened Entities
  import opened Matchers
  import opened Phrase
  import opened Extractor
  import opened Resolver

  // ---------------------------------------------------------------------
  // Turn data

  /** The user's answer record: `subject` is non-empty exactly while the
      bot is waiting for the answer to a clarifying question. */
  datatype Answer = Answer(subject: string, text: string)

  /** What the previous turn left: its entities and its intent name. */
  datatype Context = Context(entities: Store, intent: string)

  /** The stored turn data (`tmpdata`). */
  datatype TmpData = TmpData(answer: Answer, context: Context, unchecked: Requirement)

  /** The reply under construction (`ans`); `text` is absent until the
      checker or a handler writes it. */
  datatype Reply = Reply(text: Option<string>)

  const NoReply := Reply(None)

  /** The stored turn data after `reset_tmpdata`: no outstanding question,
      no context, nothing left to check. */
  const Blank := TmpData(Answer("", ""), Context(map[], ""), [])

  /** One incoming message (`essence`): the user id, whether it is the
      welcome event, the phrase, and the entities the client recognised
      itself. */
  datatype Essence = Essence(user: string, welcome: bool, phrase: string, client: Option<Store>)

  // ---------------------------------------------------------------------
  // The intent → requirement table

  datatype Intent = NextClass | BotInfo | UserClar | ClassPeer | ClassList | EmployeeInfo | EducatorPlace

  function IntentName(i: Intent): string {
    match i
    case NextClass => "nextClass"
    case BotInfo => "botInfo"
    case UserClar => "userClar"
    case ClassPeer => "classPeer"
    case ClassList => "classList"
    case EmployeeInfo => "employeeInfo"
    case EducatorPlace => "educatorPlace"
  }

  /** The table lookup by name: any other name is not in the table. */
  function IntentOf(s: string): Option<Intent> {
    if s == "nextClass" then Some(NextClass)
    else if s == "botInfo" then Some(BotInfo)
    else if s == "userClar" then Some(UserClar)
    else if s == "classPeer" then Some(ClassPeer)
    else if s == "classList" then Some(ClassList)
    else if s == "employeeInfo" then Some(EmployeeInfo)
    else if s == "educatorPlace" then Some(EducatorPlace)
    else None
  }

  /** A name resolves to an intent exactly when it is that intent's name. */
  lemma IntentNames(s: string, i: Intent)
    ensures IntentOf(s) == Some(i) <==> s == IntentName(i)
  {
  }

  /** One position of a requirement group: a kind, or the `None`
      placeholder that marks the group as optional. */
  type Slot = Option<Kind>

  /** Groups of alternative kinds; the checker works from the last group
      backwards. */
  type Requirement = seq<seq<Slot>>

  /** A table entry: the intent, its requirement, and whether the handler
      receives the user id. */
  datatype Entry = Entry(intent: Intent, reqs: Requirement, passesUser: bool)

  type Shuffler = seq<Slot> -> seq<Slot>

  /** `shuffle` is a permutation of its argument, as `shuffle_now` is. */
  ghost predicate Permutes(shuffle: Shuffler) {
    forall xs {:trigger shuffle(xs)} :: multiset(shuffle(xs)) == multiset(xs)
  }

  const Subjects: seq<Slot> := [Some(Group), Some(Empee), Some(Place)]
  const Owners: seq<Slot> := [Some(Group), Some(Empee)]

  /** The handler table, built afresh on every turn with `shuffle` applied
      to the middle group only. */
  function Table(i: Intent, shuffle: Shuffler): Entry {
    match i
    case NextClass => Entry(i, [[None, Some(Subgp), Some(Class)], shuffle(Subjects), [Some(Org)]], false)
    case BotInfo => Entry(i, [], false)
    case UserClar => Entry(i, [[None, Some(Subgp)], shuffle(Owners), [Some(Org)]], true)
    case ClassPeer => Entry(i, [[None, Some(Subgp), Some(Class)], shuffle(Owners), [Some(Org)]], true)
    case ClassList => Entry(i, [[None, Some(Subgp), Some(Day)], shuffle(Owners), [Some(Org)]], true)
    case EmployeeInfo => Entry(i, [[Some(Empee)], [Some(Org)]], true)
    case EducatorPlace => Entry(i, [[Some(Empee)], [Some(Org)]], true)
  }

  function Lookup(name: string, shuffle: Shuffler): Option<Entry> {
    match IntentOf(name)
    case None => None
    case Some(i) => Some(Table(i, shuffle))
  }

  /** The shape of every entry: `botInfo` requires nothing; every other
      requirement ends with the organisation; a three-group requirement
      starts with an optional group and has the shuffled alternatives in
      the middle; the two groups without a shuffle are `empee`, `org`.
      Only `nextClass` and `botInfo` do without the user id. */
  lemma TableShape(i: Intent, shuffle: Shuffler)
    ensures var r := Table(i, shuffle).reqs;
      && (r == [] <==> i == BotInfo)
      && (r != [] ==> r[|r| - 1] == [Some(Org)])
      && (|r| == 3 ==> r[0][0] == None && |r[0]| >= 2 && r[1] == shuffle(if i == NextClass then Subjects else Owners))
      && (|r| == 3 <==> i in {NextClass, UserClar, ClassPeer, ClassList})
      && (|r| == 2 ==> r == [[Some(Empee)], [Some(Org)]])
      && (Table(i, shuffle).passesUser <==> i !in {NextClass, BotInfo})
      && Table(i, shuffle).intent == i
  {
  }

  /** Only the middle group depends on the shuffle, and when the shuffle
      is a permutation the middle group always holds the same kinds. */
  lemma OnlyMiddleShuffled(i: Intent, s1: Shuffler, s2: Shuffler)
    ensures var r1 := Table(i, s1).reqs;
            var r2 := Table(i, s2).reqs;
      && |r1| == |r2|
      && (forall j :: 0 <= j < |r1| && j != 1 ==> r1[j] == r2[j])
      && (Permutes(s1) && Permutes(s2) && |r1| == 3 ==> multiset(r1[1]) == multiset(r2[1]))
  {
    var r1 := Table(i, s1).reqs;
    var r2 := Table(i, s2).reqs;
    if |r1| == 3 && Permutes(s1) && Permutes(s2) {
      var base := if i == NextClass then Subjects else Owners;
      assert r1[1] == s1(base) && r2[1] == s2(base);
    }
  }

  // ---------------------------------------------------------------------
  // Collaborators

  /** The checker's verdict: whether the handler may run, the requirement
      still unchecked, the (possibly corrected) entities, the answer record
      (its `subject` set when a question is outstanding) and the reply. */
  datatype Checked = Checked(ready: bool, unchecked: Requirement, entities: Store, answer: Answer, reply: Reply)

  /** The injected collaborators of a turn: the entity extractor
      (`entityextractor.extract`) and reference collector
      (`entityextractor.extract_refs`), the character classes `str.strip`
      uses, `intentextractor.extract`, `entitychecker.check`, the intent
      handlers (by intent, with the `ready` flag and the optional user id)
      and `shuffle_now`. */
  datatype Env = Env(
    extract: string -> (Store, string),
    refs: string -> seq<Ref>,
    chars: Chars,
    classify: string -> string,
    check: (Requirement, Store, Answer, Reply) -> Checked,
    handle: (Intent, Store, Reply, bool, Option<string>) -> Reply,
    shuffle: Shuffler)

  /** The extractor and reference collector of `env` are the extraction
      cascade and the reference recogniser over the recognisers `o`. */
  ghost predicate Uses(env: Env, o: Oracles) {
    && Valid(o)
    && env.refs == o.refs
    && (forall p {:trigger env.extract(p)} :: env.extract(p) == Extract(o, env.chars, p))
  }

  // ---------------------------------------------------------------------
  // Welcome

  const Invite := " Можно спросить, что я умею."

  const Introduce :=
    "Здравствуйте! Пожалуйста, назовите свою образовательную"
    + " организацию, а также группу, если вы учащийся, или имя, если"
    + " вы преподаватель."

  /** The greeting, chosen by the kind of profile. */
  function WelcomeText(clar: Option<Profile>): string {
    var greeting :=
      match clar
      case None => Introduce
      case Some(GroupMember(name, subgp, _)) =>
        "Привет! Твоя группа " + name + ", а "
        + (if !Truthy(subgp) then "подгруппу ты не назвал." else "подгруппа " + subgp.value + ".")
      case Some(Staff(firstn, surn, patro, _, _)) =>
        "Здравствуйте, " + surn + " " + firstn + " " + patro + "!";
    greeting + Invite
  }

  predicate EndsWith(s: string, suffix: string) {
    |suffix| <= |s| && s[|s| - |suffix|..] == suffix
  }

  /** Every greeting ends with the invitation to ask what the bot can do. */
  lemma WelcomeInvites(clar: Option<Profile>)
    ensures EndsWith(WelcomeText(clar), Invite)
    ensures |WelcomeText(clar)| > |Invite|
  {
    var w := WelcomeText(clar);
    assert w[|w| - |Invite|..] == Invite;
  }

  /** A group member's greeting names the subgroup exactly when the
      profile's subgroup is non-empty. */
  lemma WelcomeSubgroup(name: string, subgp: Option<string>, org: string)
    ensures var w := WelcomeText(Some(GroupMember(name, subgp, org)));
            var head := "Привет! Твоя группа " + name + ", а ";
      && |head| < |w|
      && w[..|head|] == head
      && (w[|head|] == 'п')
      && (Truthy(subgp) <==> w[|head| .. |head| + |"подгруппа "|] == "подгруппа ")
  {
    var head := "Привет! Твоя группа " + name + ", а ";
    var w := WelcomeText(Some(GroupMember(name, subgp, org)));
    if Truthy(subgp) {
      assert w == head + ("подгруппа " + subgp.value + ".") + Invite;
      assert w[|head| .. |head| + |"подгруппа "|] == "подгруппа ";
    } else {
      assert w == head + "подгруппу ты не назвал." + Invite;
      assert w[|head| .. |head| + |"подгруппа "|] == "подгруппу ";
      assert "подгруппу "[8] != "подгруппа "[8];
    }
  }

  // ---------------------------------------------------------------------
  // The turn

  /** The turn after its first half: the answer record, the entities the
      checker will see, the intent name, the context snapshot to store when
      no question is outstanding, and the requirement left from the previous
      turn when its question is being answered. */
  datatype Turn = Turn(answer: Answer, entities: Store, intent: string, snapshot: Store, saved: Option<Requirement>)

  /** The fresh-phrase branch: extract, overlay the client's entities,
      classify and collect references on the rewritten phrase, fill from the
      context, snapshot, then fill from the profile. */
  function Fresh(env: Env, es: Essence, clar: Option<Profile>, tmp: TmpData): Turn {
    var (found, phrase) := env.extract(es.phrase);
    var overlaid := if es.client.Some? then Update(found, es.client.value) else found;
    var refs := env.refs(phrase);
    var filled := ContFill(overlaid, tmp.context.entities, refs);
    Turn(tmp.answer, ClarFill(filled, clar, refs), env.classify(phrase), filled, None)
  }

  /** The awaiting-answer branch: the stripped phrase is the answer, the
      stored context and intent are resumed, nothing is extracted. */
  function Awaiting(env: Env, es: Essence, tmp: TmpData): Turn {
    Turn(tmp.answer.(text := Strip(env.chars, es.phrase)), tmp.context.entities, tmp.context.intent,
         tmp.context.entities, Some(tmp.unchecked))
  }

  function Prepare(env: Env, es: Essence, clar: Option<Profile>, tmp: TmpData): Turn {
    if tmp.answer.subject != "" then Awaiting(env, es, tmp) else Fresh(env, es, clar, tmp)
  }

  /** Why a turn fails: the intent is not in the table (raised before
      anything is stored), or no reply text was produced (raised after the
      turn data is stored). */
  datatype Fault = UnknownIntent | EmptyAnswer

  /** The result of a turn: the turn data written back (if any) and the
      reply text or the failure. */
  datatype Outcome = Outcome(stored: Option<TmpData>, reply: Result<string, Fault>)

  function Check(env: Env, turn: Turn, entry: Entry): Checked {
    env.check(turn.saved.GetOr(entry.reqs), turn.entities, turn.answer, NoReply)
  }

  /** The second half: check, run the handler only when the checker is
      satisfied, store the turn data, and insist on a non-empty reply. */
  function Finish(env: Env, es: Essence, turn: Turn, entry: Entry): (out: Outcome)
    ensures out.stored.Some?
    ensures out.reply.Success? ==> out.reply.value != ""
  {
    var c := Check(env, turn, entry);
    var reply :=
      if c.ready then env.handle(entry.intent, c.entities, c.reply, true, if entry.passesUser then Some(es.user) else None)
      else c.reply;
    var kept := if c.answer.subject != "" then c.entities else turn.snapshot;
    var stored := TmpData(c.answer, Context(kept, turn.intent), c.unchecked);
    Outcome(Some(stored), if reply.text.Some? && reply.text.value != "" then Success(reply.text.value) else Failure(EmptyAnswer))
  }

  /** `manage`: the welcome event resets the turn data and greets; any
      other message runs one turn. */
  function Manage(env: Env, es: Essence, clar: Option<Profile>, tmp: TmpData): (out: Outcome) {
    if es.welcome then Outcome(Some(Blank), Success(WelcomeText(clar)))
    else
      var turn := Prepare(env, es, clar, tmp);
      match Lookup(turn.intent, env.shuffle)
      case None => Outcome(None, Failure(UnknownIntent))
      case Some(entry) => Finish(env, es, turn, entry)
  }

  // ---------------------------------------------------------------------
  // Properties of a turn

  /** The welcome event neither extracts, classifies, checks nor handles:
      the outcome depends on the profile alone, the turn data is reset, and
      the greeting is the reply. */
  lemma WelcomeTurn(env1: Env, env2: Env, es: Essence, clar: Option<Profile>, tmp1: TmpData, tmp2: TmpData)
    requires es.welcome
    ensures Manage(env1, es, clar, tmp1) == Manage(env2, es, clar, tmp2)
    ensures Manage(env1, es, clar, tmp1) == Outcome(Some(Blank), Success(WelcomeText(clar)))
  {
  }

  /** A turn never replies with an empty text. */
  lemma NeverEmpty(env: Env, es: Essence, clar: Option<Profile>, tmp: TmpData)
    ensures var out := Manage(env, es, clar, tmp);
      out.reply.Success? ==> out.reply.value != ""
  {
    if es.welcome {
      WelcomeInvites(clar);
    }
  }

  /** An intent outside the table fails before anything is stored; every
      other turn stores its data, whether or not a reply results. */
  lemma UnknownIntentFails(env: Env, es: Essence, clar: Option<Profile>, tmp: TmpData)
    requires !es.welcome
    ensures var out := Manage(env, es, clar, tmp);
      && (out.stored.None? <==> IntentOf(Prepare(env, es, clar, tmp).intent).None?)
      && (out.stored.None? ==> out.reply == Failure(UnknownIntent))
  {
  }

  /** While a question is outstanding the turn ignores the recognisers, the
      classifier and the shuffle: two environments that agree on the
      checker, the handlers and the character classes give the same
      outcome. The checker sees the stored requirement, the stored context
      and the answer with the stripped phrase as its text. */
  lemma AwaitingTurn(env1: Env, env2: Env, es: Essence, clar: Option<Profile>, tmp: TmpData)
    requires !es.welcome && tmp.answer.subject != ""
    requires env1.chars == env2.chars && env1.check == env2.check && env1.handle == env2.handle
    ensures Manage(env1, es, clar, tmp) == Manage(env2, es, clar, tmp)
    ensures var turn := Prepare(env1, es, clar, tmp);
      && turn.entities == tmp.context.entities && turn.intent == tmp.context.intent
      && turn.answer.text == Strip(env1.chars, es.phrase) && turn.answer.subject == tmp.answer.subject
      && turn.snapshot == tmp.context.entities
      && (forall entry :: Check(env1, turn, entry) == env1.check(tmp.unchecked, tmp.context.entities, turn.answer, NoReply))
  {
    var turn := Awaiting(env1, es, tmp);
    assert Prepare(env1, es, clar, tmp) == turn == Prepare(env2, es, clar, tmp);
    match IntentOf(tmp.context.intent)
    case None =>
    case Some(i) =>
      var e1 := Table(i, env1.shuffle);
      var e2 := Table(i, env2.shuffle);
      assert e1.intent == e2.intent && e1.passesUser == e2.passesUser;
      assert Check(env1, turn, e1) == Check(env2, turn, e2);
  }

  /** The fresh branch fills the context first and the profile second,
      without overwriting: the snapshot is the context pass applied to the
      overlaid entities, so it holds exactly those entities plus the context
      kinds a reference wants; the client's entities survive both passes, the
      profile pass keeps every kind the snapshot had, and the snapshot does
      not depend on the profile at all. */
  lemma FreshTurn(env: Env, es: Essence, clar1: Option<Profile>, clar2: Option<Profile>, tmp: TmpData)
    requires tmp.answer.subject == ""
    ensures var t1 := Prepare(env, es, clar1, tmp);
            var t2 := Prepare(env, es, clar2, tmp);
            var (found, phrase) := env.extract(es.phrase);
            var refs := env.refs(phrase);
            var overlaid := if es.client.Some? then Update(found, es.client.value) else found;
            var cont := tmp.context.entities;
      && t1.snapshot == ContFill(overlaid, cont, refs)
      && (forall k :: k in overlaid ==> k in t1.snapshot && t1.snapshot[k] == overlaid[k])
      && (forall k :: k in t1.snapshot && k !in overlaid ==> k in cont && k in Wanted(refs, cont) && t1.snapshot[k] == cont[k])
      && (forall k :: k in cont && k in Wanted(refs, cont) ==> k in t1.snapshot)
      && t1.snapshot == t2.snapshot
      && t1.entities == ClarFill(t1.snapshot, clar1, refs)
      && t1.intent == env.classify(phrase)
      && (forall k :: k in t1.snapshot ==> k in t1.entities && t1.entities[k] == t1.snapshot[k])
      && (es.client.Some? ==>
            forall k :: k in es.client.value ==> k in t1.entities && t1.entities[k] == es.client.value[k])
      && (forall k :: k in found && (es.client.None? || k !in es.client.value) ==>
            k in t1.entities && t1.entities[k] == found[k])
      && t1.answer == tmp.answer && t1.saved.None?
  {
    var (found, phrase) := env.extract(es.phrase);
    var refs := env.refs(phrase);
    var overlaid := if es.client.Some? then Update(found, es.client.value) else found;
    ContFillSpec(overlaid, tmp.context.entities, refs);
    ClarFillSpec(ContFill(overlaid, tmp.context.entities, refs), clar1, refs);
  }

  /** With the modelled extraction cascade: the intent is classified on the
      phrase the cascade rewrote, and every kind the cascade found that the
      client did not supply reaches the checker unchanged. */
  lemma FreshFound(env: Env, o: Oracles, es: Essence, clar: Option<Profile>, tmp: TmpData)
    requires Uses(env, o) && tmp.answer.subject == ""
    ensures var (found, phrase) := Extract(o, env.chars, es.phrase);
            var turn := Prepare(env, es, clar, tmp);
      && turn.intent == env.classify(phrase)
      && (forall k :: k in found && (es.client.None? || k !in es.client.value) ==>
            k in turn.entities && turn.entities[k] == found[k])
  {
    assert env.extract(es.phrase) == Extract(o, env.chars, es.phrase);
    FreshTurn(env, es, clar, clar, tmp);
  }

  /** Which reply a known intent gets: the handler's, run with `ready`,
      exactly when the checker is satisfied; the checker's otherwise. */
  lemma DispatchGate(env: Env, es: Essence, clar: Option<Profile>, tmp: TmpData)
    requires !es.welcome
    requires Lookup(Prepare(env, es, clar, tmp).intent, env.shuffle).Some?
    ensures var turn := Prepare(env, es, clar, tmp);
            var entry := Lookup(turn.intent, env.shuffle).value;
            var c := Check(env, turn, entry);
            var user := if entry.passesUser then Some(es.user) else None;
            var reply := Manage(env, es, clar, tmp).reply;
            var final := if c.ready then env.handle(entry.intent, c.entities, c.reply, true, user) else c.reply;
      && (reply.Success? <==> final.text.Some? && final.text.value != "")
      && (reply.Success? ==> Some(reply.value) == final.text)
  {
  }

  /** What is stored for a known intent: the checker's remaining
      requirement and answer record, the intent, and as context the full
      checked entities when a question is outstanding, the snapshot
      otherwise. */
  lemma Persisted(env: Env, es: Essence, clar: Option<Profile>, tmp: TmpData)
    requires !es.welcome
    requires Lookup(Prepare(env, es, clar, tmp).intent, env.shuffle).Some?
    ensures var turn := Prepare(env, es, clar, tmp);
            var c := Check(env, turn, Lookup(turn.intent, env.shuffle).value);
            var out := Manage(env, es, clar, tmp);
      && out.stored.Some?
      && out.stored.value.unchecked == c.unchecked
      && out.stored.value.answer == c.answer
      && out.stored.value.context.intent == turn.intent
      && (c.answer.subject != "" ==> out.stored.value.context.entities == c.entities)
      && (c.answer.subject == "" ==> out.stored.value.context.entities == turn.snapshot)
  {
  }

  /** A question left outstanding is resumed on the next turn with
      everything the checker had: its entities, the intent and the
      requirement still unchecked. */
  lemma ResumesQuestion(env: Env, es: Essence, next: Essence, clar: Option<Profile>, tmp: TmpData)
    requires !es.welcome
    requires Lookup(Prepare(env, es, clar, tmp).intent, env.shuffle).Some?
    requires Manage(env, es, clar, tmp).stored.value.answer.subject != ""
    ensures var turn := Prepare(env, es, clar, tmp);
            var c := Check(env, turn, Lookup(turn.intent, env.shuffle).value);
            var resumed := Prepare(env, next, clar, Manage(env, es, clar, tmp).stored.value);
      && resumed.entities == c.entities
      && resumed.intent == turn.intent
      && resumed.saved == Some(c.unchecked)
  {
    Persisted(env, es, clar, tmp);
  }
}
