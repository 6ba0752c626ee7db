/** Geocoding-service selection and address-suggestion filtering
    (tg-store-manager/geocoding.py). The Dadata, Yandex and Nominatim
    clients are opaque objects: a client is its kind, the arguments it was
    built with, and an identity that tells a reused client from a new one.
    The identity a newly built client gets is supplied by the caller, so
    the functions here stay pure. */
module Geocoding {
  import opened Wrappers

  // ---------------------------------------------------------------------
  // Services

  /** The client class: Dadata, Yandex or Nominatim (OSM). */
  datatype ServiceKind = DadataKind | YandexKind | OsmKind

  /** Constructor arguments, compared as dictionaries. */
  type Args = map<string, string>

  /** A client object: its class and its identity. */
  datatype Service = Service(kind: ServiceKind, id: nat)

  /** `SrvParams`: a client with the arguments it was built from, or
      none. */
  type SrvParams = Option<(Service, Args)>

  /** The client a service name and keys call for, or none when the name
      is unknown or a required key is empty. */
  function Wanted(name: string, first: Option<string>, second: Option<string>): Option<(ServiceKind, Args)> {
    if name == "DADATA" then
      if !Truthy(first) || !Truthy(second) then None
      else Some((DadataKind, map["token" := first.value, "secret" := second.value]))
    else if name == "OSM" then Some((OsmKind, map["user_agent" := "sstg-bot"]))
    else if name == "YANDEX" then
      if !Truthy(first) then None
      else Some((YandexKind, map["api_key" := first.value]))
    else None
  }

  /** `_get_service`: the old pair when it is a client of the same class
      built from equal arguments; otherwise a new client (identity
      `next`) with the new arguments; none when the settings do not
      suffice. */
  function GetService(name: string, first: Option<string>, second: Option<string>, prev: SrvParams, next: nat): SrvParams {
    match Wanted(name, first, second)
    case None => None
    case Some((kind, args)) =>
      if prev.None? || prev.value.0.kind != kind || prev.value.1 != args then Some((Service(kind, next), args))
      else prev
  }

  /** Dadata needs both keys, Yandex the first, OSM none; any other name
      gives no service. */
  lemma GetServiceValidates(name: string, first: Option<string>, second: Option<string>, prev: SrvParams, next: nat)
    ensures GetService(name, first, second, prev, next).None? <==>
      || (name == "DADATA" && (!Truthy(first) || !Truthy(second)))
      || (name == "YANDEX" && !Truthy(first))
      || (name != "DADATA" && name != "OSM" && name != "YANDEX")
    ensures name == "OSM" ==> GetService(name, first, second, prev, next).Some?
  {
  }

  /** The result is always a client of the requested class with the
      requested arguments; it is the old pair itself exactly when the old
      pair already was such a client, and a new client otherwise. */
  lemma GetServiceReuses(name: string, first: Option<string>, second: Option<string>, prev: SrvParams, next: nat)
    requires Wanted(name, first, second).Some?
    ensures var (kind, args) := Wanted(name, first, second).value;
            var r := GetService(name, first, second, prev, next);
      && r.Some? && r.value.0.kind == kind && r.value.1 == args
      && (prev.Some? && prev.value.0.kind == kind && prev.value.1 == args ==> r == prev)
      && (!(prev.Some? && prev.value.0.kind == kind && prev.value.1 == args) ==> r.value.0 == Service(kind, next))
  {
  }

  /** Applying the same settings again keeps the client it produced. */
  lemma GetServiceIdempotent(name: string, first: Option<string>, second: Option<string>, prev: SrvParams, n1: nat, n2: nat)
    ensures var r := GetService(name, first, second, prev, n1);
      GetService(name, first, second, r, n2) == r
  {
  }

  // ---------------------------------------------------------------------
  // The default service

  /** Configuration keys of the Dadata credentials. */
  const DadataApiKey := "DADATA_API_KEY"
  const DadataSecret := "DADATA_SECRET"

  datatype GeocError = MissingConfig

  /** `update_def_srv`: the default service is always Dadata, built from
      the configured key and secret (a missing entry raises). */
  function UpdateDefSrv(config: map<string, Option<string>>, current: SrvParams, next: nat): Result<SrvParams, GeocError> {
    if DadataApiKey !in config || DadataSecret !in config then Failure(MissingConfig)
    else Success(GetService("DADATA", config[DadataApiKey], config[DadataSecret], current, next))
  }

  /** With both entries configured the update succeeds; the default is
      none exactly when a credential is empty, is otherwise a Dadata
      client, and unchanged credentials keep the current client. */
  lemma UpdateDefSrvSpec(config: map<string, Option<string>>, current: SrvParams, next: nat)
    ensures var r := UpdateDefSrv(config, current, next);
      && (r.Success? <==> DadataApiKey in config && DadataSecret in config)
      && (r.Success? ==> (r.value.None? <==> !Truthy(config[DadataApiKey]) || !Truthy(config[DadataSecret])))
      && (r.Success? && r.value.Some? ==> r.value.value.0.kind == DadataKind)
      && ((r.Success? && current.Some? && current.value.0.kind == DadataKind && r.value.Some? &&
           current.value.1 == r.value.value.1) ==> r.value == current)
  {
  }

  // ---------------------------------------------------------------------
  // The per-organisation registry

  /** One row of a settings update: the organisation and its service
      settings. */
  datatype Row = Row(orgId: string, service: string, first: Option<string>, second: Option<string>)

  type Registry = map<string, SrvParams>

  /** `_GEOC_SERVICES.get(org)`. */
  function Get(reg: Registry, org: string): SrvParams {
    if org in reg then reg[org] else None
  }

  function OrgIds(rows: seq<Row>): set<string> {
    set i | 0 <= i < |rows| :: rows[i].orgId
  }

  /** The first loop of `_apply_geoc_settings`: each row in turn replaces
      its organisation's entry, with the previous entry as the old pair;
      the i-th row's new client gets identity `next + i`. */
  function Register(reg: Registry, rows: seq<Row>, next: nat): Registry
    decreases |rows|
  {
    if rows == [] then reg
    else
      var row := rows[0];
      var srv := GetService(row.service, row.first, row.second, Get(reg, row.orgId), next);
      Register(reg[row.orgId := srv], rows[1..], next + 1)
  }

  /** `_apply_geoc_settings`: register every row, then remove every
      organisation the update does not list. It always reports success. */
  function ApplyGeocSettings(reg: Registry, rows: seq<Row>, next: nat): (bool, Registry) {
    var registered := Register(reg, rows, next);
    var ids := OrgIds(rows);
    (true, map o | o in registered.Keys && o in ids :: registered[o])
  }

  lemma {:induction false} RegisterKeys(reg: Registry, rows: seq<Row>, next: nat)
    ensures Register(reg, rows, next).Keys == reg.Keys + OrgIds(rows)
    decreases |rows|
  {
    if rows != [] {
      var row := rows[0];
      var srv := GetService(row.service, row.first, row.second, Get(reg, row.orgId), next);
      RegisterKeys(reg[row.orgId := srv], rows[1..], next + 1);
      assert OrgIds(rows) == {row.orgId} + OrgIds(rows[1..]) by {
        forall o | o in OrgIds(rows) ensures o in {row.orgId} + OrgIds(rows[1..]) {
          var i :| 0 <= i < |rows| && rows[i].orgId == o;
          if i > 0 {
            assert rows[1..][i - 1] == rows[i];
          }
        }
        forall o | o in OrgIds(rows[1..]) ensures o in OrgIds(rows) {
          var i :| 0 <= i < |rows[1..]| && rows[1..][i].orgId == o;
          assert rows[i + 1] == rows[1..][i];
        }
      }
    }
  }

  /** An organisation no row names keeps its entry through registration. */
  lemma {:induction false} RegisterUntouched(reg: Registry, rows: seq<Row>, next: nat, org: string)
    requires forall i :: 0 <= i < |rows| ==> rows[i].orgId != org
    ensures Get(Register(reg, rows, next), org) == Get(reg, org)
    decreases |rows|
  {
    if rows != [] {
      var row := rows[0];
      var srv := GetService(row.service, row.first, row.second, Get(reg, row.orgId), next);
      forall i | 0 <= i < |rows[1..]| ensures rows[1..][i].orgId != org {
        assert rows[1..][i] == rows[i + 1];
      }
      RegisterUntouched(reg[row.orgId := srv], rows[1..], next + 1, org);
    }
  }

  /** With each organisation listed once, its entry is its row's service,
      built with the organisation's previous entry as the old pair. */
  lemma {:induction false} RegisterEntry(reg: Registry, rows: seq<Row>, next: nat, i: nat)
    requires i < |rows|
    requires forall a, b :: 0 <= a < b < |rows| ==> rows[a].orgId != rows[b].orgId
    ensures var row := rows[i];
      Get(Register(reg, rows, next), row.orgId)
        == GetService(row.service, row.first, row.second, Get(reg, row.orgId), next + i)
    decreases |rows|
  {
    var row := rows[0];
    var reg1 := reg[row.orgId := GetService(row.service, row.first, row.second, Get(reg, row.orgId), next)];
    if i == 0 {
      forall j | 0 <= j < |rows[1..]| ensures rows[1..][j].orgId != row.orgId {
        assert rows[1..][j] == rows[j + 1];
      }
      RegisterUntouched(reg1, rows[1..], next + 1, row.orgId);
    } else {
      forall a, b | 0 <= a < b < |rows[1..]| ensures rows[1..][a].orgId != rows[1..][b].orgId {
        assert rows[1..][a] == rows[a + 1] && rows[1..][b] == rows[b + 1];
      }
      assert rows[1..][i - 1] == rows[i];
      assert Get(reg1, rows[i].orgId) == Get(reg, rows[i].orgId);
      RegisterEntry(reg1, rows[1..], next + 1, i - 1);
    }
  }

  /** After an update the registry holds exactly the organisations it
      lists, each (when listed once) with its row's service; it reports
      success. */
  lemma ApplyGeocSettingsSpec(reg: Registry, rows: seq<Row>, next: nat)
    ensures var (ok, r) := ApplyGeocSettings(reg, rows, next);
      && ok
      && r.Keys == OrgIds(rows)
      && ((forall a, b :: 0 <= a < b < |rows| ==> rows[a].orgId != rows[b].orgId) ==>
            forall i :: 0 <= i < |rows| ==>
              r[rows[i].orgId] == GetService(rows[i].service, rows[i].first, rows[i].second, Get(reg, rows[i].orgId), next + i))
  {
    RegisterKeys(reg, rows, next);
    var (ok, r) := ApplyGeocSettings(reg, rows, next);
    if forall a, b :: 0 <= a < b < |rows| ==> rows[a].orgId != rows[b].orgId {
      forall i | 0 <= i < |rows|
        ensures r[rows[i].orgId] == GetService(rows[i].service, rows[i].first, rows[i].second, Get(reg, rows[i].orgId), next + i)
      {
        RegisterEntry(reg, rows, next, i);
      }
    }
  }

  // ---------------------------------------------------------------------
  // Selection

  /** The selection in `_service.wrapper`: an organisation with an entry
      uses it, even when it is none; any other uses the default. */
  function Select(reg: Registry, default: SrvParams, org: string): SrvParams {
    if org !in reg then default else reg[org]
  }

  /** `_service.wrapper`: no service gives none; otherwise the wrapped
      call runs with the module of the client's class and the client. */
  function Wrapped<T>(reg: Registry, default: SrvParams, org: string, call: (ServiceKind, Service) -> T): Option<T> {
    var p := Select(reg, default, org);
    if p.None? then None else Some(call(p.value.0.kind, p.value.0))
  }

  /** A registered organisation never falls back to the default, not even
      when its entry is none; an unregistered one depends on the default
      alone; the call runs exactly when a service was selected. */
  lemma WrappedSpec<T>(reg: Registry, d1: SrvParams, d2: SrvParams, org: string, call: (ServiceKind, Service) -> T)
    ensures org in reg ==> Wrapped(reg, d1, org, call) == Wrapped(reg, d2, org, call)
    ensures org in reg && reg[org].None? ==> Wrapped(reg, d1, org, call).None?
    ensures org !in reg ==> Wrapped(reg, d1, org, call) == Wrapped(map[], d1, org, call)
    ensures Wrapped(reg, d1, org, call).Some? <==> Select(reg, d1, org).Some?
    ensures Wrapped(reg, d1, org, call).Some? ==>
      Wrapped(reg, d1, org, call).value == call(Select(reg, d1, org).value.0.kind, Select(reg, d1, org).value.0)
  {
  }

  /** An organisation an update leaves out is served by the default from
      then on. */
  lemma StaleOrgUsesDefault(reg: Registry, rows: seq<Row>, next: nat, default: SrvParams, org: string)
    requires forall i :: 0 <= i < |rows| ==> rows[i].orgId != org
    ensures Select(ApplyGeocSettings(reg, rows, next).1, default, org) == default
  {
    ApplyGeocSettingsSpec(reg, rows, next);
  }

  // ---------------------------------------------------------------------
  // Address suggestions

  datatype Coords = Coords(lat: real, lon: real)

  /** One suggestion of a geocoder: the address line, its parts (house,
      street, city; each possibly empty) and its coordinates. */
  datatype Sugg = Sugg(value: string, parts: Option<seq<Option<string>>>, coords: Option<Coords>)

  function Present(parts: seq<Option<string>>): nat {
    if parts == [] then 0 else (if Truthy(parts[0]) then 1 else 0) + Present(parts[1..])
  }

  /** A suggestion is kept unless it has no parts, or has all three parts
      but no coordinates. */
  predicate Keep(s: Sugg) {
    !(s.parts.None? || s.parts.value == [] || (Present(s.parts.value) == 3 && s.coords.None?))
  }

  /** The kept suggestions, in order. */
  function Kept(s: seq<Sugg>): seq<Sugg>
    decreases |s|
  {
    if s == [] then [] else (if Keep(s[0]) then [s[0]] else []) + Kept(s[1..])
  }

  /** `a` is `b` with some entries left out, order kept. */
  predicate Subsequence(a: seq<Sugg>, b: seq<Sugg>)
    decreases |b|
  {
    a == [] || (b != [] && ((a[0] == b[0] && Subsequence(a[1..], b[1..])) || Subsequence(a, b[1..])))
  }

  /** The first `count` kept suggestions; a negative count never stops
      the loop, so all of them. */
  function Suggestions(s: seq<Sugg>, count: int): seq<Sugg> {
    var k := Kept(s);
    if 0 <= count < |k| then k[..count] else k
  }

  lemma {:induction false} KeptAppend(a: seq<Sugg>, b: seq<Sugg>)
    ensures Kept(a + b) == Kept(a) + Kept(b)
    decreases |a|
  {
    if a == [] {
      assert a + b == b;
    } else {
      var head := if Keep(a[0]) then [a[0]] else [];
      assert (a + b)[0] == a[0] && (a + b)[1..] == a[1..] + b;
      assert Kept(a + b) == head + Kept(a[1..] + b);
      KeptAppend(a[1..], b);
      assert Kept(a) == head + Kept(a[1..]);
      assert head + (Kept(a[1..]) + Kept(b)) == (head + Kept(a[1..])) + Kept(b);
    }
  }

  lemma {:induction false} SubsequenceDrop(a: seq<Sugg>, b: seq<Sugg>, n: nat)
    requires Subsequence(a, b) && n <= |a|
    ensures Subsequence(a[..n], b)
    decreases |b|
  {
    if n > 0 {
      if a[0] == b[0] && Subsequence(a[1..], b[1..]) {
        SubsequenceDrop(a[1..], b[1..], n - 1);
        assert a[..n][1..] == a[1..][..n - 1];
      } else {
        SubsequenceDrop(a, b[1..], n);
      }
    }
  }

  lemma {:induction false} KeptSubsequence(s: seq<Sugg>)
    ensures Subsequence(Kept(s), s)
    ensures forall i :: 0 <= i < |Kept(s)| ==> Keep(Kept(s)[i])
    decreases |s|
  {
    if s != [] {
      KeptSubsequence(s[1..]);
      if Keep(s[0]) {
        assert Kept(s) == [s[0]] + Kept(s[1..]);
        assert Kept(s)[0] == s[0] && Kept(s)[1..] == Kept(s[1..]);
        forall i | 0 < i < |Kept(s)| ensures Keep(Kept(s)[i]) {
          assert Kept(s)[i] == Kept(s[1..])[i - 1];
        }
      } else {
        assert Kept(s) == Kept(s[1..]);
      }
    }
  }

  /** The suggestions are an order-preserving selection of the geocoder's,
      at most `count` of them when `count` is not negative, and every one
      of them has parts and, when all three parts are present,
      coordinates. */
  lemma SuggestionsSpec(s: seq<Sugg>, count: int)
    ensures var r := Suggestions(s, count);
      && Subsequence(r, s)
      && (count >= 0 ==> |r| <= count)
      && (forall i :: 0 <= i < |r| ==> Keep(r[i]))
      && (forall i :: 0 <= i < |r| ==> r[i].parts.Some? && r[i].parts.value != [])
      && (forall i :: 0 <= i < |r| ==> Present(r[i].parts.value) == 3 ==> r[i].coords.Some?)
  {
    KeptSubsequence(s);
    var k := Kept(s);
    if 0 <= count < |k| {
      SubsequenceDrop(k, s, count);
    }
  }

  /** The loop of `get_addr_suggs` over the geocoder's suggestions: stop
      once `count` are collected, skip the ones that are not kept. */
  method GetAddrSuggs(entries: seq<Sugg>, count: int) returns (res: seq<Sugg>)
    ensures res == Suggestions(entries, count)
  {
    res := [];
    var i := 0;
    while i < |entries|
      invariant 0 <= i <= |entries|
      invariant res == Kept(entries[..i])
      invariant count >= 0 ==> |res| <= count
    {
      if |res| == count {
        break;
      }
      var e := entries[i];
      KeptAppend(entries[..i], [e]);
      assert entries[..i + 1] == entries[..i] + [e];
      if !Keep(e) {
        i := i + 1;
        continue;
      }
      res := res + [e];
      i := i + 1;
    }
    KeptAppend(entries[..i], entries[i..]);
    assert entries[..i] + entries[i..] == entries;
    if i < |entries| {
      assert res == Kept(entries)[..count];
    } else {
      assert entries[..i] == entries;
    }
  }
}
