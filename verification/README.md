# UgraSage dialog core and store-manager cart/geocoding, in Dafny

This project models two parts of the repository.

The first part is the dialog pipeline of the UgraSage schedule bot.
- **Entity extraction** (`UgraSage/entityextractor.py`). A user phrase is normalised by dropping filler words and comma runs. A fixed cascade of extractors then runs over it: org, empee, group, subgp, class, day, place. Each extractor rewrites the span it recognised to a placeholder, so later steps cannot match it again.
- **Two filling passes.** Each adds entity kinds without overwriting:
  - the context pass follows the anaphora table of references ("он", "группа", "день", ...) and copies kinds from the previous turn;
  - the profile pass adds the organisation and the user's own group or name, with the self-reference "я" taking precedence.
- **One turn of `manage`** (`UgraSage/ansmanager.py`): the welcome reset, the awaiting-answer branch and the fresh-phrase branch, the intent→requirement table, the dispatch gate, and what is stored for the next turn.

The second part is two pure cores of the store manager.
- **The shopping cart of `useCart`.** Items are set or deleted by count, a missing count reads as 0, and cost and discount are sums over items. The item id is a canonical encoding of the product id and its additions.
- **Geocoding-service selection.** Key validation and reuse of the old client, reconciliation of the per-organisation registry, fallback to the default service, and the bounded filter over address suggestions.

Foreign recognisers are modelled as data (`Matchers.Oracles`): the natasha organisation and name extractors, the yargy class/day/reference grammars, and the regex search. The constraints the extractor relies on are stated once, in `Matchers.Valid`: spans lie inside the phrase and are ordered. Other collaborators become parameters:
- the entity checker, the intent classifier and the intent handlers, together with `shuffle_now`, are fields of `Dialog.Env`;
- `getProdPrice` is the `Cart.Pricing` parameter;
- the identity of a newly built geocoding client is the `next` parameter of `Geocoding.GetService`.

Files:
- `wrappers.dfy`: `Option` and `Result`.
- `entities.dfy`: the entity store with `fill` and `update`.
- `spans.dfy`: `replace_entity`.
- `phrase.dfy`: `drop_substrs` and `str.strip`.
- `matchers.dfy`: the recogniser oracles.
- `extractor.dfy`: the extractors and the cascade.
- `resolver.dfy`: `cont_fill` and `clar_fill`.
- `dialog.dfy`: `manage`.
- `cart.dfy`: `useCart`.
- `geocoding.dfy`: geocoding service selection.

Where the code and the documented intent differ, the model follows the code:
- In `changeCart`, `console.assert(count >= 0)` only logs. A negative count therefore takes the delete path, and the model records that the assertion fired (`Change.warned`).
- In `manage`, the turn data is stored before `assert ans['text']`. A turn that ends with an empty reply therefore still persists its data, and fails afterwards.
- In `get_addr_suggs`, the `len(res) == count` test comes before each entry. A negative `count` never stops the loop, so every kept suggestion is returned.
- `extract_class` rewrites the first match's span even when that match has neither a name nor a spec. The empty entity is then dropped by the cascade.

## Model

| member | source | states |
|---|---|---|
| Entities.Fill | UgraSage/entityextractor.py:111 | `fill` inserts only when the kind is absent: the kind is present afterwards, a present kind is untouched, the given value lands only for a new kind, and every other kind keeps its value |
| Entities.Update | UgraSage/ansmanager.py:126-127 | `update` overwrites: keys are the union, the other store's kinds win, and kinds only in the first store keep their value |
| Entities.FillKeepsFirst | UgraSage/entityextractor.py:108-114 | filling a kind twice keeps the first value written |
| Spans.ReplaceEntity | UgraSage/entityextractor.py:321-327 | the offset loop over ordered spans yields the reference rewrite: each span becomes `holder`, the text between spans is kept in order, and the length is len(phrase) − Σ span widths + k·len(holder) |
| Spans.GapsLength | UgraSage/entityextractor.py:321-327 | the reference rewrite up to the last span has length end − width + k·len(holder) |
| Spans.CutShifted | UgraSage/entityextractor.py:324-325 | cutting the partly rewritten phrase at the offset-shifted positions replaces exactly the original span |
| Spans.OneSpan | UgraSage/entityextractor.py:225-226 | a single span is replaced by the holder between the text before and after it |
| Phrase.StripFrom | UgraSage/entityextractor.py:42-43 | removing a stop word never lengthens the text and changes nothing when the word does not occur |
| Phrase.StripFromRemoves | UgraSage/entityextractor.py:42-43 | an occurrence of the word that starts with a non-space is removed: the result is strictly shorter |
| Phrase.StripAll | UgraSage/entityextractor.py:42-43 | stripping all stop words never lengthens the phrase |
| Phrase.StripAllAppend | UgraSage/entityextractor.py:42-43 | the words are stripped one after another, in list order |
| Phrase.StripAllRemoves | UgraSage/entityextractor.py:42-43 | when a word occurs in what the earlier words left, the phrase comes out strictly shorter |
| Phrase.DropCommaRuns | UgraSage/entityextractor.py:45 | the comma pass never lengthens the text and keeps a leading non-comma |
| Phrase.DropCommaRunsClean | UgraSage/entityextractor.py:45 | after the comma pass no two commas are adjacent, and the non-comma characters are exactly those of the input |
| Phrase.DropCommaRunsKeepsLoneCommas | UgraSage/entityextractor.py:45 | the comma pass equals the left-to-right reference: runs of two or more commas vanish entirely and lone commas stay |
| Phrase.DropSubstrs | UgraSage/entityextractor.py:39-47 | `drop_substrs` never lengthens the phrase, and its result has no run of two commas |
| Phrase.DropSubstrsRemoves | UgraSage/entityextractor.py:39-47 | a phrase in which a stop word occurs comes out strictly shorter |
| Phrase.Strip | UgraSage/ansmanager.py:116 | `strip()` returns the slice between the leading and the trailing whitespace, starting and ending with a non-space |
| Extractor.FirstHit | UgraSage/entityextractor.py:221-223 | the chosen variant is the first in list order that matches, and no earlier variant matches |
| Extractor.RegexpExtract | UgraSage/entityextractor.py:220-228 | with no match, phrase and entity are unchanged; otherwise only `entity[field]` is set to the capture, and only the capture's span becomes `holder` |
| Extractor.ExtractPlace | UgraSage/entityextractor.py:182-193 | the place entity has only `campus` and `room` fields; its full contract is Extractor.ExtractPlaceSpec |
| Extractor.ExtractPlaceSpec | UgraSage/entityextractor.py:182-193 | `campus` is present exactly when a campus variant hits the phrase, holding the first hit's capture, whose span becomes "campus"; the room is searched in that rewritten phrase, is present exactly when a room variant hits it, and its capture's span there becomes "room"; a step without a hit leaves the phrase unchanged |
| Extractor.ExtractGroup | UgraSage/entityextractor.py:196-209 | the group entity has only a `name` field |
| Extractor.ExtractSubgp | UgraSage/entityextractor.py:212-217 | the subgroup entity has only a `name` field |
| Extractor.PlaceTriesEnvFirst | UgraSage/entityextractor.py:173-179 | the variants try "ENV ENTITY" before "ENTITY ENV": when the building-word-first reading matches, the campus comes from it |
| Extractor.ExtractOrg | UgraSage/entityextractor.py:231-245 | `extract_org`; its contract is Extractor.ExtractOrgSpec |
| Extractor.ExtractOrgSpec | UgraSage/entityextractor.py:231-245 | when no match contains a cue word nothing changes; otherwise the first cue-bearing match gives the name, and only its span is rewritten to "org" |
| Extractor.NameFoldIsLastPart | UgraSage/entityextractor.py:259-268 | each name part holds the last non-empty value of that part over all matches |
| Extractor.ExtractEmpee | UgraSage/entityextractor.py:248-274 | `extract_empee`; its contract is Extractor.ExtractEmpeeEmpty and Extractor.ExtractEmpeeSpec |
| Extractor.ExtractEmpeeEmpty | UgraSage/entityextractor.py:270-274 | the employee entity is empty exactly when no match carries a part, and the phrase is then unchanged |
| Extractor.ExtractEmpeeSpec | UgraSage/entityextractor.py:248-274 | a found name holds every part's last non-empty value, and all name spans are rewritten to "empee" |
| Extractor.ExtractClass | UgraSage/entityextractor.py:277-293 | `extract_class`; its contract is Extractor.ExtractClassSpec |
| Extractor.ExtractClassSpec | UgraSage/entityextractor.py:277-293 | only the first class match counts: a field is present exactly when that match's part is non-empty, and its span is rewritten |
| Extractor.AbsorbDay | UgraSage/entityextractor.py:307-311 | a match with an offset adds exactly the `offset` field, holding its scaled offset (`OffsetOf`); any other adds exactly `weekday`, holding its weekday (`WeekdayOf`); each is negated exactly when the match points backward, and every other field is kept |
| Extractor.DayFoldOffset | UgraSage/entityextractor.py:306-313 | `offset` holds the value of the last match that carries an offset |
| Extractor.DayFoldWeekday | UgraSage/entityextractor.py:306-313 | `weekday` holds the value of the last match that names a weekday |
| Extractor.ExtractDay | UgraSage/entityextractor.py:296-318 | `extract_day`; its contract is Extractor.ExtractDayPhrase and Extractor.ExtractDayFields |
| Extractor.ExtractDayPhrase | UgraSage/entityextractor.py:315-318 | with no day match nothing changes; otherwise all day spans are rewritten to "day" |
| Extractor.ExtractDayFields | UgraSage/entityextractor.py:296-318 | `offset` holds the last offset match's scaled value and `weekday` the last weekday match's, each field present exactly when such a match exists |
| Extractor.CascadeKeeps | UgraSage/entityextractor.py:153-164 | kinds not run by the cascade are kept, and every added kind is a run kind with a non-empty entity |
| Extractor.CascadeStores | UgraSage/entityextractor.py:161-164 | a run kind is stored exactly when its step found a non-empty entity, and then holds that entity |
| Extractor.Extract | UgraSage/entityextractor.py:138-166 | `extract`; its contract is Extractor.ExtractSpec |
| Extractor.ExtractSpec | UgraSage/entityextractor.py:138-166 | `extract` normalises, then runs org, empee, group, subgp, class, day, place, each on the previous step's phrase; a kind is present exactly when its entity is non-empty |
| Resolver.FillFrom | UgraSage/entityextractor.py:108-114 | the inner fill keeps present kinds, adds only context kinds the list selects, and adds all of them; group or employee also pull in the organisation |
| Resolver.ContFill | UgraSage/entityextractor.py:105-135 | `cont_fill`; its contract is Resolver.ContFillSpec, Resolver.ContFillBringsOrg and Resolver.UnlistedRefAddsNothing |
| Resolver.ContFillSpec | UgraSage/entityextractor.py:105-135 | `cont_fill` keeps every present kind; it adds exactly the absent context kinds some reference selects, with the context's value |
| Resolver.ContFillBringsOrg | UgraSage/entityextractor.py:113-114 | a reference to a group or employee found in the context also fills the organisation from the context |
| Resolver.UnlistedRefAddsNothing | UgraSage/entityextractor.py:116-135 | a list of references none of which selects a kind from the table leaves the store unchanged; "я" and both pronouns "он"/"она" with a preposition outside the table are such references |
| Resolver.ClarOrgFill | UgraSage/entityextractor.py:83-85 | `clar_org_fill` adds the profile's organisation only when none is known |
| Resolver.ClarNameFill | UgraSage/entityextractor.py:63-80 | `clar_name_fill`; its contract is Resolver.ClarNameFillSpec |
| Resolver.ClarNameFillSpec | UgraSage/entityextractor.py:63-80 | nothing is overwritten; a group member adds the group and the subgroup only when the profile has one; staff add exactly the employee {name: {firstn, surn, patro}, exid} |
| Resolver.ClarFill | UgraSage/entityextractor.py:88-102 | `clar_fill`; its contract is Resolver.ClarFillSpec |
| Resolver.ClarFillSpec | UgraSage/entityextractor.py:88-102 | no profile means no change and nothing present changes; with "я", the organisation and the owner's identity (and a non-empty subgroup) are present, each with the profile's value when it was absent, even when group, employee or place is known; otherwise the organisation always, and the identity only when none of the three is present |
| Dialog.IntentNames | UgraSage/ansmanager.py:60-106 | a name resolves to an intent exactly when it is that intent's key in the table |
| Dialog.TableShape | UgraSage/ansmanager.py:60-106 | `botInfo` requires nothing; the last group is always [org]; optional first groups start with the None placeholder; only `nextClass` and `botInfo` receive no user id |
| Dialog.OnlyMiddleShuffled | UgraSage/ansmanager.py:60-106 | only the middle group depends on `shuffle_now`, and under a permutation it holds the same kinds |
| Dialog.WelcomeInvites | UgraSage/ansmanager.py:36-53 | every greeting ends with " Можно спросить, что я умею." |
| Dialog.WelcomeSubgroup | UgraSage/ansmanager.py:42-48 | a group member's greeting names the subgroup exactly when the profile has one |
| Dialog.Manage | UgraSage/ansmanager.py:25-158 | `manage`; its contract is Dialog.WelcomeTurn, Dialog.AwaitingTurn, Dialog.FreshTurn, Dialog.DispatchGate, Dialog.Persisted, Dialog.UnknownIntentFails and Dialog.NeverEmpty |
| Dialog.WelcomeTurn | UgraSage/ansmanager.py:33-56 | the welcome event resets the turn data and returns the greeting, independent of extractor, checker, handlers and stored data |
| Dialog.Finish | UgraSage/ansmanager.py:140-157 | once the intent is known the turn data is always stored, and a successful reply is never empty |
| Dialog.NeverEmpty | UgraSage/ansmanager.py:157 | `manage` never succeeds with an empty text |
| Dialog.UnknownIntentFails | UgraSage/ansmanager.py:140 | nothing is stored exactly when the intent is not in the table, and that turn fails |
| Dialog.AwaitingTurn | UgraSage/ansmanager.py:111-119 | with a question outstanding, no extraction or classification runs: the answer is the stripped phrase, entities and intent come from the context, the checker gets the saved requirement, and the snapshot stored when the question is answered is the loaded context itself (ansmanager.py:112, 153) |
| Dialog.FreshTurn | UgraSage/ansmanager.py:121-138 | client entities overwrite extracted ones; the snapshot is the context pass applied to the overlaid entities: those entities plus exactly the context kinds a reference wants; the profile pass then runs on the snapshot and keeps it; the snapshot does not depend on the profile |
| Dialog.FreshFound | UgraSage/ansmanager.py:123-131 | with the extraction cascade, the intent is classified on the rewritten phrase, and found kinds the client did not supply reach the checker |
| Dialog.DispatchGate | UgraSage/ansmanager.py:140-142 | the handler runs, with ready = true, exactly when the checker is satisfied; the reply is the resulting non-empty text |
| Dialog.Persisted | UgraSage/ansmanager.py:144-155 | stored are the remaining requirement, the intent, and as context the full entities when a question is outstanding, else the snapshot (the loaded context on the awaiting path, the context-filled entities on the fresh path, per Dialog.AwaitingTurn and Dialog.FreshTurn) |
| Dialog.ResumesQuestion | UgraSage/ansmanager.py:115-119 | an outstanding question resumes on the next turn with the checked entities, the intent and the unchecked requirement |
| Cart.SortKeysSpec | tg-store-manager/useCart.tsx:55-58 | the stringifier's key sort of distinct keys is an ascending permutation |
| Cart.AscendingUnique | tg-store-manager/useCart.tsx:55-58 | two ascending lists with the same entries are equal |
| Cart.GetProdId | tg-store-manager/useCart.tsx:55-58 | `getProdId`; its contract is Cart.ProdIdOrderFree and Cart.ParseProdId |
| Cart.ProdIdOrderFree | tg-store-manager/useCart.tsx:55-58 | the item id does not depend on the key order of the additions |
| Cart.ParseProdId | tg-store-manager/useCart.tsx:79 | parsing an item id recovers the product id and the additions object |
| Cart.Find | tg-store-manager/useCart.tsx:107 | a lookup is absent exactly when no entry has the id, and a found item is stored under that id |
| Cart.PutFind | tg-store-manager/useCart.tsx:83 | after setting, the id holds the new item and every other id is unchanged |
| Cart.DropFind | tg-store-manager/useCart.tsx:86 | after deleting, the id is absent and every other id is unchanged |
| Cart.ChangeCart | tg-store-manager/useCart.tsx:67-93 | `changeCart`; its contract is Cart.ChangeCartSpec and Cart.CostAfterChange |
| Cart.ChangeCartSpec | tg-store-manager/useCart.tsx:67-93 | always returns false; the assertion fires iff count < 0; count > 0 without a product throws; count > 0 sets the item priced from the parsed additions; otherwise the id is deleted; other ids unchanged; ids stay unique |
| Cart.ClearCart | tg-store-manager/useCart.tsx:95-98 | the cleared cart holds no id |
| Cart.DeleteProd | tg-store-manager/useCart.tsx:100 | `deleteProd`; its contract is Cart.DeleteProdSpec |
| Cart.DeleteProdSpec | tg-store-manager/useCart.tsx:100 | deleting never fails; the id is absent afterwards and every other id is unchanged |
| Cart.GetProdCount | tg-store-manager/useCart.tsx:102-111 | `getProdCount`; its contract is Cart.GetProdCountSpec |
| Cart.GetProdCountSpec | tg-store-manager/useCart.tsx:102-111 | the stored count for a present id, 0 for an absent one; a count set through the returned setter is read back |
| Cart.ClearCartSpec | tg-store-manager/useCart.tsx:95-98 | after clearing, every count reads 0, and cost and discount are 0 |
| Cart.SumEach | tg-store-manager/useCart.tsx:124-125 | `sumEachItem`; its contract is Cart.PutSum and Cart.DropSum |
| Cart.PutSum | tg-store-manager/useCart.tsx:124-125 | after setting an item, the sum loses the old item's share and gains the new one's |
| Cart.DropSum | tg-store-manager/useCart.tsx:124-125 | after deleting an item, the sum loses exactly its share |
| Cart.GetCartCost | tg-store-manager/useCart.tsx:127 | `getCartCost`; its contract is Cart.CostAfterChange and Cart.ClearCartSpec |
| Cart.GetCartDisc | tg-store-manager/useCart.tsx:128 | `getCartDisc`; its contract is Cart.DiscIsCostLessPrice and Cart.ClearCartSpec |
| Cart.CostAfterChange | tg-store-manager/useCart.tsx:127 | the cost after a change replaces the item's old count·discPrice by the new one, or drops it |
| Cart.DiscIsCostLessPrice | tg-store-manager/useCart.tsx:127-128 | the discount Σ count·(discPrice − price) is the cost less Σ count·price |
| Geocoding.GetService | tg-store-manager/geocoding.py:45-86 | `_get_service`; its contract is Geocoding.GetServiceValidates, Geocoding.GetServiceReuses and Geocoding.GetServiceIdempotent |
| Geocoding.GetServiceValidates | tg-store-manager/geocoding.py:58-80 | no service iff Dadata lacks a key, Yandex lacks the first key, or the name is unknown; OSM always gives one |
| Geocoding.GetServiceReuses | tg-store-manager/geocoding.py:82-86 | the result has the requested class and arguments; it is the old pair iff that already matched, otherwise a new client |
| Geocoding.GetServiceIdempotent | tg-store-manager/geocoding.py:82-86 | applying the same settings again keeps the client |
| Geocoding.UpdateDefSrv | tg-store-manager/geocoding.py:33-42 | `update_def_srv`; its contract is Geocoding.UpdateDefSrvSpec |
| Geocoding.UpdateDefSrvSpec | tg-store-manager/geocoding.py:33-42 | the default is a Dadata client, none exactly when a credential is empty, and kept when the credentials are unchanged |
| Geocoding.RegisterEntry | tg-store-manager/geocoding.py:92-100 | each organisation listed once gets its row's service, built with its previous entry as the old pair |
| Geocoding.ApplyGeocSettings | tg-store-manager/geocoding.py:89-105 | `_apply_geoc_settings`; its contract is Geocoding.ApplyGeocSettingsSpec and Geocoding.StaleOrgUsesDefault |
| Geocoding.ApplyGeocSettingsSpec | tg-store-manager/geocoding.py:89-105 | it returns true, the registry keys are exactly the update's orgIds, and each listed organisation holds its row's service |
| Geocoding.Wrapped | tg-store-manager/geocoding.py:111-121 | `_service.wrapper`; its contract is Geocoding.WrappedSpec |
| Geocoding.WrappedSpec | tg-store-manager/geocoding.py:111-121 | a registered organisation uses its own entry and never falls back to the default, even when it is None; an unregistered one uses the default; the call runs exactly when a service is selected |
| Geocoding.StaleOrgUsesDefault | tg-store-manager/geocoding.py:102-103 | an organisation the update leaves out is served by the default |
| Geocoding.Suggestions | tg-store-manager/geocoding.py:157-169 | the reference result of `get_addr_suggs`; its contract is Geocoding.SuggestionsSpec, and Geocoding.GetAddrSuggs proves the loop equal to it |
| Geocoding.SuggestionsSpec | tg-store-manager/geocoding.py:159-167 | the result is an order-preserving subsequence of at most `count` entries, each with parts and, when all three parts are present, coordinates |
| Geocoding.GetAddrSuggs | tg-store-manager/geocoding.py:157-169 | the loop with its break returns the first `count` kept suggestions, or all of them when `count` is negative |

## Left out

- The natasha and yargy recognisers, their locks and the regular expressions are oracles (`Matchers.Oracles`). They are constrained by span well-formedness (`Matchers.Valid`) and by the field types of their matches. `\b` and `\s` are injected character classes, and `re.IGNORECASE` is an injected case fold.
- Matchers.DayMatch: `count` and `weekday` are integers. If the grammar leaves `count` empty for an offset match, or `weekday` empty for a weekday match, `extract_day` multiplies None and raises TypeError (UgraSage/entityextractor.py:309, 311). The model does not have this error path.
- Matchers.OrgMatch: `name` is a string. The source's `_ in match.fact.name` raises TypeError when the recogniser leaves the name empty (UgraSage/entityextractor.py:239). The model does not have this error path.
- `extract_refs` is the reference oracle itself (`Oracles.refs`). It only collects the facts the grammar found, so it has no contract of its own.
- `get_simple_variants` and `compile_variants` are the two-element pattern list `Extractor.SimpleVariants`. Regex compilation is not modelled.
- Spans.ReplaceEntity: requires the spans to be ascending and non-overlapping, as the matchers produce them. The source does not check this.
- `dbadapter` is not part of this model. The user check, the profile lookup, `reset_tmpdata`, `get_tmpdata` and `set_tmpdata` become parameters and results of `Dialog.Manage`, and the reset record is the blank `Dialog.Blank`.
- `intentextractor`, `entitychecker` and the intent handlers are not part of this model. They are the uninterpreted fields of `Dialog.Env`. The checker returns the entity store it corrected, and a handler returns only the reply.
- Dialog.Finish: the handler receives the same entity object the checker corrected. While a question is still outstanding, UgraSage/ansmanager.py:151 stores that object after the handler ran, so changes the handler makes to it would be persisted. The model assumes the handler does not change the store, and persists the checker's entities.
- Dialog.Awaiting: `Entities(cont_ents)` (UgraSage/ansmanager.py:117) is modelled as an independent copy. If that copy is shallow, the checker's in-place corrections of nested entity values also reach `cont_ents`, which UgraSage/ansmanager.py:153 stores when no question remains. The model stores the context as it was loaded.
- Dialog.FreshFound: states the link to the modelled extraction cascade only for an environment whose extractor is that cascade (`Dialog.Uses`). Every other turn lemma holds for any extractor.
- The intent is a string, and the blank intent "" is not in the table.
- React state, `setCart` and the `changeCache` side effect are left out. Each cart operation returns the next cart instead.
- `getProdPrice` is the `Cart.Pricing` parameter. Prices are integers (minor currency units), not floating point.
- `getCartAddns` reads product metadata through `getSubprodsMap`/`getOptionsMap`, which are not part of this model.
- `json-stable-stringify` and `JSON.parse` are an abstract canonical encoding. The id is the product id with the additions sorted by key. Malformed id strings are not modelled.
- The Dadata, Yandex and Nominatim clients are opaque objects with an identity. The identity of a newly built client is a parameter.
- The configuration is a map from key to its `value` field. The concrete `MxCfgKey` strings come from a module that is not part of this model.
- Flask's `g.org_id` is a parameter.
- The `metrix.watch` subscription thread, the logger warnings and the per-service module dispatch of the wrapper are left out. The dispatch is the `call` parameter of `Geocoding.Wrapped`.
- `get_addr_coords`, `parse_coords_addr` and `parse_addr` only forward to the selected client. Their selection is `Geocoding.Wrapped`.
- The client's own `get_addr_suggs` is foreign. Its output is the input of `Geocoding.GetAddrSuggs`.
- `test_file`, `test_lines` and `test_print` are printing helpers.
