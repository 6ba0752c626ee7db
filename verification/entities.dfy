/** The entity store of the dialog engine (`common.Entities` in the source):
    a finite map from entity kind to a structured value. `Fill` is the
    insert-if-absent used by the resolver passes, `Set`/`Update` are the
    overwriting `[]=` and `update`. */
module Entities {

  /** The fixed set of entity kinds the engine knows. */
  datatype Kind = Org | Group | Subgp | Class | Empee | Day | Place

  /** A JSON-like value stored inside an entity. */
  datatype Value =
    | Text(s: string)
    | Num(n: int)
    | Obj(fields: map<string, Value>)

  /** The value of one entity: a dictionary of named fields. */
  type Fields = map<string, Value>

  type Store = map<Kind, Fields>

  /** `entities.fill(k, v)`: write only when `k` is absent. */
  function Fill(e: Store, k: Kind, v: Fields): (r: Store)
    ensures k in r
    ensures r.Keys == e.Keys + {k}
    ensures k in e ==> r == e
    ensures k !in e ==> r[k] == v
    ensures forall j :: j in e ==> r[j] == e[j]
  {
    if k in e then e else e[k := v]
  }

  /** `entities.update(other)`: every kind of `other` overwrites. */
  function Update(e: Store, other: Store): (r: Store)
    ensures r.Keys == e.Keys + other.Keys
    ensures forall k :: k in other ==> r[k] == other[k]
    ensures forall k :: k in e && k !in other ==> r[k] == e[k]
  {
    e + other
  }

  /** Filling a kind twice never changes the first written value. */
  lemma FillKeepsFirst(e: Store, k: Kind, v: Fields, w: Fields)
    requires k !in e
    ensures Fill(Fill(e, k, v), k, w)[k] == v
  {
  }
}
