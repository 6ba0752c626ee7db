/** The shopping cart of the store front (`useCart` in
    tg-store-manager/useCart.tsx) as pure operations on an immutable cart.
    React state, the cache callback and the pricing service are left to the
    caller: pricing is a parameter, and every operation returns the next
    cart instead of setting it. Prices are integers in minor currency
    units. */
module Cart {
  import opened Wrappers

  // ---------------------------------------------------------------------
  // Item ids

  /** One addition of an item: the added product's id and its count. */
  type Addition = (string, int)

  /** Key order of the stable stringifier: lexicographic by character, a
      proper prefix first. */
  predicate Below(a: string, b: string)
    decreases |a|
  {
    b != [] && (a == [] || a[0] < b[0] || (a[0] == b[0] && Below(a[1..], b[1..])))
  }

  lemma {:induction false} BelowIrreflexive(a: string)
    ensures !Below(a, a)
    decreases |a|
  {
    if a != [] {
      BelowIrreflexive(a[1..]);
    }
  }

  lemma {:induction false} BelowTransitive(a: string, b: string, c: string)
    requires Below(a, b) && Below(b, c)
    ensures Below(a, c)
    decreases |a|
  {
    if a != [] && a[0] == b[0] && b[0] == c[0] {
      BelowTransitive(a[1..], b[1..], c[1..]);
    }
  }

  lemma {:induction false} BelowTotal(a: string, b: string)
    requires a != b
    ensures Below(a, b) || Below(b, a)
    decreases |a|
  {
    if a != [] && b != [] && a[0] == b[0] {
      assert a[1..] != b[1..];
      BelowTotal(a[1..], b[1..]);
    }
  }

  /** No key occurs twice, as in a JavaScript object. */
  predicate DistinctKeys(s: seq<Addition>) {
    forall i, j :: 0 <= i < j < |s| ==> s[i].0 != s[j].0
  }

  /** Keys strictly ascending in the stringifier's order. */
  predicate Ascending(s: seq<Addition>) {
    forall i, j :: 0 <= i < j < |s| ==> Below(s[i].0, s[j].0)
  }

  predicate AllAbove(k: string, s: seq<Addition>) {
    forall i :: 0 <= i < |s| ==> Below(k, s[i].0)
  }

  function Insert(x: Addition, s: seq<Addition>): seq<Addition>
    decreases |s|
  {
    if s == [] then [x]
    else if Below(s[0].0, x.0) then [s[0]] + Insert(x, s[1..])
    else [x] + s
  }

  /** The additions in the stringifier's key order. */
  function SortKeys(s: seq<Addition>): seq<Addition>
    decreases |s|
  {
    if s == [] then [] else Insert(s[0], SortKeys(s[1..]))
  }

  /** Inserting adds exactly the inserted entry. */
  lemma {:induction false} InsertPerm(x: Addition, s: seq<Addition>)
    ensures multiset(Insert(x, s)) == multiset(s) + multiset{x}
    decreases |s|
  {
    if s != [] && Below(s[0].0, x.0) {
      InsertPerm(x, s[1..]);
      assert s == [s[0]] + s[1..];
    }
  }

  /** Inserting an entry above a bound keeps every key above it. */
  lemma {:induction false} InsertAbove(x: Addition, s: seq<Addition>, k: string)
    requires AllAbove(k, s) && Below(k, x.0)
    ensures AllAbove(k, Insert(x, s))
    decreases |s|
  {
    if s != [] && Below(s[0].0, x.0) {
      assert AllAbove(k, s[1..]) by {
        forall i | 0 <= i < |s| - 1 ensures s[1..][i] == s[i + 1] { }
      }
      InsertAbove(x, s[1..], k);
      var r := Insert(x, s);
      forall i | 0 <= i < |r| ensures Below(k, r[i].0) {
        if i > 0 {
          assert r[i] == Insert(x, s[1..])[i - 1];
        }
      }
    }
  }

  /** Inserting a new key into an ascending list keeps it ascending. */
  lemma {:induction false} InsertAscending(x: Addition, s: seq<Addition>)
    requires Ascending(s) && forall i :: 0 <= i < |s| ==> s[i].0 != x.0
    ensures Ascending(Insert(x, s))
    decreases |s|
  {
    if s == [] {
    } else if Below(s[0].0, x.0) {
      var rest := Insert(x, s[1..]);
      assert Ascending(s[1..]) && AllAbove(s[0].0, s[1..]) by {
        forall i | 0 <= i < |s| - 1 ensures s[1..][i] == s[i + 1] { }
      }
      InsertAscending(x, s[1..]);
      InsertAbove(x, s[1..], s[0].0);
      var r := [s[0]] + rest;
      assert Insert(x, s) == r;
      forall i, j | 0 <= i < j < |r| ensures Below(r[i].0, r[j].0) {
        assert r[j] == rest[j - 1];
        if i > 0 {
          assert r[i] == rest[i - 1];
        }
      }
    } else {
      BelowTotal(s[0].0, x.0);
      forall j | 0 < j < |s| ensures Below(x.0, s[j].0) {
        BelowTransitive(x.0, s[0].0, s[j].0);
      }
    }
  }

  /** Sorting additions with distinct keys yields an ascending
      permutation. */
  lemma {:induction false} SortKeysSpec(s: seq<Addition>)
    requires DistinctKeys(s)
    ensures Ascending(SortKeys(s)) && multiset(SortKeys(s)) == multiset(s)
    decreases |s|
  {
    if s != [] {
      var t := SortKeys(s[1..]);
      SortKeysSpec(s[1..]);
      forall i | 0 <= i < |t| ensures t[i].0 != s[0].0 {
        assert t[i] in multiset(s[1..]);
        var j :| 0 <= j < |s[1..]| && s[1..][j] == t[i];
        assert s[j + 1] == t[i];
      }
      InsertAscending(s[0], t);
      InsertPerm(s[0], t);
      assert s == [s[0]] + s[1..];
    }
  }

  /** Two ascending lists with the same entries start alike. */
  lemma AscendingHead(a: seq<Addition>, b: seq<Addition>)
    requires Ascending(a) && Ascending(b) && multiset(a) == multiset(b) && a != []
    ensures b != [] && a[0] == b[0]
  {
    assert a[0] in multiset(b);
    var k :| 0 <= k < |b| && b[k] == a[0];
    assert b[0] in multiset(a);
    var m :| 0 <= m < |a| && a[m] == b[0];
    if k > 0 && m > 0 {
      BelowTransitive(a[0].0, b[0].0, a[0].0);
      BelowIrreflexive(a[0].0);
    } else if k > 0 {
      BelowIrreflexive(b[0].0);
    }
  }

  /** Two ascending lists with the same entries are the same list. */
  lemma {:induction false} AscendingUnique(a: seq<Addition>, b: seq<Addition>)
    requires Ascending(a) && Ascending(b) && multiset(a) == multiset(b)
    ensures a == b
    decreases |a|
  {
    if a == [] {
      assert |multiset(b)| == |b|;
    } else {
      AscendingHead(a, b);
      assert a == [a[0]] + a[1..] && b == [b[0]] + b[1..];
      assert multiset(a) == multiset{a[0]} + multiset(a[1..]);
      assert multiset(b) == multiset{b[0]} + multiset(b[1..]);
      assert multiset(a[1..]) == multiset(a) - multiset{a[0]} == multiset(b) - multiset{b[0]} == multiset(b[1..]);
      assert Ascending(a[1..]) by {
        forall i | 0 <= i < |a| - 1 ensures a[1..][i] == a[i + 1] { }
      }
      assert Ascending(b[1..]) by {
        forall i | 0 <= i < |b| - 1 ensures b[1..][i] == b[i + 1] { }
      }
      AscendingUnique(a[1..], b[1..]);
    }
  }

  /** The item id: the canonical encoding of the product id and its
      additions, with the additions in the stringifier's key order. */
  datatype ItemId = ItemId(prodId: string, additions: seq<Addition>)

  /** The cart's view of a product. */
  datatype Product = Product(id: string)

  /** `getProdId`. */
  function GetProdId(product: Product, additions: seq<Addition>): ItemId
    requires DistinctKeys(additions)
  {
    ItemId(product.id, SortKeys(additions))
  }

  /** The same additions in any key order give the same id. */
  lemma ProdIdOrderFree(product: Product, a: seq<Addition>, b: seq<Addition>)
    requires DistinctKeys(a) && DistinctKeys(b) && multiset(a) == multiset(b)
    ensures GetProdId(product, a) == GetProdId(product, b)
  {
    SortKeysSpec(a);
    SortKeysSpec(b);
    AscendingUnique(SortKeys(a), SortKeys(b));
  }

  /** The additions object an entry list describes. */
  function MapOf(s: seq<Addition>): map<string, int>
    decreases |s|
  {
    if s == [] then map[] else MapOf(s[1..])[s[0].0 := s[0].1]
  }

  /** Parsing an id (`JSON.parse(id)`): the product id and the additions
      object. */
  datatype Formula = Formula(prodId: string, additions: map<string, int>)

  function Parse(id: ItemId): Formula {
    Formula(id.prodId, MapOf(id.additions))
  }

  lemma {:induction false} MapOfSpec(s: seq<Addition>)
    requires DistinctKeys(s)
    ensures forall k :: k in MapOf(s) <==> exists i :: 0 <= i < |s| && s[i].0 == k
    ensures forall i :: 0 <= i < |s| ==> s[i].0 in MapOf(s) && MapOf(s)[s[i].0] == s[i].1
    decreases |s|
  {
    if s != [] {
      MapOfSpec(s[1..]);
      forall k | k in MapOf(s) ensures exists i :: 0 <= i < |s| && s[i].0 == k {
        if k != s[0].0 {
          var i :| 0 <= i < |s[1..]| && s[1..][i].0 == k;
          assert s[i + 1].0 == k;
        }
      }
      forall i | 0 < i < |s| ensures s[i].0 in MapOf(s) && MapOf(s)[s[i].0] == s[i].1 {
        assert s[1..][i - 1] == s[i];
      }
    }
  }

  lemma MapOfPermutation(a: seq<Addition>, b: seq<Addition>)
    requires DistinctKeys(a) && DistinctKeys(b) && multiset(a) == multiset(b)
    ensures MapOf(a) == MapOf(b)
  {
    MapOfSpec(a);
    MapOfSpec(b);
    forall k | k in MapOf(a) ensures k in MapOf(b) && MapOf(b)[k] == MapOf(a)[k] {
      var i :| 0 <= i < |a| && a[i].0 == k;
      assert a[i] in multiset(b);
      var j :| 0 <= j < |b| && b[j] == a[i];
    }
    forall k | k in MapOf(b) ensures k in MapOf(a) {
      var j :| 0 <= j < |b| && b[j].0 == k;
      assert b[j] in multiset(a);
      var i :| 0 <= i < |a| && a[i] == b[j];
    }
  }

  lemma AscendingDistinct(s: seq<Addition>)
    requires Ascending(s)
    ensures DistinctKeys(s)
  {
    forall i, j | 0 <= i < j < |s| ensures s[i].0 != s[j].0 {
      if s[i].0 == s[j].0 {
        BelowIrreflexive(s[i].0);
      }
    }
  }

  /** Parsing an item id recovers the product id and the additions. */
  lemma ParseProdId(product: Product, additions: seq<Addition>)
    requires DistinctKeys(additions)
    ensures Parse(GetProdId(product, additions)) == Formula(product.id, MapOf(additions))
  {
    SortKeysSpec(additions);
    AscendingDistinct(SortKeys(additions));
    MapOfPermutation(SortKeys(additions), additions);
  }

  // ---------------------------------------------------------------------
  // The cart

  /** One cart entry: the count, the product, and the unit price and
      discounted unit price at the time it was set. */
  datatype CartItem = CartItem(count: int, product: Product, price: int, discPrice: int)

  /** The cart object as its entries in insertion order. */
  type Cart = seq<(ItemId, CartItem)>

  predicate UniqueIds(c: Cart) {
    forall i, j :: 0 <= i < j < |c| ==> c[i].0 != c[j].0
  }

  /** `cart[id]`. */
  function Find(c: Cart, id: ItemId): (r: Option<CartItem>)
    ensures r.None? <==> forall i :: 0 <= i < |c| ==> c[i].0 != id
    ensures r.Some? ==> exists i :: 0 <= i < |c| && c[i] == (id, r.value)
    decreases |c|
  {
    if c == [] then None
    else if c[0].0 == id then Some(c[0].1)
    else Find(c[1..], id)
  }

  /** `newCart[id] = item`: an existing entry is replaced in place, a new
      one goes last. */
  function Put(c: Cart, id: ItemId, item: CartItem): Cart
    decreases |c|
  {
    if c == [] then [(id, item)]
    else if c[0].0 == id then [(id, item)] + c[1..]
    else [c[0]] + Put(c[1..], id, item)
  }

  /** `delete newCart[id]`. */
  function Drop(c: Cart, id: ItemId): Cart
    decreases |c|
  {
    if c == [] then []
    else if c[0].0 == id then Drop(c[1..], id)
    else [c[0]] + Drop(c[1..], id)
  }

  /** After `Put` the id holds the new entry and every other id is as it
      was. */
  lemma {:induction false} PutFind(c: Cart, id: ItemId, item: CartItem, other: ItemId)
    ensures Find(Put(c, id, item), id) == Some(item)
    ensures other != id ==> Find(Put(c, id, item), other) == Find(c, other)
    decreases |c|
  {
    if c != [] && c[0].0 != id {
      PutFind(c[1..], id, item, other);
    }
  }

  /** `Put` keeps ids unique: its entries are the new one and old ones. */
  lemma {:induction false} PutUnique(c: Cart, id: ItemId, item: CartItem)
    ensures forall i :: 0 <= i < |Put(c, id, item)| ==> Put(c, id, item)[i] == (id, item) || Put(c, id, item)[i] in c
    ensures UniqueIds(c) ==> UniqueIds(Put(c, id, item))
    decreases |c|
  {
    if c != [] {
      var r := Put(c, id, item);
      var rest := Put(c[1..], id, item);
      PutUnique(c[1..], id, item);
      if c[0].0 != id {
        forall i | 0 < i < |r| ensures r[i] == (id, item) || r[i] in c {
          assert r[i] == rest[i - 1];
        }
      } else {
        forall i | 0 < i < |r| ensures r[i] in c {
          assert r[i] == c[i];
        }
      }
      if UniqueIds(c) {
        assert UniqueIds(c[1..]) by {
          forall i, j | 0 <= i < j < |c[1..]| ensures c[1..][i].0 != c[1..][j].0 {
            assert c[1..][i] == c[i + 1] && c[1..][j] == c[j + 1];
          }
        }
        forall i, j | 0 <= i < j < |r| ensures r[i].0 != r[j].0 {
          if c[0].0 != id {
            assert r[j] == rest[j - 1];
            if i > 0 {
              assert r[i] == rest[i - 1];
            } else if rest[j - 1] != (id, item) {
              var k :| 0 <= k < |c[1..]| && c[1..][k] == rest[j - 1];
              assert c[k + 1] == rest[j - 1];
            }
          } else {
            assert r[j] == c[j];
            if i > 0 {
              assert r[i] == c[i];
            }
          }
        }
      }
    }
  }

  /** After `Drop` the id is absent and every other id is as it was. */
  lemma {:induction false} DropFind(c: Cart, id: ItemId, other: ItemId)
    ensures Find(Drop(c, id), id).None?
    ensures other != id ==> Find(Drop(c, id), other) == Find(c, other)
    decreases |c|
  {
    if c != [] {
      DropFind(c[1..], id, other);
    }
  }

  /** `Drop` keeps ids unique: its entries are old ones. */
  lemma {:induction false} DropUnique(c: Cart, id: ItemId)
    ensures forall i :: 0 <= i < |Drop(c, id)| ==> Drop(c, id)[i] in c[1..] || (i == 0 && Drop(c, id)[i] == c[0])
    ensures UniqueIds(c) ==> UniqueIds(Drop(c, id))
    decreases |c|
  {
    if c != [] {
      var r := Drop(c, id);
      var rest := Drop(c[1..], id);
      DropUnique(c[1..], id);
      forall i | 0 <= i < |rest| ensures rest[i] in c[1..] {
        if i > 0 {
          assert rest[i] in c[1..][1..];
          var k :| 0 <= k < |c[1..][1..]| && c[1..][1..][k] == rest[i];
          assert c[1..][k + 1] == rest[i];
        }
      }
      if c[0].0 != id {
        forall i | 0 < i < |r| ensures r[i] in c[1..] {
          assert r[i] == rest[i - 1];
        }
      }
      if UniqueIds(c) {
        assert UniqueIds(c[1..]) by {
          forall i, j | 0 <= i < j < |c[1..]| ensures c[1..][i].0 != c[1..][j].0 {
            assert c[1..][i] == c[i + 1] && c[1..][j] == c[j + 1];
          }
        }
        if c[0].0 != id {
          forall i, j | 0 <= i < j < |r| ensures r[i].0 != r[j].0 {
            assert r[j] == rest[j - 1];
            if i > 0 {
              assert r[i] == rest[i - 1];
            } else {
              var k :| 0 <= k < |c[1..]| && c[1..][k] == rest[j - 1];
              assert c[k + 1] == rest[j - 1];
            }
          }
        }
      }
    }
  }

  /** Why `changeCart` throws. */
  datatype CartError = NoProduct

  /** The effect of one `changeCart` call: its return value, whether the
      `count >= 0` console assertion fired, and the next cart or the thrown
      error. */
  datatype Change = Change(returned: bool, warned: bool, next: Result<Cart, CartError>)

  /** The unit price and discounted unit price of a product with the given
      quantity and additions (`getProdPrice`). */
  type Pricing = (Product, int, map<string, int>) -> (int, int)

  /** `changeCart`: a positive count sets the entry, priced from the id's
      additions; any other count deletes the entry (a negative one after the
      console assertion fires, which only logs). */
  function ChangeCart(c: Cart, id: ItemId, count: int, product: Option<Product>, pricing: Pricing): Change {
    var warned := !(count >= 0);
    if count > 0 then
      if product.None? then Change(false, warned, Failure(NoProduct))
      else
        var (price, discPrice) := pricing(product.value, 1, Parse(id).additions);
        Change(false, warned, Success(Put(c, id, CartItem(count, product.value, price, discPrice))))
    else Change(false, warned, Success(Drop(c, id)))
  }

  /** `changeCart` returns false; the assertion fires exactly for a
      negative count; only a positive count without a product fails; a
      positive count stores exactly that count with the product and its
      price, any other count removes the id; every other id is unchanged
      and ids stay unique. */
  lemma ChangeCartSpec(c: Cart, id: ItemId, count: int, product: Option<Product>, pricing: Pricing, other: ItemId)
    ensures var r := ChangeCart(c, id, count, product, pricing);
      && !r.returned
      && (r.warned <==> count < 0)
      && (r.next.Failure? <==> count > 0 && product.None?)
      && (r.next.Success? && count > 0 ==>
            var (price, discPrice) := pricing(product.value, 1, Parse(id).additions);
            Find(r.next.value, id) == Some(CartItem(count, product.value, price, discPrice)))
      && (count <= 0 ==> Find(r.next.value, id).None?)
      && (r.next.Success? && other != id ==> Find(r.next.value, other) == Find(c, other))
      && (r.next.Success? && UniqueIds(c) ==> UniqueIds(r.next.value))
  {
    if count > 0 && product.Some? {
      var (price, discPrice) := pricing(product.value, 1, Parse(id).additions);
      PutFind(c, id, CartItem(count, product.value, price, discPrice), other);
      PutUnique(c, id, CartItem(count, product.value, price, discPrice));
    } else if count <= 0 {
      DropFind(c, id, other);
      DropUnique(c, id);
    }
  }

  /** `clearCart`. */
  function ClearCart(): (r: Cart)
    ensures forall id :: Find(r, id).None?
  {
    []
  }

  /** `deleteProd(id)` is `changeCart(id, 0)`. */
  function DeleteProd(c: Cart, id: ItemId, pricing: Pricing): Change {
    ChangeCart(c, id, 0, None, pricing)
  }

  /** Deleting never fails and leaves the id absent, every other id as it
      was. */
  lemma DeleteProdSpec(c: Cart, id: ItemId, pricing: Pricing, other: ItemId)
    ensures var r := DeleteProd(c, id, pricing);
      && !r.returned && !r.warned && r.next.Success?
      && Find(r.next.value, id).None?
      && (other != id ==> Find(r.next.value, other) == Find(c, other))
  {
    DropFind(c, id, other);
  }

  /** How `getProdCount` names the item: by an id string, or by the
      additions object (by default none). */
  datatype ItemRef = ById(id: ItemId) | ByAdditions(additions: seq<Addition>)

  function RefId(product: Product, ref: ItemRef): ItemId
    requires ref.ByAdditions? ==> DistinctKeys(ref.additions)
  {
    match ref
    case ById(id) => id
    case ByAdditions(additions) => GetProdId(product, additions)
  }

  /** `getProdCount`: the stored count (`|| 0`, so a stored 0 also reads
      as 0) and the id; the returned setter is `ChangeCart` on that id with
      the product. */
  function GetProdCount(c: Cart, product: Product, ref: ItemRef): (int, ItemId)
    requires ref.ByAdditions? ==> DistinctKeys(ref.additions)
  {
    var id := RefId(product, ref);
    var found := Find(c, id);
    (if found.Some? && found.value.count != 0 then found.value.count else 0, id)
  }

  /** An absent item counts 0; a present one its stored count. A count set
      through the returned setter is the count read back. */
  lemma GetProdCountSpec(c: Cart, product: Product, ref: ItemRef, n: int, pricing: Pricing)
    requires ref.ByAdditions? ==> DistinctKeys(ref.additions)
    ensures var (count, id) := GetProdCount(c, product, ref);
      && (Find(c, id).None? ==> count == 0)
      && (Find(c, id).Some? ==> count == Find(c, id).value.count)
      && (n > 0 ==> GetProdCount(ChangeCart(c, id, n, Some(product), pricing).next.value, product, ref).0 == n)
      && (GetProdCount(DeleteProd(c, id, pricing).next.value, product, ref).0 == 0)
  {
    var id := RefId(product, ref);
    ChangeCartSpec(c, id, n, Some(product), pricing, id);
    DropFind(c, id, id);
  }

  /** Clearing leaves nothing to count. */
  lemma ClearCartSpec(product: Product, ref: ItemRef)
    requires ref.ByAdditions? ==> DistinctKeys(ref.additions)
    ensures GetProdCount(ClearCart(), product, ref).0 == 0
    ensures GetCartCost(ClearCart()) == 0 && GetCartDisc(ClearCart()) == 0
  {
  }

  // ---------------------------------------------------------------------
  // Sums

  /** `sumEachItem(convert)`: Σ count · convert(item). */
  function SumEach(c: Cart, convert: CartItem -> int): int
    decreases |c|
  {
    if c == [] then 0 else c[0].1.count * convert(c[0].1) + SumEach(c[1..], convert)
  }

  /** What one entry contributes to a sum. */
  function Share(item: Option<CartItem>, convert: CartItem -> int): int {
    if item.None? then 0 else item.value.count * convert(item.value)
  }

  /** What an entry costs per unit. */
  function UnitCost(item: CartItem): int {
    item.discPrice
  }

  /** What the discount changes per unit. */
  function UnitDisc(item: CartItem): int {
    item.discPrice - item.price
  }

  function UnitPrice(item: CartItem): int {
    item.price
  }

  /** `getCartCost`. */
  function GetCartCost(c: Cart): int {
    SumEach(c, UnitCost)
  }

  /** `getCartDisc`. */
  function GetCartDisc(c: Cart): int {
    SumEach(c, UnitDisc)
  }

  /** A sum over a cart with unique ids, after setting an entry: the old
      entry's share is replaced by the new one's. */
  lemma {:induction false} PutSum(c: Cart, id: ItemId, item: CartItem, convert: CartItem -> int)
    requires UniqueIds(c)
    ensures SumEach(Put(c, id, item), convert) == SumEach(c, convert) - Share(Find(c, id), convert) + item.count * convert(item)
    decreases |c|
  {
    if c != [] && c[0].0 != id {
      assert UniqueIds(c[1..]) by {
        forall i, j | 0 <= i < j < |c[1..]| ensures c[1..][i].0 != c[1..][j].0 {
          assert c[1..][i] == c[i + 1] && c[1..][j] == c[j + 1];
        }
      }
      PutSum(c[1..], id, item, convert);
    }
  }

  /** A sum after deleting an entry loses exactly that entry's share. */
  lemma {:induction false} DropSum(c: Cart, id: ItemId, convert: CartItem -> int)
    requires UniqueIds(c)
    ensures SumEach(Drop(c, id), convert) == SumEach(c, convert) - Share(Find(c, id), convert)
    decreases |c|
  {
    if c != [] {
      assert UniqueIds(c[1..]) by {
        forall i, j | 0 <= i < j < |c[1..]| ensures c[1..][i].0 != c[1..][j].0 {
          assert c[1..][i] == c[i + 1] && c[1..][j] == c[j + 1];
        }
      }
      DropSum(c[1..], id, convert);
      if c[0].0 == id {
        assert Find(c[1..], id).None? by {
          forall i | 0 <= i < |c[1..]| ensures c[1..][i].0 != id {
            assert c[1..][i] == c[i + 1];
          }
        }
      }
    }
  }

  /** The cost after a change: the changed item's old contribution is
      replaced by count · discPrice when the count is positive, and dropped
      otherwise. */
  lemma CostAfterChange(c: Cart, id: ItemId, count: int, product: Option<Product>, pricing: Pricing)
    requires UniqueIds(c)
    ensures var r := ChangeCart(c, id, count, product, pricing);
      r.next.Success? ==>
        GetCartCost(r.next.value) == GetCartCost(c) - Share(Find(c, id), UnitCost)
          + (if count > 0 then count * pricing(product.value, 1, Parse(id).additions).1 else 0)
  {
    if count > 0 && product.Some? {
      var (price, discPrice) := pricing(product.value, 1, Parse(id).additions);
      PutSum(c, id, CartItem(count, product.value, price, discPrice), UnitCost);
    } else if count <= 0 {
      DropSum(c, id, UnitCost);
    }
  }

  /** The discount is the cost less the undiscounted total. */
  lemma {:induction false} DiscIsCostLessPrice(c: Cart)
    ensures GetCartDisc(c) == GetCartCost(c) - SumEach(c, UnitPrice)
    decreases |c|
  {
    if c != [] {
      DiscIsCostLessPrice(c[1..]);
      var it := c[0].1;
      assert it.count * (it.discPrice - it.price) == it.count * it.discPrice - it.count * it.price;
    }
  }
}
