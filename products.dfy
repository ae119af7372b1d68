/** The product catalogue: `Product`, the store's `Error` enum and the
    in-memory store `MemoryProductsRepository` over an ordered vector. */
module Products {
  import opened Common

  datatype Product = Product(id: Uuid, name: Text, price: real)

  datatype Error = NotFound | AlreadyExists | InvalidInput

  /** The input check shared by `add_product` and `update_product`: a
      non-empty name and a price above zero. */
  predicate ValidInput(name: Text, price: real)
  {
    |name| != 0 && price > 0.0
  }

  function Ids(ps: seq<Product>): seq<Uuid>
  {
    seq(|ps|, i requires 0 <= i < |ps| => ps[i].id)
  }

  /** Some product in `ps` is already called `name`. */
  predicate NameTaken(ps: seq<Product>, name: Text)
  {
    exists i :: 0 <= i < |ps| && ps[i].name == name
  }

  ghost predicate IdsDistinct(ps: seq<Product>)
  {
    forall i, j :: 0 <= i < j < |ps| ==> ps[i].id != ps[j].id
  }

  ghost predicate NamesDistinct(ps: seq<Product>)
  {
    forall i, j :: 0 <= i < j < |ps| ==> ps[i].name != ps[j].name
  }

  /** `k` is the position of the first product in `ps` whose id is `id`. */
  ghost predicate FirstWithId(ps: seq<Product>, k: int, id: Uuid)
  {
    0 <= k < |ps| && ps[k].id == id && forall j :: 0 <= j < k ==> ps[j].id != id
  }

  /** Appending a product whose name nobody has keeps the names distinct. */
  lemma AppendKeepsNamesDistinct(ps: seq<Product>, p: Product)
    requires NamesDistinct(ps)
    requires !NameTaken(ps, p.name)
    ensures NamesDistinct(ps + [p])
  {
    forall i, j | 0 <= i < j < |ps + [p]|
      ensures (ps + [p])[i].name != (ps + [p])[j].name
    {
      if j == |ps| {
        assert (ps + [p])[i] == ps[i];
      }
    }
  }

  /** Renaming the product at `k` to a name that only it may carry keeps
      the names distinct. */
  lemma RenameKeepsNamesDistinct(ps: seq<Product>, k: nat, name: Text, price: real)
    requires k < |ps| && NamesDistinct(ps)
    requires forall j :: 0 <= j < |ps| && j != k ==> ps[j].name != name
    ensures NamesDistinct(ps[k := ps[k].(name := name, price := price)])
  {
  }

  /** `update_product` does not re-check the uniqueness of names: renaming
      the product at `k` to the name of another product `j` leaves two
      products with one name. */
  lemma RenameCanDuplicateNames(ps: seq<Product>, k: nat, j: nat, name: Text, price: real)
    requires k < |ps| && j < |ps| && j != k && ps[j].name == name
    ensures !NamesDistinct(ps[k := ps[k].(name := name, price := price)])
  {
    var qs := ps[k := ps[k].(name := name, price := price)];
    assert qs[j].name == qs[k].name;
    if j < k {
      assert !(qs[j].name != qs[k].name);
    } else {
      assert !(qs[k].name != qs[j].name);
    }
  }

  /** Removing one product keeps the ids distinct, and the removed id is
      then absent. */
  lemma RemoveKeepsIdsDistinct(ps: seq<Product>, k: nat)
    requires k < |ps| && IdsDistinct(ps)
    ensures IdsDistinct(RemoveAt(ps, k))
    ensures ps[k].id !in Ids(RemoveAt(ps, k))
  {
    var qs := RemoveAt(ps, k);
    forall i, j | 0 <= i < j < |qs| ensures qs[i].id != qs[j].id {
      var i' := if i < k then i else i + 1;
      var j' := if j < k then j else j + 1;
      assert qs[i] == ps[i'] && qs[j] == ps[j'];
    }
    forall i | 0 <= i < |qs| ensures Ids(qs)[i] != ps[k].id {
      var i' := if i < k then i else i + 1;
      assert qs[i] == ps[i'];
    }
  }

  /** The in-memory product store. `issued` holds every id `Product::new`
      has drawn for this store; a fresh UUID is never one of them. */
  class MemoryProductsRepository {
    var products: seq<Product>
    ghost var issued: set<Uuid>

    ghost predicate Valid()
      reads this
    {
      && IdsDistinct(products)
      && forall i :: 0 <= i < |products| ==> products[i].id in issued
    }

    constructor ()
      ensures Valid()
      ensures products == [] && issued == {}
    {
      products := [];
      issued := {};
    }

    /** `add_product`: the input check comes first, then the name check;
        `id` is the UUID `Product::new` draws once the input is valid. */
    method AddProduct(name: Text, price: real, id: Uuid) returns (r: Result<Product, Error>)
      requires Valid()
      requires id !in issued
      modifies this
      ensures Valid()
      ensures !ValidInput(name, price) ==>
        r == Err(InvalidInput) && products == old(products) && issued == old(issued)
      ensures ValidInput(name, price) ==> issued == old(issued) + {id}
      ensures ValidInput(name, price) && NameTaken(old(products), name) ==>
        r == Err(AlreadyExists) && products == old(products)
      ensures ValidInput(name, price) && !NameTaken(old(products), name) ==>
        && r == Ok(Product(id, name, price))
        && products == old(products) + [r.value]
        && r.value == products[|products| - 1]
      ensures old(NamesDistinct(products)) ==> NamesDistinct(products)
    {
      if |name| == 0 || price <= 0.0 {
        return Err(InvalidInput);
      }
      var product := Product(id, name, price);
      issued := issued + {id};
      if NameTaken(products, product.name) {
        return Err(AlreadyExists);
      }
      if NamesDistinct(products) {
        AppendKeepsNamesDistinct(products, product);
      }
      products := products + [product];
      r := Ok(products[|products| - 1]);
    }

    /** `get_products`: the whole store, in insertion order. */
    method GetProducts() returns (r: seq<Product>)
      ensures r == products
    {
      r := products;
    }

    /** `get_product_by_id`: the first product with that id, or `NotFound`. */
    method GetProductById(id: Uuid) returns (r: Result<Product, Error>)
      ensures r.Ok? ==> exists k :: FirstWithId(products, k, id) && r.value == products[k]
      ensures r.Err? <==> forall j :: 0 <= j < |products| ==> products[j].id != id
      ensures r.Err? ==> r.error == NotFound
    {
      var found := IndexOf(Ids(products), id);
      match found {
        case Some(k) =>
          r := Ok(products[k]);
          assert FirstWithId(products, k, id) by {
            forall j | 0 <= j < k ensures products[j].id != id {
              assert Ids(products)[j] == products[j].id;
            }
          }
        case None =>
          r := Err(NotFound);
          forall j | 0 <= j < |products| ensures products[j].id != id {
            assert Ids(products)[j] == products[j].id;
          }
      }
    }

    /** `update_product`: an absent id is `NotFound` whatever the input; a
        present id with invalid input is `InvalidInput`; otherwise the first
        product with that id gets the new name and price in place. */
    method UpdateProduct(id: Uuid, name: Text, price: real) returns (r: Result<Product, Error>)
      requires Valid()
      modifies this
      ensures Valid() && issued == old(issued)
      ensures IndexOf(Ids(old(products)), id).None? ==>
        r == Err(NotFound) && products == old(products)
      ensures IndexOf(Ids(old(products)), id).Some? && !ValidInput(name, price) ==>
        r == Err(InvalidInput) && products == old(products)
      ensures (var found := IndexOf(Ids(old(products)), id);
        found.Some? && ValidInput(name, price) ==>
          && r == Ok(Product(id, name, price))
          && products == old(products)[found.value := r.value])
      ensures old(NamesDistinct(products)) && r.Ok?
              && (forall j :: 0 <= j < |old(products)| && old(products)[j].id != id ==> old(products)[j].name != name) ==>
        NamesDistinct(products)
    {
      var found := IndexOf(Ids(products), id);
      match found {
        case None =>
          r := Err(NotFound);
        case Some(k) =>
          if |name| == 0 || price <= 0.0 {
            return Err(InvalidInput);
          }
          if NamesDistinct(products) && forall j :: 0 <= j < |products| && products[j].id != id ==> products[j].name != name {
            forall j | 0 <= j < |products| && j != k ensures products[j].name != name {
              assert products[j].id != products[k].id;
            }
            RenameKeepsNamesDistinct(products, k, name, price);
          }
          products := products[k := products[k].(name := name, price := price)];
          r := Ok(products[k]);
      }
    }

    /** `delete_product`: removes the first product with that id and keeps
        the order of the others, or gives `NotFound`. */
    method DeleteProduct(id: Uuid) returns (r: Result<(), Error>)
      requires Valid()
      modifies this
      ensures Valid() && issued == old(issued)
      ensures IndexOf(Ids(old(products)), id).None? ==>
        r == Err(NotFound) && products == old(products)
      ensures (var found := IndexOf(Ids(old(products)), id);
        found.Some? ==> r == Ok(()) && products == RemoveAt(old(products), found.value))
      ensures r.Ok? ==> id in issued && id !in Ids(products)
    {
      var pos := IndexOf(Ids(products), id);
      if pos.Some? {
        RemoveKeepsIdsDistinct(products, pos.value);
        products := RemoveAt(products, pos.value);
        r := Ok(());
      } else {
        r := Err(NotFound);
      }
    }
  }
}
