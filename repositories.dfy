/**
 * The four repositories: each owns one table, answers lookups on it and adds,
 * replaces and removes rows. A table is a sequence of records whose primary
 * keys are unique (Valid). Its order is insertion order, with an update
 * keeping a row in place; the database itself promises no row order, so
 * "first" and "in order" below are statements about the model. Saving
 * changes happens at the end of every mutating call, so each call is one
 * step on the table.
 */
module Repositories {
  import opened Wrappers
  import opened Models
  import opened Tables

  /** OrderStatus.Pending. */
  const Pending: string := "Pending"

  /**
   * The message of the DbUpdateException the ORM raises when saving a row
   * whose key is already stored; the database's own error is its inner exception.
   */
  const DuplicateKey: string := "An error occurred while saving the entity changes. See the inner exception for details."

  /** s contains q starting at index i. */
  predicate OccursAt(s: string, q: string, i: int) {
    0 <= i && i + |q| <= |s| && s[i..i + |q|] == q
  }

  /** string.Contains: q occurs in s as a contiguous substring (the empty string occurs in every string). */
  function ContainsSubstring(s: string, q: string): (b: bool)
    ensures b <==> exists i :: OccursAt(s, q, i)
  {
    if |q| <= |s| && s[..|q|] == q then
      assert OccursAt(s, q, 0);
      true
    else if s == [] then
      false
    else
      var b := ContainsSubstring(s[1..], q);
      assert forall i :: OccursAt(s[1..], q, i) <==> OccursAt(s, q, i + 1) by {
        forall i ensures OccursAt(s[1..], q, i) <==> OccursAt(s, q, i + 1) {
          if i >= 0 { OccursAtTail(s, q, i); }
        }
      }
      assert !OccursAt(s, q, 0);
      assert (exists i :: OccursAt(s, q, i)) ==> b by {
        if exists i :: OccursAt(s, q, i) {
          var i :| OccursAt(s, q, i);
          assert OccursAt(s[1..], q, i - 1);
        }
      }
      b
  }

  /** An occurrence in the tail of s at i is an occurrence in s at i + 1. */
  lemma OccursAtTail(s: string, q: string, i: int)
    requires s != [] && 0 <= i
    ensures OccursAt(s[1..], q, i) <==> OccursAt(s, q, i + 1)
  {
    if 0 <= i && i + |q| <= |s| - 1 {
      var a, b := s[1..][i..i + |q|], s[i + 1..i + 1 + |q|];
      assert |a| == |b|;
      assert forall k :: 0 <= k < |a| ==> a[k] == s[i + 1 + k] == b[k];
      assert a == b;
    }
  }

  /** The Orders table. */
  class OrderRepository {
    var rows: seq<Order>

    ghost predicate Valid()
      reads this
    {
      UniqueKeys(rows, OrderKey)
    }

    constructor ()
      ensures Valid() && rows == []
    {
      rows := [];
    }

    /** GetAllAsync: every stored order, in the model's row order. */
    function GetAll(): (r: seq<Order>)
      reads this
      ensures |r| == |rows| && forall i :: 0 <= i < |r| ==> r[i] == rows[i]
    {
      rows
    }

    /** GetByIdAsync: the stored order with that id, or null when there is none. */
    function GetById(id: Guid): (r: Option<Order>)
      reads this
      ensures r.None? <==> forall o :: o in rows ==> o.orderId != id
      ensures r.Some? ==> r.value in rows && r.value.orderId == id
    {
      Find(rows, OrderKey, id)
    }

    /**
     * AddAsync: the status is forced to Pending, then the order is inserted;
     * saving fails when its id is already stored.
     */
    method Add(order: Order) returns (out: Outcome)
      requires Valid()
      modifies this
      ensures Valid()
      ensures old(GetById(order.orderId)).Some? ==> out == Fail(DuplicateKey) && rows == old(rows)
      ensures old(GetById(order.orderId)).None? ==> out == Pass && rows == old(rows) + [order.(status := Pending)]
      ensures out.Pass? ==> GetById(order.orderId) == Some(order.(status := Pending))
      ensures forall id :: id != order.orderId ==> GetById(id) == old(GetById(id))
    {
      if Find(rows, OrderKey, order.orderId).Some? {
        return Fail(DuplicateKey);
      }
      var stored := order.(status := Pending);
      UniqueKeysAppend(rows, OrderKey, stored);
      forall id ensures Find(rows + [stored], OrderKey, id) == if id == stored.orderId then Some(stored) else Find(rows, OrderKey, id) {
        FindAppend(rows, OrderKey, stored, id);
      }
      rows := rows + [stored];
      out := Pass;
    }

    /** UpdateAsync: the stored order with the same id is replaced by this one. */
    method Update(order: Order)
      requires Valid() && GetById(order.orderId).Some?
      modifies this
      ensures Valid()
      ensures rows == Replace(old(rows), OrderKey, order)
      ensures GetById(order.orderId) == Some(order)
      ensures forall id :: id != order.orderId ==> GetById(id) == old(GetById(id))
    {
      UniqueKeysReplace(rows, OrderKey, order);
      forall id ensures Find(Replace(rows, OrderKey, order), OrderKey, id) == if id == order.orderId then Some(order) else Find(rows, OrderKey, id) {
        FindReplace(rows, OrderKey, order, id);
      }
      rows := Replace(rows, OrderKey, order);
    }

    /** DeleteAsync: the order with that id is removed when present; otherwise nothing happens. */
    method Delete(id: Guid)
      requires Valid()
      modifies this
      ensures Valid()
      ensures rows == RemoveKey(old(rows), OrderKey, id)
      ensures GetById(id).None?
      ensures old(GetById(id)).None? ==> rows == old(rows)
      ensures old(GetById(id)).Some? ==> multiset(rows) == multiset(old(rows)) - multiset{old(GetById(id)).value}
      ensures forall id' :: id' != id ==> GetById(id') == old(GetById(id'))
    {
      var found := Find(rows, OrderKey, id);
      if found.None? {
        RemoveKeyAbsent(rows, OrderKey, id);
      } else {
        RemoveKeyExactlyOne(rows, OrderKey, found.value);
      }
      UniqueKeysRemoveKey(rows, OrderKey, id);
      forall id' ensures Find(RemoveKey(rows, OrderKey, id), OrderKey, id') == if id' == id then None else Find(rows, OrderKey, id') {
        FindRemoveKey(rows, OrderKey, id, id');
      }
      rows := RemoveKey(rows, OrderKey, id);
    }
  }

  /** The Stores table. */
  class StoreRepository {
    var rows: seq<Store>

    ghost predicate Valid()
      reads this
    {
      UniqueKeys(rows, StoreKey)
    }

    constructor ()
      ensures Valid() && rows == []
    {
      rows := [];
    }

    /** GetByIdAsync: the stored store with that id, or null when there is none. */
    function GetById(id: Guid): (r: Option<Store>)
      reads this
      ensures r.None? <==> forall s :: s in rows ==> s.storeId != id
      ensures r.Some? ==> r.value in rows && r.value.storeId == id
    {
      Find(rows, StoreKey, id)
    }

    /** SearchByNameAsync: the stores whose name contains the query, in the model's row order. */
    function SearchByName(name: string): (r: seq<Store>)
      reads this
      ensures forall s :: s in r <==> s in rows && exists i :: OccursAt(s.storeName, name, i)
      ensures forall s :: multiset(r)[s] == if ContainsSubstring(s.storeName, name) then multiset(rows)[s] else 0
      ensures Subsequence(r, rows)
    {
      Filter(rows, (s: Store) => ContainsSubstring(s.storeName, name))
    }

    /** GetByUserIdAsync: the first store, in the model's row order, whose owner is that user id, or null. */
    function GetByUserId(userId: Option<string>): (r: Option<Store>)
      reads this
      ensures r.None? <==> forall s :: s in rows ==> s.userId != userId
      ensures r.Some? ==> exists i :: 0 <= i < |rows| && rows[i] == r.value && r.value.userId == userId
                                      && forall j :: 0 <= j < i ==> rows[j].userId != userId
    {
      Find(rows, StoreOwner, userId)
    }

    /** AddAsync: the store is inserted; saving fails when its id is already stored. */
    method Add(store: Store) returns (out: Outcome)
      requires Valid()
      modifies this
      ensures Valid()
      ensures old(GetById(store.storeId)).Some? ==> out == Fail(DuplicateKey) && rows == old(rows)
      ensures old(GetById(store.storeId)).None? ==> out == Pass && rows == old(rows) + [store]
      ensures out.Pass? ==> GetById(store.storeId) == Some(store)
      ensures forall id :: id != store.storeId ==> GetById(id) == old(GetById(id))
    {
      if Find(rows, StoreKey, store.storeId).Some? {
        return Fail(DuplicateKey);
      }
      UniqueKeysAppend(rows, StoreKey, store);
      forall id ensures Find(rows + [store], StoreKey, id) == if id == store.storeId then Some(store) else Find(rows, StoreKey, id) {
        FindAppend(rows, StoreKey, store, id);
      }
      rows := rows + [store];
      out := Pass;
    }

    /** UpdateAsync: the stored store with the same id is replaced by this one. */
    method Update(store: Store)
      requires Valid() && GetById(store.storeId).Some?
      modifies this
      ensures Valid()
      ensures rows == Replace(old(rows), StoreKey, store)
      ensures GetById(store.storeId) == Some(store)
      ensures forall id :: id != store.storeId ==> GetById(id) == old(GetById(id))
    {
      UniqueKeysReplace(rows, StoreKey, store);
      forall id ensures Find(Replace(rows, StoreKey, store), StoreKey, id) == if id == store.storeId then Some(store) else Find(rows, StoreKey, id) {
        FindReplace(rows, StoreKey, store, id);
      }
      rows := Replace(rows, StoreKey, store);
    }

    /** DeleteAsync: the stored store with the id of this one is removed, and only it. */
    method Delete(store: Store)
      requires Valid() && GetById(store.storeId).Some?
      modifies this
      ensures Valid()
      ensures rows == RemoveKey(old(rows), StoreKey, store.storeId)
      ensures multiset(rows) == multiset(old(rows)) - multiset{old(GetById(store.storeId)).value}
      ensures GetById(store.storeId).None?
      ensures forall id :: id != store.storeId ==> GetById(id) == old(GetById(id))
    {
      var found := Find(rows, StoreKey, store.storeId);
      RemoveKeyExactlyOne(rows, StoreKey, found.value);
      UniqueKeysRemoveKey(rows, StoreKey, store.storeId);
      forall id ensures Find(RemoveKey(rows, StoreKey, store.storeId), StoreKey, id) == if id == store.storeId then None else Find(rows, StoreKey, id) {
        FindRemoveKey(rows, StoreKey, store.storeId, id);
      }
      rows := RemoveKey(rows, StoreKey, store.storeId);
    }
  }

  /** The Products table. */
  class ProductRepository {
    var rows: seq<Product>

    ghost predicate Valid()
      reads this
    {
      UniqueKeys(rows, ProductKey)
    }

    constructor ()
      ensures Valid() && rows == []
    {
      rows := [];
    }

    /** GetAllAsync: every stored product, in the model's row order. */
    function GetAll(): (r: seq<Product>)
      reads this
      ensures |r| == |rows| && forall i :: 0 <= i < |r| ==> r[i] == rows[i]
    {
      rows
    }

    /** GetByIdAsync: the stored product with that id, or null when there is none. */
    function GetById(id: Guid): (r: Option<Product>)
      reads this
      ensures r.None? <==> forall p :: p in rows ==> p.productId != id
      ensures r.Some? ==> r.value in rows && r.value.productId == id
    {
      Find(rows, ProductKey, id)
    }

    /** GetByStoreIdAsync: the products of that store, in the model's row order. */
    function GetByStoreId(storeId: Guid): (r: seq<Product>)
      reads this
      ensures forall p :: p in r <==> p in rows && p.storeId == storeId
      ensures forall p :: multiset(r)[p] == if p.storeId == storeId then multiset(rows)[p] else 0
      ensures Subsequence(r, rows)
    {
      Filter(rows, (p: Product) => p.storeId == storeId)
    }

    /** AddAsync: the product is inserted; saving fails when its id is already stored. */
    method Add(product: Product) returns (out: Outcome)
      requires Valid()
      modifies this
      ensures Valid()
      ensures old(GetById(product.productId)).Some? ==> out == Fail(DuplicateKey) && rows == old(rows)
      ensures old(GetById(product.productId)).None? ==> out == Pass && rows == old(rows) + [product]
      ensures out.Pass? ==> GetById(product.productId) == Some(product)
      ensures forall id :: id != product.productId ==> GetById(id) == old(GetById(id))
    {
      if Find(rows, ProductKey, product.productId).Some? {
        return Fail(DuplicateKey);
      }
      UniqueKeysAppend(rows, ProductKey, product);
      forall id ensures Find(rows + [product], ProductKey, id) == if id == product.productId then Some(product) else Find(rows, ProductKey, id) {
        FindAppend(rows, ProductKey, product, id);
      }
      rows := rows + [product];
      out := Pass;
    }

    /** UpdateAsync: the stored product with the same id is replaced by this one. */
    method Update(product: Product)
      requires Valid() && GetById(product.productId).Some?
      modifies this
      ensures Valid()
      ensures rows == Replace(old(rows), ProductKey, product)
      ensures GetById(product.productId) == Some(product)
      ensures forall id :: id != product.productId ==> GetById(id) == old(GetById(id))
    {
      UniqueKeysReplace(rows, ProductKey, product);
      forall id ensures Find(Replace(rows, ProductKey, product), ProductKey, id) == if id == product.productId then Some(product) else Find(rows, ProductKey, id) {
        FindReplace(rows, ProductKey, product, id);
      }
      rows := Replace(rows, ProductKey, product);
    }

    /** DeleteAsync: the product with that id is removed when present; otherwise nothing happens. */
    method Delete(id: Guid)
      requires Valid()
      modifies this
      ensures Valid()
      ensures rows == RemoveKey(old(rows), ProductKey, id)
      ensures GetById(id).None?
      ensures old(GetById(id)).None? ==> rows == old(rows)
      ensures old(GetById(id)).Some? ==> multiset(rows) == multiset(old(rows)) - multiset{old(GetById(id)).value}
      ensures forall id' :: id' != id ==> GetById(id') == old(GetById(id'))
    {
      var found := Find(rows, ProductKey, id);
      if found.None? {
        RemoveKeyAbsent(rows, ProductKey, id);
      } else {
        RemoveKeyExactlyOne(rows, ProductKey, found.value);
      }
      UniqueKeysRemoveKey(rows, ProductKey, id);
      forall id' ensures Find(RemoveKey(rows, ProductKey, id), ProductKey, id') == if id' == id then None else Find(rows, ProductKey, id') {
        FindRemoveKey(rows, ProductKey, id, id');
      }
      rows := RemoveKey(rows, ProductKey, id);
    }
  }

  /** The Users table of the identity store. */
  class UserRepository {
    var rows: seq<User>

    ghost predicate Valid()
      reads this
    {
      UniqueKeys(rows, UserKey)
    }

    constructor ()
      ensures Valid() && rows == []
    {
      rows := [];
    }

    /** GetAllAsync: every stored user, in the model's row order. */
    function GetAll(): (r: seq<User>)
      reads this
      ensures |r| == |rows| && forall i :: 0 <= i < |r| ==> r[i] == rows[i]
    {
      rows
    }

    /** GetByIdAsync: the stored user with that id, or null when there is none. */
    function GetById(id: string): (r: Option<User>)
      reads this
      ensures r.None? <==> forall u :: u in rows ==> u.id != id
      ensures r.Some? ==> r.value in rows && r.value.id == id
    {
      Find(rows, UserKey, id)
    }

    /** AddAsync: the user is inserted; saving fails when its id is already stored. */
    method Add(user: User) returns (out: Outcome)
      requires Valid()
      modifies this
      ensures Valid()
      ensures old(GetById(user.id)).Some? ==> out == Fail(DuplicateKey) && rows == old(rows)
      ensures old(GetById(user.id)).None? ==> out == Pass && rows == old(rows) + [user]
      ensures out.Pass? ==> GetById(user.id) == Some(user)
      ensures forall id :: id != user.id ==> GetById(id) == old(GetById(id))
    {
      if Find(rows, UserKey, user.id).Some? {
        return Fail(DuplicateKey);
      }
      UniqueKeysAppend(rows, UserKey, user);
      forall id ensures Find(rows + [user], UserKey, id) == if id == user.id then Some(user) else Find(rows, UserKey, id) {
        FindAppend(rows, UserKey, user, id);
      }
      rows := rows + [user];
      out := Pass;
    }

    /** UpdateAsync: the stored user with the same id is replaced by this one. */
    method Update(user: User)
      requires Valid() && GetById(user.id).Some?
      modifies this
      ensures Valid()
      ensures rows == Replace(old(rows), UserKey, user)
      ensures GetById(user.id) == Some(user)
      ensures forall id :: id != user.id ==> GetById(id) == old(GetById(id))
    {
      UniqueKeysReplace(rows, UserKey, user);
      forall id ensures Find(Replace(rows, UserKey, user), UserKey, id) == if id == user.id then Some(user) else Find(rows, UserKey, id) {
        FindReplace(rows, UserKey, user, id);
      }
      rows := Replace(rows, UserKey, user);
    }

    /**
     * DeleteAsync: the user is fetched and removed with no null check, so the
     * id must be stored (an absent id makes the ORM throw).
     */
    method Delete(id: string)
      requires Valid() && GetById(id).Some?
      modifies this
      ensures Valid()
      ensures rows == RemoveKey(old(rows), UserKey, id)
      ensures multiset(rows) == multiset(old(rows)) - multiset{old(GetById(id)).value}
      ensures GetById(id).None?
      ensures forall id' :: id' != id ==> GetById(id') == old(GetById(id'))
    {
      var found := Find(rows, UserKey, id);
      RemoveKeyExactlyOne(rows, UserKey, found.value);
      UniqueKeysRemoveKey(rows, UserKey, id);
      forall id' ensures Find(RemoveKey(rows, UserKey, id), UserKey, id') == if id' == id then None else Find(rows, UserKey, id') {
        FindRemoveKey(rows, UserKey, id, id');
      }
      rows := RemoveKey(rows, UserKey, id);
    }
  }
}
