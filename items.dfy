/**
 * The item records of the client store and the list expressions its actions
 * and queries are built from: the spread merge of a partial record, the
 * `filter` of removeItem, the `map` of updateItem and the `find` of the
 * getters. Everything here is a value; the store that holds the list is in
 * module ItemStore.
 */
module Items {
  import opened Wrappers

  /** One stored record: an `id` and a `name`, both strings. */
  datatype Item = Item(id: string, name: string)

  /**
   * A partial record (`Partial<Item>`): each field is either present, and
   * then overrides, or absent.
   */
  datatype Patch = Patch(id: Option<string>, name: Option<string>)

  /** `{ ...item, ...updates }`: the fields present in `u` win, the others are kept. */
  function Merge(item: Item, u: Patch): (r: Item)
    ensures u.id.Some? ==> r.id == u.id.value
    ensures u.id.None? ==> r.id == item.id
    ensures u.name.Some? ==> r.name == u.name.value
    ensures u.name.None? ==> r.name == item.name
  {
    Item(if u.id.Some? then u.id.value else item.id,
         if u.name.Some? then u.name.value else item.name)
  }

  /** Merging the same partial record twice is the same as merging it once. */
  lemma MergeIdempotent(item: Item, u: Patch)
    ensures Merge(Merge(item, u), u) == Merge(item, u)
  {
  }

  /** The empty partial record leaves an item as it was. */
  lemma MergeEmpty(item: Item)
    ensures Merge(item, Patch(None, None)) == item
  {
  }

  /** The number of items in `s` whose id is `id` (duplicates are allowed). */
  function Count(s: seq<Item>, id: string): (n: nat)
    ensures n <= |s|
    ensures n == 0 <==> forall x :: x in s ==> x.id != id
  {
    if s == [] then 0
    else (if s[0].id == id then 1 else 0) + Count(s[1..], id)
  }

  /**
   * `s.filter(item => item.id !== id)`: drops every item with the id and keeps
   * every other one.
   */
  function Without(s: seq<Item>, id: string): (r: seq<Item>)
    ensures |r| == |s| - Count(s, id)
    ensures forall x :: x in r ==> x in s && x.id != id
    ensures forall x :: x in s && x.id != id ==> x in r
  {
    if s == [] then []
    else if s[0].id == id then Without(s[1..], id)
    else [s[0]] + Without(s[1..], id)
  }

  /**
   * The filter distributes over concatenation: what survives of `a + b` is
   * what survives of `a` followed by what survives of `b`, so the surviving
   * items keep their relative order.
   */
  lemma {:induction false} WithoutAppend(a: seq<Item>, b: seq<Item>, id: string)
    ensures Without(a + b, id) == Without(a, id) + Without(b, id)
  {
    if a == [] {
      assert a + b == b;
    } else {
      assert (a + b)[0] == a[0];
      assert (a + b)[1..] == a[1..] + b;
      WithoutAppend(a[1..], b, id);
      if a[0].id == id {
        calc {
          Without(a + b, id);
          Without(a[1..] + b, id);
          Without(a[1..], id) + Without(b, id);
          Without(a, id) + Without(b, id);
        }
      } else {
        calc {
          Without(a + b, id);
          [a[0]] + Without(a[1..] + b, id);
          [a[0]] + (Without(a[1..], id) + Without(b, id));
          ([a[0]] + Without(a[1..], id)) + Without(b, id);
          Without(a, id) + Without(b, id);
        }
      }
    }
  }

  /** Removing the same id twice is the same as removing it once. */
  lemma {:induction false} WithoutIdempotent(s: seq<Item>, id: string)
    ensures Without(Without(s, id), id) == Without(s, id)
  {
    if s != [] {
      WithoutIdempotent(s[1..], id);
    }
  }

  /** A list in which no item has the id is left as it is by the filter. */
  lemma {:induction false} WithoutAbsent(s: seq<Item>, id: string)
    requires forall x :: x in s ==> x.id != id
    ensures Without(s, id) == s
  {
    if s != [] {
      assert s[0] in s;
      assert forall x :: x in s[1..] ==> x in s;
      WithoutAbsent(s[1..], id);
    }
  }

  /**
   * `s.map(item => item.id === id ? { ...item, ...u } : item)`: the same
   * length and order, every item with the id merged with `u`, every other
   * item as it was.
   */
  function Updated(s: seq<Item>, id: string, u: Patch): (r: seq<Item>)
    ensures |r| == |s|
    ensures forall i :: 0 <= i < |s| && s[i].id == id ==> r[i] == Merge(s[i], u)
    ensures forall i :: 0 <= i < |s| && s[i].id != id ==> r[i] == s[i]
  {
    if s == [] then []
    else [if s[0].id == id then Merge(s[0], u) else s[0]] + Updated(s[1..], id, u)
  }

  /**
   * Applying the same update twice is the same as applying it once, even when
   * the update renames the matching items to another id.
   */
  lemma {:induction false} UpdatedIdempotent(s: seq<Item>, id: string, u: Patch)
    ensures Updated(Updated(s, id, u), id, u) == Updated(s, id, u)
  {
    if s != [] {
      MergeIdempotent(s[0], u);
      UpdatedIdempotent(s[1..], id, u);
    }
  }

  /** An update whose id matches no item changes nothing. */
  lemma {:induction false} UpdatedAbsent(s: seq<Item>, id: string, u: Patch)
    requires forall x :: x in s ==> x.id != id
    ensures Updated(s, id, u) == s
  {
    if s != [] {
      assert s[0] in s;
      assert forall x :: x in s[1..] ==> x in s;
      UpdatedAbsent(s[1..], id, u);
    }
  }

  /**
   * `s.find(item => item.id === id)`: an item of `s` with the id, or `None`
   * exactly when there is none.
   */
  function FindById(s: seq<Item>, id: string): (r: Option<Item>)
    ensures r.Some? ==> r.value in s && r.value.id == id
    ensures r.None? <==> forall x :: x in s ==> x.id != id
  {
    if s == [] then None
    else if s[0].id == id then Some(s[0])
    else FindById(s[1..], id)
  }

  /** The item found is the first one in list order that has the id. */
  lemma {:induction false} FindByIdIsFirst(s: seq<Item>, id: string, k: nat)
    requires k < |s| && s[k].id == id
    requires forall j :: 0 <= j < k ==> s[j].id != id
    ensures FindById(s, id) == Some(s[k])
  {
    if k > 0 {
      assert s[0].id != id;
      assert forall j :: 0 <= j < k - 1 ==> s[1..][j] == s[j + 1];
      FindByIdIsFirst(s[1..], id, k - 1);
    }
  }

  /**
   * Appending an item never hides an earlier one: a duplicate id appended at
   * the end is found only when no earlier item has that id.
   */
  lemma {:induction false} FindByIdAppend(s: seq<Item>, x: Item, id: string)
    ensures FindById(s + [x], id) ==
              if FindById(s, id).Some? then FindById(s, id)
              else if x.id == id then Some(x)
              else None
  {
    if s != [] {
      assert (s + [x])[1..] == s[1..] + [x];
      FindByIdAppend(s[1..], x, id);
    }
  }

  /** Removing one id does not change which item is found for another id. */
  lemma {:induction false} FindByIdWithout(s: seq<Item>, id: string, other: string)
    requires other != id
    ensures FindById(Without(s, id), other) == FindById(s, other)
  {
    if s != [] {
      FindByIdWithout(s[1..], id, other);
    }
  }

  /**
   * After an update that keeps the matching items' id, the item found for that
   * id is the one found before, merged with the update.
   */
  lemma {:induction false} FindByIdUpdated(s: seq<Item>, id: string, u: Patch)
    requires u.id.None? || u.id == Some(id)
    ensures FindById(Updated(s, id, u), id) ==
              if FindById(s, id).Some? then Some(Merge(FindById(s, id).value, u)) else None
  {
    if s != [] {
      FindByIdUpdated(s[1..], id, u);
    }
  }

  /**
   * An update of one id does not change the item found for another id, as
   * long as the update does not rename items to that other id.
   */
  lemma {:induction false} FindByIdUpdatedOther(s: seq<Item>, id: string, u: Patch, other: string)
    requires other != id && u.id != Some(other)
    ensures FindById(Updated(s, id, u), other) == FindById(s, other)
  {
    if s != [] {
      FindByIdUpdatedOther(s[1..], id, u, other);
    }
  }
}
