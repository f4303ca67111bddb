/** The to-do items (`ItemState`, `ItemS` in src/main.rs) and the three
    list computations that `App::update` performs on them: the existence
    test `iter().find(..).is_some()`, the `filter` of the delete arm and
    the `map` of the complete arm. */
module TodoItems {

  /** Item ids are Rust `usize` values. The application is built for
      wasm32, where `usize` is 32 bits wide. The program only ever compares
      ids for equality, so no arithmetic on them is modelled. */
  type Id = n: int | 0 <= n < 0x1_0000_0000

  /** Lifecycle state of an item. `DELETED` is declared by the program but
      no operation ever produces it (see NoneDeleted below). */
  datatype ItemState = NEW | COMPLETED | DELETED

  datatype Item = Item(id: Id, value: string, state: ItemState)

  datatype Option<T> = None | Some(value: T)

  /** `items.iter().find(|item| item.id == id)`: the first item whose id is
      `id`, if there is one. */
  function Find(items: seq<Item>, id: Id): (r: Option<Item>)
    ensures r.None? <==> forall i :: 0 <= i < |items| ==> items[i].id != id
    ensures r.Some? ==> r.value.id == id && r.value in items
  {
    if items == [] then None
    else if items[0].id == id then Some(items[0])
    else Find(items[1..], id)
  }

  /** `find` stops at the first match: no earlier item carries `id`. */
  lemma {:induction false} FindIsFirst(items: seq<Item>, id: Id)
    requires HasId(items, id)
    ensures exists k :: 0 <= k < |items| && items[k] == Find(items, id).value &&
                        forall j :: 0 <= j < k ==> items[j].id != id
  {
    if items[0].id == id {
      assert items[0] == Find(items, id).value;
    } else {
      var t := items[1..];
      FindIsFirst(t, id);
      var k :| 0 <= k < |t| && t[k] == Find(t, id).value &&
               forall j :: 0 <= j < k ==> t[j].id != id;
      assert items[k + 1] == Find(items, id).value;
      forall j | 0 <= j < k + 1 ensures items[j].id != id {
        if j > 0 { assert items[j] == t[j - 1]; }
      }
    }
  }

  /** The `exists` flag computed by the delete and complete arms. */
  predicate HasId(items: seq<Item>, id: Id)
    ensures HasId(items, id) <==> exists i :: 0 <= i < |items| && items[i].id == id
  {
    Find(items, id).Some?
  }

  /** Number of items whose id is `id`. */
  function Count(items: seq<Item>, id: Id): (n: nat)
    ensures n <= |items|
  {
    if items == [] then 0
    else (if items[0].id == id then 1 else 0) + Count(items[1..], id)
  }

  /** No item carries `id` exactly when none is counted. */
  lemma {:induction false} CountZero(items: seq<Item>, id: Id)
    ensures Count(items, id) == 0 <==> !HasId(items, id)
  {
    if items != [] {
      CountZero(items[1..], id);
      assert forall i :: 0 < i < |items| ==> items[i] == items[1..][i - 1];
    }
  }

  /** `items.into_iter().filter(|item| item.id != id).collect()`. */
  function RemoveId(items: seq<Item>, id: Id): (r: seq<Item>)
    ensures |r| <= |items|
  {
    if items == [] then []
    else if items[0].id != id then [items[0]] + RemoveId(items[1..], id)
    else RemoveId(items[1..], id)
  }

  /** The closure of the complete arm: an item whose id is `id` is rebuilt
      with state COMPLETED, the same value and the id `id`. */
  function CompleteOne(item: Item, id: Id): (r: Item)
    ensures r.id == item.id && r.value == item.value
    ensures r.state == (if item.id == id then COMPLETED else item.state)
  {
    if item.id == id then Item(id, item.value, COMPLETED) else item
  }

  /** `items.into_iter().map(..).collect()` with the closure above. */
  function CompleteId(items: seq<Item>, id: Id): (r: seq<Item>)
    ensures |r| == |items|
    ensures forall i :: 0 <= i < |items| ==>
              r[i].id == items[i].id && r[i].value == items[i].value
    ensures forall i :: 0 <= i < |items| ==>
              r[i].state == (if items[i].id == id then COMPLETED else items[i].state)
    ensures !HasId(items, id) ==> r == items
  {
    if items == [] then []
    else [CompleteOne(items[0], id)] + CompleteId(items[1..], id)
  }

  /** `r` keeps some of the elements of `s`, in their order in `s`. */
  ghost predicate IsSubsequence(r: seq<Item>, s: seq<Item>)
    decreases |s|
  {
    r == [] ||
    (s != [] && ((r[0] == s[0] && IsSubsequence(r[1..], s[1..])) || IsSubsequence(r, s[1..])))
  }

  /** No two items share an id. The program does not guarantee this
      (ids are random), so it is never assumed as an invariant. */
  ghost predicate UniqueIds(items: seq<Item>) {
    forall i, j :: 0 <= i < j < |items| ==> items[i].id != items[j].id
  }

  /** No item is in the DELETED state. */
  ghost predicate NoneDeleted(items: seq<Item>) {
    forall i :: 0 <= i < |items| ==> items[i].state != DELETED
  }

  // ---------------------------------------------------------------------
  // The delete arm's filter

  /** The filter keeps the surviving items in their original order. */
  lemma {:induction false} RemoveIdIsSubsequence(items: seq<Item>, id: Id)
    ensures IsSubsequence(RemoveId(items, id), items)
  {
    if items != [] {
      RemoveIdIsSubsequence(items[1..], id);
      if items[0].id != id {
        assert RemoveId(items, id)[1..] == RemoveId(items[1..], id);
      }
    }
  }

  /** An order-preserving selection that avoids `id` keeps at most the items
      that do not carry `id`. */
  lemma {:induction false} SubsequenceLength(r: seq<Item>, s: seq<Item>, id: Id)
    requires IsSubsequence(r, s)
    requires forall x :: x in r ==> x.id != id
    ensures |r| + Count(s, id) <= |s|
    decreases |s|
  {
    if r != [] {
      if r[0] == s[0] && IsSubsequence(r[1..], s[1..]) {
        assert r[0] in r;
        assert forall x :: x in r[1..] ==> x in r;
        SubsequenceLength(r[1..], s[1..], id);
      } else {
        SubsequenceLength(r, s[1..], id);
      }
    }
  }

  /** The filter is the ONLY order-preserving selection of `items` that drops
      every item carrying `id` and keeps every other one. */
  lemma {:induction false} RemoveIdCharacterized(r: seq<Item>, items: seq<Item>, id: Id)
    requires IsSubsequence(r, items)
    requires forall x :: x in r ==> x.id != id
    requires |r| + Count(items, id) == |items|
    ensures r == RemoveId(items, id)
    decreases |items|
  {
    if items == [] {
    } else if items[0].id == id {
      if r != [] && r[0] == items[0] {
        assert false;
      }
      assert IsSubsequence(r, items[1..]);
      RemoveIdCharacterized(r, items[1..], id);
    } else {
      if r == [] {
        assert false;
      } else if r[0] == items[0] && IsSubsequence(r[1..], items[1..]) {
        assert forall x :: x in r[1..] ==> x in r;
        RemoveIdCharacterized(r[1..], items[1..], id);
        assert r == [r[0]] + r[1..];
      } else {
        SubsequenceLength(r, items[1..], id);
        assert false;
      }
    }
  }

  /** When no item carries `id`, the filter returns the list unchanged. */
  lemma {:induction false} RemoveIdAbsent(items: seq<Item>, id: Id)
    requires !HasId(items, id)
    ensures RemoveId(items, id) == items
  {
    if items != [] {
      assert !HasId(items[1..], id) by {
        assert forall i :: 0 <= i < |items[1..]| ==> items[1..][i] == items[i + 1];
      }
      RemoveIdAbsent(items[1..], id);
      assert items == [items[0]] + items[1..];
    }
  }

  /** The filter drops exactly as many items as carry `id`; in particular
      it shortens the list exactly when some item carries `id`. */
  lemma {:induction false} RemoveIdLength(items: seq<Item>, id: Id)
    ensures |RemoveId(items, id)| + Count(items, id) == |items|
    ensures |RemoveId(items, id)| < |items| <==> HasId(items, id)
  {
    if items != [] {
      RemoveIdLength(items[1..], id);
    }
    CountZero(items, id);
  }

  /** The filter keeps exactly the items that do not carry `id`. */
  lemma {:induction false} RemoveIdMembers(items: seq<Item>, id: Id)
    ensures forall x :: x in RemoveId(items, id) <==> x in items && x.id != id
  {
    if items != [] {
      RemoveIdMembers(items[1..], id);
      assert items == [items[0]] + items[1..];
    }
  }

  /** One step of the filter, on a list split into its head and tail. */
  lemma RemoveIdCons(h: Item, s: seq<Item>, id: Id)
    ensures RemoveId([h] + s, id) == (if h.id != id then [h] else []) + RemoveId(s, id)
  {
    assert ([h] + s)[0] == h && ([h] + s)[1..] == s;
  }

  /** The filter distributes over concatenation: it never reorders items
      across a split point. */
  lemma {:induction false} RemoveIdAppend(a: seq<Item>, b: seq<Item>, id: Id)
    ensures RemoveId(a + b, id) == RemoveId(a, id) + RemoveId(b, id)
  {
    if a == [] {
      assert a + b == b;
    } else {
      var h, t := a[0], a[1..];
      assert a == [h] + t;
      assert a + b == [h] + (t + b);
      RemoveIdAppend(t, b, id);
      RemoveIdCons(h, t + b, id);
      RemoveIdCons(h, t, id);
    }
  }

  /** Unique ids of a list split into its head and tail. */
  lemma UniqueIdsCons(h: Item, t: seq<Item>)
    ensures UniqueIds([h] + t) <==> UniqueIds(t) && forall x :: x in t ==> x.id != h.id
  {
    var s := [h] + t;
    assert forall i :: 0 <= i < |t| ==> s[i + 1] == t[i];
    if UniqueIds(t) && forall x :: x in t ==> x.id != h.id {
      forall i, j | 0 <= i < j < |s| ensures s[i].id != s[j].id {
        assert s[j] == t[j - 1];
        if i > 0 { assert s[i] == t[i - 1]; }
      }
    }
    if UniqueIds(s) {
      forall x | x in t ensures x.id != h.id {
        var m :| 0 <= m < |t| && t[m] == x;
        assert s[0] == h && s[m + 1] == x;
      }
    }
  }

  /** Appending an item whose id is not yet in use keeps ids unique. */
  lemma UniqueIdsAppend(items: seq<Item>, item: Item)
    requires UniqueIds(items)
    requires !HasId(items, item.id)
    ensures UniqueIds(items + [item])
  {
    var s := items + [item];
    forall i, j | 0 <= i < j < |s| ensures s[i].id != s[j].id {
      assert s[i] == items[i];
      if j < |items| { assert s[j] == items[j]; }
    }
  }

  /** With unique ids, no item other than the one at `k` carries its id. */
  lemma UniqueIdsAbsentElsewhere(items: seq<Item>, k: nat)
    requires UniqueIds(items)
    requires k < |items|
    ensures !HasId(items[..k], items[k].id) && !HasId(items[k + 1..], items[k].id)
  {
    var before, after := items[..k], items[k + 1..];
    forall i | 0 <= i < |before| ensures before[i].id != items[k].id {
      assert before[i] == items[i];
    }
    forall i | 0 <= i < |after| ensures after[i].id != items[k].id {
      assert after[i] == items[k + 1 + i];
    }
  }

  /** With unique ids, deleting the id of the item at `k` removes exactly
      that item and nothing else. */
  lemma RemoveIdUnique(items: seq<Item>, k: nat)
    requires UniqueIds(items)
    requires k < |items|
    ensures RemoveId(items, items[k].id) == items[..k] + items[k + 1..]
  {
    var id := items[k].id;
    var before, rest, after := items[..k], items[k..], items[k + 1..];
    assert items == before + rest;
    assert rest == [items[k]] + after;
    UniqueIdsAbsentElsewhere(items, k);
    RemoveIdAbsent(before, id);
    RemoveIdAbsent(after, id);
    calc {
      RemoveId(items, id);
      { RemoveIdAppend(before, rest, id); }
      RemoveId(before, id) + RemoveId(rest, id);
      before + RemoveId(rest, id);
      { RemoveIdCons(items[k], after, id); }
      before + RemoveId(after, id);
      before + after;
    }
  }

  /** The filter keeps ids unique. */
  lemma {:induction false} RemoveIdKeepsUniqueIds(items: seq<Item>, id: Id)
    requires UniqueIds(items)
    ensures UniqueIds(RemoveId(items, id))
  {
    if items != [] {
      var h, t := items[0], items[1..];
      assert items == [h] + t;
      UniqueIdsCons(h, t);
      RemoveIdKeepsUniqueIds(t, id);
      RemoveIdCons(h, t, id);
      if h.id != id {
        RemoveIdMembers(t, id);
        UniqueIdsCons(h, RemoveId(t, id));
      }
    }
  }

  /** The filter never introduces a DELETED item. */
  lemma RemoveIdKeepsNoneDeleted(items: seq<Item>, id: Id)
    requires NoneDeleted(items)
    ensures NoneDeleted(RemoveId(items, id))
  {
    var r := RemoveId(items, id);
    RemoveIdMembers(items, id);
    forall i | 0 <= i < |r| ensures r[i].state != DELETED {
      assert r[i] in items;
    }
  }

  /** The three list computations on a list of two items. */
  lemma TwoItems(a: Item, b: Item, id: Id)
    ensures HasId([a, b], id) == (a.id == id || b.id == id)
    ensures CompleteId([a, b], id) == [CompleteOne(a, id), CompleteOne(b, id)]
    ensures RemoveId([a, b], id) == (if a.id != id then [a] else []) + (if b.id != id then [b] else [])
  {
    assert [a, b] == [a] + [b];
    assert [a, b][1..] == [b];
    RemoveIdCons(a, [b], id);
    RemoveIdCons(b, [], id);
  }

  // ---------------------------------------------------------------------
  // The complete arm's map

  /** Completing twice gives the same list as completing once. */
  lemma CompleteIdIdempotent(items: seq<Item>, id: Id)
    ensures CompleteId(CompleteId(items, id), id) == CompleteId(items, id)
  {
    var once := CompleteId(items, id);
    var twice := CompleteId(once, id);
    forall i | 0 <= i < |items| ensures twice[i] == once[i] {
      assert twice[i].id == once[i].id && twice[i].value == once[i].value;
    }
  }

  /** Completing changes no id: every id is found afterwards exactly when it
      was found before, so a second completion of the same id still reports
      that the item exists. */
  lemma CompleteIdKeepsIds(items: seq<Item>, id: Id, other: Id)
    ensures HasId(CompleteId(items, id), other) == HasId(items, other)
  {
    var r := CompleteId(items, id);
    assert forall i :: 0 <= i < |r| ==> r[i].id == items[i].id;
  }

  /** Completing keeps ids unique. */
  lemma CompleteIdKeepsUniqueIds(items: seq<Item>, id: Id)
    requires UniqueIds(items)
    ensures UniqueIds(CompleteId(items, id))
  {
    var r := CompleteId(items, id);
    forall i, j | 0 <= i < j < |r| ensures r[i].id != r[j].id {
      assert r[i].id == items[i].id && r[j].id == items[j].id;
    }
  }

  /** Completing never introduces a DELETED item. */
  lemma CompleteIdKeepsNoneDeleted(items: seq<Item>, id: Id)
    requires NoneDeleted(items)
    ensures NoneDeleted(CompleteId(items, id))
  {
    var r := CompleteId(items, id);
    forall i | 0 <= i < |r| ensures r[i].state != DELETED {
      assert r[i].state == COMPLETED || r[i].state == items[i].state;
    }
  }
}
