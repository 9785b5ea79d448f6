/** Properties of the inventory store that relate several operations: what an
    add followed by a remove restores, how successive adds accumulate, which
    operations keep every stored quantity positive, why the contract of
    `check_low_items` pins its result down, and the demonstration run of the
    program's driver. */
module InventoryProperties {
  import opened Inventory

  /** A store is determined by its item order and its quantities. */
  lemma SameStock(a: Stock, b: Stock)
    requires Items(a) == Items(b)
    requires forall x :: GetQty(a, x) == GetQty(b, x)
    ensures a == b
  {
    forall i | 0 <= i < |a|
      ensures a[i] == b[i]
    {
      assert Items(a)[i] == a[i].item && Items(b)[i] == b[i].item;
      assert GetQty(a, a[i].item) == a[i].qty;
      assert GetQty(b, b[i].item) == b[i].qty;
    }
  }

  /** Writing back the quantity already stored changes nothing. */
  lemma PutSame(s: Stock, k: string)
    requires Has(s, k)
    ensures Put(s, k, GetQty(s, k)) == s
  {
    SameStock(Put(s, k, GetQty(s, k)), s);
  }

  /** The second of two writes to one key wins. */
  lemma PutPut(s: Stock, k: string, v: int, w: int)
    ensures Put(Put(s, k, v), k, w) == Put(s, k, w)
  {
    SameStock(Put(Put(s, k, v), k, w), Put(s, k, w));
  }

  /** Deleting a key forgets any value just written to it in place. */
  lemma DeletePut(s: Stock, k: string, v: int)
    requires Has(s, k)
    ensures Delete(Put(s, k, v), k) == Delete(s, k)
  {
    var i := IndexOf(s, k);
    var t := Put(s, k, v);
    assert t == s[i := Entry(k, v)];
    assert IndexOf(t, k) == i;
    assert t[..i] == s[..i];
    assert t[i + 1..] == s[i + 1..];
  }

  /** Deleting a key that was just appended restores the store. */
  lemma DeleteAppended(s: Stock, k: string, v: int)
    requires !Has(s, k)
    ensures Delete(Put(s, k, v), k) == s
  {
    var t := Put(s, k, v);
    assert t == s + [Entry(k, v)];
    assert IndexOf(t, k) == |s|;
    assert t[..|s|] == s;
  }

  /** A valid `add_item(k, q)` writes the old quantity plus `q`. */
  lemma AddIsPut(s: Stock, k: string, q: int, logs: seq<LogLine>, now: string)
    ensures AddItem(s, StrArg(k), IntArg(q), logs, now).stock == Put(s, k, GetQty(s, k) + q)
  {
  }

  /** `remove_item` on a present item writes the reduced quantity, then
      deletes the entry when that is zero or below. */
  lemma RemovePresent(s: Stock, k: string, q: int)
    requires Has(s, k)
    ensures RemoveItem(s, k, q) ==
      if GetQty(s, k) - q <= 0 then Delete(Put(s, k, GetQty(s, k) - q), k)
      else Put(s, k, GetQty(s, k) - q)
  {
  }

  /** `add_item(k, q)` then `remove_item(k, q)` on an absent item: the store
      is as it was, whatever `q` is. */
  lemma AddThenRemoveAbsent(s: Stock, k: string, q: int, logs: seq<LogLine>, now: string)
    requires !Has(s, k)
    ensures RemoveItem(AddItem(s, StrArg(k), IntArg(q), logs, now).stock, k, q) == s
  {
    AddIsPut(s, k, q, logs, now);
    var a := Put(s, k, q);
    RemovePresent(a, k, q);
    PutPut(s, k, q, 0);
    DeleteAppended(s, k, 0);
  }

  /** `add_item(k, q)` then `remove_item(k, q)` on an item stored with a
      positive quantity: the store is as it was. */
  lemma AddThenRemovePositive(s: Stock, k: string, q: int, logs: seq<LogLine>, now: string)
    requires Has(s, k) && GetQty(s, k) > 0
    ensures RemoveItem(AddItem(s, StrArg(k), IntArg(q), logs, now).stock, k, q) == s
  {
    var v := GetQty(s, k);
    AddIsPut(s, k, q, logs, now);
    var a := Put(s, k, v + q);
    RemovePresent(a, k, q);
    PutPut(s, k, v + q, v);
    PutSame(s, k);
  }

  /** `add_item(k, q)` then `remove_item(k, q)` on an item stored with a
      quantity of zero or below: the remove deletes the item. */
  lemma AddThenRemoveNonPositive(s: Stock, k: string, q: int, logs: seq<LogLine>, now: string)
    requires Has(s, k) && GetQty(s, k) <= 0
    ensures RemoveItem(AddItem(s, StrArg(k), IntArg(q), logs, now).stock, k, q) == Delete(s, k)
  {
    var v := GetQty(s, k);
    AddIsPut(s, k, q, logs, now);
    var a := Put(s, k, v + q);
    RemovePresent(a, k, q);
    PutPut(s, k, v + q, v);
    DeletePut(s, k, v);
  }

  /** Adding a positive quantity to an absent item and removing the same
      quantity leaves the item absent, not present with 0. */
  lemma AddThenRemoveLeavesAbsent(s: Stock, k: string, q: int, logs: seq<LogLine>, now: string)
    requires !Has(s, k) && q > 0
    ensures !Has(RemoveItem(AddItem(s, StrArg(k), IntArg(q), logs, now).stock, k, q), k)
  {
    AddThenRemoveAbsent(s, k, q, logs, now);
  }

  /** An item that `remove_item` deleted goes to the end of the store's
      order when it is added again. */
  lemma ReAddMovesToEnd(s: Stock, k: string, q: int, n: int, logs: seq<LogLine>, now: string)
    requires Has(s, k) && GetQty(s, k) - q <= 0
    ensures var r := AddItem(RemoveItem(s, k, q), StrArg(k), IntArg(n), logs, now).stock;
      && Items(r) == Items(RemoveItem(s, k, q)) + [k]
      && forall x :: x != k && Has(s, x) ==> Before(r, x, k)
  {
    var d := RemoveItem(s, k, q);
    assert !Has(d, k);
    var r := AddItem(d, StrArg(k), IntArg(n), logs, now).stock;
    assert Items(r) == Items(d) + [k];
    assert r[|r| - 1].item == Items(r)[|r| - 1];
    LastComesAfter(r, k);
  }

  /** The last item comes after every other item. */
  lemma LastComesAfter(r: Stock, k: string)
    requires |r| > 0 && r[|r| - 1].item == k
    ensures forall x :: x != k && Has(r, x) ==> Before(r, x, k)
  {
  }

  /** The total of `qs`. */
  function Sum(qs: seq<int>): int {
    if |qs| == 0 then 0 else qs[0] + Sum(qs[1..])
  }

  /** Successive calls `add_item(k, q)` for each `q` in `qs`. */
  function AddAll(s: Stock, k: string, qs: seq<int>, now: string): Stock
    decreases |qs|
  {
    if |qs| == 0 then s
    else AddAll(AddItem(s, StrArg(k), IntArg(qs[0]), [], now).stock, k, qs[1..], now)
  }

  /** Successive adds to one item sum up, and leave every other item as it
      was. */
  lemma {:induction false} AddAllSums(s: Stock, k: string, qs: seq<int>, now: string)
    ensures GetQty(AddAll(s, k, qs, now), k) == GetQty(s, k) + Sum(qs)
    ensures |qs| > 0 ==> Has(AddAll(s, k, qs, now), k)
    ensures forall x :: x != k ==>
      Has(AddAll(s, k, qs, now), x) == Has(s, x) &&
      GetQty(AddAll(s, k, qs, now), x) == GetQty(s, x)
    decreases |qs|
  {
    if |qs| > 0 {
      var s' := AddItem(s, StrArg(k), IntArg(qs[0]), [], now).stock;
      AddAllSums(s', k, qs[1..], now);
      if |qs| > 1 {
        assert Has(AddAll(s', k, qs[1..], now), k);
      } else {
        assert AddAll(s', k, qs[1..], now) == s';
      }
    }
  }

  /** Every stored quantity is positive, so zero stock shows as an absent
      item rather than an entry at 0 or below. */
  predicate AllPositive(s: Stock) {
    forall i :: 0 <= i < |s| ==> s[i].qty > 0
  }

  /** `remove_item` keeps every stored quantity positive. */
  lemma RemoveKeepsPositive(s: Stock, k: string, q: int)
    requires AllPositive(s)
    ensures AllPositive(RemoveItem(s, k, q))
  {
    var r := RemoveItem(s, k, q);
    forall i | 0 <= i < |r|
      ensures r[i].qty > 0
    {
      var x := r[i].item;
      assert Has(r, x);
      if x != k {
        var j := IndexOf(s, x);
        assert s[j].qty == GetQty(s, x) == GetQty(r, x);
      }
    }
  }

  /** `add_item` with a positive amount keeps every stored quantity positive. */
  lemma AddPositiveKeepsPositive(s: Stock, item: Arg, qty: Arg, logs: seq<LogLine>, now: string)
    requires AllPositive(s)
    requires IsNumber(qty) && Amount(qty) > 0
    ensures AllPositive(AddItem(s, item, qty, logs, now).stock)
  {
    var r := AddItem(s, item, qty, logs, now).stock;
    forall i | 0 <= i < |r|
      ensures r[i].qty > 0
    {
      var x := r[i].item;
      assert Has(r, x);
      if Has(s, x) {
        var j := IndexOf(s, x);
        assert s[j].qty == GetQty(s, x);
      }
    }
  }

  /** ... but `add_item` with a negative amount does not: adding -2 of an
      absent item stores -2. */
  lemma AddNegativeStoresNegative(now: string)
    ensures var r := AddItem([], StrArg("banana"), IntArg(-2), [], now).stock;
      Has(r, "banana") && GetQty(r, "banana") == -2 && !AllPositive(r)
  {
    var r := AddItem([], StrArg("banana"), IntArg(-2), [], now).stock;
    assert r == [Entry("banana", -2)];
  }

  /** With every quantity positive, no item is below threshold 0. */
  lemma NoLowItemsBelowZero(s: Stock)
    requires AllPositive(s)
    ensures CheckLowItems(s, 0) == []
  {
  }

  /** Lists with the same members are both empty or both not. */
  lemma SameMembersBothEmpty(a: seq<string>, b: seq<string>)
    requires forall x :: x in a <==> x in b
    ensures a == [] <==> b == []
  {
    if a != [] {
      assert a[0] in b;
    }
    if b != [] {
      assert b[0] in a;
    }
  }

  /** Two non-empty lists in strict store order with the same members
      start with the same item. */
  lemma OrderedHeadsEqual(s: Stock, a: seq<string>, b: seq<string>)
    requires InStoreOrder(s, a) && InStoreOrder(s, b)
    requires forall x :: x in a <==> x in b
    requires a != [] && b != []
    ensures a[0] == b[0]
  {
    assert a[0] in b;
    assert b[0] in a;
    var i :| 0 <= i < |a| && a[i] == b[0];
    var j :| 0 <= j < |b| && b[j] == a[0];
    if i > 0 || j > 0 {
      assert false;
    }
  }

  /** An item after the head of a list in strict store order is not the head. */
  lemma InTailNotHead(s: Stock, a: seq<string>, x: string)
    requires InStoreOrder(s, a) && a != []
    ensures x in a[1..] <==> x in a && x != a[0]
  {
    if x in a[1..] {
      var p :| 1 <= p < |a| && a[p] == x;
      assert Before(s, a[0], a[p]);
    }
    if x in a && x != a[0] {
      var q :| 0 <= q < |a| && a[q] == x;
      assert a[1..][q - 1] == x;
    }
  }

  /** Two lists in strict store order with the same members are equal. */
  lemma {:induction false} OrderedListsEqual(s: Stock, a: seq<string>, b: seq<string>)
    requires InStoreOrder(s, a) && InStoreOrder(s, b)
    requires forall x :: x in a <==> x in b
    ensures a == b
    decreases |a|
  {
    SameMembersBothEmpty(a, b);
    if a != [] {
      OrderedHeadsEqual(s, a, b);
      forall x
        ensures x in a[1..] <==> x in b[1..]
      {
        InTailNotHead(s, a, x);
        InTailNotHead(s, b, x);
      }
      OrderedListsEqual(s, a[1..], b[1..]);
      assert a == [a[0]] + a[1..] && b == [b[0]] + b[1..];
    }
  }

  /** The contract of `check_low_items` determines its result: any list of
      exactly the low items, in strict store order, is its result. */
  lemma LowItemsDetermined(s: Stock, threshold: int, r: seq<string>)
    requires forall x :: x in r <==> Has(s, x) && GetQty(s, x) < threshold
    requires InStoreOrder(s, r)
    ensures r == CheckLowItems(s, threshold)
  {
    OrderedListsEqual(s, r, CheckLowItems(s, threshold));
  }

  /** The driver's run: add 10 apples, add -2 bananas, an add with invalid
      argument types, remove 3 apples, remove an absent orange. Then apple
      stock is 7, banana is stored at -2, and with the default threshold 5
      the only low item is banana. */
  lemma DriverRun(now: string)
    ensures
      var s1 := AddItem([], StrArg("apple"), IntArg(10), [], now).stock;
      var s2 := AddItem(s1, StrArg("banana"), IntArg(-2), [], now).stock;
      var s3 := AddItem(s2, IntArg(123), StrArg("ten"), [], now).stock;
      var s4 := RemoveItem(s3, "apple", 3);
      var s5 := RemoveItem(s4, "orange", 1);
      && GetQty(s5, "apple") == 7
      && Has(s5, "banana") && GetQty(s5, "banana") == -2
      && CheckLowItems(s5, 5) == ["banana"]
  {
    DriverAddApple(now);
    DriverAddBanana(now);
    DriverRemoves();
    var s4 := [Entry("apple", 7), Entry("banana", -2)];
    assert GetQty(s4, "apple") == 7 && GetQty(s4, "banana") == -2;
    LowItemsDetermined(s4, 5, ["banana"]);
  }

  /** The driver's first add stores 10 apples. */
  lemma DriverAddApple(now: string)
    ensures AddItem([], StrArg("apple"), IntArg(10), [], now).stock == [Entry("apple", 10)]
  {
    AddIsPut([], "apple", 10, [], now);
  }

  /** The driver's second add appends banana at -2. */
  lemma DriverAddBanana(now: string)
    ensures AddItem([Entry("apple", 10)], StrArg("banana"), IntArg(-2), [], now).stock
      == [Entry("apple", 10), Entry("banana", -2)]
  {
    var s1 := [Entry("apple", 10)];
    assert s1[0].item != "banana";
    assert IndexOf(s1, "banana") == -1;
    AddIsPut(s1, "banana", -2, [], now);
  }

  /** The driver's two removes: 3 apples leave 7, the absent orange is a
      no-op. */
  lemma DriverRemoves()
    ensures RemoveItem([Entry("apple", 10), Entry("banana", -2)], "apple", 3)
      == [Entry("apple", 7), Entry("banana", -2)]
    ensures RemoveItem([Entry("apple", 7), Entry("banana", -2)], "orange", 1)
      == [Entry("apple", 7), Entry("banana", -2)]
  {
    var s2 := [Entry("apple", 10), Entry("banana", -2)];
    assert IndexOf(s2, "apple") == 0;
    RemovePresent(s2, "apple", 3);
    var s4 := [Entry("apple", 7), Entry("banana", -2)];
    assert s4[0].item != "orange" && s4[1].item != "orange";
    assert IndexOf(s4, "orange") == -1;
  }
}
