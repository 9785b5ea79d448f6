/** The in-memory inventory store: the module-level dict `stock_data` that maps
    an item name to its quantity, and the operations `add_item`, `remove_item`,
    `get_qty` and `check_low_items` on it.

    The dict is a value here: every operation takes the store and returns the
    new one. A Python dict remembers insertion order, and `check_low_items`
    makes that order observable, so the store is a sequence of entries with
    unique item names, kept in insertion order:
      - assigning to an existing key keeps its position;
      - assigning to a new key appends it;
      - deleting a key removes it, so a later re-add appends it again. */
module Inventory {

  /** One dict entry: an item name and its quantity. */
  datatype Entry = Entry(item: string, qty: int)

  /** No item name occurs twice: the dict's key uniqueness. */
  predicate UniqueItems(s: seq<Entry>) {
    forall i, j :: 0 <= i < j < |s| ==> s[i].item != s[j].item
  }

  /** The store, in insertion order. Quantities may be zero or negative:
      `add_item` never removes an entry. */
  type Stock = s: seq<Entry> | UniqueItems(s) witness []

  /** `k in stock_data` */
  predicate Has(s: seq<Entry>, k: string) {
    exists i :: 0 <= i < |s| && s[i].item == k
  }

  /** Position of the first entry for `k` at or after index `from`, or -1
      when there is none. */
  function IndexFrom(s: seq<Entry>, k: string, from: nat): (r: int)
    requires from <= |s|
    ensures r == -1 || from <= r < |s|
    ensures r >= 0 ==> s[r].item == k
    ensures r >= 0 ==> forall i :: from <= i < r ==> s[i].item != k
    ensures r < 0 ==> forall i :: from <= i < |s| ==> s[i].item != k
    decreases |s| - from
  {
    if from == |s| then -1
    else if s[from].item == k then from
    else IndexFrom(s, k, from + 1)
  }

  /** Position of `k` in the store, or -1 when it is absent. */
  function IndexOf(s: seq<Entry>, k: string): (r: int)
    ensures -1 <= r < |s|
    ensures r >= 0 <==> Has(s, k)
    ensures r >= 0 ==> s[r].item == k
    ensures r >= 0 ==> forall i :: 0 <= i < r ==> s[i].item != k
    ensures UniqueItems(s) ==> forall i :: 0 <= i < |s| && s[i].item == k ==> r == i
  {
    IndexFrom(s, k, 0)
  }

  /** The item names, in store order. */
  function Items(s: seq<Entry>): (r: seq<string>)
    ensures |r| == |s|
    ensures forall i :: 0 <= i < |s| ==> r[i] == s[i].item
  {
    seq(|s|, i requires 0 <= i < |s| => s[i].item)
  }

  /** Item `x` comes before item `y` in the store's iteration order. */
  predicate Before(s: Stock, x: string, y: string) {
    Has(s, x) && Has(s, y) && IndexOf(s, x) < IndexOf(s, y)
  }

  /** Items listed in strict store order; hence each at most once. */
  predicate InStoreOrder(s: Stock, r: seq<string>) {
    forall i, j :: 0 <= i < j < |r| ==> Before(s, r[i], r[j])
  }

  /** `get_qty(item)`, that is `stock_data.get(item, 0)`: the quantity stored
      for `k`, or 0 when `k` is absent. A pure read. */
  function GetQty(s: Stock, k: string): (r: int)
    ensures !Has(s, k) ==> r == 0
    ensures forall i :: 0 <= i < |s| && s[i].item == k ==> r == s[i].qty
  {
    var i := IndexOf(s, k);
    if i < 0 then 0 else s[i].qty
  }

  /** `stock_data[k] = v`: overwrites in place, or appends a new key. */
  function Put(s: Stock, k: string, v: int): (r: Stock)
    ensures Has(r, k) && GetQty(r, k) == v
    ensures forall x :: x != k ==> Has(r, x) == Has(s, x) && GetQty(r, x) == GetQty(s, x)
    ensures Has(s, k) ==> Items(r) == Items(s)
    ensures !Has(s, k) ==> Items(r) == Items(s) + [k]
  {
    var i := IndexOf(s, k);
    if i >= 0 then
      var r := s[i := Entry(k, v)];
      assert Items(r) == Items(s);
      r
    else
      var r := s + [Entry(k, v)];
      assert r[|s|] == Entry(k, v);
      assert forall j :: 0 <= j < |s| ==> r[j] == s[j];
      assert Items(r) == Items(s) + [k];
      r
  }

  /** Entry `j` of the store with index `i` cut out is entry `j` of the
      store when `j < i`, and entry `j + 1` otherwise. */
  lemma CutAt(s: seq<Entry>, i: int, j: int)
    requires 0 <= i < |s| && 0 <= j < |s| - 1
    ensures (s[..i] + s[i + 1..])[j] == if j < i then s[j] else s[j + 1]
  {
  }

  /** Cutting an entry out keeps the item names unique. */
  lemma CutUnique(s: Stock, i: int)
    requires 0 <= i < |s|
    ensures UniqueItems(s[..i] + s[i + 1..])
  {
    var r := s[..i] + s[i + 1..];
    forall a, b | 0 <= a < b < |r|
      ensures r[a].item != r[b].item
    {
      CutAt(s, i, a);
      CutAt(s, i, b);
    }
  }

  /** Where item `x` sits once index `i` is cut out of the store. */
  lemma CutPosition(s: Stock, i: int, x: string)
    requires 0 <= i < |s|
    ensures Has(s[..i] + s[i + 1..], x) == (Has(s, x) && x != s[i].item)
    ensures Has(s, x) && x != s[i].item ==>
      IndexOf(s[..i] + s[i + 1..], x) ==
        (if IndexOf(s, x) < i then IndexOf(s, x) else IndexOf(s, x) - 1)
  {
    var r := s[..i] + s[i + 1..];
    CutUnique(s, i);
    if Has(r, x) {
      var j :| 0 <= j < |r| && r[j].item == x;
      CutAt(s, i, j);
      var p := if j < i then j else j + 1;
      assert s[p].item == x;
    }
    if Has(s, x) && x != s[i].item {
      var p := IndexOf(s, x);
      var q := if p < i then p else p - 1;
      CutAt(s, i, q);
      assert r[q].item == x;
    }
  }

  /** The store with index `i` cut out is again a store, and the remaining
      items keep their relative order. */
  lemma CutPositions(s: Stock, i: int)
    requires 0 <= i < |s|
    ensures UniqueItems(s[..i] + s[i + 1..])
    ensures forall x :: Has(s[..i] + s[i + 1..], x) == (Has(s, x) && x != s[i].item)
    ensures forall x :: Has(s, x) && x != s[i].item ==>
      IndexOf(s[..i] + s[i + 1..], x) ==
        (if IndexOf(s, x) < i then IndexOf(s, x) else IndexOf(s, x) - 1)
  {
    var r := s[..i] + s[i + 1..];
    CutUnique(s, i);
    forall x
      ensures Has(r, x) == (Has(s, x) && x != s[i].item)
      ensures Has(s, x) && x != s[i].item ==>
        IndexOf(r, x) == (if IndexOf(s, x) < i then IndexOf(s, x) else IndexOf(s, x) - 1)
    {
      CutPosition(s, i, x);
    }
  }

  /** `del stock_data[k]` on a present key: removes the entry and keeps
      every other entry, and the relative order of the others. */
  function Delete(s: Stock, k: string): (r: Stock)
    requires Has(s, k)
    ensures !Has(r, k)
    ensures forall x :: x != k ==> Has(r, x) == Has(s, x) && GetQty(r, x) == GetQty(s, x)
    ensures forall x, y :: x != k && y != k ==> (Before(r, x, y) <==> Before(s, x, y))
  {
    var i := IndexOf(s, k);
    CutPositions(s, i);
    s[..i] + s[i + 1..]
  }

  /** An argument as Python sees it at the `isinstance` check of `add_item`.
      `bool` is a subclass of `int`, so `BoolArg` passes as a number. A float
      is represented by its value as a whole number. */
  datatype Arg =
    | StrArg(text: string)
    | IntArg(n: int)
    | BoolArg(flag: bool)
    | FloatArg(whole: int)
    | OtherArg

  /** `isinstance(qty, (int, float))` */
  predicate IsNumber(a: Arg) {
    a.IntArg? || a.BoolArg? || a.FloatArg?
  }

  /** The amount a numeric argument adds; `True` adds 1 and `False` adds 0. */
  function Amount(a: Arg): int
    requires IsNumber(a)
  {
    if a.IntArg? then a.n
    else if a.BoolArg? then (if a.flag then 1 else 0)
    else a.whole
  }

  /** The validation of `add_item`: the item is a string and the quantity an
      int, bool or float. */
  predicate ValidAdd(item: Arg, qty: Arg) {
    item.StrArg? && IsNumber(qty)
  }

  /** One line `add_item` appends to its `logs` list. */
  datatype LogLine = Added(time: string, qty: Arg, item: string)

  /** The store and the caller's log list after `add_item`. */
  datatype AddResult = AddResult(stock: Stock, logs: seq<LogLine>)

  /** `add_item(item, qty, logs)`: on valid arguments the item's quantity
      grows by `qty` (a missing item counts as 0) and one log line is
      appended; on invalid ones nothing changes. There is no floor: the
      result may be zero or negative and the entry stays. `now` stands for
      `datetime.now()`. */
  function AddItem(s: Stock, item: Arg, qty: Arg, logs: seq<LogLine>, now: string): (r: AddResult)
    ensures !ValidAdd(item, qty) ==> r.stock == s && r.logs == logs
    ensures ValidAdd(item, qty) ==>
      && Has(r.stock, item.text)
      && GetQty(r.stock, item.text) == GetQty(s, item.text) + Amount(qty)
      && (forall x :: x != item.text ==>
            Has(r.stock, x) == Has(s, x) && GetQty(r.stock, x) == GetQty(s, x))
      && Items(r.stock) == (if Has(s, item.text) then Items(s) else Items(s) + [item.text])
      && |r.logs| == |logs| + 1
      && r.logs[..|logs|] == logs
      && r.logs[|logs|] == Added(now, qty, item.text)
  {
    if !ValidAdd(item, qty) then AddResult(s, logs)
    else
      var k := item.text;
      var logs' := logs + [Added(now, qty, k)];
      assert logs'[..|logs|] == logs;
      AddResult(Put(s, k, GetQty(s, k) + Amount(qty)), logs')
  }

  /** `remove_item(item, qty)`: an absent item is a no-op; otherwise the
      quantity drops by `qty`, and the entry is deleted when the result is
      zero or below. */
  function RemoveItem(s: Stock, k: string, q: int): (r: Stock)
    ensures !Has(s, k) ==> r == s
    ensures Has(s, k) && GetQty(s, k) - q <= 0 ==> !Has(r, k)
    ensures Has(s, k) && GetQty(s, k) - q > 0 ==>
      Has(r, k) && GetQty(r, k) == GetQty(s, k) - q && Items(r) == Items(s)
    ensures forall x :: x != k ==> Has(r, x) == Has(s, x) && GetQty(r, x) == GetQty(s, x)
    ensures forall x, y :: x != k && y != k ==> (Before(r, x, y) <==> Before(s, x, y))
  {
    if !Has(s, k) then s
    else
      var left := GetQty(s, k) - q;
      var t := Put(s, k, left);
      assert forall x, y :: Before(t, x, y) <==> Before(s, x, y) by {
        assert forall i :: 0 <= i < |t| ==> t[i].item == Items(t)[i] == Items(s)[i] == s[i].item;
      }
      if left <= 0 then Delete(t, k) else t
  }

  /** `check_low_items(threshold)`: the items whose quantity is strictly
      below `threshold`, each once, in store order. */
  function CheckLowItems(s: Stock, threshold: int): (r: seq<string>)
    ensures forall x :: x in r <==> Has(s, x) && GetQty(s, x) < threshold
    ensures InStoreOrder(s, r)
    ensures |s| == 0 ==> r == []
  {
    if |s| == 0 then []
    else
      var rest := CheckLowItems(s[1..], threshold);
      TailFacts(s);
      (if s[0].qty < threshold then [s[0].item] else []) + rest
  }

  /** How the store relates to its tail: the head item is absent from the
      tail, comes before every other item, and the others keep their
      quantities and relative order. */
  lemma TailFacts(s: Stock)
    requires |s| > 0
    ensures !Has(s[1..], s[0].item)
    ensures GetQty(s, s[0].item) == s[0].qty
    ensures forall x :: x != s[0].item ==>
      Has(s[1..], x) == Has(s, x) && GetQty(s[1..], x) == GetQty(s, x)
    ensures forall y :: Has(s[1..], y) ==> Before(s, s[0].item, y)
    ensures forall x, y :: x != s[0].item && y != s[0].item ==>
      (Before(s[1..], x, y) <==> Before(s, x, y))
  {
    assert forall i :: 0 < i < |s| ==> s[i] == s[1..][i - 1];
    assert forall x :: x != s[0].item ==> IndexOf(s, x) == (if Has(s[1..], x) then IndexOf(s[1..], x) + 1 else -1);
  }
}
