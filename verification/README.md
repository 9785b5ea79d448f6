# Inventory store model

A Dafny model of the in-memory inventory store of `inventory_system.py`. The
store is the module-level dict `stock_data`, which maps an item name to a
quantity. Four operations work on it: `add_item`, `remove_item`, `get_qty`
and `check_low_items`.

The module-level dict becomes an explicit value, `Inventory.Stock`. Every
operation takes a store and returns the new one. A Python dict keeps keys in
insertion order, and `check_low_items` reports items in that order. So the
store is a sequence of `Entry(item, qty)` with unique item names:

- assigning to an existing key keeps its position (`Inventory.Put`);
- assigning to a new key appends it;
- deleting a key removes it (`Inventory.Delete`), so a later add appends it
  again at the end.

Quantities are unbounded integers. `add_item` checks its arguments with
`isinstance`. The datatype `Inventory.Arg` models that check with one
constructor per case: string, int, bool, float and any other value. `bool` is
a subclass of `int` in Python, so a `BoolArg` quantity passes the check and
adds 1 or 0. The timestamp that `add_item` writes into its log list becomes
the parameter `now`.

`add_item` has no floor: a negative quantity can leave a zero or negative
entry in the store. The driver does exactly this with
`add_item("banana", -2)` (inventory_system.py:104). `remove_item`, by
contrast, deletes an entry whose quantity drops to zero or below
(inventory_system.py:48-49). So the only store invariant is that keys are
unique, not that every quantity is positive, and the two operations treat
non-positive results differently:

- `RemoveKeepsPositive` proves that `remove_item` keeps every quantity
  positive.
- `AddNegativeStoresNegative` and `DriverRun` show that `add_item` can store
  a negative quantity.

Reads are pure. `get_qty` and `check_low_items` return a value and never
produce a new store, so "does not change the store" holds by construction.

## Model

| member | source | states |
|---|---|---|
| `Inventory.GetQty` | inventory_system.py:59-61 | the result is the quantity of the one entry that holds the item, and 0 when no entry holds it |
| `Inventory.Put` | inventory_system.py:35 | after `stock_data[k] = v` the item is present with quantity `v`; every other item keeps its presence and quantity; an existing key keeps its position, and a new key is appended at the end |
| `Inventory.Delete` | inventory_system.py:49 | `del stock_data[k]` on a present key (line 47 has just written it): afterwards the item is absent, and every other item keeps its presence, its quantity and its order relative to the rest |
| `Inventory.AddItem` | inventory_system.py:25-37 | bad argument types leave the store and the log list unchanged; valid arguments raise the item's quantity by `qty` (a missing item counts as 0) and keep the item present even at zero or below; other items are untouched; the item keeps its position or is appended; exactly one log line is appended |
| `Inventory.RemoveItem` | inventory_system.py:40-52 | an absent item leaves the store unchanged; if old minus `qty` is zero or below, the item is absent afterwards; otherwise its quantity is exactly old minus `qty` and the key order is unchanged; other items keep their presence, quantities and relative order |
| `Inventory.CheckLowItems` | inventory_system.py:95-97 | an item is in the result exactly when it is stored with a quantity strictly below the threshold; the result follows strict store order, so each item appears once; an empty store gives an empty result |
| `InventoryProperties.LowItemsDetermined` | inventory_system.py:95-97 | any list that holds exactly the low items in strict store order equals the result of `check_low_items`, so its contract determines the result |
| `InventoryProperties.AddThenRemoveAbsent` | inventory_system.py:35-49 | adding `q` to an absent item and then removing `q` gives back the original store, for any `q` |
| `InventoryProperties.AddThenRemoveLeavesAbsent` | inventory_system.py:35-49 | adding a positive `q` to an absent item and then removing `q` leaves the item absent, not present with 0 |
| `InventoryProperties.AddThenRemovePositive` | inventory_system.py:35-52 | adding and then removing the same `q` on an item stored with a positive quantity gives back the original store, including the item's position |
| `InventoryProperties.AddThenRemoveNonPositive` | inventory_system.py:35-49 | adding and then removing the same `q` on an item stored at zero or below deletes the item, so the round trip does not restore the store |
| `InventoryProperties.ReAddMovesToEnd` | inventory_system.py:35-49 | an item that `remove_item` deleted is appended at the end when it is added again, after every other item |
| `InventoryProperties.AddAllSums` | inventory_system.py:35 | after a run of adds to one item, its quantity is the old quantity plus the sum of the added amounts; every other item is unchanged |
| `InventoryProperties.RemoveKeepsPositive` | inventory_system.py:47-52 | if every stored quantity is positive before `remove_item`, it still is afterwards |
| `InventoryProperties.AddPositiveKeepsPositive` | inventory_system.py:31-35 | if every stored quantity is positive and `add_item` adds a positive amount, every quantity is still positive afterwards |
| `InventoryProperties.AddNegativeStoresNegative` | inventory_system.py:35 | adding -2 of an absent item stores it with quantity -2, so not every quantity is positive afterwards |
| `InventoryProperties.NoLowItemsBelowZero` | inventory_system.py:95-97 | when every quantity is positive, `check_low_items(0)` is empty |
| `InventoryProperties.DriverRun` | inventory_system.py:101-110 | the driver's calls leave 7 apples and a banana stored at -2, and with threshold 5 the only low item is banana |

## Left out

- `load_data` and `save_data` (inventory_system.py:64-85) do file I/O through the `json` library, which cannot be verified here. The save-then-load round trip depends entirely on `json.dump` and `json.load`. On a decode error, `load_data` as written leaves the store as it was (inventory_system.py:74-75).
- `print_data` (inventory_system.py:88-92) only writes to the console.
- The logging setup and every `logging.*` call are observability side effects and are not modelled.
- `main` (inventory_system.py:101-117) is not modelled as an operation. `DriverRun` replays its store calls up to the report; the save, load and print calls are left out with those operations.
- Inventory.AddItem: a float quantity is modelled as `FloatArg` holding a whole number. Fractional quantities, float rounding, and the fact that a stored value becomes a float are not modelled.
- Inventory.AddItem: the default arguments `item="default"`, `qty=0` and `logs=None` are not modelled. A caller that passes no log list passes an empty one and ignores the returned list.
- Inventory.RemoveItem: `qty` is an integer. The catch-all handlers of `remove_item` (inventory_system.py:53-56) are not modelled, and neither is a non-numeric `qty`, where the subtraction raises and the handler swallows the error. With integer arithmetic on a present key those handlers cannot be reached.
- Inventory.CheckLowItems: the default `threshold=5` (inventory_system.py:95) is not modelled; callers pass the threshold, and `DriverRun` passes 5 where the driver relies on the default at line 110.
- Inventory.GetQty: `item` is a string. In Python any object may be passed: a non-string hashable item is never a key, so the result is 0, and an unhashable item makes `stock_data.get` raise `TypeError` to the caller (inventory_system.py:61). Neither case is modelled.
- Inventory.RemoveItem: `item` is a string. In Python a non-string hashable item is never a key, so the call is a no-op, and an unhashable item raises `TypeError` in the membership test, which the handler at inventory_system.py:55-56 swallows, again leaving the store unchanged. Neither case is modelled.
