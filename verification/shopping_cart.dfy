/**
 * A catalog with stock and a shopping cart (q41-shopping-cart, Solution.java:
 * class ShoppingCart).
 *
 * The catalog is read from "itemId,pricePerUnit,unitsAvailable" rows.
 * Adding to the cart reserves stock at once; checking out charges the cart
 * and empties it without returning the stock.
 */
module ShoppingCart {
  import opened Common
  import opened Strings
  import opened Ordering

  datatype Item = Item(price: int, units: int)

  datatype Cart = Cart(catalog: map<string, Item>, items: map<string, int>)

  /** What one catalog row contributes: nothing, a number `Integer.parseInt` rejects, or an item. */
  datatype Row = Skip | Malformed(text: string) | Entry(id: string, item: Item)

  datatype CartError = BadNumber(row: string)

  datatype AddResult = Unavailable | OutOfStock | Success

  function Message(r: AddResult): string {
    match r
    case Unavailable => "UNAVAILABLE"
    case OutOfStock => "OUT OF STOCK"
    case Success => "SUCCESS"
  }

  // ---------------------------------------------------------------------------
  // Reading the catalog
  // ---------------------------------------------------------------------------

  /** One row: trimmed, blank rows and rows without exactly three fields skipped, the two numbers parsed. */
  function ParseRow(row: string): (r: Row)
    ensures r.Entry? ==> ',' !in r.id && IsInt32(r.item.price) && IsInt32(r.item.units)
    ensures IsTrimBlank(row) ==> r == Skip
  {
    var t := Trim(row);
    if t == [] then Skip
    else
      var parts := DropTrailingEmpty(Split(t, ','));
      if |parts| != 3 then Skip
      else
        var price := ParseInt(parts[1]);
        var units := ParseInt(parts[2]);
        if price.None? || units.None? then Malformed(row)
        else Entry(parts[0], Item(price.value, units.value))
  }

  /** The row that describes an item. */
  function FormatRow(id: string, item: Item): string {
    id + "," + IntToString(item.price) + "," + IntToString(item.units)
  }

  /** A trimmed row with three fields, the last non-empty, and two numbers that parse is an item row. */
  lemma ThreeFieldRow(row: string, id: string, a: string, b: string, item: Item)
    requires row != [] && IsTrimmed(row)
    requires Split(row, ',') == [id, a, b] && b != []
    requires ParseInt(a) == Some(item.price) && ParseInt(b) == Some(item.units)
    ensures ParseRow(row) == Entry(id, item)
  {
    TrimOfTrimmed(row);
    var parts := [id, a, b];
    assert parts[|parts| - 1] != [];
  }

  /** A row written from an id without commas or leading blanks and two 32-bit numbers reads back as that item. */
  lemma ParseFormat(id: string, item: Item)
    requires ',' !in id && (id == [] || !IsTrimChar(id[0]))
    requires IsInt32(item.price) && IsInt32(item.units)
    ensures ParseRow(FormatRow(id, item)) == Entry(id, item)
  {
    var a := IntToString(item.price);
    var b := IntToString(item.units);
    var row := FormatRow(id, item);
    PrintedNumber(item.price);
    PrintedNumber(item.units);
    assert row[|row| - 1] == b[|b| - 1];
    assert row[0] == if id == [] then ',' else id[0];
    SplitThree(id, a, b);
    IntRoundTrip(item.price);
    IntRoundTrip(item.units);
    ThreeFieldRow(row, id, a, b, item);
  }

  /** Every catalog row read on its own. */
  function ReadRows(rows: seq<string>): (r: seq<Row>)
    ensures |r| == |rows| && forall i :: 0 <= i < |rows| ==> r[i] == ParseRow(rows[i])
  {
    seq(|rows|, i requires 0 <= i < |rows| => ParseRow(rows[i]))
  }

  /** Row `r` is an item row for `id`. */
  predicate IsEntryFor(r: Row, id: string) {
    r.Entry? && r.id == id
  }

  /** The item the last row for `id` describes, if any row does. */
  function LastEntry(rs: seq<Row>, id: string): Option<Item>
    decreases |rs|
  {
    if rs == [] then None
    else if IsEntryFor(rs[|rs| - 1], id) then Some(rs[|rs| - 1].item)
    else LastEntry(rs[..|rs| - 1], id)
  }

  /** Row `i` is the last item row for `id`. */
  predicate IsLastFor(rs: seq<Row>, i: int, id: string) {
    0 <= i < |rs| && IsEntryFor(rs[i], id) && forall j :: i < j < |rs| ==> !IsEntryFor(rs[j], id)
  }

  /** The reference reading of the last row for `id`: it is an item row for `id` and no later row is. */
  lemma {:induction false} LastEntryIsLastRow(rs: seq<Row>, id: string)
    ensures LastEntry(rs, id).None? <==> forall i :: 0 <= i < |rs| ==> !IsEntryFor(rs[i], id)
    ensures LastEntry(rs, id).Some? ==> exists i :: IsLastFor(rs, i, id) && rs[i].item == LastEntry(rs, id).value
    decreases |rs|
  {
    if rs != [] {
      var n := |rs| - 1;
      var init := rs[..n];
      assert forall i :: 0 <= i < n ==> rs[i] == init[i];
      LastEntryIsLastRow(init, id);
      if IsEntryFor(rs[n], id) {
        assert IsLastFor(rs, n, id);
      } else if LastEntry(init, id).Some? {
        var i :| IsLastFor(init, i, id) && init[i].item == LastEntry(init, id).value;
        assert IsLastFor(rs, i, id);
      }
    }
  }

  /** The item map's entry for `id`, as an option. */
  function Lookup(m: map<string, Item>, id: string): Option<Item> {
    if id in m then Some(m[id]) else None
  }

  /** The rows in order: a later row for an id replaces an earlier one; the first row with a bad number aborts. */
  function Collect(rs: seq<Row>): Result<map<string, Item>, CartError>
    decreases |rs|
  {
    if rs == [] then Ok(map[])
    else
      var n := |rs| - 1;
      match Collect(rs[..n])
      case Err(e) => Err(e)
      case Ok(cat) =>
        match rs[n]
        case Skip => Ok(cat)
        case Malformed(text) => Err(BadNumber(text))
        case Entry(id, item) => Ok(cat[id := item])
  }

  /** Collecting fails exactly when some row is malformed, and then names the first such row. */
  lemma {:induction false} CollectFails(rs: seq<Row>)
    ensures Collect(rs).Err? <==> exists i :: 0 <= i < |rs| && rs[i].Malformed?
    ensures Collect(rs).Err? ==>
              exists i :: 0 <= i < |rs| && rs[i].Malformed? && Collect(rs).error == BadNumber(rs[i].text) &&
                forall j :: 0 <= j < i ==> !rs[j].Malformed?
    decreases |rs|
  {
    if rs != [] {
      var n := |rs| - 1;
      var init := rs[..n];
      assert forall i :: 0 <= i < n ==> rs[i] == init[i];
      CollectFails(init);
    }
  }

  /** A successful collection holds, for every id, exactly the item of the last row for it. */
  lemma {:induction false} CollectKeepsLast(rs: seq<Row>, id: string)
    requires Collect(rs).Ok?
    ensures Lookup(Collect(rs).value, id) == LastEntry(rs, id)
    decreases |rs|
  {
    if rs != [] {
      CollectKeepsLast(rs[..|rs| - 1], id);
    }
  }

  /** The catalog rows read and collected. */
  function Parse(rows: seq<string>): Result<map<string, Item>, CartError> {
    Collect(ReadRows(rows))
  }

  /** `new ShoppingCart(items)`: the parsed catalog and an empty cart. */
  function Create(rows: seq<string>): (r: Result<Cart, CartError>)
    ensures r.Ok? <==> Parse(rows).Ok?
    ensures r.Ok? ==> r.value == Cart(Parse(rows).value, map[])
  {
    match Parse(rows)
    case Err(e) => Err(e)
    case Ok(cat) => Ok(Cart(cat, map[]))
  }

  /** The constructor fails exactly on a row with a bad number; otherwise each id's item is the one its last row gives, and the cart is empty. */
  lemma CreateReadsCatalog(rows: seq<string>, id: string)
    ensures Create(rows).Err? <==> exists i :: 0 <= i < |rows| && ReadRows(rows)[i].Malformed?
    ensures Create(rows).Ok? ==>
              Create(rows).value.items == map[] && Lookup(Create(rows).value.catalog, id) == LastEntry(ReadRows(rows), id)
  {
    var rs := ReadRows(rows);
    CollectFails(rs);
    if Collect(rs).Ok? {
      CollectKeepsLast(rs, id);
    }
  }

  // ---------------------------------------------------------------------------
  // addItem
  // ---------------------------------------------------------------------------

  /** Units of `id` in the cart (0 when absent, like `getOrDefault`). */
  function InCart(c: Cart, id: string): int {
    if id in c.items then c.items[id] else 0
  }

  /** `addItem`: unknown ids and too little stock change nothing; otherwise the units move from stock into the cart. */
  function AddItem(c: Cart, id: string, count: int): (r: (Cart, AddResult))
    ensures id !in c.catalog ==> r == (c, Unavailable)
    ensures id in c.catalog && c.catalog[id].units < count ==> r == (c, OutOfStock)
    ensures r.1 == Success <==> id in c.catalog && c.catalog[id].units >= count
    ensures r.1 == Success ==>
              && r.0.catalog == c.catalog[id := c.catalog[id].(units := c.catalog[id].units - count)]
              && r.0.items == c.items[id := InCart(c, id) + count]
  {
    if id !in c.catalog then (c, Unavailable)
    else if c.catalog[id].units < count then (c, OutOfStock)
    else
      var item := c.catalog[id];
      (Cart(c.catalog[id := item.(units := item.units - count)], c.items[id := InCart(c, id) + count]), Success)
  }

  /** Stock left plus units in the cart. */
  function Held(c: Cart, id: string): int {
    (if id in c.catalog then c.catalog[id].units else 0) + InCart(c, id)
  }

  /** Adding moves units between stock and cart: no id's stock-plus-cart total changes, and prices never change. */
  lemma AddItemConserves(c: Cart, id: string, count: int, other: string)
    ensures Held(AddItem(c, id, count).0, other) == Held(c, other)
    ensures other in c.catalog ==>
              other in AddItem(c, id, count).0.catalog && AddItem(c, id, count).0.catalog[other].price == c.catalog[other].price
  {
  }

  // ---------------------------------------------------------------------------
  // viewCart
  // ---------------------------------------------------------------------------

  /** One cart line: "itemId,count". */
  function Line(id: string, count: int): string {
    id + "," + IntToString(count)
  }

  /** `viewCart`: one line per item in the cart, ids in increasing order. */
  function ViewCart(c: Cart): (r: seq<string>)
    ensures |r| == |c.items|
  {
    var ids := SortedSet(c.items.Keys);
    assert |c.items.Keys| == |c.items|;
    seq(|ids|, i requires 0 <= i < |ids| => Line(ids[i], c.items[ids[i]]))
  }

  /** A cart line splits back into its id and its count. */
  lemma LineReadsBack(id: string, count: int)
    requires ',' !in id && IsInt32(count)
    ensures |Split(Line(id, count), ',')| == 2 && Split(Line(id, count), ',')[0] == id
    ensures ParseInt(Split(Line(id, count), ',')[1]) == Some(count)
  {
    PrintedNumber(count);
    SplitTwo(id, IntToString(count));
    IntRoundTrip(count);
  }

  /** The cart view lists every item once, ids strictly increasing, and each line reads back as its id and count. */
  lemma ViewCartReadsBack(c: Cart)
    requires forall id :: id in c.items ==> ',' !in id && IsInt32(c.items[id])
    ensures var r := ViewCart(c);
            var ids := SortedSet(c.items.Keys);
            && (forall id :: id in c.items <==> id in ids)
            && (forall i, j :: 0 <= i < j < |ids| ==> Less(ids[i], ids[j]))
            && (forall i :: 0 <= i < |r| ==>
                  |Split(r[i], ',')| == 2 && Split(r[i], ',')[0] == ids[i] &&
                  ParseInt(Split(r[i], ',')[1]) == Some(c.items[ids[i]]))
  {
    var r := ViewCart(c);
    var ids := SortedSet(c.items.Keys);
    forall i | 0 <= i < |r|
      ensures |Split(r[i], ',')| == 2 && Split(r[i], ',')[0] == ids[i] && ParseInt(Split(r[i], ',')[1]) == Some(c.items[ids[i]])
    {
      LineReadsBack(ids[i], c.items[ids[i]]);
    }
  }

  // ---------------------------------------------------------------------------
  // checkout
  // ---------------------------------------------------------------------------

  /** Java `int` arithmetic: the value reduced into the 32-bit range. */
  function Wrap32(n: int): (r: int)
    ensures IsInt32(r)
    ensures IsInt32(n) ==> r == n
    ensures (n - r) % 0x1_0000_0000 == 0
  {
    (n - IntMin) % 0x1_0000_0000 + IntMin
  }

  /** What one cart line costs (an id missing from the catalog costs nothing). */
  function Cost(c: Cart): string -> int {
    id => if id in c.catalog && id in c.items then c.catalog[id].price * c.items[id] else 0
  }

  /** The exact value of the cart: price times units, summed over its items. */
  ghost function Value(c: Cart): int {
    SetSum(c.items.Keys, Cost(c))
  }

  /** `checkout`: -1 for an empty cart; otherwise the cart's value in `int` arithmetic, and the cart is emptied while the stock stays reduced. */
  function Checkout(c: Cart): (r: (Cart, int))
    ensures c.items == map[] ==> r == (c, -1)
    ensures c.items != map[] ==> r.0 == c.(items := map[]) && r.1 == Wrap32(Value(c))
  {
    if c.items == map[] then (c, -1)
    else
      var ids := SortedSet(c.items.Keys);
      SortedSetDistinct(c.items.Keys);
      SeqSumIsSetSum(ids, Cost(c), c.items.Keys);
      (c.(items := map[]), Wrap32(SeqSum(ids, Cost(c))))
  }

  /** A successful add raises the cart's value by exactly price times count. */
  lemma AddItemValue(c: Cart, id: string, count: int)
    requires AddItem(c, id, count).1 == Success
    ensures Value(AddItem(c, id, count).0) == Value(c) + c.catalog[id].price * count
  {
    var r := AddItem(c, id, count).0;
    var keys := c.items.Keys;
    assert r.items.Keys == keys + {id};
    forall x | x in keys && x != id
      ensures Cost(c)(x) == Cost(r)(x)
    {
      assert (x in r.catalog <==> x in c.catalog) && r.items[x] == c.items[x];
    }
    SetSumBump(keys, Cost(c), Cost(r), id, c.catalog[id].price * count);
  }
}
