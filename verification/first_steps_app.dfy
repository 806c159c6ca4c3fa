/**
 A model of the product list owned by `FirstStepsApp`: the seeded items,
 the map that applies a quantity change to every item of a given name, and
 the user's clicks on the rows' stepper buttons, each taken as one
 synchronous step.
 */
module FirstStepsApp {
  import ItemCounter

  /** One product record of the list. */
  datatype Item = Item(name: string, quantity: int)

  /** No two items share a name. */
  predicate DistinctNames(items: seq<Item>)
  {
    forall i, j :: 0 <= i < j < |items| ==> items[i].name != items[j].name
  }

  /** The invariant the application keeps: names are distinct and no quantity is negative. */
  predicate Valid(items: seq<Item>)
  {
    && DistinctNames(items)
    && forall i :: 0 <= i < |items| ==> items[i].quantity >= 0
  }

  /** The names of the items, in list order. */
  function Names(items: seq<Item>): seq<string>
  {
    seq(|items|, i requires 0 <= i < |items| => items[i].name)
  }

  /** The seed list the component's state starts from. */
  function InitialItems(): (r: seq<Item>)
    ensures |r| == 3
    ensures Valid(r)
    ensures forall i :: 0 <= i < |r| ==> r[i].quantity == 1
    ensures Names(r) == ["Nintendo Switch", "Xbox Series X", "PlayStation 5"]
  {
    [ Item("Nintendo Switch", 1),
      Item("Xbox Series X", 1),
      Item("PlayStation 5", 1) ]
  }

  /** The callback body applied to a single record. */
  function ChangeIfNamed(item: Item, name: string, delta: int): Item
  {
    if item.name == name then item.(quantity := item.quantity + delta) else item
  }

  /**
   The list update: every record named `name` gets its quantity moved by
   `delta`, every other record is kept as it is, and the order is kept.
   */
  function HandleQuantityChange(items: seq<Item>, name: string, delta: int): (r: seq<Item>)
    ensures |r| == |items|
    ensures forall i :: 0 <= i < |items| ==> r[i].name == items[i].name
    ensures forall i :: 0 <= i < |items| && items[i].name != name ==> r[i] == items[i]
    ensures forall i :: 0 <= i < |items| && items[i].name == name ==>
              r[i].quantity == items[i].quantity + delta
    ensures (forall i :: 0 <= i < |items| ==> items[i].name != name) ==> r == items
  {
    if |items| == 0 then []
    else [ChangeIfNamed(items[0], name, delta)] + HandleQuantityChange(items[1..], name, delta)
  }

  /** The names, and hence name distinctness, survive every list update. */
  lemma NamesPreserved(items: seq<Item>, name: string, delta: int)
    ensures Names(HandleQuantityChange(items, name, delta)) == Names(items)
    ensures multiset(Names(HandleQuantityChange(items, name, delta))) == multiset(Names(items))
    ensures DistinctNames(items) ==> DistinctNames(HandleQuantityChange(items, name, delta))
  {
  }

  /** The props a row is rendered with. */
  function RowProps(item: Item): ItemCounter.Props
  {
    ItemCounter.Props(item.name, item.quantity)
  }

  /** A click on one stepper button of the row at position `row`. */
  datatype Gesture = Gesture(row: nat, button: ItemCounter.QuantityButton)

  /**
   One click: the row's guard reads the quantity that row displays and either
   drops the request or hands `(name, delta)` to the list update.
   */
  function Click(items: seq<Item>, g: Gesture): (r: seq<Item>)
    requires g.row < |items|
    ensures |r| == |items|
    ensures Names(r) == Names(items)
    ensures items[g.row].quantity + ItemCounter.Delta(g.button) < 0 ==> r == items
    ensures items[g.row].quantity + ItemCounter.Delta(g.button) >= 0 ==>
              r == HandleQuantityChange(items, items[g.row].name, ItemCounter.Delta(g.button))
  {
    match ItemCounter.Press(RowProps(items[g.row]), g.button)
    case None => items
    case Some(c) => HandleQuantityChange(items, c.name, c.delta)
  }

  /** Every gesture of `gs` addresses a row of a list of length `n`. */
  predicate OnScreen(n: nat, gs: seq<Gesture>)
  {
    forall k :: 0 <= k < |gs| ==> gs[k].row < n
  }

  /** A sequence of clicks, applied one after another. */
  function Run(items: seq<Item>, gs: seq<Gesture>): (r: seq<Item>)
    requires OnScreen(|items|, gs)
    ensures |r| == |items|
    ensures Names(r) == Names(items)
    decreases |gs|
  {
    if |gs| == 0 then items
    else Run(Click(items, gs[0]), gs[1..])
  }

  /** `n` clicks of the same button of the same row. */
  function Repeat(g: Gesture, n: nat): (gs: seq<Gesture>)
    ensures |gs| == n
    ensures forall k :: 0 <= k < n ==> gs[k] == g
  {
    if n == 0 then [] else [g] + Repeat(g, n - 1)
  }

  /**
   With distinct names a click touches only its own row, and moves that row's
   quantity by the button's delta unless the guard drops it.
   */
  lemma ClickChangesOnlyItsRow(items: seq<Item>, g: Gesture)
    requires DistinctNames(items)
    requires g.row < |items|
    ensures Click(items, g)[g.row].name == items[g.row].name
    ensures Click(items, g)[g.row].quantity ==
              var q := items[g.row].quantity + ItemCounter.Delta(g.button);
              if q < 0 then items[g.row].quantity else q
    ensures forall j :: 0 <= j < |items| && j != g.row ==> Click(items, g)[j] == items[j]
  {
  }

  /** A single click keeps the invariant. */
  lemma ClickPreservesValid(items: seq<Item>, g: Gesture)
    requires Valid(items)
    requires g.row < |items|
    ensures Valid(Click(items, g))
  {
  }

  /** Every sequence of clicks keeps the invariant. */
  lemma {:induction false} RunPreservesValid(items: seq<Item>, gs: seq<Gesture>)
    requires Valid(items)
    requires OnScreen(|items|, gs)
    ensures Valid(Run(items, gs))
    decreases |gs|
  {
    if |gs| > 0 {
      ClickPreservesValid(items, gs[0]);
      RunPreservesValid(Click(items, gs[0]), gs[1..]);
    }
  }

  /** No quantity reachable from the seed is negative, and names stay distinct. */
  lemma ReachableFromSeedIsValid(gs: seq<Gesture>)
    requires OnScreen(|InitialItems()|, gs)
    ensures Valid(Run(InitialItems(), gs))
  {
    RunPreservesValid(InitialItems(), gs);
  }

  /** `n` clicks on "+" raise a row by exactly `n`: increments are never blocked. */
  lemma {:induction false} IncrementsAccumulate(items: seq<Item>, row: nat, n: nat)
    requires Valid(items)
    requires row < |items|
    ensures OnScreen(|items|, Repeat(Gesture(row, ItemCounter.Plus), n))
    ensures Run(items, Repeat(Gesture(row, ItemCounter.Plus), n))[row].quantity ==
              items[row].quantity + n
    ensures forall j :: 0 <= j < |items| && j != row ==>
              Run(items, Repeat(Gesture(row, ItemCounter.Plus), n))[j] == items[j]
    decreases n
  {
    var g := Gesture(row, ItemCounter.Plus);
    if n > 0 {
      var gs := Repeat(g, n);
      assert gs[1..] == Repeat(g, n - 1);
      var next := Click(items, g);
      ClickChangesOnlyItsRow(items, g);
      ClickPreservesValid(items, g);
      IncrementsAccumulate(next, row, n - 1);
    }
  }

  /** `n` clicks on "-" lower a row by `n` but never below zero. */
  lemma {:induction false} DecrementsFloorAtZero(items: seq<Item>, row: nat, n: nat)
    requires Valid(items)
    requires row < |items|
    ensures OnScreen(|items|, Repeat(Gesture(row, ItemCounter.Minus), n))
    ensures Run(items, Repeat(Gesture(row, ItemCounter.Minus), n))[row].quantity ==
              if items[row].quantity >= n then items[row].quantity - n else 0
    ensures forall j :: 0 <= j < |items| && j != row ==>
              Run(items, Repeat(Gesture(row, ItemCounter.Minus), n))[j] == items[j]
    decreases n
  {
    var g := Gesture(row, ItemCounter.Minus);
    if n > 0 {
      var gs := Repeat(g, n);
      assert gs[1..] == Repeat(g, n - 1);
      var next := Click(items, g);
      ClickChangesOnlyItsRow(items, g);
      ClickPreservesValid(items, g);
      DecrementsFloorAtZero(next, row, n - 1);
    }
  }

  /** From the seed, two clicks on "-" of the first row read 0, not -1. */
  lemma SeedTwoDecrementsReadZero()
    ensures var s := Run(InitialItems(), [Gesture(0, ItemCounter.Minus), Gesture(0, ItemCounter.Minus)]);
            s[0] == Item("Nintendo Switch", 0)
  {
    var g := Gesture(0, ItemCounter.Minus);
    assert [g, g] == Repeat(g, 2);
    DecrementsFloorAtZero(InitialItems(), 0, 2);
  }

  /** From the seed, two clicks on "+" of the first row read 3, and one "-" after them reads 2. */
  lemma SeedIncrementsThenDecrement()
    ensures var s := Run(InitialItems(), [Gesture(0, ItemCounter.Plus), Gesture(0, ItemCounter.Plus)]);
            s[0] == Item("Nintendo Switch", 3)
    ensures var s := Run(InitialItems(), [Gesture(0, ItemCounter.Plus), Gesture(0, ItemCounter.Plus),
                                          Gesture(0, ItemCounter.Minus)]);
            s[0] == Item("Nintendo Switch", 2)
  {
    var up := Gesture(0, ItemCounter.Plus);
    var down := Gesture(0, ItemCounter.Minus);
    assert [up, up] == Repeat(up, 2);
    IncrementsAccumulate(InitialItems(), 0, 2);
    RunPreservesValid(InitialItems(), [up, up]);
    assert [up, up, down][..2] == [up, up];
    RunAppend(InitialItems(), [up, up], [down]);
  }

  /** Running two click sequences one after the other is running their concatenation. */
  lemma {:induction false} RunAppend(items: seq<Item>, gs: seq<Gesture>, hs: seq<Gesture>)
    requires OnScreen(|items|, gs + hs)
    ensures OnScreen(|items|, gs) && OnScreen(|items|, hs)
    ensures Run(items, gs + hs) == Run(Run(items, gs), hs)
    decreases |gs|
  {
    assert forall k :: 0 <= k < |gs| ==> (gs + hs)[k] == gs[k];
    assert forall k :: 0 <= k < |hs| ==> (gs + hs)[|gs| + k] == hs[k];
    if |gs| > 0 {
      assert (gs + hs)[1..] == gs[1..] + hs;
      RunAppend(Click(items, gs[0]), gs[1..], hs);
    } else {
      assert gs + hs == hs;
    }
  }

  /**
   Why distinct names belong to the invariant: with two rows of one name, the
   second row's guard passes on its own quantity 1, but the update also moves
   the first row from 0 to -1.
   */
  lemma DuplicateNamesBreakFloor()
    ensures var items := [Item("A", 0), Item("A", 1)];
            Click(items, Gesture(1, ItemCounter.Minus)) == [Item("A", -1), Item("A", 0)]
  {
    var items := [Item("A", 0), Item("A", 1)];
    assert items[1].quantity + ItemCounter.Delta(ItemCounter.Minus) == 0;
    var r := HandleQuantityChange(items, "A", -1);
    assert r[0].name == "A" && r[0].quantity == -1;
    assert r[1].name == "A" && r[1].quantity == 0;
  }
}
