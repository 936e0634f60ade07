/**
 * The inventory's bookkeeping as values (inventory.go): a Rows x Cols grid of
 * slots scanned in row-major order, what AddItem and a click do to it, and the
 * Tab toggle with its cooldown.  The class in inventory.dfy is specified by
 * these functions.
 */
module InventoryGrid {
  import opened Wrappers

  /** An item stack. The icon image is not modelled. */
  datatype Item = Item(ID: string, Name: string, Quantity: int, MaxStack: int, Description: string)

  /** A slot holds at most one item stack. */
  type Slot = Option<Item>

  /** Slots by row, then column. */
  type Grid = seq<seq<Slot>>

  datatype Pos = Pos(Row: nat, Col: nat)

  predicate Shaped(g: Grid, rows: nat, cols: nat)
  {
    |g| == rows && forall y :: 0 <= y < |g| ==> |g[y]| == cols
  }

  predicate InGrid(g: Grid, p: Pos)
  {
    p.Row < |g| && p.Col < |g[p.Row]|
  }

  /** Row-major order: `p` is visited before `q`. */
  predicate Before(p: Pos, q: Pos)
  {
    p.Row < q.Row || (p.Row == q.Row && p.Col < q.Col)
  }

  function At(g: Grid, p: Pos): Slot
    requires InGrid(g, p)
  {
    g[p.Row][p.Col]
  }

  /** Every slot of `g` other than `c` holds in `h` what it held in `g`. */
  ghost predicate OnlyAt(g: Grid, h: Grid, c: Option<Pos>)
  {
    forall q :: InGrid(g, q) && c != Some(q) ==> InGrid(h, q) && At(h, q) == At(g, q)
  }

  /** The grid with one slot replaced: that slot holds `s`, no other slot changes. */
  function Put(g: Grid, p: Pos, s: Slot): (r: Grid)
    requires InGrid(g, p)
    ensures |r| == |g| && forall y :: 0 <= y < |g| ==> |r[y]| == |g[y]|
    ensures InGrid(r, p) && At(r, p) == s
    ensures OnlyAt(g, r, Some(p))
  {
    g[p.Row := g[p.Row][p.Col := s]]
  }

  /** The grid NewInventory builds: every slot empty. */
  function EmptyGrid(rows: nat, cols: nat): (g: Grid)
    ensures Shaped(g, rows, cols)
    ensures forall p :: InGrid(g, p) ==> At(g, p) == None
  {
    seq(rows, _ => seq(cols, _ => None))
  }

  // ---------------------------------------------------------------- searching

  /** What a scan of AddItem looks for. */
  datatype Target = StackOnto(item: Item) | EmptySlot

  predicate Accepts(t: Target, s: Slot)
  {
    match t
    case StackOnto(item) => s.Some? && s.value.ID == item.ID && s.value.Quantity < s.value.MaxStack
    case EmptySlot => s.None?
  }

  /** `p` is the first slot in row-major order that the target accepts. */
  ghost predicate IsFirst(g: Grid, t: Target, p: Pos)
  {
    && InGrid(g, p) && Accepts(t, At(g, p))
    && forall q :: InGrid(g, q) && Before(q, p) ==> !Accepts(t, At(g, q))
  }

  /** The first accepted slot at or after `from` in row-major order. */
  function FirstFrom(g: Grid, t: Target, from: Pos): (r: Option<Pos>)
    ensures r.Some? ==> InGrid(g, r.value) && Accepts(t, At(g, r.value)) && !Before(r.value, from)
    ensures r.Some? ==> forall q :: InGrid(g, q) && !Before(q, from) && Before(q, r.value) ==> !Accepts(t, At(g, q))
    ensures r.None? ==> forall q :: InGrid(g, q) && !Before(q, from) ==> !Accepts(t, At(g, q))
    decreases |g| - from.Row, if from.Row < |g| then |g[from.Row]| - from.Col else 0
  {
    if from.Row >= |g| then None
    else if from.Col >= |g[from.Row]| then FirstFrom(g, t, Pos(from.Row + 1, 0))
    else if Accepts(t, At(g, from)) then Some(from)
    else FirstFrom(g, t, Pos(from.Row, from.Col + 1))
  }

  /** The first accepted slot of the whole grid, if any. */
  function First(g: Grid, t: Target): (r: Option<Pos>)
    ensures r.Some? ==> IsFirst(g, t, r.value)
    ensures r.None? ==> forall q :: InGrid(g, q) ==> !Accepts(t, At(g, q))
  {
    FirstFrom(g, t, Pos(0, 0))
  }

  /** The first accepted slot is unique. */
  lemma FirstIs(g: Grid, t: Target, p: Pos)
    requires IsFirst(g, t, p)
    ensures First(g, t) == Some(p)
  {
  }

  // ---------------------------------------------------------------- AddItem

  /** Stacking: the quantity grows by the added quantity, clamped to the stack limit. */
  function Merge(held: Item, added: Item): (r: Item)
    ensures r == held.(Quantity := r.Quantity)
    ensures r.Quantity == if held.Quantity + added.Quantity > held.MaxStack then held.MaxStack
                          else held.Quantity + added.Quantity
  {
    var q := held.Quantity + added.Quantity;
    held.(Quantity := if q > held.MaxStack then held.MaxStack else q)
  }

  /** AddItem on a grid: the reported success and the grid afterwards. */
  function Added(g: Grid, item: Item): (r: (bool, Grid))
    ensures |r.1| == |g| && forall y :: 0 <= y < |g| ==> |r.1[y]| == |g[y]|
    ensures r.0 <==> exists p :: InGrid(g, p) && (Accepts(StackOnto(item), At(g, p)) || Accepts(EmptySlot, At(g, p)))
    ensures !r.0 ==> r.1 == g
  {
    match First(g, StackOnto(item))
    case Some(p) => (true, Put(g, p, Some(Merge(At(g, p).value, item))))
    case None =>
      match First(g, EmptySlot)
      case Some(p) => (true, Put(g, p, Some(item)))
      case None => (false, g)
  }

  /** A stackable slot wins, wherever the first empty slot is: the first one in row-major
      order takes the added quantity and no other slot changes. */
  lemma AddStacksOntoFirstMatch(g: Grid, item: Item, p: Pos)
    requires IsFirst(g, StackOnto(item), p)
    ensures Added(g, item) == (true, Put(g, p, Some(Merge(At(g, p).value, item))))
  {
    FirstIs(g, StackOnto(item), p);
  }

  /** With nothing to stack onto, the first empty slot receives the item and no other slot changes. */
  lemma AddFillsFirstEmpty(g: Grid, item: Item, p: Pos)
    requires forall q :: InGrid(g, q) ==> !Accepts(StackOnto(item), At(g, q))
    requires IsFirst(g, EmptySlot, p)
    ensures Added(g, item) == (true, Put(g, p, Some(item)))
  {
    FirstIs(g, EmptySlot, p);
  }

  /** A stack one short of its limit is filled to the limit and then accepts no more,
      so the next add of that item must look elsewhere. */
  lemma StackClampsAtMax(g: Grid, item: Item, p: Pos)
    requires IsFirst(g, StackOnto(item), p)
    requires At(g, p).value.Quantity == At(g, p).value.MaxStack - 1 && item.Quantity >= 1
    ensures var g' := Added(g, item).1;
      InGrid(g', p) && At(g', p).value.Quantity == At(g, p).value.MaxStack && !Accepts(StackOnto(item), At(g', p))
  {
    AddStacksOntoFirstMatch(g, item, p);
  }

  /** Successive AddItem calls: the results in order and the final grid. */
  function AddAll(g: Grid, items: seq<Item>): (r: (seq<bool>, Grid))
    ensures |r.0| == |items|
    decreases |items|
  {
    if items == [] then ([], g)
    else
      var (ok, g1) := Added(g, items[0]);
      var (oks, g2) := AddAll(g1, items[1..]);
      ([ok] + oks, g2)
  }

  /** A full stack: nothing can be stacked onto it. */
  predicate Full(item: Item)
  {
    item.Quantity >= item.MaxStack
  }

  ghost predicate AllFull(g: Grid)
  {
    forall p :: InGrid(g, p) && At(g, p).Some? ==> Full(At(g, p).value)
  }

  function CountRow(row: seq<Slot>): nat
    decreases |row|
  {
    if row == [] then 0 else (if row[0].None? then 1 else 0) + CountRow(row[1..])
  }

  /** The number of empty slots. */
  function CountEmpty(g: Grid): nat
    decreases |g|
  {
    if g == [] then 0 else CountRow(g[0]) + CountEmpty(g[1..])
  }

  lemma {:induction false} CountRowPut(row: seq<Slot>, c: nat, s: Slot)
    requires c < |row|
    ensures CountRow(row[c := s]) + (if row[c].None? then 1 else 0) == CountRow(row) + (if s.None? then 1 else 0)
    decreases c
  {
    if c > 0 {
      assert row[c := s][1..] == row[1..][c - 1 := s];
      CountRowPut(row[1..], c - 1, s);
    } else {
      assert row[c := s][1..] == row[1..];
    }
  }

  lemma {:induction false} CountEmptyPut(g: Grid, p: Pos, s: Slot)
    requires InGrid(g, p)
    ensures CountEmpty(Put(g, p, s)) + (if At(g, p).None? then 1 else 0) == CountEmpty(g) + (if s.None? then 1 else 0)
    decreases p.Row
  {
    if p.Row > 0 {
      var p' := Pos(p.Row - 1, p.Col);
      assert Put(g, p, s)[1..] == Put(g[1..], p', s);
      CountEmptyPut(g[1..], p', s);
    } else {
      assert Put(g, p, s)[1..] == g[1..];
      CountRowPut(g[0], p.Col, s);
    }
  }

  /** There is an empty slot exactly when the count of empty slots is positive. */
  lemma {:induction false} CountEmptyPositive(g: Grid)
    ensures CountEmpty(g) > 0 <==> exists p :: InGrid(g, p) && At(g, p).None?
    decreases |g|
  {
    if g != [] {
      CountEmptyPositive(g[1..]);
      RowCountPositive(g[0]);
      if exists p :: InGrid(g, p) && At(g, p).None? {
        var p :| InGrid(g, p) && At(g, p).None?;
        if p.Row > 0 {
          assert InGrid(g[1..], Pos(p.Row - 1, p.Col)) && At(g[1..], Pos(p.Row - 1, p.Col)).None?;
        }
      }
      if CountEmpty(g[1..]) > 0 {
        var p :| InGrid(g[1..], p) && At(g[1..], p).None?;
        assert InGrid(g, Pos(p.Row + 1, p.Col)) && At(g, Pos(p.Row + 1, p.Col)).None?;
      }
      if CountRow(g[0]) > 0 {
        var c :| 0 <= c < |g[0]| && g[0][c].None?;
        assert InGrid(g, Pos(0, c)) && At(g, Pos(0, c)).None?;
      }
    }
  }

  lemma {:induction false} RowCountPositive(row: seq<Slot>)
    ensures CountRow(row) > 0 <==> exists c :: 0 <= c < |row| && row[c].None?
    decreases |row|
  {
    if row != [] {
      RowCountPositive(row[1..]);
      if exists c :: 0 <= c < |row| && row[c].None? {
        var c :| 0 <= c < |row| && row[c].None?;
        if c > 0 {
          assert row[1..][c - 1].None?;
        }
      }
      if CountRow(row[1..]) > 0 {
        var c :| 0 <= c < |row[1..]| && row[1..][c].None?;
        assert row[c + 1].None?;
      }
    }
  }

  lemma {:induction false} CountEmptyGrid(rows: nat, cols: nat)
    ensures CountEmpty(EmptyGrid(rows, cols)) == rows * cols
    decreases rows
  {
    var g := EmptyGrid(rows, cols);
    if rows > 0 {
      assert g[1..] == EmptyGrid(rows - 1, cols);
      CountEmptyGrid(rows - 1, cols);
      EmptyRowCount(g[0]);
      assert rows * cols == cols + (rows - 1) * cols;
    }
  }

  lemma {:induction false} EmptyRowCount(row: seq<Slot>)
    requires forall c :: 0 <= c < |row| ==> row[c].None?
    ensures CountRow(row) == |row|
    decreases |row|
  {
    if row != [] {
      EmptyRowCount(row[1..]);
    }
  }

  /** Adding full stacks to a grid of full stacks: each add succeeds while an empty slot
      is left, and fails from then on. */
  lemma {:induction false} AddFullStacks(g: Grid, items: seq<Item>)
    requires AllFull(g)
    requires forall i :: 0 <= i < |items| ==> Full(items[i])
    ensures forall i :: 0 <= i < |items| ==> AddAll(g, items).0[i] == (i < CountEmpty(g))
    decreases |items|
  {
    if items != [] {
      var item := items[0];
      var (ok, g1) := Added(g, item);
      assert forall q :: InGrid(g, q) ==> !Accepts(StackOnto(item), At(g, q));
      CountEmptyPositive(g);
      if ok {
        var p := First(g, EmptySlot).value;
        FirstIs(g, EmptySlot, p);
        assert g1 == Put(g, p, Some(item));
        CountEmptyPut(g, p, Some(item));
      }
      assert AllFull(g1);
      AddFullStacks(g1, items[1..]);
      var oks := AddAll(g, items).0;
      forall i | 0 <= i < |items| ensures oks[i] == (i < CountEmpty(g)) {
        if i > 0 {
          assert oks[i] == AddAll(g1, items[1..]).0[i - 1];
        }
      }
    }
  }

  /** Capacity: on an empty Rows x Cols inventory, adds of stacks that cannot be stacked
      onto succeed for the first Rows*Cols items and fail from the next one on. */
  lemma Capacity(rows: nat, cols: nat, items: seq<Item>)
    requires forall i :: 0 <= i < |items| ==> Full(items[i])
    ensures forall i :: 0 <= i < |items| ==> AddAll(EmptyGrid(rows, cols), items).0[i] == (i < rows * cols)
  {
    CountEmptyGrid(rows, cols);
    AddFullStacks(EmptyGrid(rows, cols), items);
  }

  /** CreateTestItem, with its rand.Intn(3) draw as the parameter `kind`. */
  function TestItem(kind: int): (item: Item)
    requires 0 <= kind < 3
    ensures item.ID in {"potion-0", "potion-1", "potion-2"}
    ensures item.Quantity == 1 && item.MaxStack == 5 && !Full(item)
  {
    var id := match kind case 0 => "potion-0" case 1 => "potion-1" case _ => "potion-2";
    Item(id, "Health Potion", 1, 5, "Restores 50 HP")
  }

  // ---------------------------------------------------------------- items held

  function SlotItems(s: Slot): multiset<Item>
  {
    if s.Some? then multiset{s.value} else multiset{}
  }

  function RowItems(row: seq<Slot>): multiset<Item>
    decreases |row|
  {
    if row == [] then multiset{} else SlotItems(row[0]) + RowItems(row[1..])
  }

  /** Every item held in the grid, with multiplicity. */
  function GridItems(g: Grid): multiset<Item>
    decreases |g|
  {
    if g == [] then multiset{} else RowItems(g[0]) + GridItems(g[1..])
  }

  /** Replacing one slot of a row, counted item by item. */
  lemma {:induction false} RowCountPut(row: seq<Slot>, c: nat, s: Slot, x: Item)
    requires c < |row|
    ensures RowItems(row[c := s])[x] + SlotItems(row[c])[x] == RowItems(row)[x] + SlotItems(s)[x]
    decreases c
  {
    var row' := row[c := s];
    if c > 0 {
      assert row'[1..] == row[1..][c - 1 := s];
      assert row[1..][c - 1] == row[c];
      RowCountPut(row[1..], c - 1, s, x);
    } else {
      assert row'[1..] == row[1..];
    }
  }

  /** Replacing one slot of the grid, counted item by item. */
  lemma {:induction false} GridCountPut(g: Grid, r: nat, c: nat, s: Slot, x: Item)
    requires r < |g| && c < |g[r]|
    ensures GridItems(g[r := g[r][c := s]])[x] + SlotItems(g[r][c])[x] == GridItems(g)[x] + SlotItems(s)[x]
    decreases r
  {
    var g' := g[r := g[r][c := s]];
    if r > 0 {
      assert g'[1..] == g[1..][r - 1 := g[1..][r - 1][c := s]];
      assert g[1..][r - 1] == g[r];
      GridCountPut(g[1..], r - 1, c, s, x);
    } else {
      assert g'[1..] == g[1..];
      RowCountPut(g[0], c, s, x);
    }
  }

  /** Replacing one slot swaps that slot's item for the new one and changes nothing else. */
  lemma GridItemsPut(g: Grid, p: Pos, s: Slot)
    requires InGrid(g, p)
    ensures GridItems(Put(g, p, s)) + SlotItems(At(g, p)) == GridItems(g) + SlotItems(s)
  {
    forall x: Item
      ensures (GridItems(Put(g, p, s)) + SlotItems(At(g, p)))[x] == (GridItems(g) + SlotItems(s))[x]
    {
      GridCountPut(g, p.Row, p.Col, s, x);
    }
  }

  // ---------------------------------------------------------------- clicks

  const StartX := 50
  const StartY := 50
  /** Distance between the left (top) edges of neighbouring slots. */
  const Spacing := 36
  /** Width and height of a slot's clickable square. */
  const SlotSize := 32

  function SlotX(col: nat): int { StartX + col * Spacing }

  function SlotY(row: nat): int { StartY + row * Spacing }

  /** The cursor lies on the slot's 32 x 32 square. */
  predicate Covers(p: Pos, cx: int, cy: int)
  {
    SlotX(p.Col) <= cx < SlotX(p.Col) + SlotSize && SlotY(p.Row) <= cy < SlotY(p.Row) + SlotSize
  }

  /** The slot under the cursor, found by arithmetic rather than by the scan Update does.
      Squares are 32 px on a 36 px pitch, so at most one slot covers any point, and a
      point in a gutter or outside the grid is covered by none. */
  function CellAt(cx: int, cy: int, rows: nat, cols: nat): (r: Option<Pos>)
    ensures r.Some? ==> r.value.Row < rows && r.value.Col < cols && Covers(r.value, cx, cy)
    ensures forall p: Pos :: p.Row < rows && p.Col < cols && Covers(p, cx, cy) ==> r == Some(p)
  {
    if cx < StartX || cy < StartY then None
    else
      var col, row := (cx - StartX) / Spacing, (cy - StartY) / Spacing;
      BandIndex(cx - StartX, col);
      BandIndex(cy - StartY, row);
      if (cx - StartX) % Spacing < SlotSize && (cy - StartY) % Spacing < SlotSize && row < rows && col < cols
      then Some(Pos(row, col))
      else None
  }

  /** The square of index `k` along an axis holds offset `v` exactly when `v / Spacing == k`
      and `v` is not in the gutter after it. */
  lemma BandIndex(v: nat, k: nat)
    requires k == v / Spacing
    ensures forall j: nat {:trigger j * Spacing} :: j * Spacing <= v < j * Spacing + SlotSize <==> j == k && v % Spacing < SlotSize
  {
  }

  /** The drag state: the slots, the carried item, and where in its square it was grabbed. */
  datatype DragState = DragState(Slots: Grid, Dragging: Slot, OffsetX: int, OffsetY: int)

  /** Everything the player owns: the items in the slots and the carried one. */
  function Contents(s: DragState): multiset<Item>
  {
    GridItems(s.Slots) + SlotItems(s.Dragging)
  }

  /** The hand now holds what the slot at `p` held, and that slot holds `put`. */
  predicate Traded(s: DragState, r: DragState, p: Pos, put: Slot)
  {
    InGrid(s.Slots, p) && InGrid(r.Slots, p) && r.Dragging == At(s.Slots, p) && At(r.Slots, p) == put
  }

  /** A new press of the left button at (cx, cy): pick up, drop or swap with the slot
      under the cursor. No item is created or destroyed, only that slot changes, and a
      pick-up records where inside the 32 x 32 square the item was grabbed. */
  function Click(s: DragState, cx: int, cy: int, rows: nat, cols: nat): (r: DragState)
    requires Shaped(s.Slots, rows, cols)
    ensures Shaped(r.Slots, rows, cols)
    ensures Contents(r) == Contents(s)
    ensures CellAt(cx, cy, rows, cols).None? ==> r == s
    ensures OnlyAt(s.Slots, r.Slots, CellAt(cx, cy, rows, cols))
    ensures s.Dragging.None? && r.Dragging.Some? ==> 0 <= r.OffsetX < SlotSize && 0 <= r.OffsetY < SlotSize
    // Pick-up: with nothing carried, a full slot's item moves to the hand and the slot empties.
    ensures CellAt(cx, cy, rows, cols).Some? && s.Dragging.None? ==>
              Traded(s, r, CellAt(cx, cy, rows, cols).value, None)
    // Drop or swap: with an item carried, the hand and the slot exchange what they hold.
    ensures CellAt(cx, cy, rows, cols).Some? && s.Dragging.Some? ==>
              Traded(s, r, CellAt(cx, cy, rows, cols).value, s.Dragging)
  {
    ClickAt(s, CellAt(cx, cy, rows, cols), cx, cy)
  }

  /** The press lands on the slot `c` (none when the cursor misses the grid): with nothing
      carried the slot's item (if any) is picked up, otherwise the carried item and the
      slot's exchange places. */
  function ClickAt(s: DragState, c: Option<Pos>, cx: int, cy: int): (r: DragState)
    requires c.Some? ==> InGrid(s.Slots, c.value) && Covers(c.value, cx, cy)
    ensures |r.Slots| == |s.Slots| && forall y :: 0 <= y < |s.Slots| ==> |r.Slots[y]| == |s.Slots[y]|
    ensures Contents(r) == Contents(s)
    ensures c.None? ==> r == s
    ensures OnlyAt(s.Slots, r.Slots, c)
    ensures c.Some? ==> Traded(s, r, c.value, if s.Dragging.None? then None else s.Dragging)
    ensures s.Dragging.None? && r.Dragging.Some? ==> 0 <= r.OffsetX < SlotSize && 0 <= r.OffsetY < SlotSize
  {
    match c
    case None => s
    case Some(p) =>
      var held := At(s.Slots, p);
      if s.Dragging.None? && held.Some? then
        GridItemsPut(s.Slots, p, None);
        DragState(Put(s.Slots, p, None), held, cx - SlotX(p.Col), cy - SlotY(p.Row))
      else if s.Dragging.Some? then
        GridItemsPut(s.Slots, p, s.Dragging);
        DragState(Put(s.Slots, p, s.Dragging), held, s.OffsetX, s.OffsetY)
      else s
  }

  // ---------------------------------------------------------------- Tab toggle

  /** Ticks during which Tab is ignored after a toggle. */
  const ToggleDelay := 15

  /** (IsOpen, ToggleCooldown) after one Update: the cooldown counts down while positive,
      and Tab toggles only once it has reached 0, restarting it. */
  function Toggle(isOpen: bool, cooldown: int, tab: bool): (r: (bool, int))
    ensures r.0 != isOpen <==> tab && (cooldown == 0 || cooldown == 1)
    ensures r.0 != isOpen ==> r.1 == ToggleDelay
    ensures r.0 == isOpen ==> r.1 == (if cooldown > 0 then cooldown - 1 else cooldown)
    ensures 0 <= cooldown <= ToggleDelay ==> 0 <= r.1 <= ToggleDelay
  {
    var cd := if cooldown > 0 then cooldown - 1 else cooldown;
    if tab && cd == 0 then (!isOpen, ToggleDelay) else (isOpen, cd)
  }

  /** Successive Updates with the given Tab states. */
  function ToggleRun(isOpen: bool, cooldown: int, tabs: seq<bool>): (bool, int)
    decreases |tabs|
  {
    if tabs == [] then (isOpen, cooldown)
    else
      var (o, c) := Toggle(isOpen, cooldown, tabs[0]);
      ToggleRun(o, c, tabs[1..])
  }

  /** Debounce: while the cooldown is still running, no Tab state toggles the inventory. */
  lemma {:induction false} Debounce(isOpen: bool, cooldown: int, tabs: seq<bool>)
    requires |tabs| < cooldown
    ensures ToggleRun(isOpen, cooldown, tabs) == (isOpen, cooldown - |tabs|)
    decreases |tabs|
  {
    if tabs != [] {
      Debounce(isOpen, cooldown - 1, tabs[1..]);
    }
  }

  /** Holding Tab after a toggle: the next 14 Updates leave it alone, the 15th toggles again. */
  lemma HeldTabTogglesEvery15(isOpen: bool, held: seq<bool>)
    requires |held| == ToggleDelay && forall i :: 0 <= i < |held| ==> held[i]
    ensures ToggleRun(isOpen, ToggleDelay, held[..14]) == (isOpen, 1)
    ensures ToggleRun(isOpen, ToggleDelay, held) == (!isOpen, ToggleDelay)
  {
    Debounce(isOpen, ToggleDelay, held[..14]);
    RunSplit(isOpen, ToggleDelay, held[..14], held[14..]);
    assert held[..14] + held[14..] == held;
  }

  lemma {:induction false} RunSplit(isOpen: bool, cooldown: int, a: seq<bool>, b: seq<bool>)
    ensures var (o, c) := ToggleRun(isOpen, cooldown, a);
            ToggleRun(isOpen, cooldown, a + b) == ToggleRun(o, c, b)
    decreases |a|
  {
    if a != [] {
      var (o, c) := Toggle(isOpen, cooldown, a[0]);
      assert (a + b)[1..] == a[1..] + b;
      RunSplit(o, c, a[1..], b);
    } else {
      assert a + b == b;
    }
  }
}
