/**
 * The inventory object (inventory.go): a Rows x Cols array of slots, the Tab
 * toggle, and drag-and-drop with the left mouse button.  Input is passed in as
 * the state of Tab, of the button, and the cursor position for this tick.
 */
module Inventories {
  import opened Wrappers
  import opened InventoryGrid

  class Inventory {
    const Rows: nat
    const Cols: nat
    const Slots: array2<Slot>
    var IsOpen: bool
    var ToggleCooldown: int
    var DraggingItem: Slot
    var DragOffsetX: int
    var DragOffsetY: int
    var prevMousePressed: bool

    ghost predicate Valid()
      reads this
    {
      Slots.Length0 == Rows && Slots.Length1 == Cols && 0 <= ToggleCooldown <= ToggleDelay
    }

    /** The slots as a grid value. */
    ghost function SlotGrid(): (g: Grid)
      reads Slots
      requires Slots.Length0 == Rows && Slots.Length1 == Cols
      ensures Shaped(g, Rows, Cols)
      ensures forall y, x :: 0 <= y < Rows && 0 <= x < Cols ==> g[y][x] == Slots[y, x]
    {
      seq(Rows, y requires 0 <= y < Rows reads Slots =>
        seq(Cols, x requires 0 <= x < Cols reads Slots => Slots[y, x]))
    }

    /** The slots together with the carried item and its grab offset. */
    ghost function Hand(): DragState
      reads this`DraggingItem, this`DragOffsetX, this`DragOffsetY, Slots
      requires Slots.Length0 == Rows && Slots.Length1 == Cols
    {
      DragState(SlotGrid(), DraggingItem, DragOffsetX, DragOffsetY)
    }

    /** NewInventory: every slot empty, closed, nothing carried. */
    constructor (rows: nat, cols: nat)
      ensures Valid() && fresh(Slots) && Rows == rows && Cols == cols
      ensures SlotGrid() == EmptyGrid(rows, cols)
      ensures !IsOpen && ToggleCooldown == 0 && !prevMousePressed
      ensures DraggingItem == None && DragOffsetX == 0 && DragOffsetY == 0
    {
      Rows, Cols := rows, cols;
      Slots := new Slot[rows, cols]((y, x) => None);
      IsOpen, ToggleCooldown, prevMousePressed := false, 0, false;
      DraggingItem, DragOffsetX, DragOffsetY := None, 0, 0;
      new;
      forall y | 0 <= y < rows ensures SlotGrid()[y] == EmptyGrid(rows, cols)[y] {
        assert forall x :: 0 <= x < cols ==> At(EmptyGrid(rows, cols), Pos(y, x)) == None;
      }
    }

    /** `slot.Item = s` for the slot at `p`. */
    method SetSlot(p: Pos, s: Slot)
      requires Valid() && p.Row < Rows && p.Col < Cols
      modifies Slots
      ensures SlotGrid() == Put(old(SlotGrid()), p, s)
    {
      ghost var g := SlotGrid();
      Slots[p.Row, p.Col] := s;
      ghost var put := Put(g, p, s);
      forall y | 0 <= y < Rows ensures SlotGrid()[y] == put[y] {
        if y == p.Row {
          assert forall x :: 0 <= x < Cols ==> SlotGrid()[y][x] == put[y][x] by {
            forall x | 0 <= x < Cols ensures SlotGrid()[y][x] == put[y][x] {
              if x != p.Col {
                assert At(put, Pos(y, x)) == At(g, Pos(y, x));
              }
            }
          }
        } else {
          assert forall x :: 0 <= x < Cols ==> At(put, Pos(y, x)) == At(g, Pos(y, x));
        }
      }
    }

    /** Update: count the toggle cooldown down, toggle on Tab, and while open act on a new
        press of the left button over a slot; the button state is remembered only while open. */
    method Update(tabPressed: bool, mousePressed: bool, cursorX: int, cursorY: int)
      requires Valid()
      modifies this`IsOpen, this`ToggleCooldown, this`DraggingItem, this`DragOffsetX, this`DragOffsetY,
               this`prevMousePressed, Slots
      ensures Valid()
      ensures (IsOpen, ToggleCooldown) == Toggle(old(IsOpen), old(ToggleCooldown), tabPressed)
      ensures !IsOpen ==> Hand() == old(Hand()) && prevMousePressed == old(prevMousePressed)
      ensures IsOpen ==> prevMousePressed == mousePressed
      ensures IsOpen ==> Hand() == if mousePressed && !old(prevMousePressed)
                                   then Click(old(Hand()), cursorX, cursorY, Rows, Cols)
                                   else old(Hand())
    {
      if ToggleCooldown > 0 {
        ToggleCooldown := ToggleCooldown - 1;
      }
      if tabPressed && ToggleCooldown == 0 {
        IsOpen := !IsOpen;
        ToggleCooldown := ToggleDelay;
      }
      if !IsOpen {
        return;
      }
      if mousePressed && !prevMousePressed {
        Press(cursorX, cursorY);
      }
      prevMousePressed := mousePressed;
    }

    /** A new press of the left button: scan the slots row by row; the first one whose
        square holds the cursor is acted on and ends the scan of its row. */
    method Press(cx: int, cy: int)
      requires Valid()
      modifies this`DraggingItem, this`DragOffsetX, this`DragOffsetY, Slots
      ensures Hand() == Click(old(Hand()), cx, cy, Rows, Cols)
    {
      ghost var h0 := Hand();
      ghost var hit := CellAt(cx, cy, Rows, Cols);
      var y := 0;
      while y < Rows
        invariant 0 <= y <= Rows
        invariant Hand() == if hit.Some? && hit.value.Row < y then Click(h0, cx, cy, Rows, Cols) else h0
      {
        var x := 0;
        while x < Cols
          invariant 0 <= x <= Cols
          invariant Hand() == if hit.Some? && (hit.value.Row < y || (hit.value.Row == y && hit.value.Col < x))
                              then Click(h0, cx, cy, Rows, Cols) else h0
        {
          var sx := StartX + x * Spacing;
          var sy := StartY + y * Spacing;
          if cx >= sx && cx < sx + SlotSize && cy >= sy && cy < sy + SlotSize {
            assert Covers(Pos(y, x), cx, cy);
            PressSlot(Pos(y, x), cx, cy);
            break;
          }
          x := x + 1;
        }
        y := y + 1;
      }
    }

    /** The press lands on the slot at `p`: pick its item up when nothing is carried,
        otherwise swap the carried item with the slot's contents. */
    method PressSlot(p: Pos, cx: int, cy: int)
      requires Valid() && p.Row < Rows && p.Col < Cols && Covers(p, cx, cy)
      modifies this`DraggingItem, this`DragOffsetX, this`DragOffsetY, Slots
      ensures Hand() == Click(old(Hand()), cx, cy, Rows, Cols)
    {
      ghost var h := Hand();
      assert CellAt(cx, cy, Rows, Cols) == Some(p);
      var item := Slots[p.Row, p.Col];
      assert item == At(h.Slots, p);
      if DraggingItem.None? && item.Some? {
        assert Click(h, cx, cy, Rows, Cols) == DragState(Put(h.Slots, p, None), item, cx - SlotX(p.Col), cy - SlotY(p.Row));
        DraggingItem := item;
        DragOffsetX := cx - SlotX(p.Col);
        DragOffsetY := cy - SlotY(p.Row);
        SetSlot(p, None);
      } else if DraggingItem.Some? {
        var carried := DraggingItem;
        assert Click(h, cx, cy, Rows, Cols) == DragState(Put(h.Slots, p, carried), item, DragOffsetX, DragOffsetY);
        DraggingItem := item;
        SetSlot(p, carried);
      } else {
        assert Click(h, cx, cy, Rows, Cols) == h;
      }
    }

    /** AddItem: stack onto the first slot in row-major order that holds the same item
        below its stack limit; failing that, fill the first empty slot; failing that,
        report that there is no space. */
    method AddItem(newItem: Item) returns (ok: bool)
      requires Valid()
      modifies Slots
      ensures (ok, SlotGrid()) == Added(old(SlotGrid()), newItem)
    {
      ghost var g0 := SlotGrid();
      var stack := Scan(StackOnto(newItem));
      if stack.Some? {
        var p := stack.value;
        var slot := Slots[p.Row, p.Col].value;
        var quantity := slot.Quantity + newItem.Quantity;
        if quantity > slot.MaxStack {
          quantity := slot.MaxStack;
        }
        AddStacksOntoFirstMatch(g0, newItem, p);
        SetSlot(p, Some(slot.(Quantity := quantity)));
        return true;
      }
      var empty := Scan(EmptySlot);
      if empty.Some? {
        AddFillsFirstEmpty(g0, newItem, empty.value);
        SetSlot(empty.value, Some(newItem));
        return true;
      }
      return false;
    }

    /** One of AddItem's two scans: the slots row by row, stopping at the first that
        the target accepts. */
    method Scan(t: Target) returns (found: Option<Pos>)
      requires Valid()
      ensures found.Some? ==> IsFirst(SlotGrid(), t, found.value)
      ensures found.None? ==> forall q :: InGrid(SlotGrid(), q) ==> !Accepts(t, At(SlotGrid(), q))
    {
      ghost var g := SlotGrid();
      for y := 0 to Rows
        invariant forall q :: InGrid(g, q) && q.Row < y ==> !Accepts(t, At(g, q))
      {
        for x := 0 to Cols
          invariant forall q :: InGrid(g, q) && Before(q, Pos(y, x)) ==> !Accepts(t, At(g, q))
        {
          if Accepts(t, Slots[y, x]) {
            return Some(Pos(y, x));
          }
        }
      }
      return None;
    }
  }
}
