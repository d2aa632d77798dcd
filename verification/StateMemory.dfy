/** The automaton as it lies in memory: frames are heap records reached through pointers,
    and the stack is a hand-grown array of pointers. */
module StateMemory {
  import opened DocState

  type Pointer = nat
  const NULL: Pointer := 0

  /** The live frame records by address. An address that is not a key has never been
      handed out or has been freed; looking it up is not possible. */
  class StateHeap {
    var cells: map<Pointer, Frame>

    constructor ()
      ensures cells == map[]
    {
      cells := map[];
    }

    /** A zeroed record at some address that is not in use. */
    method Calloc() returns (p: Pointer)
      modifies this
      ensures p != NULL && p !in old(cells)
      ensures cells == old(cells)[p := ROOT_FRAME]
    {
      FreeAddressExists(cells.Keys);
      p :| p != NULL && p !in cells;
      cells := cells[p := ROOT_FRAME];
    }

    /** Only a live record may be freed. */
    method Free(p: Pointer)
      requires p in cells
      modifies this
      ensures cells == old(cells) - {p}
    {
      cells := cells - {p};
    }

    method Store(p: Pointer, f: Frame)
      requires p in cells
      modifies this
      ensures cells == old(cells)[p := f]
    {
      cells := cells[p := f];
    }
  }

  lemma FreeAddressExists(used: set<Pointer>)
    ensures exists p: Pointer :: p != NULL && p !in used
  {
    var p := AddressAbove(used);
    assert p + 1 != NULL && p + 1 !in used;
  }

  lemma {:induction false} AddressAbove(used: set<Pointer>) returns (p: Pointer)
    ensures forall q :: q in used ==> q <= p
  {
    if used == {} {
      p := 0;
    } else {
      var u :| u in used;
      var rest := AddressAbove(used - {u});
      p := if u > rest then u else rest;
      forall q | q in used ensures q <= p {
        assert q == u || q in used - {u};
      }
    }
  }

  predicate Distinct(ps: seq<Pointer>) {
    forall i, j :: 0 <= i < j < |ps| ==> ps[i] != ps[j]
  }

  /** The pointer array. It grows by one slot when it is full and never shrinks. */
  class PointerStack {
    var slots: array?<Pointer>
    var size: nat
    var items: nat
    ghost var peak: nat
    ghost var Repr: set<object>

    ghost predicate Valid()
      reads this, Repr
      ensures Valid() ==> this in Repr
    {
      && this in Repr
      && (slots != null ==> slots in Repr && slots.Length == size)
      && (slots == null ==> size == 0)
      && items <= size
      && size == peak
    }

    ghost function Contents(): (s: seq<Pointer>)
      requires Valid()
      reads this, Repr
      ensures |s| == items
    {
      if slots == null then [] else slots[..items]
    }

    constructor ()
      ensures Valid() && fresh(Repr)
      ensures Contents() == [] && peak == 0
    {
      slots, size, items := null, 0, 0;
      peak, Repr := 0, {this};
    }

    method IsEmpty() returns (empty: bool)
      requires Valid()
      ensures empty <==> Contents() == []
    {
      empty := items == 0;
    }

    method Push(data: Pointer)
      requires Valid()
      modifies Repr
      ensures Valid() && fresh(Repr - old(Repr))
      ensures Contents() == old(Contents()) + [data]
      ensures peak == (if |Contents()| > old(peak) then |Contents()| else old(peak))
    {
      if size == items {
        var grown := new Pointer[size + 1];
        if slots != null {
          forall i | 0 <= i < size {
            grown[i] := slots[i];
          }
        }
        slots := grown;
        size := size + 1;
        peak := size;
        Repr := Repr + {grown};
      }
      slots[items] := data;
      items := items + 1;
    }

    /** The top pointer, or NULL if there is none. */
    method Pop() returns (p: Pointer)
      requires Valid()
      modifies this
      ensures Valid() && Repr == old(Repr) && peak == old(peak)
      ensures old(Contents()) == [] ==> p == NULL && Contents() == []
      ensures old(Contents()) != [] ==>
                var before := old(Contents());
                p == before[|before| - 1] && Contents() == before[..|before| - 1]
    {
      var empty := IsEmpty();
      if empty {
        return NULL;
      }
      items := items - 1;
      p := slots[items];
    }

    /** Pops and frees every record. */
    method Clear(heap: StateHeap)
      requires Valid() && heap !in Repr
      requires Distinct(Contents())
      requires forall i :: 0 <= i < |Contents()| ==> Contents()[i] in heap.cells
      modifies this, heap
      ensures Valid() && Repr == old(Repr) && peak == old(peak)
      ensures Contents() == []
      ensures heap.cells == old(heap.cells) - (set p | p in old(Contents()))
    {
      ghost var all, cells := Contents(), heap.cells;
      var empty := IsEmpty();
      while !empty
        invariant Valid() && Repr == old(Repr) && peak == old(peak)
        invariant empty <==> items == 0
        invariant items <= |all| && Contents() == all[..items]
        invariant heap.cells == Without(cells, all, items)
        decreases items
      {
        ghost var n := items;
        var p := Pop();
        OneLess(cells, all, n);
        heap.Free(p);
        empty := IsEmpty();
      }
    }
  }

  /** What is live once all but the first n stacked records have been freed. */
  ghost function Without(cells: map<Pointer, Frame>, all: seq<Pointer>, n: nat): map<Pointer, Frame>
    requires n <= |all|
  {
    cells - (set p | p in all[n..])
  }

  lemma OneLess(cells: map<Pointer, Frame>, all: seq<Pointer>, n: nat)
    requires 0 < n <= |all| && Distinct(all) && all[n - 1] in cells
    ensures all[n - 1] in Without(cells, all, n)
    ensures Without(cells, all, n - 1) == Without(cells, all, n) - {all[n - 1]}
  {
    assert all[n - 1..] == [all[n - 1]] + all[n..];
  }

  // ----- a configuration in memory -----

  /** The records reached from the current pointer and the stack are distinct, and they are all there is. */
  ghost predicate Owned(cells: map<Pointer, Frame>, cur: Pointer, ptrs: seq<Pointer>) {
    && NULL !in cells
    && Distinct(ptrs + [cur])
    && cells.Keys == (set p | p in ptrs + [cur])
  }

  ghost function ConfigOf(cells: map<Pointer, Frame>, cur: Pointer, ptrs: seq<Pointer>): (c: Config)
    requires Owned(cells, cur, ptrs)
    ensures |c.stack| == |ptrs|
  {
    Config(cells[cur], seq(|ptrs|, i requires 0 <= i < |ptrs| => OwnedAt(cells, cur, ptrs, i); cells[ptrs[i]]))
  }

  lemma OwnedAt(cells: map<Pointer, Frame>, cur: Pointer, ptrs: seq<Pointer>, i: nat)
    requires Owned(cells, cur, ptrs) && i < |ptrs|
    ensures ptrs[i] in cells && ptrs[i] != cur
  {
    assert (ptrs + [cur])[i] == ptrs[i] && (ptrs + [cur])[|ptrs|] == cur;
  }

  lemma OwnedNext(cells: map<Pointer, Frame>, cur: Pointer, ptrs: seq<Pointer>, p: Pointer, f: Frame)
    requires Owned(cells, cur, ptrs) && p != NULL && p !in cells
    ensures Owned(cells[p := f], p, ptrs + [cur])
    ensures var c := ConfigOf(cells, cur, ptrs);
            ConfigOf(cells[p := f], p, ptrs + [cur]) == Config(f, c.stack + [c.cur])
  {
    var all, all' := ptrs + [cur], ptrs + [cur] + [p];
    forall i | 0 <= i < |all| ensures all[i] in cells && all'[i] == all[i] {
      assert all[i] in all;
    }
    assert cells[p := f].Keys == (set q | q in all');
  }

  lemma OwnedPrev(cells: map<Pointer, Frame>, cur: Pointer, ptrs: seq<Pointer>)
    requires Owned(cells, cur, ptrs) && ptrs != []
    ensures var n := |ptrs| - 1;
            && Owned(cells - {cur}, ptrs[n], ptrs[..n])
            && var c := ConfigOf(cells, cur, ptrs);
               ConfigOf(cells - {cur}, ptrs[n], ptrs[..n]) == Config(c.stack[n], c.stack[..n])
  {
    var n := |ptrs| - 1;
    var all := ptrs + [cur];
    assert all[|ptrs|] == cur;
    assert ptrs[..n] + [ptrs[n]] == ptrs;
    forall i | 0 <= i < |ptrs| ensures ptrs[i] in cells && ptrs[i] != cur {
      OwnedAt(cells, cur, ptrs, i);
    }
    assert Distinct(ptrs) by {
      forall i, j | 0 <= i < j < |ptrs| ensures ptrs[i] != ptrs[j] {
        assert all[i] == ptrs[i] && all[j] == ptrs[j];
      }
    }
    assert all[n] == ptrs[n];
    assert (cells - {cur}).Keys == (set q | q in ptrs);
  }

  lemma OwnedStore(cells: map<Pointer, Frame>, cur: Pointer, ptrs: seq<Pointer>, f: Frame)
    requires Owned(cells, cur, ptrs)
    ensures Owned(cells[cur := f], cur, ptrs)
    ensures ConfigOf(cells[cur := f], cur, ptrs) == ConfigOf(cells, cur, ptrs).(cur := f)
  {
    CurrentIsLive(cells, cur, ptrs);
    assert cells[cur := f].Keys == cells.Keys;
    forall i | 0 <= i < |ptrs| ensures ptrs[i] in cells && ptrs[i] != cur {
      OwnedAt(cells, cur, ptrs, i);
    }
  }

  lemma CurrentIsLive(cells: map<Pointer, Frame>, cur: Pointer, ptrs: seq<Pointer>)
    requires Owned(cells, cur, ptrs)
    ensures cur in cells
  {
    assert (ptrs + [cur])[|ptrs|] == cur;
  }

  /** The memory after the current record o has been freed and p has been reopened. */
  ghost function AfterPrev(cells: map<Pointer, Frame>, o: Pointer, p: Pointer): map<Pointer, Frame>
    requires p in cells - {o}
  {
    var rest := cells - {o};
    if rest[p].state == Root then rest[p := rest[p].(state := Closed)] else rest
  }

  lemma OwnedAfterPrev(cells: map<Pointer, Frame>, cur: Pointer, ptrs: seq<Pointer>)
    requires Owned(cells, cur, ptrs) && ptrs != []
    ensures var n := |ptrs| - 1;
            && cur in cells && ptrs[n] in cells - {cur}
            && var cells' := AfterPrev(cells, cur, ptrs[n]);
               && Owned(cells', ptrs[n], ptrs[..n])
               && ConfigOf(cells', ptrs[n], ptrs[..n]) == Prev(ConfigOf(cells, cur, ptrs))
  {
    var n := |ptrs| - 1;
    OwnedPrev(cells, cur, ptrs);
    CurrentIsLive(cells, cur, ptrs);
    CurrentIsLive(cells - {cur}, ptrs[n], ptrs[..n]);
    OwnedStore(cells - {cur}, ptrs[n], ptrs[..n], cells[ptrs[n]].(state := Closed));
  }

  lemma OwnedParts(cells: map<Pointer, Frame>, cur: Pointer, ptrs: seq<Pointer>)
    requires Owned(cells, cur, ptrs)
    ensures Distinct(ptrs)
    ensures forall i :: 0 <= i < |ptrs| ==> ptrs[i] in cells && ptrs[i] != cur
  {
    forall i | 0 <= i < |ptrs| ensures ptrs[i] in cells && ptrs[i] != cur {
      OwnedAt(cells, cur, ptrs, i);
    }
    forall i, j | 0 <= i < j < |ptrs| ensures ptrs[i] != ptrs[j] {
      assert (ptrs + [cur])[i] == ptrs[i] && (ptrs + [cur])[j] == ptrs[j];
    }
  }

  ghost predicate Holds(cur: Pointer, stack: PointerStack, heap: StateHeap)
    reads stack, stack.Repr, heap
  {
    stack.Valid() && heap !in stack.Repr && Owned(heap.cells, cur, stack.Contents())
  }

  ghost function Held(cur: Pointer, stack: PointerStack, heap: StateHeap): Config
    requires Holds(cur, stack, heap)
    reads stack, stack.Repr, heap
  {
    ConfigOf(heap.cells, cur, stack.Contents())
  }

  // ----- the operations on it -----

  /** One record for ROOT, and an empty stack. */
  method NewFrames() returns (cur: Pointer, stack: PointerStack, heap: StateHeap)
    ensures Holds(cur, stack, heap) && Held(cur, stack, heap) == INITIAL
    ensures fresh(heap) && fresh(stack) && fresh(stack.Repr)
  {
    heap := new StateHeap();
    stack := new PointerStack();
    cur := heap.Calloc();
    assert [] + [cur] == [cur];
  }

  method StateNext(s: State, c: Pointer, stack: PointerStack, heap: StateHeap) returns (p: Pointer)
    requires Holds(c, stack, heap)
    modifies stack.Repr, heap
    ensures Holds(p, stack, heap) && fresh(stack.Repr - old(stack.Repr))
    ensures Held(p, stack, heap) == Next(s, old(Held(c, stack, heap)))
  {
    p := heap.Calloc();
    heap.Store(p, heap.cells[p].(state := s));
    stack.Push(c);
    OwnedNext(old(heap.cells), c, old(stack.Contents()), p, Frame(s, 0, 0));
  }

  method StatePrev(o: Pointer, stack: PointerStack, heap: StateHeap) returns (p: Pointer)
    requires Holds(o, stack, heap) && stack.Contents() != []
    modifies stack, heap
    ensures Holds(p, stack, heap) && stack.Repr == old(stack.Repr)
    ensures Held(p, stack, heap) == Prev(old(Held(o, stack, heap)))
  {
    ghost var cells, ptrs := heap.cells, stack.Contents();
    OwnedAfterPrev(cells, o, ptrs);
    p := stack.Pop();
    heap.Free(o);
    if heap.cells[p].state == Root {
      heap.Store(p, heap.cells[p].(state := Closed));
    }
    assert stack.Contents() == ptrs[..|ptrs| - 1] && p == ptrs[|ptrs| - 1];
    assert heap.cells == AfterPrev(cells, o, p);
  }

  method StateSwitch(e: Event, s: Pointer, stack: PointerStack, heap: StateHeap) returns (p: Pointer)
    requires Holds(s, stack, heap)
    requires Held(s, stack, heap).cur.state == DictValue ==> stack.Contents() != []
    modifies stack.Repr, heap
    ensures Holds(p, stack, heap) && fresh(stack.Repr - old(stack.Repr))
    ensures Held(p, stack, heap) == Switch(e, old(Held(s, stack, heap)))
  {
    var f := heap.cells[s];
    ghost var cells, ptrs := heap.cells, stack.Contents();
    OwnedStore(cells, s, ptrs, NextCell(f));
    OwnedStore(cells, s, ptrs, NextColumn(f));
    match f.state
    case DictValue =>
      p := StatePrev(s, stack, heap);
    case DictKey =>
      if e == ContainerClosed {
        p := s;
      } else {
        p := StateNext(DictValue, s, stack, heap);
      }
    case TableColumns =>
      if e == StringFound {
        heap.Store(s, NextColumn(f));
      }
      p := s;
    case TableValues =>
      heap.Store(s, NextCell(f));
      p := s;
    case _ =>
      p := s;
  }

  /** Frees what is left when a writer or reader is disposed of: each record once, and none remains. */
  method FreeAll(cur: Pointer, stack: PointerStack, heap: StateHeap)
    requires Holds(cur, stack, heap)
    modifies stack, heap
    ensures heap.cells == map[]
  {
    OwnedParts(heap.cells, cur, stack.Contents());
    CurrentIsLive(heap.cells, cur, stack.Contents());
    stack.Clear(heap);
    heap.Free(cur);
    assert heap.cells.Keys == {};
  }
}
