/** What the frames of a writer add up to, over every run. */
module Accounting {
  import opened DocState
  import opened Elements
  import opened Sequences
  import opened WriterRules
  import opened Grammar
  import opened Documents

  // ----- depth -----

  /** The number of open containers. */
  function Depth(ctx: Context): nat {
    match ctx
    case Top => 0
    case In(o, _) => Depth(o) + 1
  }

  /** The number of frames, stacked or current, that are at a map value. */
  function CountValues(fs: seq<Frame>, k: nat): nat
    requires k <= |fs|
  {
    if k == 0 then 0 else CountValues(fs, k - 1) + if fs[k - 1].state == DictValue then 1 else 0
  }

  lemma {:induction false} CountValuesAgrees(fs: seq<Frame>, gs: seq<Frame>, k: nat)
    requires k <= |fs| && k <= |gs| && forall i :: 0 <= i < k ==> fs[i] == gs[i]
    ensures CountValues(fs, k) == CountValues(gs, k)
  {
    if k > 0 {
      CountValuesAgrees(fs, gs, k - 1);
    }
  }

  /** Every open container has a frame on the stack, and so has every key that waits for its value. */
  lemma {:induction false} DepthOfContext(ctx: Context)
    ensures var c := Position(ctx);
            |c.stack| == Depth(ctx) + CountValues(Frames(c), |Frames(c)|)
  {
    match ctx
    case Top =>
      assert CountValues([ROOT_FRAME], 1) == CountValues([ROOT_FRAME], 0);
    case In(o, x) =>
      DepthOfContext(o);
      var fs, gs := Frames(Position(o)), Frames(Position(ctx));
      var n := |fs|;
      CountValuesAgrees(fs, gs, n);
      if x.OpenMapOf? && x.key.Some? {
        assert gs[n].state == DictKey && gs[n + 1].state == DictValue;
        assert CountValues(gs, n + 2) == CountValues(gs, n + 1) + 1;
        assert CountValues(gs, n + 1) == CountValues(gs, n);
      } else {
        assert gs[n] == Position(ctx).cur;
        assert CountValues(gs, n + 1) == CountValues(gs, n);
      }
  }

  // ----- terminators -----

  /** What an element contributes to opened minus closed parts: a table has two parts. */
  function Weight(e: Element): int {
    match e
    case ListOpen | MapOpen => 1
    case TableOpen => 2
    case Terminator => -1
    case _ => 0
  }

  function Balance(es: seq<Element>, k: nat): int
    requires k <= |es|
  {
    if k == 0 then 0 else Balance(es, k - 1) + Weight(es[k - 1])
  }

  function Tally(es: seq<Element>, what: Element, k: nat): nat
    requires k <= |es|
  {
    if k == 0 then 0 else Tally(es, what, k - 1) + if es[k - 1] == what then 1 else 0
  }

  lemma {:induction false} BalanceTallies(es: seq<Element>, k: nat)
    requires k <= |es|
    ensures Balance(es, k)
         == Tally(es, ListOpen, k) + Tally(es, MapOpen, k) + 2 * Tally(es, TableOpen, k) - Tally(es, Terminator, k)
  {
    if k > 0 {
      BalanceTallies(es, k - 1);
    }
  }

  /** How many terminators are still to come. */
  function Pending(ctx: Context): nat {
    match ctx
    case Top => 0
    case In(o, x) => Pending(o) + if x.OpenColumns? then 2 else 1
  }

  function PendingOf(z: Build): nat {
    match z
    case Building(ctx) => Pending(ctx)
    case Built(_) => 0
  }

  lemma DeliverPending(ctx: Context, t: Tree)
    requires Deliver(ctx, t).Some?
    ensures PendingOf(Deliver(ctx, t).value) == Pending(ctx)
  {
  }

  lemma GrowPending(z: Build, e: Element)
    requires Grow(z, e).Some?
    ensures PendingOf(Grow(z, e).value) == PendingOf(z) + Weight(e)
  {
    if e.Terminator? {
      var In(o, x) := z.ctx;
      GrowTerminator(o, x);
      if TreeIn(x).Some? {
        DeliverPending(o, TreeIn(x).value);
      }
    } else if !e.IsMarker() {
      DeliverPending(z.ctx, Leaf(e));
    }
  }

  lemma {:induction false} BalanceIsPending(es: seq<Element>, k: nat)
    requires k <= |es|
    ensures var o := RunUpTo(GrowOption, Some(Building(Top)), es, k);
            o.Some? ==> Balance(es, k) == PendingOf(o.value)
  {
    if k > 0 {
      BalanceIsPending(es, k - 1);
      var o := RunUpTo(GrowOption, Some(Building(Top)), es, k - 1);
      if o.Some? && Grow(o.value, es[k - 1]).Some? {
        GrowPending(o.value, es[k - 1]);
      }
    }
  }

  /** In a closed document the terminators number the lists, the maps, and the tables twice. */
  lemma TerminatorsOfClosed(calls: seq<Call>)
    requires Run(calls).cfg.cur.state == Closed
    ensures var es := Run(calls).log;
            Tally(es, Terminator, |es|) == Tally(es, ListOpen, |es|) + Tally(es, MapOpen, |es|) + 2 * Tally(es, TableOpen, |es|)
  {
    var es := Run(calls).log;
    RunBuildsTree(calls);
    ClosedIsTree(calls);
    BalanceIsPending(es, |es|);
    BalanceTallies(es, |es|);
  }

  /** Over every run: while the document is open the stack holds a frame for every open container and
      for every map value in progress; once it is closed, or before it is opened, the stack is empty. */
  lemma DepthOfRun(calls: seq<Call>)
    ensures var c := Run(calls).cfg;
            var z := TreeOf(calls);
            |c.stack| == (if z.Built? then 0 else Depth(z.ctx) + CountValues(Frames(c), |Frames(c)|))
  {
    var z := TreeOf(calls);
    RunBuildsTree(calls);
    if z.Building? {
      DepthOfContext(z.ctx);
    }
  }

  // ----- the shape of a writer's stack -----

  /** A stacked map key has its value above it, and a column list is never left open below. */
  predicate Stackable(fs: seq<Frame>, i: nat)
    requires i + 1 < |fs|
  {
    && fs[i].state != TableColumns && fs[i].state != Closed
    && (fs[i].state == DictKey ==> fs[i + 1].state == DictValue)
  }

  predicate WriterShaped(c: Config) {
    Shaped(c) && forall i :: 0 <= i < |c.stack| ==> Stackable(Frames(c), i)
  }

  lemma {:induction false} ContextShape(ctx: Context)
    requires LegalContext(ctx)
    ensures WriterShaped(Position(ctx))
  {
    PositionShaped(ctx);
    match ctx
    case Top =>
    case In(o, x) =>
      ContextShape(o);
      TakesContainerState(o);
      var fs, gs := Frames(Position(o)), Frames(Position(ctx));
      assert fs <= gs;
      forall i | 0 <= i < |Position(ctx).stack| ensures Stackable(gs, i) {
        if i < |fs| - 1 {
          assert Stackable(fs, i);
          assert gs[i] == fs[i] && gs[i + 1] == fs[i + 1];
        } else if i == |fs| - 1 {
          assert gs[i] == Position(o).cur;
        }
      }
  }

  /** Over every run the writer's stack is empty only at ROOT and CLOSED, has ROOT exactly at the
      bottom, map values exactly on their keys, and neither open columns nor CLOSED anywhere. */
  lemma ShapeOfRun(calls: seq<Call>)
    ensures WriterShaped(Run(calls).cfg)
  {
    var z := TreeOf(calls);
    RunBuildsTree(calls);
    if z.Building? {
      ContextShape(z.ctx);
    }
  }

  // ----- table rows -----

  /** ctx, or one of the containers around it. */
  ghost predicate Around(o: Context, ctx: Context) {
    o == ctx || (ctx.In? && Around(o, ctx.outer))
  }

  /** A table body has its frame, above those of its surroundings, however deep it is buried: with its
      number of columns, and with the number of its cells modulo the columns. */
  lemma {:induction false} TableFrame(ctx: Context, table: Context)
    requires LegalContext(ctx) && Around(table, ctx) && table.In? && table.open.OpenTableOf?
    ensures var i := |Frames(Position(table.outer))|;
            var w := Width(table.open.columns);
            && w > 0 && i < |Frames(Position(ctx))|
            && Frames(Position(ctx))[i] == Frame(TableValues, w, Remainder(Count(table.open.cells), w))
    ensures |Frames(Position(table))| == |Frames(Position(table.outer))| + 1
  {
    if table != ctx {
      TableFrame(ctx.outer, table);
      assert Frames(Position(ctx.outer)) <= Frames(Position(ctx));
    }
  }

  /** Every frame at table values, stacked or current, is that of an open table body. */
  lemma {:induction false} FrameTable(ctx: Context, i: nat) returns (table: Context)
    requires LegalContext(ctx) && i < |Frames(Position(ctx))| && Frames(Position(ctx))[i].state == TableValues
    ensures Around(table, ctx) && table.In? && table.open.OpenTableOf?
    ensures i == |Frames(Position(table.outer))|
  {
    var In(o, x) := ctx;
    var fs := Frames(Position(o));
    assert fs <= Frames(Position(ctx));
    if i < |fs| {
      assert fs[i] == Frames(Position(ctx))[i];
      table := FrameTable(o, i);
    } else {
      table := ctx;
    }
  }

  /** Over every run: each open table, current or buried, has at least one column by its counter, and
      its cell counter is the number of finished cells modulo the columns; a nested container is one cell. */
  lemma RowsOfRun(calls: seq<Call>, i: nat)
    requires i < |Frames(Run(calls).cfg)| && Frames(Run(calls).cfg)[i].state == TableValues
    ensures exists table: Context :: IsTableAt(TreeOf(calls), i, Frames(Run(calls).cfg)[i], table)
  {
    var z := TreeOf(calls);
    RunBuildsTree(calls);
    var table := FrameTable(z.ctx, i);
    TableFrame(z.ctx, table);
    assert IsTableAt(z, i, Frames(Run(calls).cfg)[i], table);
  }

  ghost predicate IsTableAt(z: Build, i: nat, f: Frame, table: Context) {
    && z.Building? && Around(table, z.ctx) && table.In? && table.open.OpenTableOf?
    && i == |Frames(Position(table.outer))|
    && f.columns == Width(table.open.columns) && f.columns > 0
    && f.column == Remainder(Count(table.open.cells), f.columns)
  }

  /** A table may be closed exactly when it is the innermost open container and has whole rows. */
  lemma TableClosedOnWholeRows(calls: seq<Call>)
    ensures Accepts(Run(calls), CloseTable)
       <==> var z := TreeOf(calls);
            && z.Building? && z.ctx.In? && z.ctx.open.OpenTableOf?
            && WholeRows(z.ctx.open.columns, Count(z.ctx.open.cells))
  {
    var z := TreeOf(calls);
    RunBuildsTree(calls);
    StepAt(Run(calls), z, CloseTable);
    if z.Building? && z.ctx.In? {
      var In(o, x) := z.ctx;
      GrowTerminator(o, x);
      if TreeIn(x).Some? {
        DeliverTree(o, x);
      }
    }
  }
}
