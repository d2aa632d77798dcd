/** Every document of the grammar can be written, and its elements determine it. */
module Completeness {
  import opened Integers
  import opened DocState
  import opened Elements
  import opened HalfFloat
  import opened Sequences
  import opened WriterRules
  import opened Grammar
  import opened Documents

  // ----- the calls that write a tree -----

  function AsBytes(us: seq<nat>): (bs: seq<Byte>)
    requires forall u :: u in us ==> u < 0x100
    ensures bs == us
  {
    if us == [] then [] else
      var n := |us| - 1;
      assert us[n] in us && us == us[..n] + [us[n]] && forall u :: u in us[..n] ==> u in us;
      AsBytes(us[..n]) + [us[n]]
  }

  lemma {:induction false} StrNLenOf(s: seq<Byte>, n: nat)
    requires n <= |s| && forall i :: 0 <= i < n ==> s[i] != 0
    ensures StrNLen(s, n) == n
  {
    if n > 0 {
      StrNLenOf(s[1..], n - 1);
    }
  }

  /** Only a C string that is too long to be counted is written as no bytes. */
  function WriteNoBytes(): (call: Call)
    ensures ElementOf(call) == Text(CString, [])
    ensures !call.IsClose() && !call.AddFloat16?
  {
    var n := TWO_TO_THE_32 - 1;
    var s: seq<Byte> := seq(n, _ => 0x61);
    StrNLenOf(s, n);
    AddCString(s, n)
  }

  /** A half is written as the float that it becomes. */
  function WriteHalf(e: Element): (call: Call)
    requires Writable(e) && e.Scalar? && e.kind == Float16
    ensures ElementOf(call) == e && !call.IsClose()
    ensures call.AddFloat16? && InHalfRange(call.single)
  {
    HalfRoundTrip(HalfOf(e));
    RejectedExactly(HalfToFloat(HalfOf(e)));
    AddFloat16(HalfToFloat(HalfOf(e)))
  }

  lemma WrittenWhole(bs: seq<Byte>)
    requires 0 < |bs| < TWO_TO_THE_32 && forall i :: 0 <= i < |bs| - 1 ==> bs[i] != 0
    ensures InMemory(bs, |bs| - 1) && CStringBytes(bs, |bs| - 1) == bs
  {
    StrNLenOf(bs, |bs| - 1);
  }

  function WriteCString(e: Element): (call: Call)
    requires Writable(e) && e.Text? && e.encoding == CString
    ensures ElementOf(call) == e && !call.IsClose()
    ensures !call.AddFloat16?
  {
    if e.units == [] then WriteNoBytes() else
      Capacities();
      var bs := AsBytes(e.units);
      WrittenWhole(bs);
      AddCString(bs, |bs| - 1)
  }

  /** A call that writes a value. */
  function WriteLeaf(e: Element): (call: Call)
    requires Writable(e)
    ensures ElementOf(call) == e && !call.IsClose()
    ensures call.AddFloat16? ==> InHalfRange(call.single)
  {
    if e.Scalar? && e.kind == Float16 then WriteHalf(e)
    else if e.Text? && e.encoding == CString then WriteCString(e)
    else if e.Text? then AddText(e)
    else AddAtom(e)
  }

  function WriteColumns(cols: Columns): seq<Call>
    requires LegalColumns(cols)
  {
    match cols
    case NoColumns => [OpenTable]
    case AddColumn(left, e) => WriteColumns(left) + [WriteLeaf(e)]
  }

  function WriteTree(t: Tree): seq<Call>
    requires Legal(t)
  {
    match t
    case Leaf(e) => [WriteLeaf(e)]
    case ListOf(f) => [OpenList] + WriteForest(f) + [CloseList]
    case MapOf(ps) => [OpenMap] + WritePairs(ps) + [CloseMap]
    case TableOf(cols, f) =>
      WriteColumns(cols) + [EndColumns] + WriteForest(f) + [CloseTable]
  }

  function WriteForest(f: Forest): seq<Call>
    requires LegalForest(f)
  {
    match f
    case Empty => []
    case Add(g, t) => WriteForest(g) + WriteTree(t)
  }

  function WritePairs(ps: Pairs): seq<Call>
    requires LegalPairs(ps)
  {
    match ps
    case NoPairs => []
    case AddPair(qs, k, t) => WritePairs(qs) + [WriteLeaf(k)] + WriteTree(t)
  }

  // ----- what a run of calls leads to -----

  /** From d, all of the calls are accepted, add the elements es, and lead to z. */
  ghost predicate Leads(d: Doc, calls: seq<Call>, z: Build, es: seq<Element>) {
    && AllAccepted(d, calls)
    && At(After(d, calls), z)
    && After(d, calls).log == d.log + es
  }

  lemma LeadsNowhere(d: Doc, z: Build)
    requires At(d, z)
    ensures Leads(d, [], z, [])
  {
  }

  lemma LeadsOne(d: Doc, z: Build, call: Call)
    requires At(d, z) && Fits(z, call)
    ensures Leads(d, [call], Grow(z, ElementOf(call)).value, [ElementOf(call)])
  {
    StepAt(d, z, call);
    RunSnoc(Step, d, [], call);
    assert [] + [call] == [call];
    assert HoldsAt(Accepts, Step, d, [call], 0);
  }

  lemma LeadsOn(d: Doc, a: seq<Call>, y: Build, es: seq<Element>, b: seq<Call>, z: Build, fs: seq<Element>)
    requires Leads(d, a, y, es) && Leads(After(d, a), b, z, fs)
    ensures Leads(d, a + b, z, es + fs)
  {
    HoldsThroughoutConcat(Accepts, Step, d, a, b);
    RunConcat(Step, d, a, b);
    ConcatAssociative(d.log, es, fs);
  }

  /** One call more. */
  lemma LeadsOnOne(d: Doc, a: seq<Call>, y: Build, es: seq<Element>, call: Call, z: Build)
    requires Leads(d, a, y, es) && Fits(y, call) && Grow(y, ElementOf(call)) == Some(z)
    ensures Leads(d, a + [call], z, es + [ElementOf(call)])
  {
    LeadsOne(After(d, a), y, call);
    LeadsOn(d, a, y, es, [call], z, [ElementOf(call)]);
  }

  /** An open container that may be closed is closed by its own call. */
  lemma CloseFits(ctx: Context, x: Open, call: Call, t: Tree)
    requires TreeIn(x) == Some(t) && Matches(call, x) && call != EndColumns && Deliver(ctx, t).Some?
    ensures Fits(Building(In(ctx, x)), call)
    ensures Grow(Building(In(ctx, x)), Terminator) == Deliver(ctx, t)
  {
    GrowTerminator(ctx, x);
  }

  lemma EndColumnsFits(ctx: Context, cols: Columns)
    requires Width(cols) > 0
    ensures Fits(Building(In(ctx, OpenColumns(cols))), EndColumns)
    ensures Grow(Building(In(ctx, OpenColumns(cols))), Terminator) == Some(Building(In(ctx, OpenTableOf(cols, Empty))))
  {
    GrowTerminator(ctx, OpenColumns(cols));
  }

  lemma LeafFits(ctx: Context, x: Open, e: Element, y: Open)
    requires Writable(e) && Receive(x, Leaf(e)) == Some(y)
    ensures Fits(Building(In(ctx, x)), WriteLeaf(e))
    ensures Grow(Building(In(ctx, x)), e) == Some(Building(In(ctx, y)))
  {
  }

  lemma LeafLeads(d: Doc, a: seq<Call>, ctx: Context, x: Open, es: seq<Element>, e: Element, y: Open)
    requires Leads(d, a, Building(In(ctx, x)), es)
    requires Writable(e) && Receive(x, Leaf(e)) == Some(y)
    ensures Leads(d, a + [WriteLeaf(e)], Building(In(ctx, y)), es + [e])
  {
    LeafFits(ctx, x, e, y);
    LeadsOnOne(d, a, Building(In(ctx, x)), es, WriteLeaf(e), Building(In(ctx, y)));
  }

  // ----- writing a tree where there is a place for it -----

  /** A list or table body that holds f. */
  function Holding(x: Open, f: Forest): Open
    requires x.OpenListOf? || x.OpenTableOf?
  {
    if x.OpenListOf? then OpenListOf(f) else OpenTableOf(x.columns, f)
  }

  lemma {:induction false} ForestLeads(d: Doc, o: Context, x: Open, f: Forest)
    requires x.OpenListOf? || x.OpenTableOf?
    requires LegalForest(f) && At(d, Building(In(o, Holding(x, Empty))))
    ensures Leads(d, WriteForest(f), Building(In(o, Holding(x, f))), FlattenForest(f))
    decreases f, 0
  {
    match f
    case Empty => LeadsNowhere(d, Building(In(o, Holding(x, Empty))));
    case Add(g, t) =>
      ForestLeads(d, o, x, g);
      TreeLeads(After(d, WriteForest(g)), In(o, Holding(x, g)), t);
      LeadsOn(d, WriteForest(g), Building(In(o, Holding(x, g))), FlattenForest(g),
              WriteTree(t), Building(In(o, Holding(x, f))), Flatten(t));
  }

  lemma {:induction false} PairsLead(d: Doc, o: Context, ps: Pairs)
    requires LegalPairs(ps) && At(d, Building(In(o, OpenMapOf(NoPairs, None))))
    ensures Leads(d, WritePairs(ps), Building(In(o, OpenMapOf(ps, None))), FlattenPairs(ps))
    decreases ps, 0
  {
    match ps
    case NoPairs => LeadsNowhere(d, Building(In(o, OpenMapOf(NoPairs, None))));
    case AddPair(qs, k, t) =>
      PairsLead(d, o, qs);
      var a, y := WritePairs(qs) + [WriteLeaf(k)], Building(In(o, OpenMapOf(qs, Some(k))));
      LeafLeads(d, WritePairs(qs), o, OpenMapOf(qs, None), FlattenPairs(qs), k, OpenMapOf(qs, Some(k)));
      TreeLeads(After(d, a), y.ctx, t);
      LeadsOn(d, a, y, FlattenPairs(qs) + [k], WriteTree(t), Building(In(o, OpenMapOf(ps, None))), Flatten(t));
  }

  lemma {:induction false} ColumnsLead(d: Doc, ctx: Context, cols: Columns)
    requires LegalColumns(cols) && TakesContainer(ctx) && At(d, Building(ctx))
    ensures Leads(d, WriteColumns(cols), Building(In(ctx, OpenColumns(cols))), FlattenColumns(cols))
  {
    match cols
    case NoColumns => LeadsOne(d, Building(ctx), OpenTable);
    case AddColumn(left, e) =>
      ColumnsLead(d, ctx, left);
      LeafLeads(d, WriteColumns(left), ctx, OpenColumns(left), FlattenColumns(left), e, OpenColumns(cols));
  }

  lemma {:induction false} ListBodyLeads(d: Doc, ctx: Context, f: Forest)
    requires LegalForest(f) && TakesContainer(ctx) && At(d, Building(ctx))
    ensures Leads(d, [OpenList] + WriteForest(f), Building(In(ctx, OpenListOf(f))), [ListOpen] + FlattenForest(f))
    decreases f, 1
  {
    var x := OpenListOf(Empty);
    LeadsOne(d, Building(ctx), OpenList);
    ForestLeads(After(d, [OpenList]), ctx, x, f);
    LeadsOn(d, [OpenList], Building(In(ctx, x)), [ListOpen],
            WriteForest(f), Building(In(ctx, OpenListOf(f))), FlattenForest(f));
  }

  lemma {:induction false} MapBodyLeads(d: Doc, ctx: Context, ps: Pairs)
    requires LegalPairs(ps) && TakesContainer(ctx) && At(d, Building(ctx))
    ensures Leads(d, [OpenMap] + WritePairs(ps), Building(In(ctx, OpenMapOf(ps, None))), [MapOpen] + FlattenPairs(ps))
    decreases ps, 1
  {
    var x := OpenMapOf(NoPairs, None);
    LeadsOne(d, Building(ctx), OpenMap);
    PairsLead(After(d, [OpenMap]), ctx, ps);
    LeadsOn(d, [OpenMap], Building(In(ctx, x)), [MapOpen],
            WritePairs(ps), Building(In(ctx, OpenMapOf(ps, None))), FlattenPairs(ps));
  }

  /** Closing what has been written so far. */
  lemma CloseLeads(d: Doc, a: seq<Call>, ctx: Context, x: Open, es: seq<Element>, call: Call, t: Tree)
    requires Leads(d, a, Building(In(ctx, x)), es)
    requires TreeIn(x) == Some(t) && Matches(call, x) && call != EndColumns && Deliver(ctx, t).Some?
    ensures Leads(d, a + [call], Deliver(ctx, t).value, es + [Terminator])
  {
    CloseFits(ctx, x, call, t);
    LeadsOnOne(d, a, Building(In(ctx, x)), es, call, Deliver(ctx, t).value);
  }

  lemma HeadLeads(d: Doc, ctx: Context, cols: Columns)
    requires LegalColumns(cols) && Width(cols) > 0 && TakesContainer(ctx) && At(d, Building(ctx))
    ensures Leads(d, WriteColumns(cols) + [EndColumns],
                  Building(In(ctx, OpenTableOf(cols, Empty))), FlattenColumns(cols) + [Terminator])
  {
    ColumnsLead(d, ctx, cols);
    EndColumnsFits(ctx, cols);
    LeadsOnOne(d, WriteColumns(cols), Building(In(ctx, OpenColumns(cols))), FlattenColumns(cols),
               EndColumns, Building(In(ctx, OpenTableOf(cols, Empty))));
  }

  lemma {:induction false} RowsLead(d: Doc, ctx: Context, cols: Columns, f: Forest)
    requires Legal(TableOf(cols, f)) && TakesContainer(ctx) && At(d, Building(ctx))
    ensures Leads(d, WriteColumns(cols) + [EndColumns] + WriteForest(f),
                  Building(In(ctx, OpenTableOf(cols, f))), FlattenColumns(cols) + [Terminator] + FlattenForest(f))
    decreases f, 1
  {
    var a, es := WriteColumns(cols) + [EndColumns], FlattenColumns(cols) + [Terminator];
    var x := OpenTableOf(cols, Empty);
    HeadLeads(d, ctx, cols);
    ForestLeads(After(d, a), ctx, x, f);
    LeadsOn(d, a, Building(In(ctx, x)), es, WriteForest(f), Building(In(ctx, OpenTableOf(cols, f))), FlattenForest(f));
  }

  lemma {:induction false} ListLeads(d: Doc, ctx: Context, f: Forest)
    requires LegalForest(f) && TakesContainer(ctx) && At(d, Building(ctx)) && Deliver(ctx, ListOf(f)).Some?
    ensures Leads(d, WriteTree(ListOf(f)), Deliver(ctx, ListOf(f)).value, Flatten(ListOf(f)))
    decreases f, 2
  {
    ListBodyLeads(d, ctx, f);
    var t := ListOf(f);
    CloseLeads(d, [OpenList] + WriteForest(f), ctx, OpenListOf(f), [ListOpen] + FlattenForest(f), CloseList, t);
  }

  lemma {:induction false} MapLeads(d: Doc, ctx: Context, ps: Pairs)
    requires LegalPairs(ps) && TakesContainer(ctx) && At(d, Building(ctx)) && Deliver(ctx, MapOf(ps)).Some?
    ensures Leads(d, WriteTree(MapOf(ps)), Deliver(ctx, MapOf(ps)).value, Flatten(MapOf(ps)))
    decreases ps, 2
  {
    MapBodyLeads(d, ctx, ps);
    var t := MapOf(ps);
    CloseLeads(d, [OpenMap] + WritePairs(ps), ctx, OpenMapOf(ps, None), [MapOpen] + FlattenPairs(ps), CloseMap, t);
  }

  lemma {:induction false} TableLeads(d: Doc, ctx: Context, cols: Columns, f: Forest)
    requires Legal(TableOf(cols, f)) && TakesContainer(ctx) && At(d, Building(ctx))
    requires Deliver(ctx, TableOf(cols, f)).Some?
    ensures Leads(d, WriteTree(TableOf(cols, f)), Deliver(ctx, TableOf(cols, f)).value, Flatten(TableOf(cols, f)))
    decreases f, 2
  {
    RowsLead(d, ctx, cols, f);
    CloseLeads(d, WriteColumns(cols) + [EndColumns] + WriteForest(f), ctx, OpenTableOf(cols, f),
               FlattenColumns(cols) + [Terminator] + FlattenForest(f), CloseTable, TableOf(cols, f));
  }

  /** Wherever there is a place for a legal tree it can be written, call by call. */
  lemma {:induction false} TreeLeads(d: Doc, ctx: Context, t: Tree)
    requires Legal(t) && At(d, Building(ctx)) && Deliver(ctx, t).Some?
    requires !t.Leaf? ==> TakesContainer(ctx)
    ensures Leads(d, WriteTree(t), Deliver(ctx, t).value, Flatten(t))
    decreases t, 0
  {
    match t
    case Leaf(e) => LeadsOne(d, Building(ctx), WriteLeaf(e));
    case ListOf(f) => ListLeads(d, ctx, f);
    case MapOf(ps) => MapLeads(d, ctx, ps);
    case TableOf(cols, f) => TableLeads(d, ctx, cols, f);
  }

  /** Completeness: every legal container tree can be written with no call rejected, and the
      result is a closed document with exactly its elements. */
  lemma EveryTreeIsWritten(t: Tree)
    requires Legal(t) && !t.Leaf?
    ensures AllAccepted(EMPTY, WriteTree(t))
    ensures Run(WriteTree(t)).cfg.cur.state == Closed && Run(WriteTree(t)).log == Flatten(t)
    ensures Bytes(Run(WriteTree(t))) == HEADER + EncodeAll(Flatten(t))
    ensures TreeOf(WriteTree(t)) == Built(t)
  {
    assert At(EMPTY, Building(Top));
    TreeLeads(EMPTY, Top, t);
    assert [] + Flatten(t) == Flatten(t);
  }

  /** The elements, and so the bytes, determine the tree. */
  lemma BytesDetermineTree(s: Tree, t: Tree)
    requires Legal(s) && !s.Leaf? && Legal(t) && !t.Leaf?
    requires EncodeAll(Flatten(s)) == EncodeAll(Flatten(t))
    ensures s == t
  {
    EncodeAllInjective(Flatten(s), Flatten(t));
    EveryTreeIsWritten(s);
    EveryTreeIsWritten(t);
  }
}
