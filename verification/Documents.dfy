/** The automaton accepts exactly the documents of the grammar. */
module Documents {
  import opened Integers
  import opened DocState
  import opened Elements
  import opened HalfFloat
  import opened Sequences
  import opened WriterRules
  import opened Grammar

  // ----- where the automaton stands for a tree under construction -----

  /** The frames of an open container on top of those of its surroundings. A pending map key has
      a frame of its own; a table counts its columns, and its cells modulo the columns. */
  function Place(x: Open, c: Config): Config {
    match x
    case OpenListOf(_) => Next(List, c)
    case OpenMapOf(_, None) => Next(DictKey, c)
    case OpenMapOf(_, Some(_)) => Next(DictValue, Next(DictKey, c))
    case OpenColumns(cols) => Next(TableColumns, c).(cur := Frame(TableColumns, Width(cols), 0))
    case OpenTableOf(cols, f) =>
      var w := Width(cols);
      Next(TableValues, c).(cur := Frame(TableValues, w, if w == 0 then 0 else Remainder(Count(f), w)))
  }

  function Position(ctx: Context): Config {
    match ctx
    case Top => INITIAL
    case In(o, x) => Place(x, Position(o))
  }

  function Standing(z: Build): Config {
    match z
    case Building(ctx) => Position(ctx)
    case Built(_) => Config(Frame(Closed, 0, 0), [])
  }

  lemma TakesContainerState(ctx: Context)
    ensures TakesContainer(ctx) <==> AllowContainer(Position(ctx).cur.state)
    ensures ctx.Top? <==> Position(ctx).cur.state == Root
    ensures Position(ctx).cur.state != Closed
  {
  }

  lemma {:induction false} PositionShaped(ctx: Context)
    requires LegalContext(ctx)
    ensures Shaped(Position(ctx))
  {
    match ctx
    case Top =>
    case In(o, x) =>
      PositionShaped(o);
      TakesContainerState(o);
      PlaceShaped(x, Position(o));
  }

  lemma PlaceShaped(x: Open, c: Config)
    requires Shaped(c) && c.cur.state != Closed
    ensures Shaped(Place(x, c))
  {
    match x
    case OpenListOf(_) => ShapedNext(List, c);
    case OpenMapOf(_, None) => ShapedNext(DictKey, c);
    case OpenMapOf(_, Some(_)) =>
      ShapedNext(DictKey, c);
      ShapedNext(DictValue, Next(DictKey, c));
    case OpenColumns(cols) =>
      ShapedNext(TableColumns, c);
      ShapedCur(Next(TableColumns, c), Place(x, c).cur);
    case OpenTableOf(_, _) =>
      ShapedNext(TableValues, c);
      ShapedCur(Next(TableValues, c), Place(x, c).cur);
  }

  lemma BuildShaped(z: Build)
    requires LegalBuild(z)
    ensures Shaped(Standing(z))
  {
    match z
    case Building(ctx) => PositionShaped(ctx);
    case Built(_) =>
  }

  // ----- one tree more -----

  /** How the automaton is told of a finished tree. */
  function EventOf(t: Tree): Event {
    match t
    case Leaf(e) => if e.Text? then StringFound else AtomicFound
    case _ => ContainerClosed
  }

  lemma NextCellCounts(w: U32, n: nat)
    requires w > 0
    ensures NextCell(Frame(TableValues, w, Remainder(n, w))) == Frame(TableValues, w, Remainder(n + 1, w))
  {
    RemainderStep(n, w);
  }

  lemma NextColumnCounts(cols: Columns, e: Element)
    ensures NextColumn(Frame(TableColumns, Width(cols), 0)) == Frame(TableColumns, Width(AddColumn(cols, e)), 0)
  {
    RemainderStep(CountColumns(cols), TWO_TO_THE_32);
  }

  /** Telling the automaton of a tree moves it to where the container stands with that tree. */
  lemma ReceiveSwitch(x: Open, c: Config, t: Tree)
    requires LegalOpen(x) && Receive(x, t).Some?
    ensures Place(x, c).stack != []
    ensures Switch(EventOf(t), Place(x, c)) == Place(Receive(x, t).value, c)
  {
    match x
    case OpenListOf(_) =>
    case OpenMapOf(_, None) =>
    case OpenMapOf(_, Some(_)) =>
      assert Next(DictValue, Next(DictKey, c)).stack[..|c.stack| + 1] == c.stack + [c.cur];
    case OpenColumns(cols) => NextColumnCounts(cols, t.e);
    case OpenTableOf(cols, f) => NextCellCounts(Width(cols), Count(f));
  }

  lemma ReceiveLeaf(x: Open, c: Config, e: Element)
    requires !e.IsMarker()
    ensures var s := Place(x, c).cur.state;
            Receive(x, Leaf(e)).Some? <==> if e.Text? then AllowString(s) else AllowAtomic(s)
  {
  }

  /** Popping a container's frame uncovers that of its surroundings; ROOT becomes CLOSED. */
  lemma PlacePrev(x: Open, c: Config)
    requires x.OpenMapOf? ==> x.key.None?
    ensures Place(x, c).stack != []
    ensures Prev(Place(x, c)) == Config(Reopened(c.cur), c.stack)
  {
    assert Place(x, c).stack == c.stack + [c.cur];
    assert (c.stack + [c.cur])[..|c.stack|] == c.stack;
  }

  /** Closing a container moves the automaton to where its surroundings stand with the container added. */
  lemma DeliverSwitch(o: Context, t: Tree)
    requires LegalContext(o) && TakesContainer(o) && !t.Leaf?
    ensures Deliver(o, t).Some?
    ensures var c := Config(Reopened(Position(o).cur), Position(o).stack);
            && (c.cur.state == DictValue ==> c.stack != [])
            && Switch(ContainerClosed, c) == Standing(Deliver(o, t).value)
  {
    TakesContainerState(o);
    match o
    case Top =>
    case In(oo, y) => ReceiveSwitch(y, Position(oo), t);
  }

  lemma DeliverClose(o: Context, x: Open, t: Tree)
    requires LegalContext(In(o, x)) && !t.Leaf?
    requires x.OpenMapOf? ==> x.key.None?
    ensures Deliver(o, t).Some?
    ensures Place(x, Position(o)).stack != [] && Shaped(Place(x, Position(o)))
    ensures CloseContainer(Place(x, Position(o))) == Standing(Deliver(o, t).value)
  {
    PositionShaped(In(o, x));
    PlacePrev(x, Position(o));
    DeliverSwitch(o, t);
  }

  // ----- which calls the grammar allows -----

  predicate Matches(call: Call, x: Open) {
    match call
    case CloseList => x.OpenListOf?
    case CloseMap => x.OpenMapOf?
    case EndColumns => x.OpenColumns?
    case CloseTable => x.OpenTableOf?
    case _ => false
  }

  /** The call adds an element that the grammar allows here, closes what is open, and does not
      lose a number that is too large for a half. */
  ghost predicate Fits(z: Build, call: Call) {
    && Grow(z, ElementOf(call)).Some?
    && (call.IsClose() ==> z.ctx.In? && Matches(call, z.ctx.open))
    && (call.AddFloat16? ==> InHalfRange(call.single))
  }

  /** The tree that an open container becomes, if it may be closed now. */
  function TreeIn(x: Open): Option<Tree> {
    match x
    case OpenListOf(f) => Some(ListOf(f))
    case OpenMapOf(ps, k) => if k.None? then Some(MapOf(ps)) else None
    case OpenColumns(_) => None
    case OpenTableOf(cols, f) => if WholeRows(cols, Count(f)) then Some(TableOf(cols, f)) else None
  }

  lemma GrowTerminator(o: Context, x: Open)
    ensures Grow(Building(In(o, x)), Terminator)
         == if x.OpenColumns? then
              (if Width(x.columns) > 0 then Some(Building(In(o, OpenTableOf(x.columns, Empty)))) else None)
            else if TreeIn(x).Some? then Deliver(o, TreeIn(x).value)
            else None
  {
  }

  lemma DeliverTree(o: Context, x: Open)
    requires LegalContext(In(o, x)) && TreeIn(x).Some?
    ensures Deliver(o, TreeIn(x).value).Some?
    ensures Place(x, Position(o)).stack != [] && Shaped(Place(x, Position(o)))
    ensures CloseContainer(Place(x, Position(o))) == Standing(Deliver(o, TreeIn(x).value).value)
  {
    DeliverClose(o, x, TreeIn(x).value);
  }

  lemma CloseVerdict(ctx: Context, call: Call)
    requires LegalContext(ctx) && call.IsClose()
    ensures Shaped(Position(ctx))
    ensures Verdict(Position(ctx), call) == SUCCESS <==> Fits(Building(ctx), call)
  {
    PositionShaped(ctx);
    match ctx
    case Top =>
    case In(o, x) =>
      GrowTerminator(o, x);
      if TreeIn(x).Some? {
        DeliverTree(o, x);
      }
  }

  lemma LeafVerdict(ctx: Context, call: Call)
    requires LegalContext(ctx) && !ElementOf(call).IsMarker()
    ensures Shaped(Position(ctx))
    ensures Verdict(Position(ctx), call) == SUCCESS <==> Fits(Building(ctx), call)
  {
    PositionShaped(ctx);
    if call.AddFloat16? {
      RejectedExactly(call.single);
    }
    match ctx
    case Top =>
    case In(o, x) => ReceiveLeaf(x, Position(o), ElementOf(call));
  }

  /** A call is accepted if and only if it fits the grammar. */
  lemma AcceptedIffFits(z: Build, call: Call)
    requires LegalBuild(z)
    ensures Shaped(Standing(z))
    ensures Verdict(Standing(z), call) == SUCCESS <==> Fits(z, call)
  {
    BuildShaped(z);
    match z
    case Built(_) =>
    case Building(ctx) =>
      TakesContainerState(ctx);
      if call.IsClose() {
        CloseVerdict(ctx, call);
      } else if !ElementOf(call).IsMarker() {
        LeafVerdict(ctx, call);
      }
  }

  lemma CloseMoves(ctx: Context, call: Call)
    requires LegalContext(ctx) && call.IsClose()
    requires Shaped(Position(ctx)) && Verdict(Position(ctx), call) == SUCCESS && Fits(Building(ctx), call)
    ensures Advance(Position(ctx), call) == Standing(Grow(Building(ctx), Terminator).value)
  {
    var In(o, x) := ctx;
    GrowTerminator(o, x);
    if !x.OpenColumns? {
      DeliverTree(o, x);
    }
  }

  /** An accepted call moves the automaton to where the tree stands with the new element. */
  lemma AcceptedMoves(z: Build, call: Call)
    requires LegalBuild(z) && Fits(z, call)
    ensures Shaped(Standing(z)) && Verdict(Standing(z), call) == SUCCESS
    ensures Advance(Standing(z), call) == Standing(Grow(z, ElementOf(call)).value)
  {
    AcceptedIffFits(z, call);
    if call.IsClose() {
      CloseMoves(z.ctx, call);
    } else if !ElementOf(call).IsMarker() {
      ReceiveSwitch(z.ctx.open, Position(z.ctx.outer), Leaf(ElementOf(call)));
    }
  }

  lemma AcceptedIsWritable(z: Build, call: Call)
    requires Fits(z, call)
    ensures ElementOf(call).IsMarker() || Writable(ElementOf(call))
  {
    match call
    case AddFloat16(x) => RejectedExactly(x);
    case AddCString(s, n) => CStringCanonical(s, n);
    case _ =>
  }

  // ----- whole runs -----

  /** The document and the tree under construction agree in every respect. */
  ghost predicate At(d: Doc, z: Build) {
    && LegalBuild(z)
    && GrowAll(d.log) == Some(z)
    && d.cfg == Standing(z)
    && d.log == BuildElements(z)
  }

  lemma StepAt(d: Doc, z: Build, call: Call)
    requires At(d, z)
    ensures Accepts(d, call) <==> Fits(z, call)
    ensures Accepts(d, call) ==> At(Step(d, call), Grow(z, ElementOf(call)).value)
  {
    AcceptedIffFits(z, call);
    if Fits(z, call) {
      var e := ElementOf(call);
      AcceptedMoves(z, call);
      AcceptedIsWritable(z, call);
      GrowLegal(z, e);
      GrowElements(z, e);
      RunSnoc(GrowOption, Some(Building(Top)), d.log, e);
    }
  }

  ghost predicate Tracked(d: Doc) {
    GrowAll(d.log).Some? && At(d, GrowAll(d.log).value)
  }

  /** What the reference reading makes of the elements accepted in a run. */
  function TreeOf(calls: seq<Call>): Build {
    var o := GrowAll(Run(calls).log);
    if o.Some? then o.value else Building(Top)
  }

  /** Over every run the automaton stands exactly where the tree under construction stands, the tree is
      legal, and its elements are those accepted. */
  lemma RunBuildsTree(calls: seq<Call>)
    ensures At(Run(calls), TreeOf(calls))
  {
    assert At(EMPTY, Building(Top));
    forall d: Doc, call: Call | Tracked(d) ensures Tracked(Step(d, call)) {
      StepAt(d, GrowAll(d.log).value, call);
    }
    InvariantKept(Step, (d: Doc) => Tracked(d), EMPTY, calls, 0, |calls|);
  }

  /** The code that a call returns after any run. It is decided by the tree under construction: closing
      what cannot be closed, a number that is no half in a place for values, or anything out of place. */
  lemma StatusOfCall(calls: seq<Call>, call: Call)
    ensures var z := TreeOf(calls);
            Verdict(Run(calls).cfg, call)
            == if Fits(z, call) then 0
               else if call.CloseList? || call.CloseMap? || call.EndColumns? || call.CloseTable? then 5505
               else if call.AddFloat16? && Fits(z, AddAtom(NoneValue)) then 5503
               else 5504
  {
    RunBuildsTree(calls);
    AcceptedIffFits(TreeOf(calls), call);
    AcceptedIffFits(TreeOf(calls), AddAtom(NoneValue));
    if Verdict(Run(calls).cfg, call) != 0 {
      RejectedWith(Run(calls).cfg, call);
    }
  }

  /** Soundness: whatever the calls, a closed document holds exactly one legal container tree. */
  lemma ClosedIsTree(calls: seq<Call>)
    requires Run(calls).cfg.cur.state == Closed
    ensures var z := TreeOf(calls);
            && z.Built? && Legal(z.tree) && !z.tree.Leaf?
            && Bytes(Run(calls)) == HEADER + EncodeAll(Flatten(z.tree))
  {
    var z := TreeOf(calls);
    RunBuildsTree(calls);
    if z.Building? {
      TakesContainerState(z.ctx);
    }
  }
}
