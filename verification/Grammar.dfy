/** The documents of the format as trees, and a reference reading of element sequences as
    trees under construction that does not know the automaton. */
module Grammar {
  import opened Integers
  import opened Elements
  import opened HalfFloat
  import opened Sequences
  import opened WriterRules

  datatype Tree =
    | Leaf(e: Element)
    | ListOf(items: Forest)
    | MapOf(pairs: Pairs)
    | TableOf(columns: Columns, cells: Forest)

  /** Trees in the order in which they are added. */
  datatype Forest = Empty | Add(before: Forest, last: Tree)

  datatype Columns = NoColumns | AddColumn(left: Columns, name: Element)

  datatype Pairs = NoPairs | AddPair(earlier: Pairs, key: Element, value: Tree)

  function Count(f: Forest): nat {
    match f
    case Empty => 0
    case Add(g, _) => Count(g) + 1
  }

  function CountColumns(cols: Columns): nat {
    match cols
    case NoColumns => 0
    case AddColumn(left, _) => CountColumns(left) + 1
  }

  // ----- the elements of a tree -----

  function Flatten(t: Tree): seq<Element> {
    match t
    case Leaf(e) => [e]
    case ListOf(f) => [ListOpen] + FlattenForest(f) + [Terminator]
    case MapOf(ps) => [MapOpen] + FlattenPairs(ps) + [Terminator]
    case TableOf(cols, f) => FlattenColumns(cols) + [Terminator] + FlattenForest(f) + [Terminator]
  }

  function FlattenForest(f: Forest): seq<Element> {
    match f
    case Empty => []
    case Add(g, t) => FlattenForest(g) + Flatten(t)
  }

  /** The opening of a table with its column names. */
  function FlattenColumns(cols: Columns): seq<Element> {
    match cols
    case NoColumns => [TableOpen]
    case AddColumn(left, e) => FlattenColumns(left) + [e]
  }

  function FlattenPairs(ps: Pairs): seq<Element> {
    match ps
    case NoPairs => []
    case AddPair(qs, k, t) => FlattenPairs(qs) + [k] + Flatten(t)
  }

  // ----- the trees that are documents -----

  /** An atomic value or string that the writer can be made to write: halves are finite, and a
      C string has no NUL before its last byte. It has no bytes at all if it is too long to be counted. */
  predicate Writable(e: Element) {
    match e
    case Scalar(k, v) => k == Float16 ==> HalfOf(e) < 0x1_0000 && !IsInfHalf(HalfOf(e))
    case Text(enc, us) => enc == CString ==> forall i :: 0 <= i < |us| - 1 ==> us[i] != 0
    case _ => !e.IsMarker()
  }

  function HalfOf(e: Element): (h: U16)
    requires e.Scalar? && e.kind == Float16
  {
    Capacities();
    e.number
  }

  predicate IsColumn(e: Element) {
    e.Text? && Writable(e)
  }

  /** n modulo w, by repeated subtraction. */
  function Remainder(n: nat, w: nat): (r: nat)
    requires w > 0
    ensures r < w
  {
    if n < w then n else Remainder(n - w, w)
  }

  lemma {:induction false} RemainderIsModulo(n: nat, w: nat)
    requires w > 0
    ensures Remainder(n, w) == n % w
  {
    if n >= w {
      RemainderIsModulo(n - w, w);
      assert n % w == (n - w) % w by {
        var q := (n - w) / w;
        assert (q + 1) * w == q * w + w;
        MultiplesAndRemainder(w, n / w, q + 1, n % w, (n - w) % w);
      }
    }
  }

  lemma {:induction false} MultiplesApart(p: int, q: int, w: nat)
    requires p < q
    ensures p * w + w <= q * w
    decreases q - p
  {
    assert (p + 1) * w == p * w + w;
    if p + 1 < q {
      MultiplesApart(p + 1, q, w);
    }
  }

  lemma MultiplesAndRemainder(w: nat, p: int, q: int, r: int, s: int)
    requires 0 <= r < w && 0 <= s < w && p * w + r == q * w + s
    ensures r == s
  {
    if p < q {
      MultiplesApart(p, q, w);
    } else if q < p {
      MultiplesApart(q, p, w);
    }
  }

  lemma {:induction false} RemainderStep(n: nat, w: nat)
    requires w > 0
    ensures Remainder(n + 1, w) == if Remainder(n, w) + 1 < w then Remainder(n, w) + 1 else 0
  {
    if n >= w {
      RemainderStep(n - w, w);
    }
  }

  /** The number of columns as the 32-bit counter has it. */
  function Width(cols: Columns): U32 {
    Remainder(CountColumns(cols), TWO_TO_THE_32)
  }

  /** Whether n cells are a number of whole rows. */
  predicate WholeRows(cols: Columns, n: nat) {
    Width(cols) > 0 && Remainder(n, Width(cols)) == 0
  }

  predicate LegalColumns(cols: Columns) {
    match cols
    case NoColumns => true
    case AddColumn(left, e) => LegalColumns(left) && IsColumn(e)
  }

  ghost predicate Legal(t: Tree) {
    match t
    case Leaf(e) => Writable(e)
    case ListOf(f) => LegalForest(f)
    case MapOf(ps) => LegalPairs(ps)
    case TableOf(cols, f) =>
      LegalColumns(cols) && LegalForest(f) && WholeRows(cols, Count(f))
  }

  ghost predicate LegalForest(f: Forest) {
    match f
    case Empty => true
    case Add(g, t) => LegalForest(g) && Legal(t)
  }

  ghost predicate LegalPairs(ps: Pairs) {
    match ps
    case NoPairs => true
    case AddPair(qs, k, t) => LegalPairs(qs) && Writable(k) && Legal(t)
  }

  // ----- trees under construction -----

  /** A container that has been opened and not closed, with what it holds so far. */
  datatype Open =
    | OpenListOf(items: Forest)
    | OpenMapOf(pairs: Pairs, key: Option<Element>)
    | OpenColumns(columns: Columns)
    | OpenTableOf(columns: Columns, cells: Forest)

  datatype Context = Top | In(outer: Context, open: Open)

  datatype Build = Building(ctx: Context) | Built(tree: Tree)

  predicate TakesContainer(ctx: Context) {
    match ctx
    case Top => true
    case In(_, OpenListOf(_)) => true
    case In(_, OpenMapOf(_, k)) => k.Some?
    case In(_, OpenColumns(_)) => false
    case In(_, OpenTableOf(_, _)) => true
  }

  /** An open container with a finished tree added to it, if it has a place for that tree. */
  function Receive(x: Open, t: Tree): Option<Open> {
    match x
    case OpenListOf(f) => Some(OpenListOf(Add(f, t)))
    case OpenMapOf(ps, None) => if t.Leaf? then Some(OpenMapOf(ps, Some(t.e))) else None
    case OpenMapOf(ps, Some(k)) => Some(OpenMapOf(AddPair(ps, k, t), None))
    case OpenColumns(cols) => if t.Leaf? && t.e.Text? then Some(OpenColumns(AddColumn(cols, t.e))) else None
    case OpenTableOf(cols, f) => Some(OpenTableOf(cols, Add(f, t)))
  }

  /** A finished tree goes into the innermost open container, or is the document. */
  function Deliver(ctx: Context, t: Tree): Option<Build> {
    match ctx
    case Top => if t.Leaf? then None else Some(Built(t))
    case In(o, x) =>
      match Receive(x, t)
      case None => None
      case Some(y) => Some(Building(In(o, y)))
  }

  function OpenIn(ctx: Context, x: Open): Option<Build> {
    if TakesContainer(ctx) then Some(Building(In(ctx, x))) else None
  }

  /** One more element; None if the grammar does not allow it there. */
  function Grow(z: Build, e: Element): Option<Build> {
    match z
    case Built(_) => None
    case Building(ctx) =>
      match e
      case ListOpen => OpenIn(ctx, OpenListOf(Empty))
      case MapOpen => OpenIn(ctx, OpenMapOf(NoPairs, None))
      case TableOpen => OpenIn(ctx, OpenColumns(NoColumns))
      case Terminator =>
        (match ctx
         case Top => None
         case In(o, OpenListOf(f)) => Deliver(o, ListOf(f))
         case In(o, OpenMapOf(ps, k)) => if k.None? then Deliver(o, MapOf(ps)) else None
         case In(o, OpenColumns(cols)) => if Width(cols) > 0 then Some(Building(In(o, OpenTableOf(cols, Empty)))) else None
         case In(o, OpenTableOf(cols, f)) =>
           if WholeRows(cols, Count(f)) then Deliver(o, TableOf(cols, f)) else None)
      case _ => Deliver(ctx, Leaf(e))
  }

  function GrowOption(o: Option<Build>, e: Element): Option<Build> {
    match o
    case None => None
    case Some(z) => Grow(z, e)
  }

  function GrowAll(es: seq<Element>): Option<Build> {
    RunAll(GrowOption, Some(Building(Top)), es)
  }

  // ----- what has been emitted for a tree under construction -----

  function OpenElements(x: Open): seq<Element> {
    match x
    case OpenListOf(f) => [ListOpen] + FlattenForest(f)
    case OpenMapOf(ps, None) => [MapOpen] + FlattenPairs(ps)
    case OpenMapOf(ps, Some(k)) => [MapOpen] + FlattenPairs(ps) + [k]
    case OpenColumns(cols) => FlattenColumns(cols)
    case OpenTableOf(cols, f) => FlattenColumns(cols) + [Terminator] + FlattenForest(f)
  }

  function ContextElements(ctx: Context): seq<Element> {
    match ctx
    case Top => []
    case In(o, x) => ContextElements(o) + OpenElements(x)
  }

  function BuildElements(z: Build): seq<Element> {
    match z
    case Building(ctx) => ContextElements(ctx)
    case Built(t) => Flatten(t)
  }

  lemma ReceiveElements(x: Open, t: Tree)
    requires Receive(x, t).Some?
    ensures OpenElements(Receive(x, t).value) == OpenElements(x) + Flatten(t)
  {
    match x
    case OpenListOf(f) => ConcatAssociative([ListOpen], FlattenForest(f), Flatten(t));
    case OpenMapOf(ps, None) =>
    case OpenMapOf(ps, Some(k)) =>
      ConcatAssociative([MapOpen], FlattenPairs(ps) + [k], Flatten(t));
      ConcatAssociative([MapOpen], FlattenPairs(ps), [k]);
    case OpenColumns(cols) =>
    case OpenTableOf(cols, f) =>
      ConcatAssociative(FlattenColumns(cols) + [Terminator], FlattenForest(f), Flatten(t));
  }

  lemma DeliverElements(ctx: Context, t: Tree)
    requires Deliver(ctx, t).Some?
    ensures BuildElements(Deliver(ctx, t).value) == ContextElements(ctx) + Flatten(t)
  {
    match ctx
    case Top =>
    case In(o, x) =>
      ReceiveElements(x, t);
      ConcatAssociative(ContextElements(o), OpenElements(x), Flatten(t));
  }

  /** Reading another element adds that element. */
  lemma GrowElements(z: Build, e: Element)
    requires Grow(z, e).Some?
    ensures BuildElements(Grow(z, e).value) == BuildElements(z) + [e]
  {
    var ctx := z.ctx;
    if e.Terminator? {
      match ctx
      case In(o, OpenListOf(f)) => DeliverElements(o, ListOf(f));
      case In(o, OpenMapOf(ps, _)) => DeliverElements(o, MapOf(ps));
      case In(o, OpenTableOf(cols, f)) => DeliverElements(o, TableOf(cols, f));
      case In(o, OpenColumns(cols)) =>
        var head := FlattenColumns(cols) + [Terminator];
        assert head + FlattenForest(Empty) == head;
    } else if !e.IsMarker() {
      DeliverElements(ctx, Leaf(e));
    }
  }

  // ----- contexts that can arise -----

  ghost predicate LegalOpen(x: Open) {
    match x
    case OpenListOf(f) => LegalForest(f)
    case OpenMapOf(ps, k) => LegalPairs(ps) && (k.Some? ==> Writable(k.value))
    case OpenColumns(cols) => LegalColumns(cols)
    case OpenTableOf(cols, f) => LegalColumns(cols) && LegalForest(f) && Width(cols) > 0
  }

  ghost predicate LegalContext(ctx: Context) {
    match ctx
    case Top => true
    case In(o, x) => LegalContext(o) && TakesContainer(o) && LegalOpen(x)
  }

  ghost predicate LegalBuild(z: Build) {
    match z
    case Building(ctx) => LegalContext(ctx)
    case Built(t) => Legal(t) && !t.Leaf?
  }

  lemma DeliverLegal(ctx: Context, t: Tree)
    requires LegalContext(ctx) && Legal(t) && Deliver(ctx, t).Some?
    ensures LegalBuild(Deliver(ctx, t).value)
  {
  }

  lemma GrowLegal(z: Build, e: Element)
    requires LegalBuild(z) && Grow(z, e).Some?
    requires e.IsMarker() || Writable(e)
    ensures LegalBuild(Grow(z, e).value)
  {
    var ctx := z.ctx;
    if e.Terminator? {
      match ctx
      case In(o, OpenListOf(f)) => DeliverLegal(o, ListOf(f));
      case In(o, OpenMapOf(ps, _)) => DeliverLegal(o, MapOf(ps));
      case In(o, OpenTableOf(cols, f)) => DeliverLegal(o, TableOf(cols, f));
      case In(o, OpenColumns(cols)) =>
    } else if !e.IsMarker() {
      DeliverLegal(ctx, Leaf(e));
    }
  }
}
