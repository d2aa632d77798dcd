/** The document automaton: which elements may come next, and what each one does to the
    current frame and the stack of enclosing frames. */
module DocState {
  import opened Integers

  datatype State = Root | List | DictKey | DictValue | Closed | TableColumns | TableValues

  datatype Event = AtomicFound | ContainerClosed | StringFound

  datatype Frame = Frame(state: State, columns: U32, column: U32)

  /** The current frame and the frames below it; the last one is the top of the stack. */
  datatype Config = Config(cur: Frame, stack: seq<Frame>)

  const ROOT_FRAME := Frame(Root, 0, 0)
  const INITIAL := Config(ROOT_FRAME, [])

  predicate AllowAtomic(s: State) {
    s == DictKey || s == DictValue || s == List || s == TableValues
  }

  predicate AllowContainer(s: State) {
    s == Root || s == DictValue || s == List || s == TableValues
  }

  predicate AllowString(s: State) {
    AllowAtomic(s) || s == TableColumns
  }

  /** Reopening ROOT means that the outermost container has ended: the document is closed. */
  function Reopened(f: Frame): Frame {
    if f.state == Root then f.(state := Closed) else f
  }

  function Next(s: State, c: Config): Config {
    Config(Frame(s, 0, 0), c.stack + [c.cur])
  }

  function Prev(c: Config): Config
    requires c.stack != []
  {
    var n := |c.stack| - 1;
    Config(Reopened(c.stack[n]), c.stack[..n])
  }

  /** 32-bit increment. */
  function Increment(n: U32): U32 {
    if n == TWO_TO_THE_32 - 1 then 0 else n + 1
  }

  /** One more cell of a row; a full row starts over. */
  function NextCell(f: Frame): Frame {
    f.(column := if Increment(f.column) >= f.columns then 0 else Increment(f.column))
  }

  function NextColumn(f: Frame): Frame {
    f.(columns := Increment(f.columns))
  }

  function Switch(e: Event, c: Config): Config
    requires c.cur.state == DictValue ==> c.stack != []
  {
    match c.cur.state
    case DictValue => Prev(c)
    case DictKey => if e == ContainerClosed then c else Next(DictValue, c)
    case TableColumns => if e == StringFound then c.(cur := NextColumn(c.cur)) else c
    case TableValues => c.(cur := NextCell(c.cur))
    case _ => c
  }

  // ----- what every run keeps, whatever the order of the elements -----

  /** The frames from the bottom of the stack up to the current one. */
  function Frames(c: Config): (fs: seq<Frame>)
    ensures |fs| == |c.stack| + 1
  {
    c.stack + [c.cur]
  }

  /** A map value lies on its key. */
  predicate OnKey(fs: seq<Frame>, i: nat)
    requires i < |fs|
  {
    fs[i].state == DictValue ==> i > 0 && fs[i - 1].state == DictKey
  }

  /** Only ROOT and CLOSED have nothing below them, ROOT is the bottom of every other stack,
      and a map value lies on its key. */
  predicate Shaped(c: Config) {
    && (c.stack == [] <==> c.cur.state == Root || c.cur.state == Closed)
    && (c.stack != [] ==> c.stack[0].state == Root)
    && (forall i :: 1 <= i < |c.stack| ==> c.stack[i].state != Root && c.stack[i].state != Closed)
    && (forall i :: 0 <= i < |Frames(c)| ==> OnKey(Frames(c), i))
  }

  /** The configurations that the library can get into. */
  type DocConfig = c: Config | Shaped(c) witness INITIAL

  lemma ShapedNext(s: State, c: Config)
    requires Shaped(c) && c.cur.state != Closed
    requires s != Root && s != Closed && (s == DictValue ==> c.cur.state == DictKey)
    ensures Shaped(Next(s, c))
  {
    var fs, fs' := Frames(c), Frames(Next(s, c));
    assert fs' == fs + [Frame(s, 0, 0)];
    forall i | 0 <= i < |fs'| ensures OnKey(fs', i) {
      if i < |fs| {
        assert OnKey(fs, i);
      }
    }
  }

  lemma ShapedPrev(c: Config)
    requires Shaped(c) && c.stack != []
    ensures Shaped(Prev(c))
    ensures Prev(c).cur.state == Closed <==> |c.stack| == 1
    ensures c.cur.state == DictValue ==> Prev(c).cur.state == DictKey
  {
    var fs, fs' := Frames(c), Frames(Prev(c));
    var n := |c.stack|;
    assert OnKey(fs, n);
    forall i | 0 <= i < |fs'| ensures OnKey(fs', i) {
      assert OnKey(fs, i);
      if i < n - 1 {
        assert fs'[i] == fs[i];
      }
      if i > 0 {
        assert fs'[i - 1] == fs[i - 1];
      }
    }
  }

  lemma ShapedCur(c: Config, f: Frame)
    requires Shaped(c)
    requires f.state == c.cur.state || (f.state == TableValues && c.cur.state == TableColumns)
    ensures Shaped(c.(cur := f))
  {
    var fs, fs' := Frames(c), Frames(c.(cur := f));
    forall i | 0 <= i < |fs'| ensures OnKey(fs', i) {
      assert OnKey(fs, i);
    }
  }

  lemma ShapedSwitch(e: Event, c: Config)
    requires Shaped(c)
    ensures c.cur.state == DictValue ==> c.stack != []
    ensures Shaped(Switch(e, c))
  {
    match c.cur.state
    case DictValue => ShapedPrev(c);
    case DictKey => ShapedNext(DictValue, c);
    case TableColumns => ShapedCur(c, NextColumn(c.cur));
    case TableValues => ShapedCur(c, NextCell(c.cur));
    case _ =>
  }

  /** The same frame without its counters. */
  function EraseFrame(f: Frame): Frame {
    Frame(f.state, 0, 0)
  }

  function Erase(c: Config): (d: Config)
    ensures |d.stack| == |c.stack|
    ensures forall i :: 0 <= i < |c.stack| ==> d.stack[i] == EraseFrame(c.stack[i])
  {
    Config(EraseFrame(c.cur), seq(|c.stack|, i requires 0 <= i < |c.stack| => EraseFrame(c.stack[i])))
  }
}
