/**
 * The span-stack bookkeeping of a trace, as values.
 *
 * A trace holds an append-only sequence of spans; each span names its parent by
 * position, and a cursor names the innermost open span. `Step` says what
 * `record`, `start` and `stop` do to that state, in the same way the Ruby code
 * does it: `stop` walks from the tail of the sequence up the parent chain to
 * the first open span, closes it, and then moves the cursor to the parent of
 * the span the cursor named.
 *
 * `WellFormed` is the invariant these operations keep. Under it the walk always
 * finds exactly the span the cursor names, so `stop` never indexes with a nil
 * cursor, and a balanced sequence of operations ends with no open span.
 */
module SpanStack {
  import opened Wrappers

  /** A timestamp from the external clock; the model never inspects it. */
  type Timestamp = int

  /** One timed operation; `endedAt` is absent while the span is open. */
  datatype Span = Span(
    parent: Option<nat>,
    startedAt: Timestamp,
    category: string,
    title: string,
    description: string,
    annotations: map<string, string>,
    endedAt: Option<Timestamp>)
  {
    /** The grouping key of a span: its category and description. */
    function Key(): (k: (string, string))
      ensures k.0 == category && k.1 == description
    {
      (category, description)
    }

    predicate IsOpen() {
      endedAt.None?
    }
  }

  /** What a caller passes to `record` and `start` to describe an operation. */
  datatype Label = Label(category: string, title: string, description: string, annotations: map<string, string>)

  /** The errors a trace operation raises. */
  datatype TraceError =
    | UnbalancedTrace   // `stop` found no open span, or `commit` found one
    | NilIndex          // `stop` indexed the span sequence with a nil cursor

  /** The span-stack part of a trace: its spans and its cursor (`@parent`). */
  datatype Log = Log(spans: seq<Span>, cursor: Option<nat>)

  /** The operations that change a log. */
  datatype Op =
    | OpRecord(info: Label, now: Timestamp)
    | OpStart(info: Label, now: Timestamp)
    | OpStop(now: Timestamp)

  /** A fresh open span whose parent is the current cursor (`build_span`). */
  function BuildSpan(cursor: Option<nat>, now: Timestamp, l: Label): (sp: Span)
    ensures sp.parent == cursor && sp.startedAt == now && sp.IsOpen()
    ensures sp.category == l.category && sp.title == l.title
    ensures sp.description == l.description && sp.annotations == l.annotations
  {
    Span(cursor, now, l.category, l.title, l.description, l.annotations, None)
  }

  /** Every parent index points strictly backward. */
  ghost predicate ParentsBackward(s: seq<Span>) {
    forall i | 0 <= i < |s| :: s[i].parent.Some? ==> s[i].parent.value < i
  }

  /** The shape every reachable log has: parents point backward, the cursor is in range. */
  ghost predicate Indexable(g: Log) {
    ParentsBackward(g.spans) && (g.cursor.Some? ==> g.cursor.value < |g.spans|)
  }

  /** Span `k` lies on the parent chain that starts at span `i` (`i` itself included). */
  ghost predicate Reaches(s: seq<Span>, i: nat, k: nat)
    decreases i
  {
    i < |s| &&
    (i == k || (s[i].parent.Some? && s[i].parent.value < i && Reaches(s, s[i].parent.value, k)))
  }

  /**
   * The invariant of the span stack: parents point backward, the cursor lies on
   * the chain from the last span, and the open spans are exactly the chain from
   * the cursor.
   */
  ghost predicate WellFormed(g: Log) {
    Indexable(g)
    && (g.cursor.Some? ==> Reaches(g.spans, |g.spans| - 1, g.cursor.value))
    && forall j | 0 <= j < |g.spans| ::
         g.spans[j].IsOpen() <==> (g.cursor.Some? && Reaches(g.spans, g.cursor.value, j))
  }

  /** `@spans.last`, as a position. */
  function Last(s: seq<Span>): (r: Option<nat>)
    ensures r.Some? <==> |s| > 0
    ensures r.Some? ==> r.value == |s| - 1
  {
    if |s| == 0 then None else Some(|s| - 1)
  }

  /** The walk of `stop`: from `from` up the parent chain to the first open span. */
  function Walk(s: seq<Span>, from: Option<nat>): (r: Option<nat>)
    requires ParentsBackward(s)
    requires from.Some? ==> from.value < |s|
    ensures r.Some? ==> r.value < |s| && s[r.value].IsOpen()
    ensures r.Some? ==> from.Some? && Reaches(s, from.value, r.value)
    ensures r.Some? ==> forall j: nat | r.value < j < |s| && Reaches(s, from.value, j) :: !s[j].IsOpen()
    ensures r.None? && from.Some? ==> forall j: nat | j < |s| && Reaches(s, from.value, j) :: !s[j].IsOpen()
    decreases if from.Some? then from.value + 1 else 0
  {
    match from
    case None => None
    case Some(i) =>
      if s[i].IsOpen() then
        ChainBelow(s, i);
        Some(i)
      else Walk(s, s[i].parent)
  }

  /** Span `j` with its end time set. */
  function Close(s: seq<Span>, j: nat, now: Timestamp): (t: seq<Span>)
    requires j < |s|
    ensures |t| == |s| && t[j] == s[j].(endedAt := Some(now))
    ensures forall i | 0 <= i < |s| && i != j :: t[i] == s[i]
  {
    s[j := s[j].(endedAt := Some(now))]
  }

  /** One operation on a log, as the source performs it. */
  function Step(g: Log, op: Op): (r: Result<Log, TraceError>)
    requires Indexable(g)
    ensures r.Ok? ==> Indexable(r.value)
  {
    match op
    case OpRecord(l, now) =>
      var sp := BuildSpan(g.cursor, now, l);
      Ok(Log(g.spans + [sp.(endedAt := Some(sp.startedAt))], g.cursor))
    case OpStart(l, now) =>
      Ok(Log(g.spans + [BuildSpan(g.cursor, now, l)], Some(|g.spans|)))
    case OpStop(now) =>
      match Walk(g.spans, Last(g.spans))
      case None => Err(UnbalancedTrace)
      case Some(j) =>
        if g.cursor.None? then Err(NilIndex)
        else Ok(Log(Close(g.spans, j, now), g.spans[g.cursor.value].parent))
  }

  /** The log of a new trace. */
  function Empty(): (g: Log)
    ensures WellFormed(g) && g.spans == [] && g.cursor.None?
  {
    Log([], None)
  }

  // ---------------------------------------------------------------------------
  // Parent chains

  lemma {:induction false} ReachesBelow(s: seq<Span>, i: nat, k: nat)
    requires Reaches(s, i, k)
    ensures k <= i
    decreases i
  {
    if i != k {
      ReachesBelow(s, s[i].parent.value, k);
    }
  }

  lemma ChainBelow(s: seq<Span>, i: nat)
    ensures forall k: nat | Reaches(s, i, k) :: k <= i
  {
    forall k: nat | Reaches(s, i, k) ensures k <= i {
      ReachesBelow(s, i, k);
    }
  }

  lemma {:induction false} ReachesTrans(s: seq<Span>, a: nat, b: nat, c: nat)
    requires Reaches(s, a, b) && Reaches(s, b, c)
    ensures Reaches(s, a, c)
    decreases a
  {
    if a != b {
      ReachesTrans(s, s[a].parent.value, b, c);
    }
  }

  /** Appending a span does not change the chains among the earlier spans. */
  lemma {:induction false} ReachesAppend(s: seq<Span>, x: Span, i: nat, k: nat)
    requires i < |s|
    ensures Reaches(s + [x], i, k) <==> Reaches(s, i, k)
    decreases i
  {
    var t := s + [x];
    assert t[i] == s[i];
    if i != k && s[i].parent.Some? && s[i].parent.value < i {
      ReachesAppend(s, x, s[i].parent.value, k);
    }
  }

  /** Closing a span does not change any chain: parents are fixed at creation. */
  lemma {:induction false} ReachesClose(s: seq<Span>, j: nat, now: Timestamp, i: nat, k: nat)
    requires j < |s|
    ensures Reaches(Close(s, j, now), i, k) <==> Reaches(s, i, k)
    decreases i
  {
    var t := Close(s, j, now);
    if i < |s| {
      assert t[i].parent == s[i].parent;
      if i != k && s[i].parent.Some? && s[i].parent.value < i {
        ReachesClose(s, j, now, s[i].parent.value, k);
      }
    }
  }

  // ---------------------------------------------------------------------------
  // The walk of `stop`

  lemma {:induction false} WalkAllClosed(s: seq<Span>, from: Option<nat>)
    requires ParentsBackward(s)
    requires from.Some? ==> from.value < |s|
    requires forall j | 0 <= j < |s| :: !s[j].IsOpen()
    ensures Walk(s, from).None?
    decreases if from.Some? then from.value + 1 else 0
  {
    if from.Some? {
      WalkAllClosed(s, s[from.value].parent);
    }
  }

  lemma {:induction false} WalkReachesCursor(g: Log, i: nat)
    requires WellFormed(g) && g.cursor.Some?
    requires Reaches(g.spans, i, g.cursor.value)
    ensures Walk(g.spans, Some(i)) == g.cursor
    decreases i
  {
    var s, k := g.spans, g.cursor.value;
    if i != k {
      ReachesBelow(s, i, k);
      if s[i].IsOpen() {
        ReachesBelow(s, k, i);
        assert false;
      }
      WalkReachesCursor(g, s[i].parent.value);
    }
  }

  /**
   * The walk of `stop` from the last span finds exactly the span the cursor
   * names, and finds nothing when the cursor is nil.
   */
  lemma WalkFindsCursor(g: Log)
    requires WellFormed(g)
    ensures Walk(g.spans, Last(g.spans)) == g.cursor
  {
    if g.cursor.Some? {
      WalkReachesCursor(g, |g.spans| - 1);
    } else {
      WalkAllClosed(g.spans, Last(g.spans));
    }
  }

  // ---------------------------------------------------------------------------
  // What each operation does

  /** The cursor, when set, names an open span: a new span's parent is open when it is created. */
  lemma CursorIsOpen(g: Log)
    requires WellFormed(g) && g.cursor.Some?
    ensures g.spans[g.cursor.value].IsOpen()
  {
    assert Reaches(g.spans, g.cursor.value, g.cursor.value);
  }

  /**
   * `record` appends exactly one zero-duration span under the cursor and keeps
   * the cursor and every earlier span.
   */
  lemma RecordAppendsLeaf(g: Log, l: Label, now: Timestamp)
    requires Indexable(g)
    ensures Step(g, OpRecord(l, now)).Ok?
    ensures var h := Step(g, OpRecord(l, now)).value;
      && |h.spans| == |g.spans| + 1
      && h.spans[..|g.spans|] == g.spans
      && h.spans[|g.spans|] == BuildSpan(g.cursor, now, l).(endedAt := Some(now))
      && h.spans[|g.spans|].endedAt == Some(h.spans[|g.spans|].startedAt)
      && h.cursor == g.cursor
  {
  }

  /**
   * `start` appends exactly one open span under the old cursor and moves the
   * cursor to it; every earlier span is kept.
   */
  lemma StartAppendsOpen(g: Log, l: Label, now: Timestamp)
    requires Indexable(g)
    ensures Step(g, OpStart(l, now)).Ok?
    ensures var h := Step(g, OpStart(l, now)).value;
      && |h.spans| == |g.spans| + 1
      && h.spans[..|g.spans|] == g.spans
      && h.spans[|g.spans|] == BuildSpan(g.cursor, now, l)
      && h.spans[|g.spans|].IsOpen()
      && h.cursor == Some(|g.spans|)
  {
  }

  /**
   * `stop` on a well-formed log: it fails with `UnbalancedTrace`, and changes
   * nothing, exactly when the cursor is nil; otherwise it closes the span the
   * cursor names, which was open, keeps every other span, and moves the cursor
   * to that span's parent. It never indexes with a nil cursor.
   */
  lemma StopClosesCursor(g: Log, now: Timestamp)
    requires WellFormed(g)
    ensures Step(g, OpStop(now)).Ok? <==> g.cursor.Some?
    ensures Step(g, OpStop(now)).Err? ==> Step(g, OpStop(now)).error == UnbalancedTrace
    ensures g.cursor.Some? ==>
      var k := g.cursor.value;
      && g.spans[k].IsOpen()
      && Step(g, OpStop(now)).value == Log(Close(g.spans, k, now), g.spans[k].parent)
  {
    WalkFindsCursor(g);
    if g.cursor.Some? {
      CursorIsOpen(g);
    }
  }

  // ---------------------------------------------------------------------------
  // The invariant is preserved

  lemma RecordPreserves(g: Log, l: Label, now: Timestamp)
    requires WellFormed(g)
    ensures Step(g, OpRecord(l, now)).Ok? && WellFormed(Step(g, OpRecord(l, now)).value)
  {
    var s, c := g.spans, g.cursor;
    var sp := BuildSpan(c, now, l);
    var x := sp.(endedAt := Some(sp.startedAt));
    var t := s + [x];
    var n := |s|;
    assert Step(g, OpRecord(l, now)).value == Log(t, c);
    if c.Some? {
      var k := c.value;
      assert Reaches(t, k, k);
      assert Reaches(t, n, k);
    }
    forall j | 0 <= j < |t|
      ensures t[j].IsOpen() <==> (c.Some? && Reaches(t, c.value, j))
    {
      if c.Some? {
        ReachesAppend(s, x, c.value, j);
        if j == n && Reaches(s, c.value, j) {
          ReachesBelow(s, c.value, j);
        }
      }
    }
  }

  lemma StartPreserves(g: Log, l: Label, now: Timestamp)
    requires WellFormed(g)
    ensures Step(g, OpStart(l, now)).Ok? && WellFormed(Step(g, OpStart(l, now)).value)
  {
    var s, c := g.spans, g.cursor;
    var x := BuildSpan(c, now, l);
    var t := s + [x];
    var n := |s|;
    assert Step(g, OpStart(l, now)).value == Log(t, Some(n));
    assert Reaches(t, n, n);
    forall j | 0 <= j < |t|
      ensures t[j].IsOpen() <==> Reaches(t, n, j)
    {
      if j < n && c.Some? {
        ReachesAppend(s, x, c.value, j);
      }
    }
  }

  lemma StopPreserves(g: Log, now: Timestamp)
    requires WellFormed(g) && g.cursor.Some?
    ensures Step(g, OpStop(now)).Ok? && WellFormed(Step(g, OpStop(now)).value)
  {
    StopClosesCursor(g, now);
    var s, k := g.spans, g.cursor.value;
    var p := s[k].parent;
    var t := Close(s, k, now);
    assert Step(g, OpStop(now)).value == Log(t, p);
    if p.Some? {
      assert Reaches(s, p.value, p.value);
      assert Reaches(s, k, p.value);
      ReachesTrans(s, |s| - 1, k, p.value);
      ReachesClose(s, k, now, |s| - 1, p.value);
    }
    forall j | 0 <= j < |t|
      ensures t[j].IsOpen() <==> (p.Some? && Reaches(t, p.value, j))
    {
      if p.Some? {
        ReachesClose(s, k, now, p.value, j);
        if j == k && Reaches(s, p.value, j) {
          ReachesBelow(s, p.value, j);
        }
      }
    }
  }

  // ---------------------------------------------------------------------------
  // Depth and balanced sequences

  /** The number of spans on the parent chain from `c`. */
  ghost function ChainLength(s: seq<Span>, c: Option<nat>): nat
    requires ParentsBackward(s)
    requires c.Some? ==> c.value < |s|
    decreases if c.Some? then c.value + 1 else 0
  {
    match c
    case None => 0
    case Some(i) => 1 + ChainLength(s, s[i].parent)
  }

  /** The length of the parent chain from the cursor; under `WellFormed` it counts the open spans (`DepthCountsOpen`). */
  ghost function Depth(g: Log): (d: nat)
    requires Indexable(g)
    ensures d == 0 <==> g.cursor.None?
  {
    ChainLength(g.spans, g.cursor)
  }

  /** The positions on the parent chain from `c`. */
  ghost function ChainSet(s: seq<Span>, c: Option<nat>): set<nat>
    requires ParentsBackward(s)
    requires c.Some? ==> c.value < |s|
    decreases if c.Some? then c.value + 1 else 0
  {
    match c
    case None => {}
    case Some(i) => {i} + ChainSet(s, s[i].parent)
  }

  /** The chain set holds exactly the spans the chain reaches, and it has `ChainLength` members. */
  lemma {:induction false} ChainSetFacts(s: seq<Span>, c: Option<nat>)
    requires ParentsBackward(s)
    requires c.Some? ==> c.value < |s|
    ensures |ChainSet(s, c)| == ChainLength(s, c)
    ensures forall j :: j in ChainSet(s, c) <==> (c.Some? && Reaches(s, c.value, j))
    decreases if c.Some? then c.value + 1 else 0
  {
    if c.Some? {
      var i := c.value;
      var p := s[i].parent;
      ChainSetFacts(s, p);
      if i in ChainSet(s, p) {
        ReachesBelow(s, p.value, i);
        assert false;
      }
      forall j
        ensures j in ChainSet(s, c) <==> Reaches(s, i, j)
      {
      }
    }
  }

  /** On a well-formed log the depth is the number of open spans. */
  lemma DepthCountsOpen(g: Log)
    requires WellFormed(g)
    ensures Depth(g) == |set j | 0 <= j < |g.spans| && g.spans[j].IsOpen()|
  {
    var open := set j | 0 <= j < |g.spans| && g.spans[j].IsOpen();
    ChainSetFacts(g.spans, g.cursor);
    forall j: nat
      ensures j in open <==> j in ChainSet(g.spans, g.cursor)
    {
      if j in ChainSet(g.spans, g.cursor) {
        ReachesBelow(g.spans, g.cursor.value, j);
      }
    }
    assert open == ChainSet(g.spans, g.cursor);
  }

  lemma {:induction false} ChainLengthAppend(s: seq<Span>, x: Span, c: Option<nat>)
    requires ParentsBackward(s) && ParentsBackward(s + [x])
    requires c.Some? ==> c.value < |s|
    ensures ChainLength(s + [x], c) == ChainLength(s, c)
    decreases if c.Some? then c.value + 1 else 0
  {
    if c.Some? {
      assert (s + [x])[c.value] == s[c.value];
      ChainLengthAppend(s, x, s[c.value].parent);
    }
  }

  lemma {:induction false} ChainLengthClose(s: seq<Span>, j: nat, now: Timestamp, c: Option<nat>)
    requires ParentsBackward(s) && j < |s| && ParentsBackward(Close(s, j, now))
    requires c.Some? ==> c.value < |s|
    ensures ChainLength(Close(s, j, now), c) == ChainLength(s, c)
    decreases if c.Some? then c.value + 1 else 0
  {
    if c.Some? {
      ChainLengthClose(s, j, now, s[c.value].parent);
    }
  }

  /** `record` keeps the depth, `start` adds one, a successful `stop` removes one. */
  lemma StepDepth(g: Log, op: Op)
    requires WellFormed(g)
    requires op.OpStop? ==> g.cursor.Some?
    ensures Step(g, op).Ok? && WellFormed(Step(g, op).value)
    ensures Depth(Step(g, op).value) ==
      match op
      case OpRecord(_, _) => Depth(g)
      case OpStart(_, _) => Depth(g) + 1
      case OpStop(_) => Depth(g) - 1
  {
    var s := g.spans;
    match op
    case OpRecord(l, now) =>
      RecordPreserves(g, l, now);
      var h := Step(g, op).value;
      ChainLengthAppend(s, h.spans[|s|], g.cursor);
      assert h.spans == s + [h.spans[|s|]];
    case OpStart(l, now) =>
      StartPreserves(g, l, now);
      var h := Step(g, op).value;
      ChainLengthAppend(s, h.spans[|s|], g.cursor);
      assert h.spans == s + [h.spans[|s|]];
    case OpStop(now) =>
      StopPreserves(g, now);
      StopClosesCursor(g, now);
      ChainLengthClose(s, g.cursor.value, now, s[g.cursor.value].parent);
  }

  /**
   * The operations are balanced when started from `depth` open spans: no
   * `stop` runs with nothing open, and every `start` is matched by a `stop`.
   */
  ghost predicate BalancedFrom(ops: seq<Op>, depth: nat)
    decreases |ops|
  {
    if ops == [] then depth == 0
    else match ops[0]
      case OpRecord(_, _) => BalancedFrom(ops[1..], depth)
      case OpStart(_, _) => BalancedFrom(ops[1..], depth + 1)
      case OpStop(_) => depth > 0 && BalancedFrom(ops[1..], depth - 1)
  }

  /** The operations applied one after another; the first error stops the run. */
  function Run(g: Log, ops: seq<Op>): (r: Result<Log, TraceError>)
    requires Indexable(g)
    ensures r.Ok? ==> Indexable(r.value)
    decreases |ops|
  {
    if ops == [] then Ok(g)
    else match Step(g, ops[0])
      case Err(e) => Err(e)
      case Ok(h) => Run(h, ops[1..])
  }

  /**
   * A run from a well-formed log succeeds and leaves no open span, so that the
   * trace can be committed, exactly when the operations are balanced.
   */
  lemma {:induction false} RunClosesIffBalanced(g: Log, ops: seq<Op>)
    requires WellFormed(g)
    ensures (Run(g, ops).Ok? && Run(g, ops).value.cursor.None?) <==> BalancedFrom(ops, Depth(g))
    ensures Run(g, ops).Ok? ==> WellFormed(Run(g, ops).value)
    decreases |ops|
  {
    if ops != [] {
      var op := ops[0];
      if op.OpStop? && g.cursor.None? {
        StopClosesCursor(g, op.now);
      } else {
        StepDepth(g, op);
        RunClosesIffBalanced(Step(g, op).value, ops[1..]);
      }
    }
  }

  /** Any balanced sequence of operations on a new trace leaves it ready to commit. */
  lemma BalancedCommits(ops: seq<Op>)
    requires BalancedFrom(ops, 0)
    ensures Run(Empty(), ops).Ok? && Run(Empty(), ops).value.cursor.None?
    ensures WellFormed(Run(Empty(), ops).value)
  {
    RunClosesIffBalanced(Empty(), ops);
  }

  /** On a log with nothing open, the last span is closed, so `to` is present. */
  lemma ClosedLogHasEnd(g: Log)
    requires WellFormed(g) && g.cursor.None? && |g.spans| > 0
    ensures g.spans[|g.spans| - 1].endedAt.Some?
  {
  }
}
