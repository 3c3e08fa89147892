/**
 * `Skylight::Trace`: the object a request's instrumentation records into.
 *
 * Its fields are the Ruby instance variables. The span sequence and the cursor
 * together are a `SpanStack.Log`, and each mutating method is proved to take
 * that log exactly as `SpanStack.Step` does, keeping `SpanStack.WellFormed`.
 * Ruby's `freeze` in `commit` is the `committed` flag: the mutating methods
 * require it to be unset.
 */
module Skylight {
  import opened Wrappers
  import opened SpanStack

  class Trace {
    var endpoint: string
    var ident: Option<string>
    var spans: seq<Span>
    /** The innermost open span (`@parent`), or nil. */
    var parent: Option<nat>
    /** Set by `commit`: the trace is frozen. */
    var committed: bool

    /** The span-stack state of the trace. */
    function State(): Log
      reads this
    {
      Log(spans, parent)
    }

    /** The span-stack invariant; a committed trace has no open span and has an identifier. */
    ghost predicate Valid()
      reads this
    {
      WellFormed(State()) && (committed ==> parent.None? && ident.Some?)
    }

    constructor (endpoint: string := "Unknown", ident: Option<string> := None)
      ensures Valid() && !committed
      ensures this.endpoint == endpoint && this.ident == ident
      ensures spans == [] && parent.None?
    {
      this.endpoint := endpoint;
      this.ident := ident;
      this.spans := [];
      this.parent := None;
      this.committed := false;
    }

    /** `endpoint=`. */
    method SetEndpoint(e: string)
      requires Valid() && !committed
      modifies this`endpoint
      ensures Valid()
      ensures endpoint == e
    {
      endpoint := e;
    }

    /** The start of the first span, or nil on an empty trace. */
    function From(): (r: Option<Timestamp>)
      reads this
      ensures r.Some? <==> |spans| > 0
      ensures r.Some? ==> r.value == spans[0].startedAt
    {
      if |spans| == 0 then None else Some(spans[0].startedAt)
    }

    /** The end of the last span, or nil on an empty trace or while the last span is open. */
    function To(): (r: Option<Timestamp>)
      reads this
      ensures |spans| == 0 ==> r.None?
      ensures |spans| > 0 ==> r == spans[|spans| - 1].endedAt
    {
      if |spans| == 0 then None else spans[|spans| - 1].endedAt
    }

    /** Appends a zero-duration span under the cursor. */
    method Record(cat: string, title: string, desc: string, annot: map<string, string>, now: Timestamp)
      requires Valid() && !committed
      modifies this`spans
      ensures Valid()
      ensures Step(old(State()), OpRecord(Label(cat, title, desc, annot), now)) == Ok(State())
    {
      var span := BuildSpan(parent, now, Label(cat, title, desc, annot));
      span := span.(endedAt := Some(span.startedAt));
      spans := spans + [span];
      RecordPreserves(old(State()), Label(cat, title, desc, annot), now);
    }

    /** Appends an open span under the cursor and moves the cursor to it. */
    method Start(cat: string, title: string, desc: string, annot: map<string, string>, now: Timestamp)
      requires Valid() && !committed
      modifies this`spans, this`parent
      ensures Valid()
      ensures Step(old(State()), OpStart(Label(cat, title, desc, annot), now)) == Ok(State())
    {
      var span := BuildSpan(parent, now, Label(cat, title, desc, annot));
      parent := Some(|spans|);
      spans := spans + [span];
      StartPreserves(old(State()), Label(cat, title, desc, annot), now);
    }

    /**
     * Closes the last unclosed span, found by walking from the tail of the
     * sequence up the parent chain, and moves the cursor one level up.
     * Indexing with the cursor afterwards is safe: the walk found the very
     * span the cursor names.
     */
    method Stop(now: Timestamp) returns (r: Result<(), TraceError>)
      requires Valid() && !committed
      modifies this`spans, this`parent
      ensures Valid()
      ensures r.Ok? <==> old(parent).Some?
      ensures r.Ok? ==> Step(old(State()), OpStop(now)) == Ok(State())
      ensures r.Err? ==> Step(old(State()), OpStop(now)) == Err(r.error)
      ensures r.Err? ==> r.error == UnbalancedTrace && spans == old(spans) && parent == old(parent)
    {
      var cur: Option<nat> := Last(spans);
      while cur.Some? && !spans[cur.value].IsOpen()
        invariant cur.Some? ==> cur.value < |spans|
        invariant Walk(spans, cur) == Walk(spans, Last(spans))
        decreases if cur.Some? then cur.value + 1 else 0
      {
        cur := spans[cur.value].parent;
      }
      WalkFindsCursor(State());
      StopClosesCursor(State(), now);
      if cur.None? {
        return Err(UnbalancedTrace);
      }
      var j := cur.value;
      spans := spans[j := spans[j].(endedAt := Some(now))];
      parent := spans[parent.value].parent;
      StopPreserves(old(State()), now);
      return Ok(());
    }

    /**
     * Fails while a span is open; otherwise gives the trace an identifier
     * derived from its endpoint if it has none, and freezes it.
     */
    method Commit(genIdent: string -> string) returns (r: Result<(), TraceError>)
      requires Valid()
      modifies this`ident, this`committed
      ensures Valid()
      ensures r.Ok? <==> parent.None?
      ensures r.Err? ==> r.error == UnbalancedTrace && ident == old(ident) && committed == old(committed)
      ensures r.Ok? ==> committed
      ensures r.Ok? ==> ident == if old(ident).Some? then old(ident) else Some(genIdent(endpoint))
    {
      if parent.Some? {
        return Err(UnbalancedTrace);
      }
      if ident.None? {
        ident := Some(genIdent(endpoint));
      }
      committed := true;
      return Ok(());
    }
  }
}
