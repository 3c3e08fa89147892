/**
 * Small end-to-end runs of the trace and the encoder, each proved from the
 * contracts of the methods it calls.
 */
module Scenarios {
  import opened Wrappers
  import opened SpanStack
  import opened Skylight
  import Bytes

  /**
   * An HTTP span with a database span nested in it, both stopped, then
   * committed. The trace ends when its last span, the inner one, ended.
   */
  method NestedStartStop(t0: Timestamp, t1: Timestamp, t2: Timestamp, t3: Timestamp, gen: string -> string)
    returns (spans: seq<Span>, from: Option<Timestamp>, to: Option<Timestamp>, c: Result<(), TraceError>)
    ensures |spans| == 2
    ensures spans[0].parent.None? && spans[1].parent == Some(0)
    ensures spans[0].startedAt == t0 && spans[0].endedAt == Some(t3)
    ensures spans[1].startedAt == t1 && spans[1].endedAt == Some(t2)
    ensures from == Some(t0) && to == Some(t2)
    ensures c.Ok?
  {
    var t := new Trace();
    t.Start("http", "GET /x", "", map[], t0);
    t.Start("db", "SELECT", "", map[], t1);
    var r1 := t.Stop(t2);
    var r2 := t.Stop(t3);
    spans, from, to := t.spans, t.From(), t.To();
    c := t.Commit(gen);
  }

  /** A single recorded leaf commits; it has no parent and zero duration. */
  method SingleRecord(t0: Timestamp, gen: string -> string)
    returns (spans: seq<Span>, c: Result<(), TraceError>)
    ensures |spans| == 1 && spans[0].parent.None?
    ensures spans[0].endedAt == Some(spans[0].startedAt)
    ensures c.Ok?
  {
    var t := new Trace("cache");
    t.Record("cache", "get", "", map[], t0);
    spans := t.spans;
    c := t.Commit(gen);
  }

  /** A leaf recorded inside an open span does not hide it from `stop`. */
  method RecordInsideStart(t0: Timestamp, t1: Timestamp, t2: Timestamp)
    returns (spans: seq<Span>, r: Result<(), TraceError>)
    ensures r.Ok? && |spans| == 2
    ensures spans[1].parent == Some(0) && spans[1].endedAt == Some(t1)
    ensures spans[0].endedAt == Some(t2)
  {
    var t := new Trace();
    t.Start("view", "render", "", map[], t0);
    t.Record("cache", "get", "", map[], t1);
    r := t.Stop(t2);
    spans := t.spans;
  }

  /** Committing with a span still open fails; stopping with none open fails. */
  method Unbalanced(t0: Timestamp, t1: Timestamp, t2: Timestamp, gen: string -> string)
    returns (c: Result<(), TraceError>, s1: Result<(), TraceError>, s2: Result<(), TraceError>)
    ensures c == Err(UnbalancedTrace)
    ensures s1.Ok? && s2 == Err(UnbalancedTrace)
  {
    var t := new Trace();
    t.Start("http", "GET /x", "", map[], t0);
    c := t.Commit(gen);
    s1 := t.Stop(t1);
    s2 := t.Stop(t2);
  }

  /** An identifier given at construction survives `commit`. */
  method KeepsIdent(gen: string -> string) returns (ident: Option<string>)
    ensures ident == Some("abc")
  {
    var t := new Trace("Unknown", Some("abc"));
    var c := t.Commit(gen);
    ident := t.ident;
  }

  /** 300 is appended as the two bytes 0xAC 0x02; a negative value appends nothing. */
  method Encode300(prefix: seq<Bytes.byte>) returns (bytes: seq<Bytes.byte>, bad: Result<(), Bytes.RangeError>)
    ensures bytes == prefix + [0xAC, 0x02]
    ensures bad == Err(Bytes.OutOfRange(-1))
  {
    var buf := new Bytes.ByteBuffer(prefix);
    var ok := Bytes.AppendUint64(buf, 300);
    Bytes.VarintExamples();
    bad := Bytes.AppendUint64(buf, -1);
    bytes := buf.bytes;
  }
}
