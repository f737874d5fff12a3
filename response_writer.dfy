/**
 * WrapResponseWriter and the wrapper types of response_writer.go: a response
 * writer that records the status code, the number of bytes written and whether
 * the connection was hijacked, and that implements exactly the optional
 * interfaces (CloseNotifier, Flusher, Hijacker, Pusher) of the writer it wraps.
 *
 * The Go code picks one of sixteen struct types from a table indexed by a
 * four-bit mask of the interfaces it finds; each type declares the methods of
 * its interfaces. The table and the declarations are data here, so that what
 * the code promises about them can be stated and checked.
 */
module ResponseWriters {
  import opened GoRuntime
  import opened Http

  /** The bit of the table index that stands for each interface (closeNotifier = 1 << 0, ...). */
  function Bit(c: Capability): bv4 {
    match c
    case CloseNotifier => 1
    case Flusher => 2
    case Hijacker => 4
    case Pusher => 8
  }

  const AllCapabilities: set<Capability> := {CloseNotifier, Flusher, Hijacker, Pusher}

  /** The interfaces whose bits are set in an index. */
  function CapabilitiesOf(i: bv4): (cs: set<Capability>)
    ensures forall c :: c in cs <==> i & Bit(c) != 0
  {
    set c | c in AllCapabilities && i & Bit(c) != 0
  }

  /** The index WrapResponseWriter computes for a writer implementing `caps`. */
  function IndexOf(caps: set<Capability>): (i: bv4)
    ensures forall c :: i & Bit(c) != 0 <==> c in caps
  {
    (if CloseNotifier in caps then 1 else 0) | (if Flusher in caps then 2 else 0) |
    (if Hijacker in caps then 4 else 0) | (if Pusher in caps then 8 else 0)
  }

  /** The sixteen wrapper struct types. */
  datatype Shape =
    | Plain
    | CloseNotifierShape
    | FlusherShape
    | CloseNotifierFlusher
    | HijackerShape
    | CloseNotifierHijacker
    | FlusherHijacker
    | CloseNotifierFlusherHijacker
    | PusherShape
    | CloseNotifierPusher
    | FlusherPusher
    | CloseNotifierFlusherPusher
    | HijackerPusher
    | CloseNotifierHijackerPusher
    | FlusherHijackerPusher
    | CloseNotifierFlusherHijackerPusher

  /** The `types` table: the wrapper built for each index. */
  const Types: seq<Shape> := [
    Plain, CloseNotifierShape, FlusherShape, CloseNotifierFlusher,
    HijackerShape, CloseNotifierHijacker, FlusherHijacker, CloseNotifierFlusherHijacker,
    PusherShape, CloseNotifierPusher, FlusherPusher, CloseNotifierFlusherPusher,
    HijackerPusher, CloseNotifierHijackerPusher, FlusherHijackerPusher, CloseNotifierFlusherHijackerPusher]

  /** The interfaces a wrapper type's name lists. */
  function Named(s: Shape): set<Capability> {
    match s
    case Plain => {}
    case CloseNotifierShape => {CloseNotifier}
    case FlusherShape => {Flusher}
    case CloseNotifierFlusher => {CloseNotifier, Flusher}
    case HijackerShape => {Hijacker}
    case CloseNotifierHijacker => {CloseNotifier, Hijacker}
    case FlusherHijacker => {Flusher, Hijacker}
    case CloseNotifierFlusherHijacker => {CloseNotifier, Flusher, Hijacker}
    case PusherShape => {Pusher}
    case CloseNotifierPusher => {CloseNotifier, Pusher}
    case FlusherPusher => {Flusher, Pusher}
    case CloseNotifierFlusherPusher => {CloseNotifier, Flusher, Pusher}
    case HijackerPusher => {Hijacker, Pusher}
    case CloseNotifierHijackerPusher => {CloseNotifier, Hijacker, Pusher}
    case FlusherHijackerPusher => {Flusher, Hijacker, Pusher}
    case CloseNotifierFlusherHijackerPusher => {CloseNotifier, Flusher, Hijacker, Pusher}
  }

  /**
   * The optional-interface methods each wrapper type declares, with the
   * receivers as written: the Push method placed after the methods of
   * CloseNotifierFlusherPusher has CloseNotifierFlusherHijacker as its receiver.
   */
  function Methods(s: Shape): set<Capability> {
    match s
    case Plain => {}
    case CloseNotifierShape => {CloseNotifier}
    case FlusherShape => {Flusher}
    case CloseNotifierFlusher => {CloseNotifier, Flusher}
    case HijackerShape => {Hijacker}
    case CloseNotifierHijacker => {CloseNotifier, Hijacker}
    case FlusherHijacker => {Flusher, Hijacker}
    case CloseNotifierFlusherHijacker => {CloseNotifier, Flusher, Hijacker, Pusher}
    case PusherShape => {Pusher}
    case CloseNotifierPusher => {CloseNotifier, Pusher}
    case FlusherPusher => {Flusher, Pusher}
    case CloseNotifierFlusherPusher => {CloseNotifier, Flusher}
    case HijackerPusher => {Hijacker, Pusher}
    case CloseNotifierHijackerPusher => {CloseNotifier, Hijacker, Pusher}
    case FlusherHijackerPusher => {Flusher, Hijacker, Pusher}
    case CloseNotifierFlusherHijackerPusher => {CloseNotifier, Flusher, Hijacker, Pusher}
  }

  /** The method sets with that Push method declared on CloseNotifierFlusherPusher instead. */
  function IntendedMethods(s: Shape): set<Capability> {
    if s == CloseNotifierFlusherHijacker then Methods(s) - {Pusher}
    else if s == CloseNotifierFlusherPusher then Methods(s) + {Pusher}
    else Methods(s)
  }

  /** The `types` table lists the wrapper types in the order of their index bits. */
  lemma TypesInIndexOrder()
    ensures |Types| == 16
    ensures forall i: bv4 :: Named(Types[i as int]) == CapabilitiesOf(i)
  {
    forall i: bv4 ensures Named(Types[i as int]) == CapabilitiesOf(i) {
      forall c ensures c in Named(Types[i as int]) <==> i & Bit(c) != 0 { }
    }
  }

  /** Each wrapper type declares the methods its name lists, except for the two the misplaced Push touches. */
  lemma DeclaredAsNamed(s: Shape)
    ensures Methods(s) == Named(s) <==> s != CloseNotifierFlusherHijacker && s != CloseNotifierFlusherPusher
    ensures s == CloseNotifierFlusherHijacker ==> Methods(s) == Named(s) + {Pusher}
    ensures s == CloseNotifierFlusherPusher ==> Methods(s) == Named(s) - {Pusher}
  {
  }

  /** With the receiver corrected, every wrapper type declares exactly the methods its name lists. */
  lemma IntendedAsNamed(s: Shape)
    ensures IntendedMethods(s) == Named(s)
  {
    DeclaredAsNamed(s);
  }

  /** The probe followed by the table lookup yields the wrapper type named after the probed interfaces. */
  lemma ProbeNamesInterfaces(caps: set<Capability>)
    ensures Named(Types[IndexOf(caps) as int]) == caps
  {
    TypesInIndexOrder();
    var i := IndexOf(caps);
    assert Named(Types[i as int]) == CapabilitiesOf(i);
    forall c ensures c in CapabilitiesOf(i) <==> c in caps { }
  }

  /**
   * The doc comment's promise, for the code as written: the wrapper implements
   * an interface exactly when the wrapped writer does, except for writers that
   * implement CloseNotifier and Flusher and exactly one of Hijacker and Pusher.
   */
  lemma WrapExposesAsWritten(caps: set<Capability>)
    requires caps <= AllCapabilities
    ensures Methods(Types[IndexOf(caps) as int]) == caps <==>
      caps != {CloseNotifier, Flusher, Hijacker} && caps != {CloseNotifier, Flusher, Pusher}
    ensures caps == {CloseNotifier, Flusher, Hijacker} ==> Methods(Types[IndexOf(caps) as int]) == caps + {Pusher}
    ensures caps == {CloseNotifier, Flusher, Pusher} ==> Methods(Types[IndexOf(caps) as int]) == caps - {Pusher}
  {
    var s := Types[IndexOf(caps) as int];
    ProbeNamesInterfaces(caps);
    DeclaredAsNamed(s);
    if caps == {CloseNotifier, Flusher, Hijacker} {
      assert s == CloseNotifierFlusherHijacker;
    } else if caps == {CloseNotifier, Flusher, Pusher} {
      assert s == CloseNotifierFlusherPusher;
    }
  }

  /** The same promise with Push declared on the intended receiver: it holds for every writer. */
  lemma WrapExposes(caps: set<Capability>)
    ensures IntendedMethods(Types[IndexOf(caps) as int]) == caps
  {
    ProbeNamesInterfaces(caps);
    IntendedAsNamed(Types[IndexOf(caps) as int]);
  }

  // ---- the tallies, as summaries of the calls forwarded to the wrapped writer ----

  /** The sum of the byte counts the wrapped writer reported. */
  function Written(calls: seq<Call>): int {
    if calls == [] then 0
    else var last := calls[|calls| - 1];
      Written(calls[..|calls| - 1]) + (if last.Wrote? then last.n else 0)
  }

  /** The status code of the last WriteHeader call, or 0 when there was none. */
  function LastStatus(calls: seq<Call>): int {
    if calls == [] then 0
    else var last := calls[|calls| - 1];
      if last.WroteHeader? then last.code else LastStatus(calls[..|calls| - 1])
  }

  /** Whether a Hijack call was forwarded. */
  predicate Hijacks(calls: seq<Call>) {
    exists k | 0 <= k < |calls| :: calls[k].HijackedConn?
  }

  /** How one more call changes each summary. */
  lemma SummariesAppend(calls: seq<Call>, c: Call)
    ensures Written(calls + [c]) == Written(calls) + (if c.Wrote? then c.n else 0)
    ensures LastStatus(calls + [c]) == (if c.WroteHeader? then c.code else LastStatus(calls))
    ensures Hijacks(calls + [c]) <==> Hijacks(calls) || c.HijackedConn?
  {
    assert (calls + [c])[..|calls|] == calls;
    if Hijacks(calls) {
      var k :| 0 <= k < |calls| && calls[k].HijackedConn?;
      assert (calls + [c])[k] == calls[k];
    }
  }

  /** Status(): a recorded status of 0 means no header was written, which HTTP treats as 200 OK. */
  function Reported(status: int): (r: int)
    ensures r != 0
    ensures status == 0 ==> r == 200
    ensures status != 0 ==> r == status
  {
    if status == 0 then 200 else status
  }

  /**
   * The wrapper built by WrapResponseWriter: the embedded *responseWriter
   * (status, size, hijacked) together with the wrapper type chosen for it.
   * `base` is the length of the wrapped writer's call log when it was wrapped.
   */
  class ResponseWriter {
    const sink: Sink
    const shape: Shape
    ghost const base: nat
    var status: int
    var size: int
    var hijacked: bool

    /**
     * The wrapper type offers exactly the wrapped writer's interfaces, and the
     * three tallies summarise the calls forwarded since wrapping: the last
     * status written, the int64 sum of the byte counts, whether Hijack was called.
     */
    ghost predicate Valid()
      reads this, sink
    {
      && IntendedMethods(shape) == sink.caps
      && base <= |sink.calls|
      && status == LastStatus(sink.calls[base..])
      && size == Int64(Written(sink.calls[base..]))
      && hijacked == Hijacks(sink.calls[base..])
    }

    /** `&responseWriter{responseWriter: rw}` inside a wrapper of type `shape`. */
    constructor (sink: Sink, shape: Shape)
      ensures this.sink == sink && this.shape == shape && base == |sink.calls|
      ensures status == 0 && size == 0 && !hijacked
    {
      this.sink := sink;
      this.shape := shape;
      base := |sink.calls|;
      status, size, hijacked := 0, 0, false;
    }

    /** WrapResponseWriter: probe the writer's interfaces into a 4-bit index and build types[i]. */
    static method Wrap(sink: Sink) returns (w: ResponseWriter)
      ensures fresh(w) && w.sink == sink && w.shape == Types[IndexOf(sink.caps) as int]
      ensures w.status == 0 && w.size == 0 && !w.hijacked
      ensures w.Valid()
    {
      var i: bv4 := 0;
      if CloseNotifier in sink.caps {
        i := i | 1;
      }
      if Flusher in sink.caps {
        i := i | 2;
      }
      if Hijacker in sink.caps {
        i := i | 4;
      }
      if Pusher in sink.caps {
        i := i | 8;
      }
      assert i == IndexOf(sink.caps);
      w := new ResponseWriter(sink, Types[i as int]);
      WrapExposes(sink.caps);
      assert sink.calls[w.base..] == [];
    }

    /** Forwards the bytes and adds the count the wrapped writer reports, even when it reports an error. */
    method Write(p: seq<bv8>) returns (n: int, failed: bool)
      requires Valid()
      modifies this, sink
      ensures sink.calls == old(sink.calls) + [Wrote(p, n, failed)]
      ensures 0 <= n <= |p|
      ensures size == Int64(old(size) + n)
      ensures status == old(status) && hijacked == old(hijacked)
      ensures Valid()
    {
      n, failed := sink.Write(p);
      size := Int64(size + n);
      SummariesAppend(old(sink.calls)[base..], Wrote(p, n, failed));
      assert sink.calls[base..] == old(sink.calls)[base..] + [Wrote(p, n, failed)];
      Int64AddLate(Written(old(sink.calls)[base..]), n);
    }

    /** Records the status code, so the last call wins, and forwards it. */
    method WriteHeader(code: int)
      requires Valid()
      modifies this, sink
      ensures sink.calls == old(sink.calls) + [WroteHeader(code)]
      ensures status == code && Status() == Reported(code)
      ensures size == old(size) && hijacked == old(hijacked)
      ensures Valid()
    {
      status := code;
      sink.WriteHeader(code);
      SummariesAppend(old(sink.calls)[base..], WroteHeader(code));
      assert sink.calls[base..] == old(sink.calls)[base..] + [WroteHeader(code)];
    }

    /** The wrapped writer's header map. */
    function Header(): HeaderMap {
      sink.header
    }

    function Status(): (r: int)
      reads this
      ensures r != 0
      ensures status == 0 ==> r == 200
      ensures status != 0 ==> r == status
    {
      Reported(status)
    }

    function Size(): int
      reads this
    {
      size
    }

    function Hijacked(): bool
      reads this
    {
      hijacked
    }

    method CloseNotify()
      requires Valid() && CloseNotifier in IntendedMethods(shape)
      modifies sink
      ensures sink.calls == old(sink.calls) + [CloseNotified]
      ensures Valid()
    {
      sink.CloseNotify();
      SummariesAppend(old(sink.calls)[base..], CloseNotified);
      assert sink.calls[base..] == old(sink.calls)[base..] + [CloseNotified];
    }

    method Flush()
      requires Valid() && Flusher in IntendedMethods(shape)
      modifies sink
      ensures sink.calls == old(sink.calls) + [Flushed]
      ensures Valid()
    {
      sink.Flush();
      SummariesAppend(old(sink.calls)[base..], Flushed);
      assert sink.calls[base..] == old(sink.calls)[base..] + [Flushed];
    }

    /** Marks the writer hijacked before forwarding, so it stays marked whether or not the hijack fails. */
    method Hijack() returns (failed: bool)
      requires Valid() && Hijacker in IntendedMethods(shape)
      modifies this, sink
      ensures sink.calls == old(sink.calls) + [HijackedConn(failed)]
      ensures hijacked
      ensures status == old(status) && size == old(size)
      ensures Valid()
    {
      hijacked := true;
      failed := sink.Hijack();
      SummariesAppend(old(sink.calls)[base..], HijackedConn(failed));
      assert sink.calls[base..] == old(sink.calls)[base..] + [HijackedConn(failed)];
    }

    /** Forwards a server push; the pushed request is logged by its own handler. */
    method Push(target: string) returns (failed: bool)
      requires Valid() && Pusher in IntendedMethods(shape)
      modifies sink
      ensures sink.calls == old(sink.calls) + [Pushed(target, failed)]
      ensures Valid()
    {
      failed := sink.Push(target);
      SummariesAppend(old(sink.calls)[base..], Pushed(target, failed));
      assert sink.calls[base..] == old(sink.calls)[base..] + [Pushed(target, failed)];
    }
  }
}
