/**
 * The Response part of a log record (response.go): the status, size, hijack
 * flag and header map copied from a tracking response writer once the handler
 * has finished.
 */
module Responses {
  import opened GoRuntime
  import opened Http
  import opened ResponseWriters

  class Response {
    var status: int
    var size: int
    var hijacked: bool
    var header: HeaderMap?

    /** A zero Response. */
    constructor ()
      ensures IsZero()
    {
      status, size, hijacked, header := 0, 0, false, null;
    }

    predicate IsZero()
      reads this
    {
      status == 0 && size == 0 && !hijacked && header == null
    }

    /** Sets the receiver to its zero value. */
    method Reset()
      modifies this
      ensures IsZero()
    {
      status, size, hijacked, header := 0, 0, false, null;
    }

    /**
     * Copies the writer's tallies through its getters. The header map is the
     * writer's own map, shared rather than copied; the writer is not changed.
     */
    method Update(w: ResponseWriter)
      modifies this
      ensures status == w.Status() && size == w.Size() && hijacked == w.Hijacked()
      ensures header == w.Header() == w.sink.header
      ensures unchanged(w)
      ensures w.Valid() ==>
        && status == Reported(LastStatus(w.sink.calls[w.base..]))
        && size == Int64(Written(w.sink.calls[w.base..]))
        && (hijacked <==> Hijacks(w.sink.calls[w.base..]))
    {
      status := w.Status();
      size := w.Size();
      hijacked := w.Hijacked();
      header := w.Header();
    }
  }
}
