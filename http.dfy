/**
 * The parts of Go's net/http and net/url that the logging core touches: header
 * maps, parsed URLs, the inbound request, and the underlying response writer
 * together with the optional interfaces it may implement.
 */
module Http {
  import opened GoRuntime

  /**
   * An http.Header value. Go maps are references: two holders of the same map
   * see each other's updates, so a header map is an object here.
   */
  class HeaderMap {
    var entries: map<string, seq<string>>

    constructor (entries: map<string, seq<string>>)
      ensures this.entries == entries
    {
      this.entries := entries;
    }
  }

  /** `h[key]` in Go: a missing key, or a nil map, reads as no values. */
  function Values(h: map<string, seq<string>>, key: string): seq<string> {
    if key in h then h[key] else []
  }

  /** http.Header.Get for a key that is already in canonical form. */
  function FirstValue(h: map<string, seq<string>>, key: string): string {
    var vs := Values(h, key);
    if vs == [] then "" else vs[0]
  }

  /** The fields of a url.URL that decide how it is written. */
  datatype Url = Url(scheme: string, host: string, path: string, rawQuery: string, fragment: string)

  /** The values of an inbound *http.Request that a Request snapshot copies. */
  datatype Inbound = Inbound(
    httpMethod: string,
    requestUri: string,
    url: Url,
    proto: string,
    header: HeaderMap,
    contentLength: int,
    host: string,
    remoteAddr: string)

  /** The optional interfaces a response writer may implement beside http.ResponseWriter. */
  datatype Capability = CloseNotifier | Flusher | Hijacker | Pusher

  /** One call received by the underlying writer, with what it answered. */
  datatype Call =
    | Wrote(p: seq<bv8>, n: int, failed: bool)
    | WroteHeader(code: int)
    | Flushed
    | CloseNotified
    | HijackedConn(failed: bool)
    | Pushed(target: string, failed: bool)

  /**
   * The underlying http.ResponseWriter. Which optional interfaces it implements
   * is fixed; what it answers to a call is not known here, so each answer is
   * chosen freely within the contract of the Go interface, and every call is
   * logged in `calls`.
   */
  class Sink {
    const caps: set<Capability>
    const header: HeaderMap
    var calls: seq<Call>

    constructor (caps: set<Capability>, header: HeaderMap)
      ensures this.caps == caps && this.header == header && calls == []
    {
      this.caps := caps;
      this.header := header;
      calls := [];
    }

    /** io.Writer: reports how many of the bytes it accepted, 0 <= n <= len(p). */
    method Write(p: seq<bv8>) returns (n: int, failed: bool)
      modifies this
      ensures 0 <= n <= |p|
      ensures calls == old(calls) + [Wrote(p, n, failed)]
    {
      n :| 0 <= n <= |p|;
      failed :| true;
      calls := calls + [Wrote(p, n, failed)];
    }

    method WriteHeader(code: int)
      modifies this
      ensures calls == old(calls) + [WroteHeader(code)]
    {
      calls := calls + [WroteHeader(code)];
    }

    method Flush()
      requires Flusher in caps
      modifies this
      ensures calls == old(calls) + [Flushed]
    {
      calls := calls + [Flushed];
    }

    method CloseNotify()
      requires CloseNotifier in caps
      modifies this
      ensures calls == old(calls) + [CloseNotified]
    {
      calls := calls + [CloseNotified];
    }

    method Hijack() returns (failed: bool)
      requires Hijacker in caps
      modifies this
      ensures calls == old(calls) + [HijackedConn(failed)]
    {
      failed :| true;
      calls := calls + [HijackedConn(failed)];
    }

    method Push(target: string) returns (failed: bool)
      requires Pusher in caps
      modifies this
      ensures calls == old(calls) + [Pushed(target, failed)]
    {
      failed :| true;
      calls := calls + [Pushed(target, failed)];
    }
  }
}
