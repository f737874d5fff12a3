/**
 * Request (request.go): a snapshot of the inbound request that the logger keeps
 * after the handler has run, and the lookup of the client address through the
 * Forwarded and X-Forwarded-For headers.
 */
module Requests {
  import opened GoRuntime
  import opened Http
  import Pairs

  /** The header map of a request, read as empty when the request has none (a nil map in Go). */
  function Entries(h: HeaderMap?): map<string, seq<string>>
    reads h
  {
    if h == null then map[] else h.entries
  }

  // ---- the Forwarded header ----

  /** Whether a Forwarded value parses and names a non-empty `for` parameter. */
  predicate Carries(v: string) {
    var r := Pairs.Parse(v, true);
    r.Parsed? && "for" in r.pairs && r.pairs["for"] != ""
  }

  /** The `for` parameter of a value that carries one. */
  function ForOf(v: string): string
    requires Carries(v)
  {
    Pairs.Parse(v, true).pairs["for"]
  }

  /** Whether looking at the value goes on to the next one: it parses, or fails with an error, without a `for`. */
  predicate Skipped(v: string) {
    !Carries(v) && !Pairs.Parse(v, true).SliceOutOfRange?
  }

  /**
   * The first loop of FirstForwardedFor over the Forwarded values: the `for`
   * parameter of the first value that has a non-empty one, or "" when none has.
   * A value that fails to parse counts as having none; a value whose parse
   * panics makes the whole lookup panic.
   */
  function ForwardedFor(values: seq<string>): (r: Outcome<string>)
    decreases |values|
  {
    if values == [] then Returned("")
    else if Pairs.Parse(values[0], true).SliceOutOfRange? then Panicked
    else if Carries(values[0]) then Returned(ForOf(values[0]))
    else ForwardedFor(values[1..])
  }

  /** The lookup returns the `for` of the first value that carries one, once every earlier value was skipped. */
  lemma {:induction false} ForwardedForFinds(values: seq<string>, i: nat)
    requires i < |values| && Carries(values[i])
    requires forall j | 0 <= j < i :: Skipped(values[j])
    ensures ForwardedFor(values) == Returned(ForOf(values[i]))
    decreases i
  {
    if i > 0 {
      assert Skipped(values[0]);
      ForwardedForFinds(values[1..], i - 1);
    }
  }

  /** The lookup gives "" exactly when every value is skipped. */
  lemma {:induction false} ForwardedForEmpty(values: seq<string>)
    ensures ForwardedFor(values) == Returned("") <==> forall j | 0 <= j < |values| :: Skipped(values[j])
    decreases |values|
  {
    if values != [] {
      ForwardedForEmpty(values[1..]);
      if forall j | 0 <= j < |values| :: Skipped(values[j]) {
        assert forall j | 0 <= j < |values| - 1 :: values[1..][j] == values[j + 1];
      } else if Skipped(values[0]) {
        var j :| 0 <= j < |values| && !Skipped(values[j]);
        assert values[1..][j - 1] == values[j];
      }
    }
  }

  /** Whether parsing the value panics (a slice out of range). */
  predicate Crashes(v: string) {
    Pairs.Parse(v, true).SliceOutOfRange?
  }

  /** The value at `i` panics and every value before it was skipped. */
  predicate PanicsAt(values: seq<string>, i: nat) {
    i < |values| && Crashes(values[i]) && forall j | 0 <= j < i :: Skipped(values[j])
  }

  /** A value that panics, reached after skipping every earlier value, makes the lookup panic. */
  lemma {:induction false} ForwardedForPanicsAt(values: seq<string>, i: nat)
    requires PanicsAt(values, i)
    ensures ForwardedFor(values) == Panicked
    decreases i
  {
    if i > 0 {
      assert Skipped(values[0]);
      assert PanicsAt(values[1..], i - 1) by {
        forall j | 0 <= j < i - 1 ensures Skipped(values[1..][j]) {
          assert values[1..][j] == values[j + 1];
        }
      }
      ForwardedForPanicsAt(values[1..], i - 1);
    }
  }

  /** When the lookup panics, it is at a value that panics, after skipping every earlier value. */
  lemma {:induction false} ForwardedForPanicWitness(values: seq<string>) returns (i: nat)
    requires ForwardedFor(values) == Panicked
    ensures PanicsAt(values, i)
    decreases |values|
  {
    if Crashes(values[0]) {
      i := 0;
    } else {
      var k := ForwardedForPanicWitness(values[1..]);
      i := k + 1;
      forall j | 0 <= j < i ensures Skipped(values[j]) {
        if j > 0 { assert values[j] == values[1..][j - 1]; }
      }
    }
  }

  /** The lookup panics exactly when a value whose parse panics comes before any value that carries a `for`. */
  lemma ForwardedForPanics(values: seq<string>)
    ensures ForwardedFor(values) == Panicked <==> exists i :: PanicsAt(values, i)
  {
    if ForwardedFor(values) == Panicked {
      var i := ForwardedForPanicWitness(values);
    }
    if exists i :: PanicsAt(values, i) {
      var i :| PanicsAt(values, i);
      ForwardedForPanicsAt(values, i);
    }
  }

  /**
   * A Forwarded value written from pairs reads back the last `for` among them
   * (parameter names are matched case-insensitively).
   */
  lemma EncodedForwardedFor(ps: seq<Pairs.Pair>, i: nat)
    requires forall p | p in ps :: Pairs.Encodable(p)
    requires i < |ps| && Pairs.Key(ps[i].name, true) == "for"
    requires forall j | i < j < |ps| :: Pairs.Key(ps[j].name, true) != "for"
    ensures Carries(Pairs.Encode(ps)) && ForOf(Pairs.Encode(ps)) == ps[i].value
  {
    Pairs.ParseEncode(ps, true);
    Pairs.LastPairWins(map[], ps, true, i);
    assert ps[i] in ps;
  }

  // ---- the X-Forwarded-For header ----

  /**
   * The second loop of FirstForwardedFor: the first hop of the first
   * X-Forwarded-For value, with white space trimmed. strings.SplitN(v, ",", 2)
   * always has a first element, so the loop ends in its first iteration.
   */
  function FirstHop(values: seq<string>): (r: string)
    ensures values == [] ==> r == ""
  {
    if values == [] then "" else TrimSpace(BeforeFirst(values[0], ','))
  }

  lemma SliceOfSuffix(h: string, a: nat, n: nat)
    requires a + n <= |h|
    ensures h[a..][..n] == h[a..a + n]
  {
  }

  /** TrimSpace removes the white space at both ends and nothing else. */
  lemma TrimSpaceShape(h: string) returns (a: nat, b: nat)
    ensures a <= b <= |h| && TrimSpace(h) == h[a..b]
    ensures forall k | 0 <= k < a :: IsSpace(h[k])
    ensures forall k | b <= k < |h| :: IsSpace(h[k])
    ensures a < b ==> !IsSpace(h[a]) && !IsSpace(h[b - 1])
  {
    a := LeadingSpaces(h);
    var l := h[a..];
    var t := TrailingSpaces(l);
    b := |h| - t;
    SliceOfSuffix(h, a, |l| - t);
    forall k | b <= k < |h| ensures IsSpace(h[k]) {
      assert h[k] == l[k - a];
    }
    if a < b {
      assert h[b - 1] == l[|l| - t - 1];
    }
  }

  /**
   * The hop is what lies between the white space at either end of the part of
   * the first value before its first ',' (or of all of it when it has none).
   */
  lemma FirstHopShape(values: seq<string>) returns (a: nat, b: nat, c: nat)
    requires values != []
    ensures var r, v := FirstHop(values), values[0];
      && a <= b <= c <= |v| && r == v[a..b]
      && ',' !in v[..c] && (c < |v| ==> v[c] == ',')
      && (forall k | 0 <= k < a :: IsSpace(v[k])) && (forall k | b <= k < c :: IsSpace(v[k]))
      && (r == [] || (!IsSpace(r[0]) && !IsSpace(r[|r| - 1])))
  {
    var v := values[0];
    var h := BeforeFirst(v, ',');
    c := |h|;
    a, b := TrimSpaceShape(h);
    assert h == v[..c];
    assert forall k | 0 <= k < c :: v[k] == h[k];
    assert h[a..b] == v[a..b] by {
      forall i | 0 <= i < b - a ensures h[a..b][i] == v[a..b][i] {
        assert h[a + i] == v[a + i];
      }
    }
  }

  // ---- the whole lookup ----

  /**
   * FirstForwardedFor: the `for` parameter found in the Forwarded values if
   * there is one, else the first X-Forwarded-For hop, else "".
   */
  function FirstForwarded(h: map<string, seq<string>>): (r: Outcome<string>)
    ensures ForwardedFor(Values(h, "Forwarded")) == Panicked ==> r == Panicked
    ensures ForwardedFor(Values(h, "Forwarded")).Returned? && ForwardedFor(Values(h, "Forwarded")).value != "" ==>
      r == ForwardedFor(Values(h, "Forwarded"))
    ensures ForwardedFor(Values(h, "Forwarded")) == Returned("") ==> r == Returned(FirstHop(Values(h, "X-Forwarded-For")))
  {
    match ForwardedFor(Values(h, "Forwarded"))
    case Panicked => Panicked
    case Returned(f) => if f != "" then Returned(f) else Returned(FirstHop(Values(h, "X-Forwarded-For")))
  }

  /** ClientAddr: the forwarded client address when one is found, else the connection's remote address. */
  function ClientAddress(h: map<string, seq<string>>, remoteAddr: string): (r: Outcome<string>)
    ensures r.Panicked? <==> FirstForwarded(h).Panicked?
    ensures r.Returned? ==> r.value == (if FirstForwarded(h).value != "" then FirstForwarded(h).value else remoteAddr)
  {
    match FirstForwarded(h)
    case Panicked => Panicked
    case Returned(f) => if f != "" then Returned(f) else Returned(remoteAddr)
  }

  /**
   * The Forwarded header comes first: when every earlier Forwarded value is
   * skipped, the first one that carries a `for` parameter gives the address.
   */
  lemma ClientFromForwarded(h: map<string, seq<string>>, remoteAddr: string, i: nat)
    requires i < |Values(h, "Forwarded")| && Carries(Values(h, "Forwarded")[i])
    requires forall j | 0 <= j < i :: Skipped(Values(h, "Forwarded")[j])
    ensures ClientAddress(h, remoteAddr) == Returned(ForOf(Values(h, "Forwarded")[i]))
  {
    ForwardedForFinds(Values(h, "Forwarded"), i);
  }

  /**
   * When every Forwarded value is skipped, the trimmed first hop of the first
   * X-Forwarded-For value gives the address, unless it is empty; then the
   * connection's remote address does.
   */
  lemma ClientFromXForwardedFor(h: map<string, seq<string>>, remoteAddr: string)
    requires forall j | 0 <= j < |Values(h, "Forwarded")| :: Skipped(Values(h, "Forwarded")[j])
    ensures var xs := Values(h, "X-Forwarded-For");
      xs != [] && TrimSpace(BeforeFirst(xs[0], ',')) != "" ==>
        ClientAddress(h, remoteAddr) == Returned(TrimSpace(BeforeFirst(xs[0], ',')))
    ensures FirstHop(Values(h, "X-Forwarded-For")) == "" ==> ClientAddress(h, remoteAddr) == Returned(remoteAddr)
  {
    ForwardedForEmpty(Values(h, "Forwarded"));
  }

  /** ClientAddr panics exactly when a Forwarded value whose parse panics comes before any value that carries `for`. */
  lemma ClientAddressPanics(h: map<string, seq<string>>, remoteAddr: string)
    ensures ClientAddress(h, remoteAddr).Panicked? <==> exists i :: PanicsAt(Values(h, "Forwarded"), i)
  {
    ForwardedForPanics(Values(h, "Forwarded"));
  }

  /** Without either header, the client address is the remote address. */
  lemma NoForwardingHeaders(h: map<string, seq<string>>, remoteAddr: string)
    requires "Forwarded" !in h && "X-Forwarded-For" !in h
    ensures ClientAddress(h, remoteAddr) == Returned(remoteAddr)
  {
  }

  /**
   * The values the logger keeps of a request, copied field by field from the
   * *http.Request. User is what the request's basic authentication carries.
   */
  class Request {
    var httpMethod: string
    var uri: string
    var url: Option<Url>
    var proto: string
    var header: HeaderMap?
    var contentLength: int
    var host: string
    var remoteAddr: string
    var user: string

    /** NewRequest: a request updated from `req`. */
    constructor (req: Inbound, user: string)
      ensures Copies(req, user)
    {
      httpMethod := req.httpMethod;
      uri := req.requestUri;
      url := Some(req.url);
      proto := req.proto;
      header := req.header;
      contentLength := req.contentLength;
      host := req.host;
      remoteAddr := req.remoteAddr;
      this.user := user;
    }

    /** The fields hold the values of `req`; the header map is shared with it, not copied. */
    predicate Copies(req: Inbound, user: string)
      reads this
    {
      && httpMethod == req.httpMethod && uri == req.requestUri && url == Some(req.url)
      && proto == req.proto && header == req.header && contentLength == req.contentLength
      && host == req.host && remoteAddr == req.remoteAddr && this.user == user
    }

    /** new(Request): every field holds its zero value. */
    constructor Zero()
      ensures IsZero()
    {
      httpMethod, uri, url, proto, header := "", "", None, "", null;
      contentLength, host, remoteAddr, user := 0, "", "", "";
    }

    /** Every field holds its zero value. */
    predicate IsZero()
      reads this
    {
      && httpMethod == "" && uri == "" && url == None && proto == "" && header == null
      && contentLength == 0 && host == "" && remoteAddr == "" && user == ""
    }

    method Reset()
      modifies this
      ensures IsZero()
    {
      httpMethod, uri, url, proto, header := "", "", None, "", null;
      contentLength, host, remoteAddr, user := 0, "", "", "";
    }

    method Update(req: Inbound, user: string)
      modifies this
      ensures Copies(req, user)
    {
      httpMethod := req.httpMethod;
      uri := req.requestUri;
      url := Some(req.url);
      proto := req.proto;
      header := req.header;
      contentLength := req.contentLength;
      host := req.host;
      remoteAddr := req.remoteAddr;
      this.user := user;
    }

    /** FirstForwardedFor, with the loops of the Go code. */
    method FirstForwardedFor() returns (r: Outcome<string>)
      ensures r == FirstForwarded(Entries(header))
    {
      var hs := Values(Entries(header), "Forwarded");
      var i := 0;
      while i < |hs|
        invariant i <= |hs|
        invariant ForwardedFor(hs[i..]) == ForwardedFor(hs)
      {
        assert hs[i..][1..] == hs[i + 1..];
        var pairs := Pairs.ParsePairs(hs[i], true);
        if pairs.SliceOutOfRange? {
          return Panicked;
        }
        var m := if pairs.Parsed? then pairs.pairs else map[];
        var f := if "for" in m then m["for"] else "";
        if f != "" {
          return Returned(f);
        }
        i := i + 1;
      }
      var xs := Values(Entries(header), "X-Forwarded-For");
      if |xs| != 0 {
        var hops := BeforeFirst(xs[0], ',');
        return Returned(TrimSpace(hops));
      }
      return Returned("");
    }

    /** ClientAddr. */
    method ClientAddr() returns (r: Outcome<string>)
      ensures r == ClientAddress(Entries(header), remoteAddr)
    {
      r := FirstForwardedFor();
      if r.Returned? && r.value == "" {
        r := Returned(remoteAddr);
      }
    }
  }
}
