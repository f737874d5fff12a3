/**
 * ParsePairs (request.go): a scanner for `name=value;name="value"` header
 * parameters, as used for Forwarded and Cookie header values.
 *
 * The model is layered: ParseOne describes what one pass of the Go
 * loop does from a start offset, ScanFrom the sequence of pairs the loop meets
 * (or the first error), and Parse the map the loop builds from them. The method
 * ParsePairs is the Go loop itself, proved to compute Parse.
 */
module Pairs {
  import opened GoRuntime

  /** The errors ParsePairs returns, each with the offset its message names. */
  datatype ParseError =
    | EmptyName(at: nat)            // "empty attribute name at %d"
    | NoEquals                      // "no '=' before end of string"
    | UnexpectedSemicolon(at: nat)  // "found unexpected ';' at %d"
    | TrailingData(at: nat)         // "trailing data after quoted string at %d"
    | EmptyValue(at: nat)           // "empty attribute value at %d"
    | TrailingSemicolon(at: nat)    // "trailing ';' at %d"

  /**
   * What a call of ParsePairs ends with. An empty map stands for Go's nil map
   * (both read as empty); SliceOutOfRange is the run-time panic of the slice
   * expression for a value when its end lies past the end of the text.
   */
  datatype PairsResult =
    | Parsed(pairs: map<string, string>)
    | Failed(error: ParseError)
    | SliceOutOfRange

  datatype Pair = Pair(name: string, value: string)

  /** One pass of the loop body from offset s. */
  datatype Step =
    | Next(pair: Pair, next: nat)
    | Stop(error: ParseError)
    | Crash

  /** The pairs met from an offset on, or the first error. */
  datatype Scan =
    | Scanned(pairs: seq<Pair>)
    | ScanFailed(error: ParseError)
    | ScanCrash

  /**
   * One pass of the loop body of ParsePairs with `s` at the start of a name.
   * The closing-quote scan starts two bytes after the opening quote, as the
   * Go code does.
   */
  function ParseOne(text: string, s: nat): (r: Step)
    requires s < |text|
    ensures r.Next? ==> s < r.next && ValidName(r.pair.name) && r.pair.value != []
  {
    var e := |text|;
    var ne := IndexFrom(text, s, '=', ';');
    if ne == s then Stop(EmptyName(s))
    else if ne == e then Stop(NoEquals)
    else if text[ne] == ';' then Stop(UnexpectedSemicolon(ne))
    else AfterName(text, s, ne)
  }

  /** The rest of the pass, once the name [s, ne) is followed by '=': the value, quoted or not. */
  function AfterName(text: string, s: nat, ne: nat): (r: Step)
    requires s <= ne < |text|
    ensures r.Next? ==> s < r.next && r.pair.name == text[s..ne] && r.pair.value != []
  {
    var e := |text|;
    var vs := ne + 1;
    if vs < e && text[vs] == '"' then
      var qs := vs + 1;
      var ve := IndexFrom(text, qs + 1, '"', '"');
      var after := ve + 1;
      if after < e && text[after] != ';' then Stop(TrailingData(after))
      else Finish(text, s, ne, qs, ve, after + 1)
    else
      var ve := IndexFrom(text, vs, ';', ';');
      Finish(text, s, ne, vs, ve, ve + 1)
  }

  /** A name ParsePairs accepts: not empty, and without '=' or ';'. */
  predicate ValidName(name: string) {
    name != [] && '=' !in name && ';' !in name
  }

  /** The checks the loop body makes after both kinds of value, then the insertion. */
  function Finish(text: string, ns: nat, ne: nat, vs: nat, ve: nat, next: nat): (r: Step)
    requires ns <= ne <= |text| && vs <= ve && ns < next
    ensures r.Next? ==> r.pair.name == text[ns..ne] && r.pair.value != [] && r.next == next
    ensures r.Next? ==> next != |text| && ve <= |text| && r.pair.value == text[vs..ve]
  {
    if vs == ve then Stop(EmptyValue(vs))
    else if next == |text| then Stop(TrailingSemicolon(next))
    else if ve > |text| then Crash
    else Next(Pair(text[ns..ne], text[vs..ve]), next)
  }

  function ScanFrom(text: string, s: nat): Scan
    decreases |text| - s
  {
    if s >= |text| then Scanned([])
    else match ParseOne(text, s)
      case Stop(err) => ScanFailed(err)
      case Crash => ScanCrash
      case Next(p, next) =>
        match ScanFrom(text, next)
        case Scanned(rest) => Scanned([p] + rest)
        case other => other
  }

  /** The key a name is stored under: lower-cased in case-insensitive mode. */
  function Key(name: string, ci: bool): string {
    if ci then ToLower(name) else name
  }

  /** Insert the pairs into `acc` in order; a later pair overwrites an earlier one. */
  function Insert(acc: map<string, string>, ps: seq<Pair>, ci: bool): map<string, string>
    decreases |ps|
  {
    if ps == [] then acc else Insert(acc[Key(ps[0].name, ci) := ps[0].value], ps[1..], ci)
  }

  /** What the loop returns when it resumes at offset s with map `acc`. */
  function Resume(text: string, ci: bool, s: nat, acc: map<string, string>): PairsResult {
    match ScanFrom(text, s)
    case Scanned(ps) => Parsed(Insert(acc, ps, ci))
    case ScanFailed(err) => Failed(err)
    case ScanCrash => SliceOutOfRange
  }

  /** The result of ParsePairs(text, ci). */
  function Parse(text: string, ci: bool): PairsResult {
    Resume(text, ci, 0, map[])
  }

  /** Resuming at a position inside the text is one pass of the loop body, then the rest. */
  lemma ResumeStep(text: string, ci: bool, s: nat, acc: map<string, string>)
    requires s < |text|
    ensures Resume(text, ci, s, acc) ==
      match ParseOne(text, s)
      case Stop(err) => Failed(err)
      case Crash => SliceOutOfRange
      case Next(p, next) => Resume(text, ci, next, acc[Key(p.name, ci) := p.value])
  {
    match ParseOne(text, s)
    case Stop(err) =>
    case Crash =>
    case Next(p, next) =>
      match ScanFrom(text, next)
      case Scanned(rest) =>
        assert ([p] + rest)[1..] == rest;
      case ScanFailed(err) =>
      case ScanCrash =>
  }

  /**
   * The scanning loops of ParsePairs, `for k = from; k < len(text) && text[k]
   * != a && text[k] != b; k++ {}`: they end on the first `a` or `b` at or after `from`.
   */
  method ScanTo(text: string, from: nat, a: char, b: char) returns (k: nat)
    ensures k == IndexFrom(text, from, a, b)
  {
    k := from;
    while k < |text| && text[k] != a && text[k] != b
      invariant from <= k
      invariant k <= |text| || k == from
      invariant forall i | from <= i < k :: text[i] != a && text[i] != b
    {
      k := k + 1;
    }
    if k <= |text| {
      IndexFromIsFirst(text, from, a, b, k);
    }
  }

  /**
   * One pass of the loop body of ParsePairs, from the start `s` of a name with
   * the map built so far: either the call ends here with `r`, or the loop goes
   * on from `next` with `pairs'`.
   */
  method ParseStep(text: string, ci: bool, s: nat, pairs: map<string, string>)
    returns (done: bool, r: PairsResult, next: nat, pairs': map<string, string>)
    requires s < |text|
    ensures done <==> !ParseOne(text, s).Next?
    ensures ParseOne(text, s).Stop? ==> r == Failed(ParseOne(text, s).error)
    ensures ParseOne(text, s).Crash? ==> r == SliceOutOfRange
    ensures ParseOne(text, s).Next? ==>
      next == ParseOne(text, s).next &&
      pairs' == pairs[Key(ParseOne(text, s).pair.name, ci) := ParseOne(text, s).pair.value]
  {
    var e := |text|;
    var ne := ScanTo(text, s, '=', ';');
    if ne == s {
      return true, Failed(EmptyName(s)), s, pairs;
    }
    if ne == e {
      return true, Failed(NoEquals), s, pairs;
    }
    if text[ne] == ';' {
      return true, Failed(UnexpectedSemicolon(ne)), s, pairs;
    }
    done, r, next, pairs' := ValueStep(text, ci, s, ne, pairs);
  }

  /** The value part of one pass, after the '=' at `ne` that ends the name starting at `s`. */
  method ValueStep(text: string, ci: bool, s: nat, ne: nat, pairs: map<string, string>)
    returns (done: bool, r: PairsResult, next: nat, pairs': map<string, string>)
    requires s <= ne < |text|
    ensures done <==> !AfterName(text, s, ne).Next?
    ensures AfterName(text, s, ne).Stop? ==> r == Failed(AfterName(text, s, ne).error)
    ensures AfterName(text, s, ne).Crash? ==> r == SliceOutOfRange
    ensures AfterName(text, s, ne).Next? ==>
      next == AfterName(text, s, ne).next &&
      pairs' == pairs[Key(AfterName(text, s, ne).pair.name, ci) := AfterName(text, s, ne).pair.value]
  {
    var e := |text|;
    var vs, ve := ne + 1, 0;
    if vs < e && text[vs] == '"' {
      vs := vs + 1;
      ve := ScanTo(text, vs + 1, '"', '"');
      next := ve + 1;
      if next < e && text[next] != ';' {
        return true, Failed(TrailingData(next)), s, pairs;
      }
      next := next + 1;
    } else {
      ve := ScanTo(text, vs, ';', ';');
      next := ve + 1;
    }
    if vs == ve {
      return true, Failed(EmptyValue(vs)), s, pairs;
    }
    if next == e {
      return true, Failed(TrailingSemicolon(next)), s, pairs;
    }
    if ve > e {
      return true, SliceOutOfRange, s, pairs;
    }
    var key := Key(text[s..ne], ci);
    return false, Parsed(pairs), next, pairs[key := text[vs..ve]];
  }

  /** ParsePairs as written: an index loop that inserts into the map in place. */
  method ParsePairs(text: string, ci: bool) returns (r: PairsResult)
    ensures r == Parse(text, ci)
  {
    var pairs: map<string, string> := map[];
    var s, e := 0, |text|;
    while s < e
      invariant Resume(text, ci, s, pairs) == Parse(text, ci)
      decreases e - s
    {
      var done;
      ResumeStep(text, ci, s, pairs);
      done, r, s, pairs := ParseStep(text, ci, s, pairs);
      if done {
        return;
      }
    }
    return Parsed(pairs);
  }

  // ---- what the map holds ----

  /** The keys the pairs are stored under. */
  function KeysOf(ps: seq<Pair>, ci: bool): set<string> {
    set p | p in ps :: Key(p.name, ci)
  }

  /** Inserting adds exactly the pairs' keys and leaves every other entry alone. */
  lemma {:induction false} InsertKeys(acc: map<string, string>, ps: seq<Pair>, ci: bool)
    ensures Insert(acc, ps, ci).Keys == acc.Keys + KeysOf(ps, ci)
    ensures forall k | k in acc && k !in KeysOf(ps, ci) :: Insert(acc, ps, ci)[k] == acc[k]
    decreases |ps|
  {
    if ps != [] {
      var acc' := acc[Key(ps[0].name, ci) := ps[0].value];
      InsertKeys(acc', ps[1..], ci);
      assert ps == [ps[0]] + ps[1..];
      assert KeysOf(ps, ci) == {Key(ps[0].name, ci)} + KeysOf(ps[1..], ci);
    }
  }

  /** Of several pairs with the same key, the last one decides the value. */
  lemma {:induction false} LastPairWins(acc: map<string, string>, ps: seq<Pair>, ci: bool, i: nat)
    requires i < |ps|
    requires forall j | i < j < |ps| :: Key(ps[j].name, ci) != Key(ps[i].name, ci)
    ensures Key(ps[i].name, ci) in Insert(acc, ps, ci)
    ensures Insert(acc, ps, ci)[Key(ps[i].name, ci)] == ps[i].value
    decreases |ps|
  {
    var acc' := acc[Key(ps[0].name, ci) := ps[0].value];
    if i == 0 {
      InsertKeys(acc', ps[1..], ci);
      assert Key(ps[0].name, ci) !in KeysOf(ps[1..], ci);
    } else {
      LastPairWins(acc', ps[1..], ci, i - 1);
    }
  }

  /** Every pair a successful scan meets has a valid name and a non-empty value. */
  lemma {:induction false} ScannedPairsWellFormed(text: string, s: nat)
    requires ScanFrom(text, s).Scanned?
    ensures forall p | p in ScanFrom(text, s).pairs :: ValidName(p.name) && p.value != []
    decreases |text| - s
  {
    if s < |text| {
      var next := ParseOne(text, s).next;
      ScannedPairsWellFormed(text, next);
    }
  }

  /** Every key ParsePairs returns comes from a valid name, and every value is non-empty. */
  lemma ParsedEntriesWellFormed(text: string, ci: bool)
    requires Parse(text, ci).Parsed?
    ensures forall k | k in Parse(text, ci).pairs :: Parse(text, ci).pairs[k] != []
    ensures forall k | k in Parse(text, ci).pairs :: exists name :: ValidName(name) && k == Key(name, ci)
    ensures Parse(text, ci).pairs == map[] <==> text == []
  {
    var ps := ScanFrom(text, 0).pairs;
    ScannedPairsWellFormed(text, 0);
    InsertValues(map[], ps, ci);
    InsertKeys(map[], ps, ci);
    if text != [] {
      assert ps[0] in ps;
      assert Key(ps[0].name, ci) in Parse(text, ci).pairs;
    }
  }

  /** Every value in the map came from the map before or from one of the pairs. */
  lemma {:induction false} InsertValues(acc: map<string, string>, ps: seq<Pair>, ci: bool)
    ensures forall k | k in Insert(acc, ps, ci) ::
      (k in acc && Insert(acc, ps, ci)[k] == acc[k]) ||
      exists p | p in ps :: k == Key(p.name, ci) && Insert(acc, ps, ci)[k] == p.value
    decreases |ps|
  {
    if ps != [] {
      var acc' := acc[Key(ps[0].name, ci) := ps[0].value];
      InsertValues(acc', ps[1..], ci);
      assert forall p | p in ps[1..] :: p in ps;
    }
  }

  // ---- writing pairs so that ParsePairs reads them back ----

  /** A pair that Encode writes so that ParsePairs reads it back unchanged. */
  predicate Encodable(p: Pair) {
    ValidName(p.name) && p.value != [] && '"' !in p.value
  }

  /** The value as written: quoted when it holds a ';'. */
  function ValueText(value: string): string {
    if ';' in value then "\"" + value + "\"" else value
  }

  /** `name=value`. */
  function Field(p: Pair): string {
    p.name + "=" + ValueText(p.value)
  }

  /** The pairs' fields joined by ';', the format ParsePairs reads. */
  function Encode(ps: seq<Pair>): (r: string)
    ensures ps != [] ==> |r| >= |Field(ps[0])|
    decreases |ps|
  {
    if ps == [] then "" else if |ps| == 1 then Field(ps[0]) else Field(ps[0]) + ";" + Encode(ps[1..])
  }

  /** One pass over a name at [ns, ne) and an unquoted value ending at `end`. */
  lemma PlainStep(text: string, ns: nat, ne: nat, end: nat)
    requires ns < ne && ne + 1 < end <= |text|
    requires forall i | ns <= i < ne :: text[i] != '=' && text[i] != ';'
    requires text[ne] == '=' && text[ne + 1] != '"'
    requires forall i | ne + 1 <= i < end :: text[i] != ';'
    requires end < |text| ==> text[end] == ';'
    ensures ParseOne(text, ns) ==
      if end + 1 == |text| then Stop(TrailingSemicolon(end + 1))
      else Next(Pair(text[ns..ne], text[ne + 1..end]), end + 1)
  {
    IndexFromIsFirst(text, ns, '=', ';', ne);
    IndexFromIsFirst(text, ne + 1, ';', ';', end);
  }

  /** One pass over a name at [ns, ne) and a quoted value whose closing quote is at end - 1. */
  lemma QuotedStep(text: string, ns: nat, ne: nat, end: nat)
    requires ns < ne && ne + 3 < end <= |text|
    requires forall i | ns <= i < ne :: text[i] != '=' && text[i] != ';'
    requires text[ne] == '=' && text[ne + 1] == '"'
    requires forall i | ne + 3 <= i < end - 1 :: text[i] != '"'
    requires text[end - 1] == '"'
    requires end < |text| ==> text[end] == ';'
    ensures ParseOne(text, ns) ==
      if end + 1 == |text| then Stop(TrailingSemicolon(end + 1))
      else Next(Pair(text[ns..ne], text[ne + 2..end - 1]), end + 1)
  {
    IndexFromIsFirst(text, ns, '=', ';', ne);
    IndexFromIsFirst(text, ne + 3, '"', '"', end - 1);
  }

  /** One pass over a field that ends at `end`, in a text of length `len`. */
  function StepOver(p: Pair, end: nat, len: nat): Step {
    if end + 1 == len then Stop(TrailingSemicolon(end + 1)) else Next(p, end + 1)
  }

  /** Where the parts of pre + name + sep + value + rest lie. */
  lemma Layout(pre: string, name: string, sep: string, value: string, rest: string, text: string)
    requires text == pre + name + sep + value + rest
    ensures var ne, vs := |pre| + |name|, |pre| + |name| + |sep|;
      var ve := vs + |value|;
      && |text| == ve + |rest|
      && text[|pre|..ne] == name && text[ne..vs] == sep && text[vs..ve] == value && text[ve..] == rest
      && (forall i | |pre| <= i < ne :: text[i] == name[i - |pre|])
      && (forall i | ne <= i < vs :: text[i] == sep[i - ne])
      && (forall i | vs <= i < ve :: text[i] == value[i - vs])
  {
  }

  /** PlainStep, for a name and a value found as slices of the text. */
  lemma PlainAt(text: string, ns: nat, ne: nat, end: nat, name: string, value: string)
    requires ValidName(name) && value != [] && value[0] != '"' && ';' !in value
    requires ns < ne < end <= |text| && text[ns..ne] == name && text[ne] == '=' && text[ne + 1..end] == value
    requires end < |text| ==> text[end] == ';'
    ensures ParseOne(text, ns) == StepOver(Pair(name, value), end, |text|)
  {
    assert forall i | ns <= i < ne :: text[i] != '=' && text[i] != ';' by {
      assert forall i | ns <= i < ne :: text[i] == name[i - ns];
    }
    assert forall i | ne + 1 <= i < end :: text[i] != ';' by {
      assert forall i | ne + 1 <= i < end :: text[i] == value[i - ne - 1];
    }
    assert text[ne + 1] == value[0];
    PlainStep(text, ns, ne, end);
  }

  /** QuotedStep, for a name and a quoted value found as slices of the text. */
  lemma QuotedAt(text: string, ns: nat, ne: nat, end: nat, name: string, value: string)
    requires ValidName(name) && value != [] && '"' !in value
    requires ns < ne && ne + 2 < end <= |text| && text[ns..ne] == name && text[ne] == '=' && text[ne + 1] == '"'
    requires text[ne + 2..end - 1] == value && text[end - 1] == '"'
    requires end < |text| ==> text[end] == ';'
    ensures ParseOne(text, ns) == StepOver(Pair(name, value), end, |text|)
  {
    assert forall i | ns <= i < ne :: text[i] != '=' && text[i] != ';' by {
      assert forall i | ns <= i < ne :: text[i] == name[i - ns];
    }
    assert forall i | ne + 3 <= i < end - 1 :: text[i] != '"' by {
      assert forall i | ne + 2 <= i < end - 1 :: text[i] == value[i - ne - 2];
    }
    QuotedStep(text, ns, ne, end);
  }

  /** PlainStep over the text pre + name + "=" + value + rest. */
  lemma PlainField(pre: string, name: string, value: string, rest: string, text: string, end: nat)
    requires ValidName(name) && value != [] && value[0] != '"' && ';' !in value
    requires rest == [] || rest[0] == ';'
    requires text == pre + name + "=" + value + rest && end == |pre| + |name| + 1 + |value|
    ensures |pre| < |text| &&
      ParseOne(text, |pre|) == StepOver(Pair(name, value), end, |text|)
  {
    Layout(pre, name, "=", value, rest, text);
    var ne := |pre| + |name|;
    assert text[ne] == "="[0];
    assert end < |text| ==> text[end] == ';' by {
      if end < |text| { assert text[end..][0] == text[end]; }
    }
    PlainAt(text, |pre|, ne, end, name, value);
  }

  /** QuotedStep over the text pre + name + "=\"" + value + "\"" + rest. */
  lemma QuotedField(pre: string, name: string, value: string, rest: string, text: string, end: nat)
    requires ValidName(name) && value != [] && '"' !in value
    requires rest == [] || rest[0] == ';'
    requires text == pre + name + "=\"" + value + "\"" + rest && end == |pre| + |name| + 3 + |value|
    ensures |pre| < |text| &&
      ParseOne(text, |pre|) == StepOver(Pair(name, value), end, |text|)
  {
    assert text == pre + name + "=\"" + value + ("\"" + rest);
    Layout(pre, name, "=\"", value, "\"" + rest, text);
    var ne := |pre| + |name|;
    assert text[ne] == "=\""[0] && text[ne + 1] == "=\""[1];
    assert text[end - 1] == '"' && (end < |text| ==> text[end] == ';') by {
      assert text[end - 1..][0] == text[end - 1];
      if end < |text| { assert text[end - 1..][1] == text[end]; }
    }
    QuotedAt(text, |pre|, ne, end, name, value);
  }

  /**
   * One pass of the loop over a field written by Field at offset |pre|: it reads
   * the pair back and moves past the ';', unless that ';' ends the text.
   */
  /** Field written out. */
  lemma FieldLayout(pre: string, p: Pair, rest: string)
    ensures ';' in p.value ==> pre + Field(p) + rest == pre + p.name + "=\"" + p.value + "\"" + rest
    ensures ';' !in p.value ==> pre + Field(p) + rest == pre + p.name + "=" + p.value + rest
  {
  }

  lemma FieldStep(pre: string, p: Pair, rest: string, text: string, end: nat)
    requires Encodable(p)
    requires rest == [] || rest[0] == ';'
    requires text == pre + Field(p) + rest && end == |pre| + |Field(p)|
    ensures |pre| < |text| && ParseOne(text, |pre|) == StepOver(p, end, |text|)
  {
    assert p == Pair(p.name, p.value);
    FieldLayout(pre, p, rest);
    if ';' in p.value {
      QuotedField(pre, p.name, p.value, rest, text, end);
    } else {
      assert p.value[0] in p.value;
      PlainField(pre, p.name, p.value, rest, text, end);
    }
  }

  /** A scan that reads a pair at s goes on from where that pass ended. */
  lemma ScanCons(text: string, s: nat, p: Pair, next: nat)
    requires s < |text| && ParseOne(text, s) == Next(p, next)
    ensures ScanFrom(text, s) == match ScanFrom(text, next)
      case Scanned(rest) => Scanned([p] + rest)
      case other => other
  {
  }

  /** The two ways of cutting pre + Encode(ps) + post after its first field. */
  lemma EncodeLayout(pre: string, ps: seq<Pair>, post: string)
    requires |ps| > 1
    ensures pre + Encode(ps) + post == pre + Field(ps[0]) + (";" + Encode(ps[1..]) + post)
    ensures pre + Encode(ps) + post == (pre + Field(ps[0]) + ";") + Encode(ps[1..]) + post
    ensures |pre + Encode(ps) + post| > |pre| + |Field(ps[0])| + 1
  {
    var f, tail := Field(ps[0]), Encode(ps[1..]);
    assert Encode(ps) == (f + ";") + tail;
    Regroup(pre, f, ";", tail, post);
  }

  lemma Regroup(a: string, b: string, c: string, d: string, e: string)
    ensures a + ((b + c) + d) + e == a + b + ((c + d) + e)
    ensures a + ((b + c) + d) + e == ((a + b) + c) + d + e
  {
  }

  /** The pass over the last field of pre + Encode(ps) + post. */
  lemma LastStep(pre: string, ps: seq<Pair>, post: string, text: string, end: nat)
    requires |ps| == 1 && Encodable(ps[0])
    requires post == [] || post == ";"
    requires text == pre + Encode(ps) + post && end == |pre| + |Encode(ps)|
    ensures ParseOne(text, |pre|) == StepOver(ps[0], end, |text|) && |text| == end + |post|
  {
    assert Encode(ps) == Field(ps[0]);
    FieldStep(pre, ps[0], post, text, end);
  }

  /** The pass over the first of several fields, and the text left for the rest. */
  lemma HeadStep(pre: string, ps: seq<Pair>, post: string, text: string, pre': string)
    requires |ps| > 1 && Encodable(ps[0])
    requires text == pre + Encode(ps) + post && pre' == pre + Field(ps[0]) + ";"
    ensures ParseOne(text, |pre|) == Next(ps[0], |pre'|)
    ensures text == pre' + Encode(ps[1..]) + post && |pre| + |Encode(ps)| == |pre'| + |Encode(ps[1..])|
  {
    var rest := ";" + Encode(ps[1..]) + post;
    EncodeLayout(pre, ps, post);
    FieldStep(pre, ps[0], rest, text, |pre'| - 1);
    assert |pre'| != |text|;
  }

  /** The scan over pre + Encode(ps) + post from |pre| meets exactly the pairs ps. */
  lemma {:induction false} ScanEncoded(pre: string, ps: seq<Pair>, post: string, text: string, s: nat, end: nat)
    requires ps != [] && forall p | p in ps :: Encodable(p)
    requires post == [] || post == ";"
    requires text == pre + Encode(ps) + post && s == |pre| && end == |pre| + |Encode(ps)|
    ensures ScanFrom(text, s) == if post == [] then Scanned(ps) else ScanFailed(TrailingSemicolon(end + 1))
    decreases |ps|
  {
    var p := ps[0];
    assert p in ps;
    if |ps| == 1 {
      ScanLast(pre, ps, post, text, end);
    } else {
      var pre' := pre + Field(p) + ";";
      HeadStep(pre, ps, post, text, pre');
      assert forall q | q in ps[1..] :: q in ps;
      ScanEncoded(pre', ps[1..], post, text, |pre'|, end);
      ScanCons(text, s, p, |pre'|);
      ConsScan(ScanFrom(text, s), ScanFrom(text, |pre'|), ps, post == [], end);
    }
  }

  /** A scan that meets `ps[0]` and then what the scan after it meets. */
  lemma ConsScan(r: Scan, r': Scan, ps: seq<Pair>, whole: bool, end: nat)
    requires ps != []
    requires r == match r' case Scanned(rest) => Scanned([ps[0]] + rest) case other => other
    requires r' == if whole then Scanned(ps[1..]) else ScanFailed(TrailingSemicolon(end + 1))
    ensures r == if whole then Scanned(ps) else ScanFailed(TrailingSemicolon(end + 1))
  {
    if whole {
      assert [ps[0]] + ps[1..] == ps;
    }
  }

  /** The scan over the last field. */
  lemma ScanLast(pre: string, ps: seq<Pair>, post: string, text: string, end: nat)
    requires |ps| == 1 && Encodable(ps[0])
    requires post == [] || post == ";"
    requires text == pre + Encode(ps) + post && end == |pre| + |Encode(ps)|
    ensures ScanFrom(text, |pre|) == if post == [] then Scanned(ps) else ScanFailed(TrailingSemicolon(end + 1))
  {
    LastStep(pre, ps, post, text, end);
    if post == [] {
      ScanCons(text, |pre|, ps[0], end + 1);
      assert ps == [ps[0]];
    }
  }

  /** ScanEncoded from the start of the text. */
  lemma ScanWhole(ps: seq<Pair>, post: string, text: string, end: nat)
    requires ps != [] && forall p | p in ps :: Encodable(p)
    requires post == [] || post == ";"
    requires text == Encode(ps) + post && end == |Encode(ps)|
    ensures ScanFrom(text, 0) == if post == [] then Scanned(ps) else ScanFailed(TrailingSemicolon(end + 1))
  {
    ScanEncoded([], ps, post, text, 0, end);
  }

  /** Round trip: ParsePairs reads back what Encode writes, later pairs winning. */
  lemma ParseEncode(ps: seq<Pair>, ci: bool)
    requires forall p | p in ps :: Encodable(p)
    ensures Parse(Encode(ps), ci) == Parsed(Insert(map[], ps, ci))
  {
    if ps != [] {
      assert Encode(ps) + [] == Encode(ps);
      ScanWhole(ps, [], Encode(ps), |Encode(ps)|);
    }
  }

  /**
   * A space after a ';' is not skipped: it becomes the first byte of the next
   * name, as with the "; " that separates cookies in a Cookie header.
   */
  lemma SpaceKeptInName()
    ensures Parse("a=1; b=2", false) == Parsed(map["a" := "1", " b" := "2"])
  {
    var ps := [Pair("a", "1"), Pair(" b", "2")];
    assert Encode(ps) == "a=1; b=2" by {
      assert Encode(ps[1..]) == " b=2";
    }
    ParseEncode(ps, false);
    assert Insert(map[], ps, false) == Insert(map["a" := "1"], ps[1..], false);
  }

  // ---- the error paths, after any number of well-formed pairs ----

  /** The text before the next field once `ps` have been written: their fields and a ';', or nothing. */
  function Lead(ps: seq<Pair>): string {
    if ps == [] then "" else Encode(ps) + ";"
  }

  /** What a scan meets, with the pairs `ps` met before it; an error or a panic stays as it is. */
  function Prefixed(ps: seq<Pair>, r: Scan): Scan {
    match r
    case Scanned(rest) => Scanned(ps + rest)
    case other => other
  }

  /** A scan that meets `ps[0]` and then what a scan meeting `ps[1..]` first meets. */
  lemma ConsPrefixed(r: Scan, r': Scan, r'': Scan, ps: seq<Pair>)
    requires ps != []
    requires r == match r' case Scanned(rest) => Scanned([ps[0]] + rest) case other => other
    requires r' == Prefixed(ps[1..], r'')
    ensures r == Prefixed(ps, r'')
  {
    if r''.Scanned? {
      assert [ps[0]] + (ps[1..] + r''.pairs) == ps + r''.pairs;
    }
  }

  /** The scan over pre + Encode(ps) + ";" + tail from |pre| meets ps, then goes on after that ';'. */
  lemma {:induction false} ScanThrough(pre: string, ps: seq<Pair>, tail: string, text: string, s: nat, end: nat)
    requires ps != [] && forall p | p in ps :: Encodable(p)
    requires tail != []
    requires text == pre + Encode(ps) + (";" + tail) && s == |pre| && end == |pre| + |Encode(ps)|
    ensures ScanFrom(text, s) == Prefixed(ps, ScanFrom(text, end + 1))
    decreases |ps|
  {
    var p := ps[0];
    assert p in ps;
    if |ps| == 1 {
      ThroughLast(pre, ps, tail, text, s, end);
    } else {
      var pre' := pre + Field(p) + ";";
      HeadStep(pre, ps, ";" + tail, text, pre');
      assert forall q | q in ps[1..] :: q in ps;
      ScanThrough(pre', ps[1..], tail, text, |pre'|, end);
      ScanCons(text, s, p, |pre'|);
      ConsPrefixed(ScanFrom(text, s), ScanFrom(text, |pre'|), ScanFrom(text, end + 1), ps);
    }
  }

  /** ScanThrough for the last field. */
  lemma ThroughLast(pre: string, ps: seq<Pair>, tail: string, text: string, s: nat, end: nat)
    requires |ps| == 1 && Encodable(ps[0])
    requires tail != []
    requires text == pre + Encode(ps) + (";" + tail) && s == |pre| && end == |pre| + |Encode(ps)|
    ensures ScanFrom(text, s) == Prefixed(ps, ScanFrom(text, end + 1))
  {
    LastBeforeTail(pre, ps, tail, text, end);
    ScanCons(text, s, ps[0], end + 1);
    PrefixedNone(ScanFrom(text, end + 1));
    ConsPrefixed(ScanFrom(text, s), ScanFrom(text, end + 1), ScanFrom(text, end + 1), ps);
  }

  /** The last well-formed field before ";" + tail steps past its separator. */
  lemma LastBeforeTail(pre: string, ps: seq<Pair>, tail: string, text: string, end: nat)
    requires |ps| == 1 && Encodable(ps[0]) && tail != []
    requires text == pre + Encode(ps) + (";" + tail) && end == |pre| + |Encode(ps)|
    ensures |pre| < |text| && ParseOne(text, |pre|) == Next(ps[0], end + 1)
  {
    assert Encode(ps) == Field(ps[0]);
    FieldStep(pre, ps[0], ";" + tail, text, end);
    assert end + 1 != |text|;
  }

  lemma PrefixedNone(r: Scan)
    ensures Prefixed([], r) == r
  {
    if r.Scanned? {
      assert [] + r.pairs == r.pairs;
    }
  }

  /** After well-formed pairs, the scan from the start meets them, then what the scan from the next field meets. */
  lemma ScanAfter(ps: seq<Pair>, tail: string, text: string)
    requires forall p | p in ps :: Encodable(p)
    requires tail != [] && text == Lead(ps) + tail
    ensures ScanFrom(text, 0) == Prefixed(ps, ScanFrom(text, |Lead(ps)|))
  {
    if ps == [] {
      assert |Lead(ps)| == 0;
      PrefixedNone(ScanFrom(text, 0));
    } else {
      var none: string := [];
      LeadLayout(ps, tail, text, none);
      ScanThrough(none, ps, tail, text, 0, |Encode(ps)|);
    }
  }

  /** Lead(ps) + tail cut after the pairs' fields. */
  lemma LeadLayout(ps: seq<Pair>, tail: string, text: string, none: string)
    requires ps != [] && none == [] && text == Lead(ps) + tail
    ensures text == none + Encode(ps) + (";" + tail) && |Lead(ps)| == |Encode(ps)| + 1
  {
  }

  /** A scan that stops after meeting some pairs ends the call with its error, or with its panic. */
  lemma ParseStops(text: string, ci: bool, ps: seq<Pair>, r: Scan)
    requires ScanFrom(text, 0) == Prefixed(ps, r) && !r.Scanned?
    ensures r.ScanFailed? ==> Parse(text, ci) == Failed(r.error)
    ensures r.ScanCrash? ==> Parse(text, ci) == SliceOutOfRange
  {
  }

  // The passes that stop, with every index taken in the whole text.

  lemma EmptyNameAt(text: string, s: nat)
    requires s < |text| && (text[s] == '=' || text[s] == ';')
    ensures ScanFrom(text, s) == ScanFailed(EmptyName(s))
  {
  }

  lemma NoEqualsAt(text: string, s: nat)
    requires s < |text| && forall i | s <= i < |text| :: text[i] != '=' && text[i] != ';'
    ensures ScanFrom(text, s) == ScanFailed(NoEquals)
  {
    IndexFromIsFirst(text, s, '=', ';', |text|);
  }

  /** A name ended by ';' at |pre|. */
  lemma SemicolonAt(pre: string, name: string, rest: string, text: string)
    requires ValidName(name) && text == pre + name + ";" + rest
    ensures ScanFrom(text, |pre|) == ScanFailed(UnexpectedSemicolon(|pre| + |name|))
  {
    assert text == pre + name + ";" + rest + [];
    Layout(pre, name, ";", rest, [], text);
    IndexFromIsFirst(text, |pre|, '=', ';', |pre| + |name|);
  }

  /** The pass from s over a name ending at ne with '=', then the end or ';'. */
  lemma EmptyValueStep(text: string, s: nat, ne: nat)
    requires s < ne < |text| && text[ne] == '='
    requires forall i | s <= i < ne :: text[i] != '=' && text[i] != ';'
    requires ne + 1 == |text| || text[ne + 1] == ';'
    ensures ScanFrom(text, s) == ScanFailed(EmptyValue(ne + 1))
  {
    IndexFromIsFirst(text, s, '=', ';', ne);
    IndexFromIsFirst(text, ne + 1, ';', ';', ne + 1);
  }

  /** A name at |pre| followed by '=' and then the end or ';'. */
  lemma EmptyValueAt(pre: string, name: string, rest: string, text: string)
    requires ValidName(name) && text == pre + name + "=" + rest
    requires rest == [] || rest[0] == ';'
    ensures ScanFrom(text, |pre|) == ScanFailed(EmptyValue(|pre| + |name| + 1))
  {
    var ne := |pre| + |name|;
    assert forall i | |pre| <= i < ne :: text[i] == name[i - |pre|];
    assert text[ne] == '=' && (ne + 1 == |text| || text[ne + 1] == rest[0]);
    EmptyValueStep(text, |pre|, ne);
  }

  /** The pass from s over a name ending at ne and a quoted value whose closing quote at ve is followed by a byte other than ';'. */
  lemma TrailingDataStep(text: string, s: nat, ne: nat, ve: nat)
    requires s < ne && ne + 3 <= ve && ve + 1 < |text|
    requires forall i | s <= i < ne :: text[i] != '=' && text[i] != ';'
    requires text[ne] == '=' && text[ne + 1] == '"'
    requires forall i | ne + 3 <= i < ve :: text[i] != '"'
    requires text[ve] == '"' && text[ve + 1] != ';'
    ensures ScanFrom(text, s) == ScanFailed(TrailingData(ve + 1))
  {
    IndexFromIsFirst(text, s, '=', ';', ne);
    IndexFromIsFirst(text, ne + 3, '"', '"', ve);
  }

  /** A quoted value at |pre| whose closing quote is followed by a byte other than ';'. */
  lemma TrailingDataAt(pre: string, name: string, value: string, c: char, rest: string, text: string)
    requires ValidName(name) && value != [] && '"' !in value && c != ';'
    requires text == pre + name + "=\"" + value + "\"" + [c] + rest
    ensures ScanFrom(text, |pre|) == ScanFailed(TrailingData(|pre| + |name| + |value| + 3))
  {
    TrailingLayout(pre, name, value, c, rest, text);
    TrailingDataStep(text, |pre|, |pre| + |name|, |pre| + |name| + |value| + 2);
  }

  /** Where TrailingDataStep finds the parts of a quoted value followed by c. */
  lemma TrailingLayout(pre: string, name: string, value: string, c: char, rest: string, text: string)
    requires ValidName(name) && value != [] && '"' !in value && c != ';'
    requires text == pre + name + "=\"" + value + "\"" + [c] + rest
    ensures var ne, ve := |pre| + |name|, |pre| + |name| + |value| + 2;
      && |pre| < ne && ne + 3 <= ve && ve + 1 < |text|
      && (forall i | |pre| <= i < ne :: text[i] != '=' && text[i] != ';')
      && text[ne] == '=' && text[ne + 1] == '"'
      && (forall i | ne + 3 <= i < ve :: text[i] != '"')
      && text[ve] == '"' && text[ve + 1] != ';'
  {
    var ne := |pre| + |name|;
    var ve := ne + 2 + |value|;
    assert text == pre + name + "=\"" + value + ("\"" + [c] + rest);
    Layout(pre, name, "=\"", value, "\"" + [c] + rest, text);
    assert text[ve] == ("\"" + [c] + rest)[0] && text[ve + 1] == ("\"" + [c] + rest)[1];
    assert forall i | ne + 3 <= i < ve :: text[i] != '"';
  }

  /** A name at |pre| followed by '=' and an opening quote that ends the text. */
  lemma UnterminatedAt(pre: string, name: string, text: string)
    requires ValidName(name) && text == pre + name + "=\""
    ensures ScanFrom(text, |pre|) == ScanCrash
  {
    assert text == pre + name + "=\"" + [] + [];
    Layout(pre, name, "=\"", [], [], text);
    IndexFromIsFirst(text, |pre|, '=', ';', |pre| + |name|);
  }

  /** After well-formed pairs, a scan from the next field that stops ends the call with its error or panic. */
  lemma FailsWith(ps: seq<Pair>, tail: string, text: string, ci: bool, r: Scan)
    requires forall p | p in ps :: Encodable(p)
    requires tail != [] && text == Lead(ps) + tail
    requires ScanFrom(text, |Lead(ps)|) == r && !r.Scanned?
    ensures r.ScanFailed? ==> Parse(text, ci) == Failed(r.error)
    ensures r.ScanCrash? ==> Parse(text, ci) == SliceOutOfRange
  {
    ScanAfter(ps, tail, text);
    ParseStops(text, ci, ps, r);
  }

  // The errors, after any number of well-formed pairs (none for the first field).

  /** A field that starts with '=' or ';' has an empty name; one without '=' or ';' has no '=' before the end. */
  lemma NameErrors(ps: seq<Pair>, tail: string, ci: bool)
    requires forall p | p in ps :: Encodable(p)
    ensures tail != [] && (tail[0] == '=' || tail[0] == ';') ==> Parse(Lead(ps) + tail, ci) == Failed(EmptyName(|Lead(ps)|))
    ensures tail != [] && '=' !in tail && ';' !in tail ==> Parse(Lead(ps) + tail, ci) == Failed(NoEquals)
  {
    if tail != [] {
      var text, s := Lead(ps) + tail, |Lead(ps)|;
      ScanAfter(ps, tail, text);
      if tail[0] == '=' || tail[0] == ';' {
        assert text[s] == tail[0];
        EmptyNameAt(text, s);
        ParseStops(text, ci, ps, ScanFrom(text, s));
      }
      if '=' !in tail && ';' !in tail {
        assert forall i | s <= i < |text| :: text[i] == tail[i - s];
        NoEqualsAt(text, s);
        ParseStops(text, ci, ps, ScanFrom(text, s));
      }
    }
  }

  /** A name ended by ';' instead of '=' is refused at that ';'. */
  lemma UnexpectedSemicolonFails(ps: seq<Pair>, name: string, rest: string, ci: bool)
    requires forall p | p in ps :: Encodable(p)
    requires ValidName(name)
    ensures Parse(Lead(ps) + name + ";" + rest, ci) == Failed(UnexpectedSemicolon(|Lead(ps)| + |name|))
  {
    var text := Lead(ps) + (name + ";" + rest);
    assert text == Lead(ps) + name + ";" + rest;
    SemicolonAt(Lead(ps), name, rest, text);
    FailsWith(ps, name + ";" + rest, text, ci, ScanFailed(UnexpectedSemicolon(|Lead(ps)| + |name|)));
  }

  /** A name followed by '=' and then nothing, or by '=' and ';', is an empty value. */
  lemma EmptyValueFails(ps: seq<Pair>, name: string, rest: string, ci: bool)
    requires forall p | p in ps :: Encodable(p)
    requires ValidName(name)
    requires rest == [] || rest[0] == ';'
    ensures Parse(Lead(ps) + name + "=" + rest, ci) == Failed(EmptyValue(|Lead(ps)| + |name| + 1))
  {
    var field := name + "=" + rest;
    var text := Lead(ps) + field;
    assert text == Lead(ps) + name + "=" + rest;
    EmptyValueAt(Lead(ps), name, rest, text);
    FailsWith(ps, field, text, ci, ScanFailed(EmptyValue(|Lead(ps)| + |name| + 1)));
  }

  /** Well-formed pairs followed by a single ';' are refused as a trailing ';'. */
  lemma TrailingSemicolonFails(ps: seq<Pair>, ci: bool)
    requires ps != [] && forall p | p in ps :: Encodable(p)
    ensures Parse(Encode(ps) + ";", ci) == Failed(TrailingSemicolon(|Encode(ps)| + 1))
  {
    ScanWhole(ps, ";", Encode(ps) + ";", |Encode(ps)|);
  }

  /** Anything but ';' right after the closing quote is refused. */
  lemma TrailingDataFails(ps: seq<Pair>, name: string, value: string, c: char, rest: string, ci: bool)
    requires forall p | p in ps :: Encodable(p)
    requires ValidName(name) && value != [] && '"' !in value && c != ';'
    ensures Parse(Lead(ps) + name + "=\"" + value + "\"" + [c] + rest, ci) ==
      Failed(TrailingData(|Lead(ps)| + |name| + |value| + 3))
  {
    var field := name + "=\"" + value + "\"" + [c] + rest;
    var text := Lead(ps) + field;
    assert text == Lead(ps) + name + "=\"" + value + "\"" + [c] + rest;
    TrailingDataAt(Lead(ps), name, value, c, rest, text);
    FailsWith(ps, field, text, ci, ScanFailed(TrailingData(|Lead(ps)| + |name| + |value| + 3)));
  }

  // ---- behaviour of the quoted-string scan as written ----

  /**
   * The closing-quote scan starts one byte into the value, so an empty quoted
   * string is read as a one-byte value holding the closing quote.
   */
  lemma EmptyQuotedValue(name: string, ci: bool)
    requires ValidName(name)
    ensures Parse(name + "=\"\"", ci) == Parsed(map[Key(name, ci) := "\""])
  {
    var text := name + "=\"\"";
    var ne := |name|;
    assert forall i | 0 <= i < ne :: text[i] == name[i];
    IndexFromIsFirst(text, 0, '=', ';', ne);
    assert text[0..ne] == name;
    assert text[ne + 2..ne + 3] == "\"";
    var p := Pair(name, "\"");
    assert ParseOne(text, 0) == Next(p, ne + 5);
    ScanCons(text, 0, p, ne + 5);
    assert ScanFrom(text, ne + 5) == Scanned([]);
    assert [p][1..] == [];
    assert Insert(map[], [p], ci) == Insert(map[Key(name, ci) := "\""], [], ci);
  }

  /** An opening quote at the very end of the text makes the value slice run past the end. */
  lemma UnterminatedQuotePanics(ps: seq<Pair>, name: string, ci: bool)
    requires forall p | p in ps :: Encodable(p)
    requires ValidName(name)
    ensures Parse(Lead(ps) + name + "=\"", ci) == SliceOutOfRange
  {
    var text := Lead(ps) + (name + "=\"");
    assert text == Lead(ps) + name + "=\"";
    UnterminatedAt(Lead(ps), name, text);
    FailsWith(ps, name + "=\"", text, ci, ScanCrash);
  }
}
