/**
 * Record and its Format method (record.go): the values logged for one request
 * and the interpreter of mod_log_config-like format strings that renders them.
 *
 * Render is the meaning of a format string, a recursive function over it;
 * Record.Format is the Go index loop with its strings.Builder, proved to
 * produce what Render says. Library calls whose behaviour is outside this
 * model (URL and time formatting, floating-point durations, header-key
 * canonicalisation) are the fields of an Env and are not interpreted.
 */
module Records {
  import opened GoRuntime
  import opened Http
  import Pairs
  import opened Requests
  import opened Responses

  /** The library calls the directives make, left uninterpreted. */
  datatype Env = Env(
    urlString: Url -> string,             // (*url.URL).String
    canonicalKey: string -> string,       // http.CanonicalHeaderKey
    timeFormat: (int, string) -> string,  // time.Time.Format(layout) of a time in nanoseconds
    millis: int -> string,                // a Duration in milliseconds, as FormatFloat(x, 'f', -1, 64)
    micros: int -> string,                // ... in microseconds
    seconds: int -> string)               // ... in seconds (Duration.Seconds)

  /** The layout %t formats the start time with. */
  const RequestTimeLayout: string := "[02/Jan/2006:15:04:05 -0700]"

  const SimpleLogFormat: string := "%a \"%r\" %s %B"
  const BasicLogFormat: string := "%a %v %u \"%r\" %s %T %B \"%{User-Agent}i\""
  const CommonLogFormat: string := "%a - %u %t \"%r\" %s %B"
  const NCSALogFormat: string := "%a - %u %t \"%r\" %s %B \"%{Referer}i\" \"%{User-Agent}i\""

  /**
   * The values of a Record that Format reads. `clientAddr` is what ClientAddr
   * returns for the request and `cookies` what the Cookie header parses to;
   * each is used only by the directives that call for it, so a panic in either
   * stops Format only when one of those directives is met.
   */
  datatype Fields = Fields(
    httpMethod: string,
    url: Option<Url>,
    proto: string,
    host: string,
    user: string,
    header: map<string, seq<string>>,
    clientAddr: Outcome<string>,
    cookies: Outcome<map<string, string>>,
    status: int,
    size: int,
    responseHeader: map<string, seq<string>>,
    start: int,
    end: int,
    duration: int)

  /** The request line of %r: method, protocol, then the URL. */
  function RequestLine(f: Fields, env: Env): (r: Outcome<string>)
    ensures r.Returned? <==> f.url.Some?
    ensures r.Returned? ==> r.value == f.httpMethod + " " + f.proto + " " + env.urlString(f.url.value)
  {
    match f.url
    case None => Panicked
    case Some(u) => Returned(f.httpMethod + " " + f.proto + " " + env.urlString(u))
  }

  /** The letters with a meaning of their own after '%'. */
  const ShortNames: set<char> := {'%', 'B', 'D', 'H', 'T', 'U', 'a', 'm', 'q', 'r', 's', 't', 'u', 'v'}

  /** The letters with a meaning of their own after `%{key}`. */
  const LongNames: set<char> := {'C', 'T', 'i', 'o', 't'}

  /** What %u writes. */
  function UserField(f: Fields): string {
    if f.user != "" then f.user else "-"
  }

  /**
   * What a one-letter directive `%c` writes. A nil URL is dereferenced by %U,
   * %q and %r, which panics; %a panics when ClientAddr does.
   */
  function Directive(f: Fields, env: Env, c: char): (r: Outcome<string>)
    ensures r.Panicked? <==> (c in {'U', 'q', 'r'} && f.url.None?) || (c == 'a' && f.clientAddr.Panicked?)
    ensures c !in ShortNames ==> r == Returned(['%', c])
  {
    match c
    case '%' => Returned("%")
    case 'B' => Returned(Decimal(f.size))
    case 'D' => Returned(env.micros(f.duration))
    case 'H' => Returned(f.proto)
    case 'T' => Returned(env.seconds(f.duration))
    case 'U' => if f.url.None? then Panicked else Returned(f.url.value.path)
    case 'a' => f.clientAddr
    case 'm' => Returned(f.httpMethod)
    case 'q' =>
      if f.url.None? then Panicked
      else if f.url.value.rawQuery != "" then Returned("?" + f.url.value.rawQuery)
      else Returned("")
    case 'r' => RequestLine(f, env)
    case 's' => Returned(Decimal(f.status))
    case 't' => Returned(env.timeFormat(f.start, RequestTimeLayout))
    case 'u' => Returned(UserField(f))
    case 'v' => Returned(f.host)
    case _ => Returned(['%', c])
  }

  /** What %{NAME}i writes: every value of the canonical request header NAME, joined with ','. */
  function RequestHeader(f: Fields, env: Env, name: string): string {
    Join(Values(f.header, env.canonicalKey(name)), ",")
  }

  /**
   * The cookies %{NAME}C looks in: the first Cookie header value, parsed
   * case-sensitively; a value that fails to parse reads as no cookies.
   */
  function Cookies(header: map<string, seq<string>>): (r: Outcome<map<string, string>>)
    ensures r.Panicked? <==> Pairs.Parse(FirstValue(header, "Cookie"), false).SliceOutOfRange?
    ensures Pairs.Parse(FirstValue(header, "Cookie"), false).Failed? ==> r == Returned(map[])
    ensures Pairs.Parse(FirstValue(header, "Cookie"), false).Parsed? ==>
      r == Returned(Pairs.Parse(FirstValue(header, "Cookie"), false).pairs)
  {
    match Pairs.Parse(FirstValue(header, "Cookie"), false)
    case Parsed(cookies) => Returned(cookies)
    case Failed(_) => Returned(map[])
    case SliceOutOfRange => Panicked
  }

  /** %{NAME}C: the value of cookie NAME, or "" when there is none. */
  function Cookie(f: Fields, name: string): Outcome<string> {
    match f.cookies
    case Returned(m) => Returned(if name in m then m[name] else "")
    case Panicked => Panicked
  }

  /** %{FORMAT}t: the end time for an `end:` prefix, otherwise the start time without a `begin:` prefix. */
  function TimeDirective(f: Fields, env: Env, key: string): string {
    if HasPrefix(key, "end:") then env.timeFormat(f.end, TrimPrefix(key, "end:"))
    else env.timeFormat(f.start, TrimPrefix(key, "begin:"))
  }

  /** What a directive `%{key}c` writes; an unknown letter or unit is written back unchanged. */
  function Keyed(f: Fields, env: Env, key: string, c: char): (r: Outcome<string>)
    ensures r.Panicked? <==> c == 'C' && f.cookies.Panicked?
    ensures c !in LongNames ==> r == Returned("%{" + key + "}" + [c])
  {
    match c
    case 'C' => Cookie(f, key)
    case 'T' =>
      if key == "ms" then Returned(env.millis(f.duration))
      else if key == "us" then Returned(env.micros(f.duration))
      else if key == "s" then Returned(env.seconds(f.duration))
      else Returned("%{" + key + "}T")
    case 'i' => Returned(RequestHeader(f, env, key))
    case 'o' => Returned(Join(Values(f.responseHeader, env.canonicalKey(key)), ","))
    case 't' => Returned(TimeDirective(f, env, key))
    case _ => Returned("%{" + key + "}" + [c])
  }

  /** A piece of a format string, as the Go loop consumes it. */
  datatype Token =
    | Text(c: char)                // a byte other than '%', copied
    | Verbatim(text: string)       // a final '%', or `%{` with no `}` before the last byte: written unchanged
    | Short(c: char)               // `%c`
    | Long(key: string, c: char)   // `%{key}c`

  /** The text a token was read from. */
  function Spelling(t: Token): string {
    match t
    case Text(c) => [c]
    case Verbatim(text) => text
    case Short(c) => ['%', c]
    case Long(key, c) => "%{" + key + "}" + [c]
  }

  /** The token at the start of a format string, and the length of its spelling. */
  datatype Lexeme = Lexeme(token: Token, next: nat)

  /**
   * The token the loop reads at the start of `format`. A '%' at the very end,
   * and `%{` with no `}` that has a byte after it, take the rest of the string.
   */
  function Lex(format: string): (l: Lexeme)
    requires format != []
    ensures 0 < l.next <= |format|
    ensures Spelling(l.token) == format[..l.next]
    ensures l.token.Verbatim? ==> l.next == |format|
    ensures l.token.Long? ==> '}' !in l.token.key
  {
    if format[0] != '%' then Lexeme(Text(format[0]), 1)
    else if |format| == 1 then Lexeme(Verbatim("%"), 1)
    else if format[1] != '{' then Lexeme(Short(format[1]), 2)
    else
      var j := IndexFrom(format, 2, '}', '}');
      if j + 1 >= |format| then Lexeme(Verbatim("%" + format[1..]), |format|)
      else Lexeme(Long(format[2..j], format[j + 1]), j + 2)
  }

  /** What a token writes. */
  function Emit(f: Fields, env: Env, t: Token): Outcome<string> {
    match t
    case Text(c) => Returned([c])
    case Verbatim(text) => Returned(text)
    case Short(c) => Directive(f, env, c)
    case Long(key, c) => Keyed(f, env, key, c)
  }

  /** The rendering of a format string: what its tokens write, one after the other. */
  function Render(f: Fields, env: Env, format: string): Outcome<string>
    decreases |format|
  {
    if format == [] then Returned("")
    else
      var l := Lex(format);
      Then(Emit(f, env, l.token), Render(f, env, format[l.next..]))
  }

  /** Rendering the suffix at `p`: its first token, then the suffix after it, which starts at `next`. */
  lemma RenderAt(f: Fields, env: Env, format: string, p: nat, next: nat)
    requires p < |format| && next == p + Lex(format[p..]).next
    ensures Render(f, env, format[p..]) == Then(Emit(f, env, Lex(format[p..]).token), Render(f, env, format[next..]))
  {
    assert format[p..][Lex(format[p..]).next..] == format[next..];
  }

  // The token at offset `p`, with every index taken in the whole string.

  lemma LexText(format: string, p: nat)
    requires p < |format| && format[p] != '%'
    ensures Lex(format[p..]) == Lexeme(Text(format[p]), 1)
  {
  }

  lemma LexFinalPercent(format: string, p: nat)
    requires p + 1 == |format| && format[p] == '%'
    ensures Lex(format[p..]) == Lexeme(Verbatim("%"), 1)
  {
  }

  lemma LexShort(format: string, p: nat)
    requires p + 1 < |format| && format[p] == '%' && format[p + 1] != '{'
    ensures Lex(format[p..]) == Lexeme(Short(format[p + 1]), 2)
  {
  }

  lemma LexLong(format: string, p: nat, j: nat)
    requires p + 1 < |format| && format[p] == '%' && format[p + 1] == '{'
    requires j == IndexFrom(format, p + 2, '}', '}')
    ensures j + 1 >= |format| ==> Lex(format[p..]) == Lexeme(Verbatim("%" + format[p + 1..]), |format| - p)
    ensures j + 1 < |format| ==> Lex(format[p..]) == Lexeme(Long(format[p + 2..j], format[j + 1]), j + 2 - p)
  {
    var s := format[p..];
    IndexFromShift(format, p, 2, '}', '}');
    assert IndexFrom(s, 2, '}', '}') == j - p;
    assert s[1..] == format[p + 1..];
    if j + 1 < |format| {
      assert s[2..j - p] == format[p + 2..j];
    }
  }

  // ---- what Render promises ----

  /** A token other than a final one: a byte other than '%', a `%c` with c not '{', or a `%{key}c` with no '}' in key. */
  predicate Inner(t: Token) {
    match t
    case Text(c) => c != '%'
    case Verbatim(_) => false
    case Short(c) => c != '{'
    case Long(key, _) => '}' !in key
  }

  /** The lexer reads back the token whose spelling starts the text. */
  lemma LexSpelling(t: Token, rest: string)
    requires Inner(t)
    ensures Lex(Spelling(t) + rest) == Lexeme(t, |Spelling(t)|)
  {
    var s := Spelling(t) + rest;
    if t.Long? {
      var k := |t.key|;
      assert s[1] == '{';
      assert forall i | 2 <= i < k + 2 :: s[i] == t.key[i - 2];
      IndexFromIsFirst(s, 2, '}', '}', k + 2);
      assert s[2..k + 2] == t.key;
    }
  }

  /** Rendering a text that starts with a token: what the token writes, then the rest. */
  lemma RenderToken(f: Fields, env: Env, t: Token, rest: string)
    requires Inner(t)
    ensures Render(f, env, Spelling(t) + rest) == Then(Emit(f, env, t), Render(f, env, rest))
  {
    LexSpelling(t, rest);
    assert (Spelling(t) + rest)[|Spelling(t)|..] == rest;
  }

  /** A byte other than '%' is copied in front of what follows it. */
  lemma RenderText(f: Fields, env: Env, c: char, rest: string)
    requires c != '%'
    ensures Render(f, env, [c] + rest) == Prepend([c], Render(f, env, rest))
  {
    RenderToken(f, env, Text(c), rest);
  }

  /** Text without '%' is copied verbatim in front of what follows it. */
  lemma {:induction false} RenderLiteral(f: Fields, env: Env, lit: string, rest: string)
    requires '%' !in lit
    ensures Render(f, env, lit + rest) == Prepend(lit, Render(f, env, rest))
    decreases |lit|
  {
    if lit == [] {
      assert lit + rest == rest;
      if Render(f, env, rest).Returned? {
        assert "" + Render(f, env, rest).value == Render(f, env, rest).value;
      }
    } else {
      var tail := lit[1..] + rest;
      assert [lit[0]] + tail == lit + rest;
      RenderText(f, env, lit[0], tail);
      assert Render(f, env, tail) == Prepend(lit[1..], Render(f, env, rest)) by {
        RenderLiteral(f, env, lit[1..], rest);
      }
      if Render(f, env, rest).Returned? {
        var o := Render(f, env, rest).value;
        assert [lit[0]] + (lit[1..] + o) == ([lit[0]] + lit[1..]) + o;
      }
      assert [lit[0]] + lit[1..] == lit;
    }
  }

  /** A format string without '%' renders to itself. */
  lemma PlainFormat(f: Fields, env: Env, format: string)
    requires '%' !in format
    ensures Render(f, env, format) == Returned(format)
  {
    RenderLiteral(f, env, format, "");
    assert format + "" == format;
  }

  /** A '%' at the very end is written as it is. */
  lemma FinalPercent(f: Fields, env: Env, lit: string)
    requires '%' !in lit
    ensures Render(f, env, lit + "%") == Returned(lit + "%")
  {
    RenderLiteral(f, env, lit, "%");
    assert Lex("%") == Lexeme(Verbatim("%"), 1);
    assert "%"[1..] == [] && "%" + "" == "%";
  }

  /** `%{` with no `}` before the last byte is read as one verbatim token. */
  lemma LexUnclosed(body: string)
    requires forall k | 0 <= k < |body| - 1 :: body[k] != '}'
    ensures Lex("%{" + body) == Lexeme(Verbatim("%{" + body), |body| + 2)
  {
    var tail := "%{" + body;
    assert tail[0] == '%' && tail[1] == '{';
    assert forall k | 2 <= k < |tail| - 1 :: tail[k] == body[k - 2];
    assert "%" + tail[1..] == tail;
  }

  /** `%{` with no `}` before the last byte writes the rest of the string as it is. */
  lemma UnclosedBrace(f: Fields, env: Env, lit: string, body: string)
    requires '%' !in lit
    requires forall k | 0 <= k < |body| - 1 :: body[k] != '}'
    ensures Render(f, env, lit + "%{" + body) == Returned(lit + "%{" + body)
  {
    var tail := "%{" + body;
    assert Render(f, env, tail) == Returned(tail) by {
      LexUnclosed(body);
      assert tail[|tail|..] == [] && tail + "" == tail;
    }
    assert lit + "%{" + body == lit + tail;
    RenderLiteral(f, env, lit, tail);
  }

  /** `%%` writes one '%'. */
  lemma PercentPercent(f: Fields, env: Env, rest: string)
    ensures Render(f, env, "%%" + rest) == Prepend("%", Render(f, env, rest))
  {
    RenderToken(f, env, Short('%'), rest);
  }

  /** An unknown one-letter directive is written back unchanged. */
  lemma UnknownDirective(f: Fields, env: Env, c: char, rest: string)
    requires c !in ShortNames && c != '{'
    ensures Render(f, env, ['%', c] + rest) == Prepend(['%', c], Render(f, env, rest))
  {
    RenderToken(f, env, Short(c), rest);
  }

  /** An unknown `%{key}c` letter is written back unchanged, and so is a %{UNIT}T with an unknown unit. */
  lemma UnknownKeyedDirective(f: Fields, env: Env, key: string, c: char, rest: string)
    requires '}' !in key
    requires c !in LongNames || (c == 'T' && key != "ms" && key != "us" && key != "s")
    ensures Render(f, env, "%{" + key + "}" + [c] + rest) == Prepend("%{" + key + "}" + [c], Render(f, env, rest))
  {
    RenderToken(f, env, Long(key, c), rest);
    assert "%{" + key + "}T" == "%{" + key + "}" + ['T'];
  }

  /** %D and %T write what %{us}T and %{s}T write. */
  lemma DurationPieces(f: Fields, env: Env)
    ensures Directive(f, env, 'D') == Keyed(f, env, "us", 'T')
    ensures Directive(f, env, 'T') == Keyed(f, env, "s", 'T')
  {
    assert "us" != "ms" && "s" != "ms" && "s" != "us";
  }

  /**
   * %D writes what %{us}T writes, the duration in microseconds, and %T what
   * %{s}T writes, the duration in seconds.
   */
  lemma DurationAliases(f: Fields, env: Env, rest: string)
    ensures Render(f, env, "%D" + rest) == Render(f, env, "%{us}T" + rest)
    ensures Render(f, env, "%T" + rest) == Render(f, env, "%{s}T" + rest)
  {
    assert Spelling(Short('D')) == "%D" && Spelling(Long("us", 'T')) == "%{us}T";
    assert Spelling(Short('T')) == "%T" && Spelling(Long("s", 'T')) == "%{s}T";
    DurationPieces(f, env);
    RenderToken(f, env, Short('D'), rest);
    RenderToken(f, env, Long("us", 'T'), rest);
    RenderToken(f, env, Short('T'), rest);
    RenderToken(f, env, Long("s", 'T'), rest);
  }

  /** What `%{key}t` writes, for a key with no '}'. */
  lemma TimeToken(f: Fields, env: Env, key: string, rest: string)
    requires '}' !in key
    ensures Render(f, env, "%{" + key + "}t" + rest) == Prepend(TimeDirective(f, env, key), Render(f, env, rest))
  {
    assert Spelling(Long(key, 't')) == "%{" + key + "}t";
    RenderToken(f, env, Long(key, 't'), rest);
  }

  /** %{end:F}t formats the end time with F and %{begin:F}t the start time, whatever F holds. */
  lemma TimeDirectives(f: Fields, env: Env, layout: string)
    ensures TimeDirective(f, env, "end:" + layout) == env.timeFormat(f.end, layout)
    ensures TimeDirective(f, env, "begin:" + layout) == env.timeFormat(f.start, layout)
  {
    assert ("end:" + layout)[..4] == "end:" && ("end:" + layout)[4..] == layout;
    assert ("begin:" + layout)[..4][0] != "end:"[0];
    assert ("begin:" + layout)[..6] == "begin:" && ("begin:" + layout)[6..] == layout;
  }

  /** %{F}t, with neither prefix, formats the start time with F as it stands. */
  lemma TimeUnprefixed(f: Fields, env: Env, layout: string)
    requires !HasPrefix(layout, "end:") && !HasPrefix(layout, "begin:")
    ensures TimeDirective(f, env, layout) == env.timeFormat(f.start, layout)
  {
  }

  /** %{NAME}i joins all values of the canonical header NAME with ','; a missing header writes nothing. */
  lemma HeaderDirective(f: Fields, env: Env, name: string, rest: string)
    requires '}' !in name
    ensures Render(f, env, "%{" + name + "}i" + rest) ==
      Prepend(RequestHeader(f, env, name), Render(f, env, rest))
    ensures env.canonicalKey(name) !in f.header ==> Render(f, env, "%{" + name + "}i" + rest) == Render(f, env, rest)
  {
    assert Spelling(Long(name, 'i')) == "%{" + name + "}i";
    RenderToken(f, env, Long(name, 'i'), rest);
    if Render(f, env, rest).Returned? {
      assert "" + Render(f, env, rest).value == Render(f, env, rest).value;
    }
  }

  /** %{NAME}o joins all values of the canonical response header NAME with ','; a missing header writes nothing. */
  lemma ResponseHeaderDirective(f: Fields, env: Env, name: string, rest: string)
    requires '}' !in name
    ensures Render(f, env, "%{" + name + "}o" + rest) ==
      Prepend(Join(Values(f.responseHeader, env.canonicalKey(name)), ","), Render(f, env, rest))
    ensures env.canonicalKey(name) !in f.responseHeader ==> Render(f, env, "%{" + name + "}o" + rest) == Render(f, env, rest)
  {
    assert Spelling(Long(name, 'o')) == "%{" + name + "}o";
    RenderToken(f, env, Long(name, 'o'), rest);
    if Render(f, env, rest).Returned? {
      assert "" + Render(f, env, rest).value == Render(f, env, rest).value;
    }
  }

  /**
   * With a URL, %H, %m and %U write the protocol, the method and the path;
   * %q writes "?" and the raw query, or nothing when the query is empty.
   */
  lemma RequestDirectives(f: Fields, env: Env)
    requires f.url.Some?
    ensures Directive(f, env, 'H') == Returned(f.proto)
    ensures Directive(f, env, 'm') == Returned(f.httpMethod)
    ensures Directive(f, env, 'U') == Returned(f.url.value.path)
    ensures Directive(f, env, 'q').Returned?
    ensures Directive(f, env, 'q').value == "" <==> f.url.value.rawQuery == ""
    ensures f.url.value.rawQuery != "" ==> Directive(f, env, 'q').value == "?" + f.url.value.rawQuery
  {
  }

  /**
   * %{NAME}C reads back a cookie from a Cookie header written as `name=value`
   * pairs: the value of the last pair with that name.
   */
  lemma CookieDirective(f: Fields, env: Env, ps: seq<Pairs.Pair>, i: nat, rest: string)
    requires f.cookies == Cookies(f.header)
    requires FirstValue(f.header, "Cookie") == Pairs.Encode(ps)
    requires forall p | p in ps :: Pairs.Encodable(p)
    requires i < |ps| && '}' !in ps[i].name
    requires forall j | i < j < |ps| :: ps[j].name != ps[i].name
    ensures Render(f, env, "%{" + ps[i].name + "}C" + rest) == Prepend(ps[i].value, Render(f, env, rest))
  {
    assert Cookie(f, ps[i].name) == Returned(ps[i].value) by {
      Pairs.ParseEncode(ps, false);
      Pairs.LastPairWins(map[], ps, false, i);
    }
    assert Spelling(Long(ps[i].name, 'C')) == "%{" + ps[i].name + "}C";
    RenderToken(f, env, Long(ps[i].name, 'C'), rest);
  }

  /**
   * %{NAME}C looks NAME up in the first Cookie header value: it writes the
   * cookie's value, or nothing when the value does not parse or has no such
   * cookie, and panics when the parse does.
   */
  lemma CookieLookup(f: Fields, env: Env, name: string, rest: string)
    requires f.cookies == Cookies(f.header) && '}' !in name
    ensures var p := Pairs.Parse(FirstValue(f.header, "Cookie"), false);
      Render(f, env, "%{" + name + "}C" + rest) ==
        if p.SliceOutOfRange? then Panicked
        else if p.Parsed? && name in p.pairs then Prepend(p.pairs[name], Render(f, env, rest))
        else Render(f, env, rest)
  {
    assert Spelling(Long(name, 'C')) == "%{" + name + "}C";
    RenderToken(f, env, Long(name, 'C'), rest);
    if Render(f, env, rest).Returned? {
      assert "" + Render(f, env, rest).value == Render(f, env, rest).value;
    }
  }

  /**
   * Browsers separate cookies with "; ", and ParsePairs keeps the space as the
   * first byte of the next name: a cookie written as ` NAME=value` after a ';'
   * is stored under " NAME", so %{NAME}C writes nothing for it.
   */
  lemma SpacedCookieMissed(f: Fields, env: Env, ps: seq<Pairs.Pair>, i: nat, name: string, rest: string)
    requires f.cookies == Cookies(f.header)
    requires FirstValue(f.header, "Cookie") == Pairs.Encode(ps)
    requires forall p | p in ps :: Pairs.Encodable(p)
    requires i < |ps| && ps[i].name == " " + name && '}' !in name
    requires forall p | p in ps :: p.name != name
    ensures Render(f, env, "%{" + name + "}C" + rest) == Render(f, env, rest)
  {
    assert name !in Pairs.Parse(FirstValue(f.header, "Cookie"), false).pairs by {
      Pairs.ParseEncode(ps, false);
      Pairs.InsertKeys(map[], ps, false);
    }
    CookieLookup(f, env, name, rest);
  }

  /** %r writes the method, the protocol and the URL, separated by spaces; without a URL it panics. */
  lemma RequestLineDirective(f: Fields, env: Env, rest: string)
    ensures f.url.Some? ==>
      Render(f, env, "%r" + rest) == Prepend(f.httpMethod + " " + f.proto + " " + env.urlString(f.url.value), Render(f, env, rest))
    ensures f.url.None? ==> Render(f, env, "%r" + rest) == Panicked
  {
    assert Spelling(Short('r')) == "%r";
    RenderToken(f, env, Short('r'), rest);
  }

  /**
   * Rendering cannot panic once the request has a URL, its client address can
   * be found and its Cookie header parses without a panic: every directive then
   * writes a string.
   */
  lemma {:induction false} RenderTotal(f: Fields, env: Env, format: string)
    requires f.url.Some? && f.clientAddr.Returned? && f.cookies.Returned?
    ensures Render(f, env, format).Returned?
    decreases |format|
  {
    if format != [] {
      var l := Lex(format);
      RenderTotal(f, env, format[l.next..]);
    }
  }

  // ---- the predefined formats ----

  /** A one-letter directive that writes `piece`, then literal text, then the rest. */
  lemma DirectiveThenText(f: Fields, env: Env, c: char, piece: string, lit: string, rest: string, out: string)
    requires c != '{' && '%' !in lit
    requires Directive(f, env, c) == Returned(piece) && Render(f, env, rest) == Returned(out)
    ensures Render(f, env, ['%', c] + lit + rest) == Returned(piece + lit + out)
  {
    var s := ['%', c] + lit + rest;
    assert s == Spelling(Short(c)) + (lit + rest);
    RenderToken(f, env, Short(c), lit + rest);
    RenderLiteral(f, env, lit, rest);
    assert Render(f, env, lit + rest) == Returned(lit + out);
    assert Render(f, env, s) == Prepend(piece, Returned(lit + out));
    assert piece + (lit + out) == piece + lit + out;
  }

  /** What each directive of the log templates writes. */
  lemma TemplateDirectives(f: Fields, env: Env)
    requires f.url.Some? && f.clientAddr.Returned?
    ensures Directive(f, env, 'a') == Returned(f.clientAddr.value)
    ensures Directive(f, env, 'u') == Returned(UserField(f))
    ensures Directive(f, env, 't') == Returned(env.timeFormat(f.start, RequestTimeLayout))
    ensures Directive(f, env, 'r') == Returned(RequestLine(f, env).value)
    ensures Directive(f, env, 's') == Returned(Decimal(f.status))
    ensures Directive(f, env, 'B') == Returned(Decimal(f.size))
    ensures Directive(f, env, 'v') == Returned(f.host)
  {
  }

  /** Two one-letter directives, each followed by literal text, then the rest. */
  lemma TwoDirectives(f: Fields, env: Env, c1: char, p1: string, l1: string, c2: char, p2: string, l2: string, rest: string, out: string)
    requires c1 != '{' && '%' !in l1 && Directive(f, env, c1) == Returned(p1)
    requires c2 != '{' && '%' !in l2 && Directive(f, env, c2) == Returned(p2)
    requires Render(f, env, rest) == Returned(out)
    ensures Render(f, env, ['%', c1] + l1 + (['%', c2] + l2 + rest)) == Returned(p1 + l1 + (p2 + l2 + out))
  {
    DirectiveThenText(f, env, c2, p2, l2, rest, out);
    DirectiveThenText(f, env, c1, p1, l1, ['%', c2] + l2 + rest, p2 + l2 + out);
  }

  /** The directives of the Common Log Format, then what follows them. */
  lemma CommonLogPrefix(f: Fields, env: Env, lit: string, rest: string, out: string)
    requires f.url.Some? && f.clientAddr.Returned?
    requires '%' !in lit && Render(f, env, rest) == Returned(out)
    ensures Render(f, env,
      ['%', 'a'] + " - " + (['%', 'u'] + " " + (['%', 't'] + " \"" + (['%', 'r'] + "\" " + (['%', 's'] + " " + (['%', 'B'] + lit + rest)))))) ==
      Returned(f.clientAddr.value + " - " + (UserField(f) + " " + (env.timeFormat(f.start, RequestTimeLayout) + " \"" +
      (RequestLine(f, env).value + "\" " + (Decimal(f.status) + " " + (Decimal(f.size) + lit + out))))))
  {
    TemplateDirectives(f, env);
    var t4 := ['%', 's'] + " " + (['%', 'B'] + lit + rest);
    var o4 := Decimal(f.status) + " " + (Decimal(f.size) + lit + out);
    TwoDirectives(f, env, 's', Decimal(f.status), " ", 'B', Decimal(f.size), lit, rest, out);
    var t2 := ['%', 't'] + " \"" + (['%', 'r'] + "\" " + t4);
    var o2 := env.timeFormat(f.start, RequestTimeLayout) + " \"" + (RequestLine(f, env).value + "\" " + o4);
    TwoDirectives(f, env, 't', env.timeFormat(f.start, RequestTimeLayout), " \"", 'r', RequestLine(f, env).value, "\" ", t4, o4);
    TwoDirectives(f, env, 'a', f.clientAddr.value, " - ", 'u', UserField(f), " ", t2, o2);
  }

  /** The Common Log Format template, token by token. */
  lemma CommonLogFormatSpelled()
    ensures CommonLogFormat ==
      ['%', 'a'] + " - " + (['%', 'u'] + " " + (['%', 't'] + " \"" + (['%', 'r'] + "\" " + (['%', 's'] + " " + (['%', 'B'] + "" + [])))))
  {
  }

  /** The simple template, token by token. */
  lemma SimpleLogFormatSpelled()
    ensures SimpleLogFormat == ['%', 'a'] + " \"" + (['%', 'r'] + "\" " + (['%', 's'] + " " + (['%', 'B'] + "" + [])))
  {
  }

  /**
   * The Common Log Format line: client, "-", user, start time, the request
   * line in quotes, status and size. It cannot panic once the request has a
   * URL and its client address can be found.
   */
  lemma CommonLogLine(f: Fields, env: Env)
    requires f.url.Some? && f.clientAddr.Returned?
    ensures Render(f, env, CommonLogFormat) == Returned(
      f.clientAddr.value + " - " + (UserField(f) + " " + (env.timeFormat(f.start, RequestTimeLayout) + " \"" +
      (RequestLine(f, env).value + "\" " + (Decimal(f.status) + " " + (Decimal(f.size) + "" + ""))))))
  {
    CommonLogPrefix(f, env, "", [], "");
    CommonLogFormatSpelled();
  }

  /** The simple line: client, the request line in quotes, status and size. */
  lemma SimpleLogLine(f: Fields, env: Env)
    requires f.url.Some? && f.clientAddr.Returned?
    ensures Render(f, env, SimpleLogFormat) == Returned(
      f.clientAddr.value + " \"" + (RequestLine(f, env).value + "\" " + (Decimal(f.status) + " " + (Decimal(f.size) + "" + ""))))
  {
    TemplateDirectives(f, env);
    var t2 := ['%', 's'] + " " + (['%', 'B'] + "" + []);
    TwoDirectives(f, env, 's', Decimal(f.status), " ", 'B', Decimal(f.size), "", [], "");
    TwoDirectives(f, env, 'a', f.clientAddr.value, " \"", 'r', RequestLine(f, env).value, "\" ", t2, Decimal(f.status) + " " + (Decimal(f.size) + "" + ""));
    SimpleLogFormatSpelled();
  }

  /**
   * The step of the loop: with `b` written for the text before `p`, writing
   * what the token at `p` writes leaves `b + piece` written for the text
   * before the next token.
   */
  lemma Advance(f: Fields, env: Env, format: string, b: string, p: nat, piece: string, next: nat)
    requires p < |format| && next == p + Lex(format[p..]).next
    requires Prepend(b, Render(f, env, format[p..])) == Render(f, env, format)
    requires Emit(f, env, Lex(format[p..]).token) == Returned(piece)
    ensures Prepend(b + piece, Render(f, env, format[next..])) == Render(f, env, format)
  {
    RenderAt(f, env, format, p, next);
    Grow(b, piece, Render(f, env, format[p..]), Render(f, env, format[next..]));
  }

  /** Moving a returned piece into the builder leaves the same result. */
  lemma Grow(b: string, piece: string, here: Outcome<string>, rest: Outcome<string>)
    requires here == Then(Returned(piece), rest)
    ensures Prepend(b, here) == Prepend(b + piece, rest)
  {
    if rest.Returned? {
      assert b + (piece + rest.value) == (b + piece) + rest.value;
    }
  }

  /** A token that panics makes the whole rendering panic. */
  lemma Abort(f: Fields, env: Env, format: string, b: string, p: nat)
    requires p < |format|
    requires Prepend(b, Render(f, env, format[p..])) == Render(f, env, format)
    requires Emit(f, env, Lex(format[p..]).token) == Panicked
    ensures Render(f, env, format) == Panicked
  {
    RenderAt(f, env, format, p, p + Lex(format[p..]).next);
  }

  /** Once the whole string is consumed, the builder holds the rendering. */
  lemma Done(f: Fields, env: Env, format: string, b: string)
    requires Prepend(b, Render(f, env, format[|format|..])) == Render(f, env, format)
    ensures Render(f, env, format) == Returned(b)
  {
    assert format[|format|..] == [] && b + "" == b;
  }

  /**
   * The Record: the embedded Request and Response, which it owns, and the
   * start time, end time and duration, all in nanoseconds.
   */
  class Record {
    const request: Request
    const response: Response
    var startTime: int
    var endTime: int
    var duration: int

    /** new(Record). */
    constructor ()
      ensures fresh(request) && fresh(response)
      ensures request.IsZero() && response.IsZero()
      ensures startTime == 0 && endTime == 0 && duration == 0
    {
      request := new Request.Zero();
      response := new Response();
      startTime, endTime, duration := 0, 0, 0;
    }

    /** The values Format reads. */
    function Snapshot(): (f: Fields)
      reads this, request, response, request.header, response.header
    {
      Fields(request.httpMethod, request.url, request.proto, request.host, request.user,
        Entries(request.header), ClientAddress(Entries(request.header), request.remoteAddr),
        Cookies(Entries(request.header)), response.status, response.size,
        Entries(response.header), startTime, endTime, duration)
    }

    /** Resets the Request, the Response, both times and the duration to their zero values. */
    method Reset()
      modifies this, request, response
      ensures request.IsZero() && response.IsZero()
      ensures startTime == 0 && endTime == 0 && duration == 0
    {
      request.Reset();
      response.Reset();
      startTime, endTime, duration := 0, 0, 0;
    }

    /** Start, with the clock reading `now` passed in. */
    method Start(now: int)
      modifies this
      ensures startTime == now
      ensures endTime == old(endTime) && duration == old(duration)
    {
      startTime := now;
    }

    /**
     * End, with the clock reading `now` passed in: the duration is the end time
     * minus the start time, clamped to the int64 range as time.Time.Sub does.
     */
    method End(now: int)
      modifies this
      ensures endTime == now && startTime == old(startTime)
      ensures duration == Saturate64(endTime - startTime)
      ensures Int64Min <= endTime - startTime <= Int64Max ==> startTime + duration == endTime
    {
      endTime := now;
      duration := Saturate64(endTime - startTime);
    }

    /** One `%c` directive, as the cases of the Go switch write it. */
    method WriteDirective(env: Env, c: char) returns (piece: Outcome<string>)
      requires c != '{'
      ensures piece == Directive(Snapshot(), env, c)
    {
      match c
      case '%' => piece := Returned("%");
      case 'B' => piece := Returned(Decimal(response.size));
      case 'D' => piece := Returned(env.micros(duration));
      case 'H' => piece := Returned(request.proto);
      case 'T' => piece := Returned(env.seconds(duration));
      case 'U' =>
        if request.url.None? {
          return Panicked;
        }
        piece := Returned(request.url.value.path);
      case 'a' => piece := request.ClientAddr();
      case 'm' => piece := Returned(request.httpMethod);
      case 'q' =>
        if request.url.None? {
          return Panicked;
        }
        piece := Returned("");
        if request.url.value.rawQuery != "" {
          piece := Returned("?" + request.url.value.rawQuery);
        }
      case 'r' =>
        if request.url.None? {
          return Panicked;
        }
        piece := Returned(request.httpMethod + " " + request.proto + " " + env.urlString(request.url.value));
      case 's' => piece := Returned(Decimal(response.status));
      case 't' => piece := Returned(env.timeFormat(startTime, RequestTimeLayout));
      case 'u' =>
        if request.user != "" {
          piece := Returned(request.user);
        } else {
          piece := Returned("-");
        }
      case 'v' => piece := Returned(request.host);
      case _ => piece := Returned(['%', c]);
    }

    /** One `%{key}c` directive, as the cases of the Go switch write it. */
    method WriteKeyed(env: Env, key: string, c: char) returns (piece: Outcome<string>)
      ensures piece == Keyed(Snapshot(), env, key, c)
    {
      match c
      case 'C' =>
        var cookies := Pairs.ParsePairs(FirstValue(Entries(request.header), "Cookie"), false);
        if cookies.SliceOutOfRange? {
          return Panicked;
        }
        var m := if cookies.Parsed? then cookies.pairs else map[];
        piece := Returned(if key in m then m[key] else "");
      case 'T' =>
        if key == "ms" {
          piece := Returned(env.millis(duration));
        } else if key == "us" {
          piece := Returned(env.micros(duration));
        } else if key == "s" {
          piece := Returned(env.seconds(duration));
        } else {
          piece := Returned("%{" + key + "}T");
        }
      case 'i' => piece := Returned(Join(Values(Entries(request.header), env.canonicalKey(key)), ","));
      case 'o' => piece := Returned(Join(Values(Entries(response.header), env.canonicalKey(key)), ","));
      case 't' =>
        if HasPrefix(key, "end:") {
          piece := Returned(env.timeFormat(endTime, TrimPrefix(key, "end:")));
        } else {
          piece := Returned(env.timeFormat(startTime, TrimPrefix(key, "begin:")));
        }
      case _ => piece := Returned("%{" + key + "}" + [c]);
    }

    /**
     * One pass of the body of Format's loop from offset `i`: the switch on
     * format[i], with the scan for `}` of a `%{` directive. It yields what the
     * token at `i` writes and the offset after it.
     */
    method WriteToken(env: Env, format: string, i: nat) returns (piece: Outcome<string>, next: nat)
      requires i < |format|
      ensures piece == Emit(Snapshot(), env, Lex(format[i..]).token)
      ensures next == i + Lex(format[i..]).next
    {
      var l := |format|;
      if format[i] != '%' {
        LexText(format, i);
        return Returned([format[i]]), i + 1;
      }
      if i + 1 == l {
        LexFinalPercent(format, i);
        return Returned("%"), l;
      }
      if format[i + 1] != '{' {
        LexShort(format, i);
        piece := WriteDirective(env, format[i + 1]);
        return piece, i + 2;
      }
      var j := i + 2;
      while j < l && format[j] != '}'
        invariant i + 2 <= j <= l
        invariant IndexFrom(format, j, '}', '}') == IndexFrom(format, i + 2, '}', '}')
        decreases l - j
      {
        j := j + 1;
      }
      LexLong(format, i, j);
      if j == l || j + 1 == l {
        return Returned("%" + format[i + 1..]), l;
      }
      var key := format[i + 2..j];
      piece := WriteKeyed(env, key, format[j + 1]);
      return piece, j + 2;
    }

    /**
     * Format: one left-to-right pass over the format string, appending what
     * each token writes to a builder.
     */
    method Format(env: Env, format: string) returns (r: Outcome<string>)
      ensures r == Render(Snapshot(), env, format)
    {
      ghost var f := Snapshot();
      var b := "";
      var i := 0;
      assert format[i..] == format;
      if Render(f, env, format).Returned? {
        assert "" + Render(f, env, format).value == Render(f, env, format).value;
      }
      while i < |format|
        invariant i <= |format|
        invariant Prepend(b, Render(f, env, format[i..])) == Render(f, env, format)
        decreases |format| - i
      {
        var piece, next := WriteToken(env, format, i);
        if piece.Panicked? {
          Abort(f, env, format, b, i);
          return Panicked;
        }
        Advance(f, env, format, b, i, piece.value, next);
        b, i := b + piece.value, next;
      }
      Done(f, env, format, b);
      return Returned(b);
    }
  }
}
