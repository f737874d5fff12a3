# httplog, modelled in Dafny

httplog is HTTP request-logging middleware for Go. A handler is wrapped so that
every request produces one log record. A **Request** snapshot copies the inbound
request's method, URL, protocol, headers, host, remote address and basic-auth
user. A **ResponseWriter** wrapper sits around the server's response writer. It
counts the bytes written, keeps the status code and notes a hijack. It is
meant to keep exactly the optional interfaces of the writer it wraps:
CloseNotifier, Flusher, Hijacker and Pusher. As written, two of its sixteen
wrapper types get Pusher wrong (see "## Findings"). A **Response** copies those tallies. A **Record**
holds both snapshots, the start and end times and the duration. It renders
itself through Apache mod_log_config-like format strings such as the Common
Log Format.

The project has one module per part of the program:

- `go.dfy` (`GoRuntime`): Go's panics as a value (`Outcome`). It also holds
  the `strings` and `strconv` helpers the core calls, and int64 arithmetic.
- `http.dfy` (`Http`): header maps (a class, because Go maps are shared
  references) and URLs. It also holds the underlying response writer
  (`Sink`). The Sink logs every call it receives and answers each call
  freely within its Go interface.
- `pairs.dfy` (`Pairs`): `ParsePairs`, the `name=value;name="value"` scanner
  used for Forwarded and Cookie values.
  - `Parse` is its meaning, built from one pass of the loop (`ParseOne`).
  - The method `ParsePairs` is the Go loop, proved to compute `Parse`.
- `requests.dfy` (`Requests`): the `Request` class and the client-address
  lookup through the Forwarded and X-Forwarded-For headers.
- `response_writer.dfy` (`ResponseWriters`): the interface probe and the
  16-entry `types` table. It also has the method sets of the wrapper types
  and the `ResponseWriter` class with its tallies.
- `response.dfy` (`Responses`): the `Response` class.
- `record.dfy` (`Records`): the `Record` class, the predefined templates and
  the format interpreter.
  - `Render` is the meaning of a format string.
  - `Record.Format` is the Go index loop, proved to produce it.

Go panics reachable from the core are modelled as the `Panicked` outcome and
passed on to every caller. They are:

- the slice past the end of the text in `ParsePairs` for a value made only of
  an opening quote;
- the nil URL read by `%U`, `%q` and `%r`.

A Go nil map is modelled as an empty map.

Three behaviours of the code that a reader might not expect are modelled as
written:

- ParsePairs keeps the last value of a repeated name (request.go:126-133).
- WriteHeader records every status it is given, so the last call wins
  (response_writer.go:146-149).
- Format panics on `%U`, `%q` or `%r` without a URL (record.go:106-123). It
  also panics when ParsePairs reaches a last field of the form `name="`,
  after well-formed fields only: the quoted value's slice then runs past the
  end of the text (request.go:104-133). A text that fails earlier, such as
  `a=1;="`, gives an error and no panic. For `%a` (record.go:109-110) this
  happens only on a Forwarded value reached after every earlier one was
  skipped. For `%{NAME}C` it happens only on the first Cookie value, the one
  `Header.Get` returns (record.go:155).

## Model

| member | source | states |
|---|---|---|
| Pairs.ParseOne | request.go:90-125 | one pass of the loop body from the start of a name either stops with an error, or panics, or yields a pair with a valid name, a non-empty value and a resume offset past the start |
| Pairs.AfterName | request.go:104-125 | after the `=`, the pair found is named by the text between the name start and the `=`, has a non-empty value and resumes past the start |
| Pairs.Finish | request.go:119-133 | the empty-value and trailing-`;` checks and the slice bound come first: a produced pair is named by the name slice, its value is the non-empty slice between the value bounds inside the text, and it resumes at the given offset, which is not the end of the text |
| Pairs.ScanTo | request.go:93-94 | the scanning loop stops at the first of the two bytes at or after its start, or at the end of the text |
| Pairs.ParseStep | request.go:91-133 | one iteration of the Go loop: it ends the call exactly when the pass does not yield a pair, with the pass's error or panic; otherwise it inserts the pair under its key and continues after it |
| Pairs.ValueStep | request.go:104-133 | the value part of an iteration: the same outcome as the pass after the `=` |
| Pairs.ParsePairs | request.go:85-136 | the loop returns exactly `Parse(text, ci)`: the map of the pairs in order, the first error, or the panic |
| Pairs.InsertKeys | request.go:126-133 | inserting the pairs adds exactly their keys (lower-cased when `ci`) and leaves every other entry unchanged |
| Pairs.LastPairWins | request.go:126-133 | when several pairs share a key, the map holds the value of the last one |
| Pairs.InsertValues | request.go:126-133 | every value in the map was already there or comes from a pair with that key |
| Pairs.ScannedPairsWellFormed | request.go:95-121 | every pair a successful scan meets has a non-empty name without `=` or `;` and a non-empty value |
| Pairs.ParsedEntriesWellFormed | request.go:85-136 | every key of a parsed map is the key of a valid name and every value is non-empty; the map is empty exactly when the text is |
| Pairs.PlainStep | request.go:113-125 | an unquoted value runs to the next `;`; the pass then yields it, or fails on a final `;` |
| Pairs.QuotedStep | request.go:104-125 | a quoted value runs between the quotes; the pass then yields it, or fails on a final `;` |
| Pairs.ParseEncode | request.go:85-136 | round trip: parsing `name=value` fields joined by `;` gives the map of those pairs in order, the last pair winning (values holding `;` are quoted) |
| Pairs.NameErrors | request.go:93-100 | after any number of well-formed pairs, a field starting with `=` or `;` is an empty name at its offset, and a field without `=` or `;` has no `=` before the end |
| Pairs.UnexpectedSemicolonFails | request.go:101-103 | after any number of well-formed pairs, a name ended by `;` instead of `=` is refused at the offset of that `;` |
| Pairs.TrailingSemicolonFails | request.go:122-125 | well-formed pairs followed by one `;` are refused as a trailing `;` at the end offset |
| Pairs.EmptyValueFails | request.go:119-121 | after any number of well-formed pairs, a name followed by `=` and then the end or a `;` is refused as an empty value at the offset after `=` |
| Pairs.TrailingDataFails | request.go:108-110 | after any number of well-formed pairs, a byte other than `;` after the closing quote is refused at that byte's offset |
| Pairs.EmptyQuotedValue | request.go:104-107 | `name=""` is read as the one-byte value `"`, because the closing-quote scan starts one byte into the value |
| Pairs.UnterminatedQuotePanics | request.go:104-133 | after any number of well-formed pairs, `name="` at the end of the text makes the value slice run past the end, a panic |
| Pairs.ScanThrough | request.go:91-133 | the loop over well-formed fields each followed by `;` meets exactly those pairs and goes on after the last `;`, whatever follows |
| Pairs.SpaceKeptInName | request.go:93-100 | a space after `;` is not skipped: `a=1; b=2` parses to `a` mapped to `1` and ` b` (with the space) mapped to `2` |
| Requests.ForwardedForFinds | request.go:53-59 | the lookup returns the `for` of the first Forwarded value that has a non-empty one, when each earlier value parsed without one or failed to parse |
| Requests.ForwardedForEmpty | request.go:53-59 | the Forwarded loop yields "" exactly when every value is skipped |
| Requests.ForwardedForPanicsAt | request.go:53-59 | a value whose parse panics, reached after skipping every earlier value, makes the lookup panic |
| Requests.ForwardedForPanicWitness | request.go:53-59 | when the lookup panics, there is such a value |
| Requests.ForwardedForPanics | request.go:53-59 | the lookup panics if and only if a panicking value comes before any value that has a `for` |
| Requests.EncodedForwardedFor | request.go:53-59 | a Forwarded value written as pairs yields the value of its last `for` pair, the name matched case-insensitively |
| Requests.FirstHop | request.go:60-67 | with no X-Forwarded-For value the result is "" |
| Requests.TrimSpaceShape | request.go:64 | TrimSpace removes exactly the leading and trailing white space |
| Requests.FirstHopShape | request.go:60-66 | the hop is the part of the first X-Forwarded-For value before its first `,`, with the white space at both ends removed and nothing else |
| Requests.ClientFromForwarded | request.go:52-79 | the Forwarded header comes first: once every earlier Forwarded value is skipped, the first value carrying a non-empty `for` gives the client address |
| Requests.ClientFromXForwardedFor | request.go:52-79 | when every Forwarded value is skipped, the address is the trimmed first hop of the first X-Forwarded-For value, or the remote address when that hop is empty or there is no such value |
| Requests.ClientAddressPanics | request.go:52-79 | ClientAddr panics exactly when a Forwarded value whose parse panics comes before any value carrying `for` |
| Requests.NoForwardingHeaders | request.go:74-79 | without either header, the client address is the connection's remote address |
| Requests.Request.constructor | request.go:25-29 | NewRequest copies every field of the inbound request and the user, sharing the header map |
| Requests.Request.Zero | request.go:12-22 | a new Request has every field at its zero value |
| Requests.Request.Reset | request.go:32-34 | every field is back at its zero value |
| Requests.Request.Update | request.go:37-47 | every field holds the inbound request's value afterwards, and the header map is shared with it |
| Requests.Request.FirstForwardedFor | request.go:52-68 | the two Go loops compute the Forwarded-then-X-Forwarded-For lookup over the request's headers that `ClientFromForwarded`, `ClientFromXForwardedFor` and `ClientAddressPanics` characterise |
| Requests.Request.ClientAddr | request.go:74-79 | returns the client address of the request's headers and remote address, as characterised by `ClientFromForwarded`, `ClientFromXForwardedFor` and `ClientAddressPanics` |
| GoRuntime.ToLower | request.go:126-129 | lower-casing keeps the length and lower-cases byte by byte |
| GoRuntime.BeforeFirst | request.go:62-64 | the part before the first separator holds no separator and is a prefix ending at it |
| GoRuntime.Int64 | response_writer.go:136-142 | the int64 size: in range, congruent to the exact sum modulo 2^64, and equal to it when it fits |
| GoRuntime.Int64AddLate | response_writer.go:140-144 | adding each count to the wrapped size equals wrapping the exact total |
| GoRuntime.Saturate64 | record.go:32-35 | the duration `time.Time.Sub` returns is clamped to the int64 range and exact inside it |
| GoRuntime.DecimalRoundTrip | record.go:97-98 | the decimal written by `%B` and `%s` reads back as the number |
| ResponseWriters.CapabilitiesOf | response_writer.go:44-49 | an interface belongs to an index exactly when its bit is set |
| ResponseWriters.IndexOf | response_writer.go:28-40 | the probe sets the bit of an interface exactly when the writer implements it |
| ResponseWriters.TypesInIndexOrder | response_writer.go:51-130 | the table has 16 entries, and entry i is the wrapper type named after the interfaces of index i |
| ResponseWriters.DeclaredAsNamed | response_writer.go:171-395 | each wrapper type declares the methods its name lists, except CloseNotifierFlusherHijacker, which has an extra Push, and CloseNotifierFlusherPusher, which lacks Push |
| ResponseWriters.IntendedAsNamed | response_writer.go:299-315 | with Push on the intended receiver, every wrapper type declares exactly the methods its name lists |
| ResponseWriters.ProbeNamesInterfaces | response_writer.go:27-41 | the probe and the table lookup yield the wrapper type named after the writer's interfaces |
| ResponseWriters.WrapExposesAsWritten | response_writer.go:19-41 | as written, the wrapper has exactly the wrapped writer's interfaces unless the writer has CloseNotifier, Flusher and exactly one of Hijacker and Pusher; then Pusher is gained or lost |
| ResponseWriters.WrapExposes | response_writer.go:19-41 | with the corrected receiver, the wrapper has exactly the wrapped writer's interfaces, for every writer |
| ResponseWriters.SummariesAppend | response_writer.go:140-168 | one more forwarded call adds its byte count, replaces the status if it is a WriteHeader, and sets the hijack flag if it is a Hijack |
| ResponseWriters.Reported | response_writer.go:155-160 | Status() is never 0: 200 when no status was written, else the status written |
| ResponseWriters.ResponseWriter.constructor | response_writer.go:52-54 | a fresh responseWriter around the writer has status 0, size 0 and no hijack |
| ResponseWriters.ResponseWriter.Wrap | response_writer.go:27-42 | the wrapper is the table entry for the probed index and its tallies are zero; its method set is taken from the corrected table, under which it offers exactly the writer's interfaces |
| ResponseWriters.ResponseWriter.Write | response_writer.go:140-144 | forwards the bytes; the size grows by the reported count with int64 wrap-around, even on error; the tallies still summarise the forwarded calls |
| ResponseWriters.ResponseWriter.Status | response_writer.go:155-160 | the status reported to the logger is never 0: 200 while no status was written, else the last status written |
| ResponseWriters.ResponseWriter.WriteHeader | response_writer.go:146-149 | records the code, so the last call wins; forwards it; Status() reports it |
| ResponseWriters.ResponseWriter.CloseNotify | response_writer.go:175-177 | forwards to the wrapped writer, only on a wrapper offering CloseNotifier; the tallies are unchanged |
| ResponseWriters.ResponseWriter.Flush | response_writer.go:184-186 | forwards to the wrapped writer, only on a wrapper offering Flusher; the tallies are unchanged |
| ResponseWriters.ResponseWriter.Hijack | response_writer.go:206-209 | marks the writer hijacked before forwarding, so it stays marked whatever the hijack returns |
| ResponseWriters.ResponseWriter.Push | response_writer.go:262-266 | forwards the push, on a wrapper whose corrected method set has Push; the tallies are unchanged |
| Responses.Response.constructor | response.go:5-11 | a new Response is zero |
| Responses.Response.Reset | response.go:13-16 | every field is back at its zero value |
| Responses.Response.Update | response.go:18-24 | copies status, size, hijack flag and header map from the writer's getters, so it holds the summary of the calls forwarded since wrapping (status 200 when none was written) |
| Records.RequestLineDirective | record.go:118-123 | `%r` writes the method, the protocol and the URL, separated by single spaces, in front of the rest; without a URL it panics |
| Records.Directive | record.go:94-194 | a one-letter directive panics exactly for `%U`, `%q` and `%r` without a URL, or for `%a` when the client lookup panics; an unknown letter is written back unchanged |
| Records.CookieLookup | record.go:154-156 | `%{NAME}C` writes the value of cookie NAME in the first Cookie header value; it writes nothing when that value fails to parse or has no such cookie, and panics when the parse panics |
| Records.Keyed | record.go:152-190 | a `%{key}c` directive panics exactly for `C` when the cookie parse panics; an unknown letter is written back unchanged |
| Records.Lex | record.go:87-153 | the loop's token at the start of the text is spelled by a non-empty prefix of it; a verbatim tail takes the whole rest, and a key holds no `}` |
| Records.RenderLiteral | record.go:195-196 | bytes other than `%` are copied in front of what the rest renders to |
| Records.PlainFormat | record.go:195-196 | a format without `%` renders to itself |
| Records.FinalPercent | record.go:90-93 | a `%` at the very end is written as it is |
| Records.UnclosedBrace | record.go:136-151 | `%{` with no `}` before the last byte writes the rest of the format as it is |
| Records.PercentPercent | record.go:95-96 | `%%` writes one `%` |
| Records.UnknownDirective | record.go:191-193 | `%c` for a letter with no meaning writes `%c` back |
| Records.UnknownKeyedDirective | record.go:153-190 | `%{key}c` for an unknown letter, or `%{unit}T` for an unknown unit, writes the directive back |
| Records.DurationAliases | record.go:99-167 | `%D` writes what `%{us}T` writes and `%T` what `%{s}T` writes |
| Records.TimeToken | record.go:179-184 | `%{key}t` writes the key's time directive in front of the rest |
| Records.TimeDirectives | record.go:179-184 | `end:F` formats the end time and `begin:F` the start time with F, for every F, including one that itself starts with a prefix |
| Records.TimeUnprefixed | record.go:179-184 | a key with neither prefix formats the start time with the key as it stands |
| Records.HeaderDirective | record.go:173-175 | `%{NAME}i` writes every value of the canonical header joined by `,`, and nothing for a missing header |
| Records.ResponseHeaderDirective | record.go:176-178 | `%{NAME}o` writes every value of the canonical response header joined by `,`, and nothing for a missing header |
| Records.RequestDirectives | record.go:102-117 | with a URL, `%H`, `%m` and `%U` write the protocol, method and path; `%q` writes `?` and the raw query, and writes nothing exactly when the query is empty |
| Records.TemplateDirectives | record.go:94-135 | with a URL and a client address, `%a`, `%u`, `%t`, `%r`, `%s`, `%B` and `%v` write the client address, the user or `-`, the bracketed start time, the request line, the status, the size and the host |
| Records.CookieDirective | record.go:154-156 | `%{NAME}C` on a Cookie header written as pairs writes the value of the last cookie with that name |
| Records.SpacedCookieMissed | record.go:154-156 | a cookie written after `; `, as browsers separate cookies, is stored with the space in its name, so `%{NAME}C` for it writes nothing |
| Records.RenderTotal | record.go:85-200 | Format cannot panic once the request has a URL, the client lookup does not panic and the Cookie header parses without a panic |
| Records.SimpleLogLine | record.go:39 | the simple template writes client, the quoted request line, status and size |
| Records.CommonLogLine | record.go:44 | the Common Log Format writes client, `-`, user, bracketed start time, the quoted request line, status and size, with no panic once the request has a URL and a client address |
| Records.Record.constructor | record.go:10-16 | a new Record owns a zero Request and a zero Response, and its times are zero |
| Records.Record.Reset | record.go:18-23 | the Request, the Response, both times and the duration are back at zero |
| Records.Record.Start | record.go:25-28 | the start time is the clock reading; nothing else changes |
| Records.Record.End | record.go:30-35 | the end time is the clock reading and the duration is end minus start, saturated to int64, so start plus duration is the end when no clamp applies |
| Records.Record.WriteDirective | record.go:94-194 | the Go switch writes what `Directive` gives for the record's fields |
| Records.Record.WriteKeyed | record.go:152-190 | the Go switch writes what `Keyed` gives for the record's fields |
| Records.Record.WriteToken | record.go:88-197 | one loop iteration writes what the token at the offset writes and moves past its spelling |
| Records.Record.Format | record.go:85-200 | the builder loop returns exactly `Render` of the record's fields: every token's output in order, or a panic at the first token that panics |

## Left out

- handler.go, the middleware that calls these parts, is not part of this model.
- Request.Update: the user comes from `BasicAuth` in the Go code. Here it is a parameter, because decoding the Authorization header is outside the core.
- Record.Start and Record.End read `time.Now()`. Here the clock reading is a parameter, in nanoseconds.
- These library calls are uninterpreted functions in `Records.Env`, so their output is not modelled:
  - `url.URL.String`;
  - `time.Time.Format`;
  - `http.CanonicalHeaderKey`;
  - the floating-point formatting of durations for `%D`, `%T` and `%{UNIT}T`.
- GoRuntime.ToLower and GoRuntime.TrimSpace work on ASCII only. Go's versions also handle Unicode letters and spaces.
- The values returned by CloseNotify (a channel), Hijack (a connection and buffered reader) and Push (an error) are not modelled. Each wrapper method is modelled by the call it forwards and, for Hijack, the flag it sets.
- The wrapper's optional-interface methods cannot be called on a wrapper whose method set lacks them, as Go's type system forbids. The Sink, which stands for the wrapped writer, has each of its answers chosen freely within the contract of its interface.
- ResponseWriters.ResponseWriter.Wrap: the class takes its method sets from the corrected table (`IntendedMethods`), not from the declarations as written (`Methods`). It therefore does not give the index-7 wrapper (CloseNotifier, Flusher, Hijacker) the misplaced Push, and it gives the index-11 wrapper (CloseNotifier, Flusher, Pusher) the Push it lacks in the code. That behaviour as written is stated only by `ResponseWriters.WrapExposesAsWritten`.
- ResponseWriters.ResponseWriter.Push: requires Push in the corrected method set. The panic of the misplaced Push on an index-7 wrapper, whose `.(http.Pusher)` assertion fails because the wrapped writer is no Pusher, is not modelled by the class; `ResponseWriters.WrapExposesAsWritten` states that this wrapper has Push while the writer lacks Pusher.
- Records.CommonLogLine and Records.SimpleLogLine state the rendered line of two of the four predefined templates. BasicLogFormat and NCSALogFormat are defined, but their rendered lines are not stated as lemmas. Their tokens are covered by the directive lemmas: `%v` by TemplateDirectives, `%T` by DurationAliases, `%{NAME}i` by HeaderDirective.
- Record.Format's early returns, for a final `%` and for an unclosed `%{`, are the same as the loop ending after a verbatim token. They are modelled that way.

## Findings

| source | as written | input that shows it | evidently intended | confidence | as-written member | corrected member |
|---|---|---|---|---|---|---|
| response_writer.go:311 | the `Push` method for the CloseNotifier+Flusher+Pusher wrapper is declared with receiver `responseWriterCloseNotifierFlusherHijacker` | a wrapped writer implementing CloseNotifier, Flusher and Hijacker only (index 7): the wrapper also claims Pusher and its Push asserts a Pusher the writer lacks. A writer implementing CloseNotifier, Flusher and Pusher (index 11): the wrapper loses Pusher | receiver `responseWriterCloseNotifierFlusherPusher`, so each wrapper has exactly the wrapped writer's interfaces, as the doc comment of WrapResponseWriter promises | high; not executed | ResponseWriters.WrapExposesAsWritten | ResponseWriters.WrapExposes |
