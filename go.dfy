/**
 * Stand-ins for the parts of the Go language and standard library that the
 * logging core relies on: optional values, run-time panics, and the byte-string
 * helpers of packages strings and strconv.
 *
 * A Go string is a sequence of bytes; here it is a `string` whose characters
 * each stand for one byte.
 */
module GoRuntime {

  /** A value that may be absent (nil in Go). */
  datatype Option<+T> = None | Some(value: T)

  /**
   * The result of Go code that may panic: either it returns a value, or it
   * stops with a run-time panic (a slice out of range, a nil dereference).
   */
  datatype Outcome<+T> = Returned(value: T) | Panicked

  /** `piece` written in front of what `rest` produces; a panic stays a panic. */
  function Prepend(piece: string, rest: Outcome<string>): (r: Outcome<string>)
    ensures r.Returned? <==> rest.Returned?
    ensures r.Returned? ==> r.value == piece + rest.value
  {
    match rest
    case Returned(s) => Returned(piece + s)
    case Panicked => Panicked
  }

  /** Writing a piece that itself may panic, then the rest. */
  function Then(piece: Outcome<string>, rest: Outcome<string>): (r: Outcome<string>)
    ensures r.Returned? <==> piece.Returned? && rest.Returned?
    ensures r.Returned? ==> r.value == piece.value + rest.value
  {
    match piece
    case Returned(p) => Prepend(p, rest)
    case Panicked => Panicked
  }

  /**
   * The first index at or after `from` whose byte is `a` or `b`, or `from`
   * itself when `from` is already at or past the end: the index a Go loop
   * `for k = from; k < len(s) && s[k] != a && s[k] != b; k++ {}` ends on.
   */
  function IndexFrom(s: string, from: nat, a: char, b: char): (k: nat)
    ensures from <= k
    ensures k == from || k <= |s|
    ensures from >= |s| ==> k == from
    ensures forall i | from <= i < k :: i < |s| && s[i] != a && s[i] != b
    ensures k < |s| ==> s[k] == a || s[k] == b
    decreases |s| - from
  {
    if from >= |s| || s[from] == a || s[from] == b then from else IndexFrom(s, from + 1, a, b)
  }

  /** The loop's end index is the only index with IndexFrom's properties. */
  lemma {:induction false} IndexFromIsFirst(s: string, from: nat, a: char, b: char, k: nat)
    requires from <= k <= |s|
    requires forall i | from <= i < k :: s[i] != a && s[i] != b
    requires k < |s| ==> s[k] == a || s[k] == b
    ensures IndexFrom(s, from, a, b) == k
    decreases k - from
  {
    if from < k {
      IndexFromIsFirst(s, from + 1, a, b, k);
    }
  }

  /** Scanning a suffix finds the same byte, at an index shifted by the suffix's start. */
  lemma IndexFromShift(s: string, k: nat, from: nat, a: char, b: char)
    requires k <= |s|
    ensures IndexFrom(s[k..], from, a, b) + k == IndexFrom(s, from + k, a, b)
  {
    var j := IndexFrom(s[k..], from, a, b);
    if from + k <= |s| {
      IndexFromIsFirst(s, from + k, a, b, j + k);
    }
  }

  // ---- package strings (ASCII stand-ins) ----

  function LowerByte(c: char): char {
    if 'A' <= c <= 'Z' then (c as int - 'A' as int + 'a' as int) as char else c
  }

  /** strings.ToLower, restricted to ASCII letters. */
  function ToLower(s: string): (r: string)
    ensures |r| == |s|
    ensures forall i | 0 <= i < |s| :: r[i] == LowerByte(s[i])
  {
    if s == [] then [] else [LowerByte(s[0])] + ToLower(s[1..])
  }

  predicate IsSpace(c: char) {
    c == ' ' || c == '\t' || c == '\n' || c == '\r' || c == '\U{000B}' || c == '\U{000C}'
  }

  /** The number of white-space bytes at the start of s. */
  function LeadingSpaces(s: string): (n: nat)
    ensures n <= |s|
    ensures forall k | 0 <= k < n :: IsSpace(s[k])
    ensures n < |s| ==> !IsSpace(s[n])
  {
    if s != [] && IsSpace(s[0]) then 1 + LeadingSpaces(s[1..]) else 0
  }

  /** The number of white-space bytes at the end of s. */
  function TrailingSpaces(s: string): (n: nat)
    ensures n <= |s|
    ensures forall k | |s| - n <= k < |s| :: IsSpace(s[k])
    ensures n < |s| ==> !IsSpace(s[|s| - n - 1])
  {
    if s != [] && IsSpace(s[|s| - 1]) then 1 + TrailingSpaces(s[..|s| - 1]) else 0
  }

  function TrimLeftSpace(s: string): string {
    s[LeadingSpaces(s)..]
  }

  function TrimRightSpace(s: string): string {
    s[..|s| - TrailingSpaces(s)]
  }

  /** strings.TrimSpace, for ASCII white space. */
  function TrimSpace(s: string): string {
    TrimRightSpace(TrimLeftSpace(s))
  }

  function HasPrefix(s: string, prefix: string): bool {
    |prefix| <= |s| && s[..|prefix|] == prefix
  }

  function TrimPrefix(s: string, prefix: string): string {
    if HasPrefix(s, prefix) then s[|prefix|..] else s
  }

  /** strings.Join. */
  function Join(parts: seq<string>, sep: string): string {
    if parts == [] then ""
    else if |parts| == 1 then parts[0]
    else parts[0] + sep + Join(parts[1..], sep)
  }

  /** The first element of strings.SplitN(s, sep, 2) for a one-byte separator. */
  function BeforeFirst(s: string, sep: char): (r: string)
    ensures sep !in r
    ensures |r| <= |s| && r == s[..|r|]
    ensures |r| < |s| ==> s[|r|] == sep
  {
    s[..IndexFrom(s, 0, sep, sep)]
  }

  // ---- fixed-width integers ----

  const Int64Min: int := -0x8000_0000_0000_0000
  const Int64Max: int := 0x7FFF_FFFF_FFFF_FFFF

  /** The int64 that two's-complement arithmetic leaves for the exact value `x`. */
  function Int64(x: int): (r: int)
    ensures Int64Min <= r <= Int64Max
    ensures (r - x) % 0x1_0000_0000_0000_0000 == 0
    ensures Int64Min <= x <= Int64Max ==> r == x
  {
    (x - Int64Min) % 0x1_0000_0000_0000_0000 + Int64Min
  }

  /** Wrapping after every addition gives what wrapping once at the end gives. */
  lemma Int64AddLate(a: int, b: int)
    ensures Int64(Int64(a) + b) == Int64(a + b)
  {
  }

  /** An int64 value clamped to the int64 range instead of wrapped (time.Time.Sub). */
  function Saturate64(x: int): (r: int)
    ensures Int64Min <= r <= Int64Max
    ensures Int64Min <= x <= Int64Max ==> r == x
    ensures x > Int64Max ==> r == Int64Max
    ensures x < Int64Min ==> r == Int64Min
  {
    if x > Int64Max then Int64Max else if x < Int64Min then Int64Min else x
  }

  // ---- package strconv ----

  function DigitChar(d: nat): char
    requires d < 10
  {
    ('0' as int + d) as char
  }

  /** strconv.FormatInt(n, 10) for n >= 0. */
  function NatDecimal(n: nat): (s: string)
    ensures |s| >= 1
    ensures forall i | 0 <= i < |s| :: '0' <= s[i] <= '9'
    decreases n
  {
    if n < 10 then [DigitChar(n)] else NatDecimal(n / 10) + [DigitChar(n % 10)]
  }

  /** strconv.FormatInt(n, 10). */
  function Decimal(n: int): string {
    if n < 0 then "-" + NatDecimal(-n) else NatDecimal(n)
  }

  /** The value of a string of decimal digits, read most significant first. */
  function DigitsValue(s: string): nat
    requires forall i | 0 <= i < |s| :: '0' <= s[i] <= '9'
  {
    if s == [] then 0 else DigitsValue(s[..|s| - 1]) * 10 + (s[|s| - 1] as int - '0' as int)
  }

  /** Reading back what Decimal writes gives the number again. */
  lemma {:induction false} NatDecimalRoundTrip(n: nat)
    ensures DigitsValue(NatDecimal(n)) == n
    decreases n
  {
    if n >= 10 {
      var s := NatDecimal(n);
      NatDecimalRoundTrip(n / 10);
      assert s[..|s| - 1] == NatDecimal(n / 10);
    }
  }

  lemma DecimalRoundTrip(n: int)
    ensures var s := Decimal(n);
      if n < 0 then s[0] == '-' && DigitsValue(s[1..]) == -n
      else (forall i | 0 <= i < |s| :: '0' <= s[i] <= '9') && DigitsValue(s) == n
  {
    if n < 0 {
      NatDecimalRoundTrip(-n);
      assert Decimal(n)[1..] == NatDecimal(-n);
    } else {
      NatDecimalRoundTrip(n);
    }
  }
}
