/**
  The filler payload of the single-payload channel (`send_dump_data`): an
  integer, or a string written in binary ("0b…") or hexadecimal ("0x…"),
  normalised to the one byte every packet carries; a bytes value is sent as
  it is. Malformed or out-of-range fillers raise `ValueError` before any
  packet is sent.
 */
module DumpData {
  import opened Burst

  /** The configured `send_dump_data`, by its Python type; a bytes value is used as it is. */
  datatype Filler = IntData(n: int) | StrData(s: string) | BytesData(bytes: seq<Byte>)

  /** The causes of the `ValueError` a filler can raise. */
  datatype ValueError =
    | OutOfRange(value: int)     // a value that does not fit in one byte
    | MissingPrefix              // a string starting with neither "0b" nor "0x"
    | InvalidLiteral(base: nat)  // digits that `int(s, base)` refuses

  datatype Result<T> = Ok(value: T) | Err(error: ValueError)

  predicate StartsWith(s: string, prefix: string)
  {
    |prefix| <= |s| && s[..|prefix|] == prefix
  }

  /** The value of a digit character; 16 for a character that is no digit in any base up to 16. */
  function DigitValue(c: char): nat
  {
    if '0' <= c <= '9' then c as int - '0' as int
    else if 'a' <= c <= 'f' then c as int - 'a' as int + 10
    else if 'A' <= c <= 'F' then c as int - 'A' as int + 10
    else 16
  }

  predicate IsDigit(c: char, base: nat)
  {
    DigitValue(c) < base
  }

  /** The whitespace `int()` strips around a literal (ASCII only). */
  predicate IsSpace(c: char)
  {
    c == ' ' || c == '\t' || c == '\n' || c == '\r' || c == '\U{B}' || c == '\U{C}'
  }

  function TrimTrailingSpace(s: string): string
  {
    if s != [] && IsSpace(s[|s| - 1]) then TrimTrailingSpace(s[..|s| - 1]) else s
  }

  /**
    The digits after the base prefix, as `int` accepts them: at least one
    digit, single underscores between digits (one may also follow the prefix
    directly), and a digit last.
   */
  predicate WellFormed(d: string, base: nat)
  {
    |d| > 0 && IsDigit(d[|d| - 1], base) &&
    (forall k :: 0 <= k < |d| ==> d[k] == '_' || IsDigit(d[k], base)) &&
    (forall k :: 0 <= k < |d| - 1 ==> d[k] != '_' || d[k + 1] != '_')
  }

  /** The number the digits of `d` denote in `base`; underscores are skipped. */
  function ValueOf(d: string, base: nat): nat
  {
    if d == [] then 0
    else if d[|d| - 1] == '_' then ValueOf(d[..|d| - 1], base)
    else ValueOf(d[..|d| - 1], base) * base + DigitValue(d[|d| - 1])
  }

  /** `bytes([int(prefix + body, base)])`: the literal must be well formed and its value a byte. */
  function ParseByte(body: string, base: nat): Result<seq<Byte>>
  {
    var digits := TrimTrailingSpace(body);
    if !WellFormed(digits, base) then Err(InvalidLiteral(base))
    else
      var v := ValueOf(digits, base);
      if v > 255 then Err(OutOfRange(v)) else Ok([v])
  }

  /** The normalisation of `send_dump_data` at the start of `send`. */
  function Normalise(data: Filler): (r: Result<seq<Byte>>)
    ensures data.IntData? ==> (r.Ok? <==> 0 <= data.n <= 255)
    ensures data.IntData? && r.Ok? ==> r.value == [data.n]
    ensures data.IntData? && r.Err? ==> r.error == OutOfRange(data.n)
    ensures data.StrData? && !StartsWith(data.s, "0b") && !StartsWith(data.s, "0x") ==> r == Err(MissingPrefix)
    ensures data.StrData? && r.Ok? ==> |r.value| == 1
    ensures data.BytesData? ==> r == Ok(data.bytes)
  {
    match data
    case IntData(n) =>
      if n < 0 || n > 255 then Err(OutOfRange(n)) else Ok([n])
    case StrData(s) =>
      if StartsWith(s, "0b") then ParseByte(s[2..], 2)
      else if StartsWith(s, "0x") then ParseByte(s[2..], 16)
      else Err(MissingPrefix)
    case BytesData(bytes) =>
      Ok(bytes)
  }

  function DigitChar(v: nat): (c: char)
    requires v < 16
  {
    "0123456789abcdef"[v]
  }

  lemma DigitCharValue(v: nat)
    requires v < 16
    ensures DigitValue(DigitChar(v)) == v && DigitChar(v) != '_'
  {
  }

  /** The shortest digits of `n` in `base`, lower-case, without prefix. */
  function Digits(n: nat, base: nat): string
    requires 2 <= base <= 16
    decreases n
  {
    if n < base then [DigitChar(n)] else Digits(n / base, base) + [DigitChar(n % base)]
  }

  /** Appending one digit keeps digits well formed and shifts their value by one place. */
  lemma AppendDigit(d: string, c: char, base: nat)
    requires WellFormed(d, base) && IsDigit(c, base) && c != '_'
    ensures WellFormed(d + [c], base)
    ensures ValueOf(d + [c], base) == ValueOf(d, base) * base + DigitValue(c)
  {
  }

  lemma DivMod(n: nat, base: nat)
    requires 2 <= base <= n
    ensures n / base * base + n % base == n && n / base < n && n % base < base
  {
  }

  /** Digits read back: they are well formed and denote `n`. */
  lemma {:induction false} DigitsRoundTrip(n: nat, base: nat)
    requires 2 <= base <= 16
    ensures WellFormed(Digits(n, base), base)
    ensures ValueOf(Digits(n, base), base) == n
    decreases n
  {
    if n < base {
      DigitCharValue(n);
      assert [DigitChar(n)][..0] == [];
    } else {
      var q, r := n / base, n % base;
      DivMod(n, base);
      assert Digits(n, base) == Digits(q, base) + [DigitChar(r)];
      DigitsRoundTrip(q, base);
      DigitCharValue(r);
      AppendDigit(Digits(q, base), DigitChar(r), base);
    }
  }

  /** Digits end in a digit, so `int` strips no whitespace from them. */
  lemma TrimWellFormed(d: string, base: nat)
    requires WellFormed(d, base) && base <= 16
    ensures TrimTrailingSpace(d) == d
  {
  }

  /** The prefix `send` checks for before calling `int(s, base)`. */
  function Prefix(base: nat): string
  {
    if base == 2 then "0b" else "0x"
  }

  predicate AllSpace(w: string)
  {
    forall k :: 0 <= k < |w| ==> IsSpace(w[k])
  }

  /** Stripping trailing whitespace leaves a prefix that does not end in whitespace, and removes only whitespace. */
  lemma {:induction false} TrimSplit(s: string)
    ensures |TrimTrailingSpace(s)| <= |s| && TrimTrailingSpace(s) == s[..|TrimTrailingSpace(s)|]
    ensures AllSpace(s[|TrimTrailingSpace(s)|..])
    ensures TrimTrailingSpace(s) != [] ==> !IsSpace(TrimTrailingSpace(s)[|TrimTrailingSpace(s)| - 1])
    decreases |s|
  {
    if s != [] && IsSpace(s[|s| - 1]) {
      var t := s[..|s| - 1];
      TrimSplit(t);
      var k := |TrimTrailingSpace(t)|;
      assert s[k..] == t[k..] + [s[|s| - 1]];
    }
  }

  /** Whitespace after text that does not end in whitespace is exactly what is stripped. */
  lemma {:induction false} TrimAfter(d: string, w: string)
    requires d != [] && !IsSpace(d[|d| - 1]) && AllSpace(w)
    ensures TrimTrailingSpace(d + w) == d
    decreases |w|
  {
    if w == [] {
      assert d + w == d;
    } else {
      var n := |w| - 1;
      assert (d + w)[..|d + w| - 1] == d + w[..n];
      TrimAfter(d, w[..n]);
    }
  }

  /**
    A string filler in the form `int` accepts, the prefix, well-formed digits
    and optional trailing whitespace, becomes the one byte the digits denote,
    or raises `ValueError` when that value does not fit in a byte.
   */
  lemma StrFillerValue(d: string, w: string, base: nat)
    requires base == 2 || base == 16
    requires WellFormed(d, base) && AllSpace(w)
    ensures Normalise(StrData(Prefix(base) + d + w))
         == if ValueOf(d, base) <= 255 then Ok([ValueOf(d, base)]) else Err(OutOfRange(ValueOf(d, base)))
  {
    var s := Prefix(base) + d + w;
    assert s[2..] == d + w;
    assert s[1] == if base == 2 then 'b' else 'x';
    TrimAfter(d, w);
  }

  /**
    A string filler with the right prefix whose rest is not well-formed
    digits followed by whitespace, however it is split, raises `ValueError`.
   */
  lemma StrFillerMalformed(body: string, base: nat)
    requires base == 2 || base == 16
    requires forall k :: 0 <= k <= |body| && AllSpace(body[k..]) ==> !WellFormed(body[..k], base)
    ensures Normalise(StrData(Prefix(base) + body)) == Err(InvalidLiteral(base))
  {
    var s := Prefix(base) + body;
    assert s[2..] == body;
    assert s[1] == if base == 2 then 'b' else 'x';
    TrimSplit(body);
    var k := |TrimTrailingSpace(body)|;
    assert AllSpace(body[k..]);
  }

  /**
    A leading zero changes neither a literal's value nor, when digits follow
    it, whether it is well formed; a lone "0" is well formed where nothing is not.
   */
  lemma {:induction false} LeadingZero(d: string, base: nat)
    requires 2 <= base <= 16
    ensures ValueOf("0" + d, base) == ValueOf(d, base)
    ensures WellFormed("0" + d, base) <==> d == [] || WellFormed(d, base)
    decreases |d|
  {
    if d == [] {
      assert ("0" + d)[..0] == [];
    } else {
      var n := |d| - 1;
      assert ("0" + d)[..|"0" + d| - 1] == "0" + d[..n];
      LeadingZero(d[..n], base);
      var s := "0" + d;
      assert forall k :: 0 <= k < |d| ==> s[k + 1] == d[k];
      if WellFormed(s, base) {
        assert forall k :: 0 <= k < |d| ==> d[k] == '_' || IsDigit(d[k], base);
        assert forall k :: 0 <= k < |d| - 1 ==> d[k] != '_' || d[k + 1] != '_';
      }
    }
  }

  /** An underscore between digits is skipped: it changes neither the value nor, between two digits, well-formedness. */
  lemma {:induction false} Underscore(a: string, b: string, base: nat)
    requires 2 <= base <= 16
    ensures ValueOf(a + "_" + b, base) == ValueOf(a + b, base)
    ensures WellFormed(a + b, base) && b != [] && b[0] != '_' && (a == [] || a[|a| - 1] != '_') ==>
      WellFormed(a + "_" + b, base)
    decreases |b|
  {
    if b == [] {
      assert (a + "_" + b)[..|a| + 1 - 1] == a;
      assert a + b == a;
    } else {
      var n := |b| - 1;
      assert (a + "_" + b)[..|a + "_" + b| - 1] == a + "_" + b[..n];
      assert (a + b)[..|a + b| - 1] == a + b[..n];
      Underscore(a, b[..n], base);
      if WellFormed(a + b, base) && b[0] != '_' && (a == [] || a[|a| - 1] != '_') {
        var s := a + "_" + b;
        forall k | 0 <= k < |s| - 1
          ensures s[k] != '_' || s[k + 1] != '_'
        {
          if k < |a| - 1 {
            assert s[k] == (a + b)[k] && s[k + 1] == (a + b)[k + 1];
          } else if k > |a| {
            assert s[k] == (a + b)[k - 1] && s[k + 1] == (a + b)[k];
          }
        }
        forall k | 0 <= k < |s|
          ensures s[k] == '_' || IsDigit(s[k], base)
        {
          if k < |a| {
            assert s[k] == (a + b)[k];
          } else if k > |a| {
            assert s[k] == (a + b)[k - 1];
          }
        }
        assert s[|s| - 1] == (a + b)[|a + b| - 1];
      }
    }
  }

  /** A hex digit written in upper case. */
  function Upper(c: char): char
  {
    if 'a' <= c <= 'f' then (c as int - 'a' as int + 'A' as int) as char else c
  }

  function UpperCase(d: string): string
  {
    seq(|d|, k requires 0 <= k < |d| => Upper(d[k]))
  }

  /** Writing the digits in upper case changes neither the value nor whether they are well formed. */
  lemma {:induction false} UpperCaseValue(d: string, base: nat)
    requires 2 <= base <= 16
    ensures ValueOf(UpperCase(d), base) == ValueOf(d, base)
    ensures WellFormed(UpperCase(d), base) <==> WellFormed(d, base)
    decreases |d|
  {
    if d != [] {
      var n := |d| - 1;
      assert UpperCase(d)[..n] == UpperCase(d[..n]);
      UpperCaseValue(d[..n], base);
      var u := UpperCase(d);
      assert forall k :: 0 <= k < |d| ==> DigitValue(u[k]) == DigitValue(d[k]) && (u[k] == '_' <==> d[k] == '_');
    }
  }

  /**
    The filler literals a configuration would write for a byte, "0b" or "0x"
    followed by its digits, normalise to exactly that byte; so does the
    integer itself.
   */
  lemma FillerRoundTrip(b: Byte)
    ensures Normalise(IntData(b)) == Ok([b])
    ensures Normalise(StrData("0b" + Digits(b, 2))) == Ok([b])
    ensures Normalise(StrData("0x" + Digits(b, 16))) == Ok([b])
  {
    DigitsRoundTrip(b, 2);
    DigitsRoundTrip(b, 16);
    TrimWellFormed(Digits(b, 2), 2);
    TrimWellFormed(Digits(b, 16), 16);
    assert ("0b" + Digits(b, 2))[2..] == Digits(b, 2);
    assert ("0x" + Digits(b, 16))[2..] == Digits(b, 16);
    assert ("0x" + Digits(b, 16))[..2] != "0b";
  }
}
