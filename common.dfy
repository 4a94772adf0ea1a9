/** Shared vocabulary: optional values, error results with a cause chain, bytes and
    the unsigned integer limits the program relies on. */
module Common {

  datatype Option<T> = None | Some(value: T)

  /** An `anyhow::Result`: an error carries its chain of causes, outermost first. */
  datatype Result<T> = Ok(value: T) | Err(chain: seq<string>)
  {
    /** `.context(msg)`: an error gains `msg` as its new outermost cause. */
    function Context(msg: string): Result<T>
    {
      match this
      case Ok(v) => Ok(v)
      case Err(c) => Err([msg] + c)
    }
  }

  newtype byte = x: int | 0 <= x < 256

  const U8_MAX: nat := 0xFF
  const U32_MAX: nat := 0xFFFF_FFFF
  const U64_MAX: nat := 0xFFFF_FFFF_FFFF_FFFF
}

/** The pieces of Rust's `str` and integer formatting/parsing the program uses. */
module Text {
  import opened Common

  predicate IsAsciiDigit(c: char) { '0' <= c <= '9' }

  /** The word class `\w`, restricted to ASCII. */
  predicate IsAsciiWord(c: char)
  {
    'a' <= c <= 'z' || 'A' <= c <= 'Z' || IsAsciiDigit(c) || c == '_'
  }

  predicate AllDigits(s: string)
  {
    forall i :: 0 <= i < |s| ==> IsAsciiDigit(s[i])
  }

  function DigitValue(c: char): (d: nat)
    requires IsAsciiDigit(c)
    ensures d < 10
  {
    (c as int - '0' as int) as nat
  }

  function DigitChar(d: nat): (c: char)
    requires d < 10
    ensures IsAsciiDigit(c) && DigitValue(c) == d
  {
    (d + '0' as int) as char
  }

  /** The number a string of ASCII decimal digits denotes, without any width limit. */
  function DecimalValue(s: string): nat
    requires AllDigits(s)
  {
    if s == [] then 0 else 10 * DecimalValue(s[..|s| - 1]) + DigitValue(s[|s| - 1])
  }

  /** `n.to_string()` for an unsigned integer: the shortest decimal numeral. */
  function Decimal(n: nat): (s: string)
    ensures |s| > 0 && AllDigits(s)
    ensures |s| > 1 ==> s[0] != '0'
  {
    if n < 10 then [DigitChar(n)] else Decimal(n / 10) + [DigitChar(n % 10)]
  }

  lemma {:induction false} DecimalValueOfDecimal(n: nat)
    ensures DecimalValue(Decimal(n)) == n
  {
    if n >= 10 {
      var s := Decimal(n);
      assert s[..|s| - 1] == Decimal(n / 10);
      DecimalValueOfDecimal(n / 10);
    }
  }

  /** A digit run is worth at least as much as each of its prefixes. */
  lemma {:induction false} DecimalValuePrefix(s: string, j: nat)
    requires AllDigits(s) && j <= |s|
    ensures DecimalValue(s[..j]) <= DecimalValue(s)
    decreases |s| - j
  {
    if j < |s| {
      var t := s[..j + 1];
      assert t[..|t| - 1] == s[..j];
      DecimalValuePrefix(s, j + 1);
    } else {
      assert s[..j] == s;
    }
  }

  // The Display texts of `core::num::ParseIntError`.
  const EMPTY_MSG := "cannot parse integer from empty string"
  const INVALID_DIGIT_MSG := "invalid digit found in string"
  const OVERFLOW_MSG := "number too large to fit in target type"

  /** The digit loop of `from_str_radix`: left to right, failing on the first
      character that is not a digit or the first step that exceeds `max`. */
  function Accumulate(s: string, i: nat, acc: nat, max: nat): Result<nat>
    requires i <= |s|
    decreases |s| - i
  {
    if i == |s| then Ok(acc)
    else if !IsAsciiDigit(s[i]) then Err([INVALID_DIGIT_MSG])
    else if acc * 10 + DigitValue(s[i]) > max then Err([OVERFLOW_MSG])
    else Accumulate(s, i + 1, acc * 10 + DigitValue(s[i]), max)
  }

  /** `s.parse::<uN>()` where `max` is the largest value of `uN`: an optional
      leading `+`, then one or more ASCII digits, as a value not above `max`. */
  function ParseUnsigned(s: string, max: nat): (r: Result<nat>)
    ensures r.Ok? ==> r.value <= max
  {
    if s == [] then Err([EMPTY_MSG])
    else
      var digits := if s[0] == '+' then s[1..] else s;
      if digits == [] then Err([INVALID_DIGIT_MSG])
      else
        AccumulateBounded(digits, 0, 0, max);
        Accumulate(digits, 0, 0, max)
  }

  lemma {:induction false} AccumulateBounded(s: string, i: nat, acc: nat, max: nat)
    requires i <= |s| && acc <= max
    ensures Accumulate(s, i, acc, max).Ok? ==> Accumulate(s, i, acc, max).value <= max
    decreases |s| - i
  {
    if i < |s| && IsAsciiDigit(s[i]) && acc * 10 + DigitValue(s[i]) <= max {
      AccumulateBounded(s, i + 1, acc * 10 + DigitValue(s[i]), max);
    }
  }

  /** The unsigned literals Rust accepts: digits, optionally after one `+`. */
  predicate IsUnsignedLiteral(s: string)
  {
    var digits := LiteralDigits(s);
    |digits| > 0 && AllDigits(digits)
  }

  function LiteralDigits(s: string): string
  {
    if |s| > 0 && s[0] == '+' then s[1..] else s
  }

  lemma {:induction false} AccumulateOnDigits(s: string, i: nat, acc: nat, max: nat)
    requires AllDigits(s) && i <= |s| && acc <= max
    requires acc == DecimalValue(s[..i])
    ensures Accumulate(s, i, acc, max)
         == if DecimalValue(s) <= max then Ok(DecimalValue(s)) else Err([OVERFLOW_MSG])
    decreases |s| - i
  {
    if i == |s| {
      assert s[..i] == s;
    } else {
      var t := s[..i + 1];
      assert t[..|t| - 1] == s[..i];
      assert DecimalValue(t) == acc * 10 + DigitValue(s[i]);
      if acc * 10 + DigitValue(s[i]) > max {
        DecimalValuePrefix(s, i + 1);
      } else {
        AccumulateOnDigits(s, i + 1, acc * 10 + DigitValue(s[i]), max);
      }
    }
  }

  lemma {:induction false} AccumulateRejectsNonDigit(s: string, i: nat, acc: nat, max: nat)
    requires i <= |s|
    requires exists k :: i <= k < |s| && !IsAsciiDigit(s[k])
    ensures Accumulate(s, i, acc, max).Err?
    decreases |s| - i
  {
    if IsAsciiDigit(s[i]) && acc * 10 + DigitValue(s[i]) <= max {
      AccumulateRejectsNonDigit(s, i + 1, acc * 10 + DigitValue(s[i]), max);
    }
  }

  /** Parsing succeeds exactly on the unsigned literals whose value fits, and
      yields that value. */
  lemma ParseUnsignedSpec(s: string, max: nat)
    ensures ParseUnsigned(s, max).Ok?
        <==> IsUnsignedLiteral(s) && DecimalValue(LiteralDigits(s)) <= max
    ensures ParseUnsigned(s, max).Ok?
        ==> ParseUnsigned(s, max).value == DecimalValue(LiteralDigits(s))
  {
    if s != [] {
      var digits := LiteralDigits(s);
      if digits != [] {
        if AllDigits(digits) {
          assert digits[..0] == [];
          AccumulateOnDigits(digits, 0, 0, max);
        } else {
          AccumulateRejectsNonDigit(digits, 0, 0, max);
        }
      }
    }
  }

  /** The decimal numeral of a value that fits parses back to that value. */
  lemma DecimalRoundTrip(n: nat, max: nat)
    requires n <= max
    ensures ParseUnsigned(Decimal(n), max) == Ok(n)
  {
    var s := Decimal(n);
    assert LiteralDigits(s) == s;
    DecimalValueOfDecimal(n);
    ParseUnsignedSpec(s, max);
  }

  /** A numeral above `max` fails as an overflow, whatever its length. */
  lemma DecimalOverflow(n: nat, max: nat)
    requires n > max
    ensures ParseUnsigned(Decimal(n), max) == Err([OVERFLOW_MSG])
  {
    var s := Decimal(n);
    assert s[..0] == [];
    DecimalValueOfDecimal(n);
    AccumulateOnDigits(s, 0, 0, max);
  }

  /** `s.split(sep)`: the pieces between occurrences of `sep`; never empty. */
  function Split(s: string, sep: char): (parts: seq<string>)
    ensures |parts| >= 1
    ensures forall i :: 0 <= i < |parts| ==> sep !in parts[i]
    decreases |s|
  {
    if s == [] then [""]
    else
      var rest := Split(s[1..], sep);
      if s[0] == sep then [""] + rest
      else [[s[0]] + rest[0]] + rest[1..]
  }

  /** Joining pieces back with the separator. */
  function Join(parts: seq<string>, sep: char): string
    requires |parts| >= 1
  {
    if |parts| == 1 then parts[0] else parts[0] + [sep] + Join(parts[1..], sep)
  }

  lemma {:induction false} JoinSplit(s: string, sep: char)
    ensures Join(Split(s, sep), sep) == s
    decreases |s|
  {
    if s != [] {
      JoinSplit(s[1..], sep);
      var rest := Split(s[1..], sep);
      if s[0] != sep {
        if |rest| > 1 {
          assert ([[s[0]] + rest[0]] + rest[1..])[1..] == rest[1..];
        }
      }
    }
  }

  lemma {:induction false} SplitWithoutSep(a: string, sep: char)
    requires sep !in a
    ensures Split(a, sep) == [a]
    decreases |a|
  {
    if a != [] {
      assert a[0] != sep;
      SplitWithoutSep(a[1..], sep);
      assert [a[0]] + a[1..] == a;
    }
  }

  /** Splitting distributes over a separator: the parts of `a` followed by the parts of `b`. */
  lemma {:induction false} SplitAtSep(a: string, b: string, sep: char)
    ensures Split(a + [sep] + b, sep) == Split(a, sep) + Split(b, sep)
    decreases |a|
  {
    var s := a + [sep] + b;
    if a == [] {
      assert s[1..] == b;
    } else {
      assert s[1..] == a[1..] + [sep] + b;
      SplitAtSep(a[1..], b, sep);
    }
  }

  /** Exactly two pieces come out when the string is two separator-free pieces
      around one separator. */
  lemma SplitTwo(s: string, sep: char)
    ensures |Split(s, sep)| == 2
        <==> exists a, b :: s == a + [sep] + b && sep !in a && sep !in b
    ensures |Split(s, sep)| == 2
        ==> s == Split(s, sep)[0] + [sep] + Split(s, sep)[1]
  {
    var parts := Split(s, sep);
    if |parts| == 2 {
      JoinSplit(s, sep);
      assert Join(parts[1..], sep) == parts[1];
      assert s == parts[0] + [sep] + parts[1];
    }
    if exists a, b :: s == a + [sep] + b && sep !in a && sep !in b {
      var a, b :| s == a + [sep] + b && sep !in a && sep !in b;
      SplitAtSep(a, b, sep);
      SplitWithoutSep(a, sep);
      SplitWithoutSep(b, sep);
    }
  }

  /** `s.splitn(2, sep)`: the text before the first `sep`, and the rest after it
      when there is one. */
  function SplitOnce(s: string, sep: char): (r: (string, Option<string>))
    decreases |s|
  {
    if s == [] then ("", None)
    else if s[0] == sep then ("", Some(s[1..]))
    else
      var (k, v) := SplitOnce(s[1..], sep);
      ([s[0]] + k, v)
  }

  lemma {:induction false} SplitOnceSpec(s: string, sep: char)
    ensures sep !in SplitOnce(s, sep).0
    ensures SplitOnce(s, sep).1.None? <==> sep !in s
    ensures SplitOnce(s, sep).1.None? ==> SplitOnce(s, sep).0 == s
    ensures SplitOnce(s, sep).1.Some?
        ==> SplitOnce(s, sep).0 + [sep] + SplitOnce(s, sep).1.value == s
    ensures SplitOnce(s, sep).0 == Split(s, sep)[0]
    decreases |s|
  {
    if s != [] && s[0] != sep {
      SplitOnceSpec(s[1..], sep);
      assert s == [s[0]] + s[1..];
    }
  }
}
