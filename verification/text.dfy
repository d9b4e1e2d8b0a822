/** Models of the two pieces of Go's standard library that the command
    handler of the bot relies on to read its arguments: `strings.Split`
    with a single-space separator, and `strconv.Atoi` on a 64-bit target.
 */
module GoText {

  /** The outcome of a parse that may fail. */
  datatype Option<T> = None | Some(value: T)

  const Space: char := ' '

  /** The smallest and largest value of Go's `int` on a 64-bit target. */
  const MinInt64: int := -0x8000_0000_0000_0000
  const MaxInt64: int := 0x7FFF_FFFF_FFFF_FFFF

  /* ---------------------------------------------------------------------
     strings.Split(s, " ")
     --------------------------------------------------------------------- */

  /** Go's `strings.Split(s, " ")`: every space separates two parts, so two
      adjacent spaces produce an empty part and the empty text splits into a
      single empty part. */
  function Split(s: string): (parts: seq<string>)
    ensures |parts| >= 1
    ensures forall i :: 0 <= i < |parts| ==> Space !in parts[i]
    decreases |s|
  {
    if s == [] then [""]
    else
      var rest := Split(s[1..]);
      if s[0] == Space then [""] + rest
      else [[s[0]] + rest[0]] + rest[1..]
  }

  /** `strings.Join(parts, " ")`, the inverse of `Split`. */
  function Join(parts: seq<string>): string
    requires |parts| >= 1
    decreases |parts|
  {
    if |parts| == 1 then parts[0] else parts[0] + [Space] + Join(parts[1..])
  }

  /** Splitting loses nothing: joining the parts back with spaces gives the
      original text. */
  lemma {:induction false} JoinSplit(s: string)
    ensures Join(Split(s)) == s
    decreases |s|
  {
    if s != [] {
      var rest := Split(s[1..]);
      JoinSplit(s[1..]);
      if s[0] == Space {
        assert ([""] + rest)[1..] == rest;
      } else {
        var parts := [[s[0]] + rest[0]] + rest[1..];
        if |rest| == 1 {
          assert Join(parts) == [s[0]] + rest[0];
        } else {
          assert parts[1..] == rest[1..];
          calc {
            Join(parts);
            ([s[0]] + rest[0]) + [Space] + Join(rest[1..]);
            [s[0]] + (rest[0] + [Space] + Join(rest[1..]));
            [s[0]] + Join(rest);
          }
        }
      }
    }
  }

  /** Joining parts that hold no space and splitting again gives the same
      parts back. */
  lemma {:induction false} SplitJoin(parts: seq<string>)
    requires |parts| >= 1
    requires forall i :: 0 <= i < |parts| ==> Space !in parts[i]
    ensures Split(Join(parts)) == parts
    decreases |parts|, |parts[0]|
  {
    var p := parts[0];
    if p == [] {
      if |parts| > 1 {
        var tail := parts[1..];
        assert Join(parts) == [Space] + Join(tail);
        assert ([Space] + Join(tail))[1..] == Join(tail);
        SplitJoin(tail);
        assert [""] + tail == parts;
      }
    } else {
      var shorter := parts[0 := p[1..]];
      assert Space !in p[1..] by {
        forall k | 0 <= k < |p[1..]| ensures p[1..][k] != Space {
          assert p[1..][k] == p[k + 1];
        }
      }
      assert Join(parts) == [p[0]] + Join(shorter) by {
        if |parts| > 1 {
          assert shorter[1..] == parts[1..];
        }
      }
      assert ([p[0]] + Join(shorter))[1..] == Join(shorter);
      SplitJoin(shorter);
      assert p[0] != Space by { assert p[0] == parts[0][0]; }
      assert [p[0]] + p[1..] == p;
      assert [[p[0]] + shorter[0]] + shorter[1..] == parts;
    }
  }

  /* ---------------------------------------------------------------------
     strconv.Atoi
     --------------------------------------------------------------------- */

  predicate IsDigit(c: char) {
    '0' <= c <= '9'
  }

  predicate AllDigits(s: string) {
    forall i :: 0 <= i < |s| ==> IsDigit(s[i])
  }

  function DigitValue(c: char): nat
    requires IsDigit(c)
  {
    c as int - '0' as int
  }

  function DigitChar(d: nat): (c: char)
    requires d < 10
    ensures IsDigit(c) && DigitValue(c) == d
  {
    ('0' as int + d) as char
  }

  /** The value of a string of decimal digits, most significant first. */
  function DecimalValue(s: string): nat
    requires AllDigits(s)
    decreases |s|
  {
    if s == [] then 0 else DecimalValue(s[..|s| - 1]) * 10 + DigitValue(s[|s| - 1])
  }

  /** The text after an optional leading `+` or `-`. */
  function Unsigned(s: string): string {
    if |s| >= 1 && (s[0] == '+' || s[0] == '-') then s[1..] else s
  }

  /** `strconv.Atoi(s)` on a 64-bit target: an optional `+` or `-`, then one
      or more ASCII decimal digits, and a value that fits in 64 bits. Every
      other text is an error (syntax or range), modelled as `None`. */
  function Atoi(s: string): (r: Option<int>)
    ensures r.Some? ==> MinInt64 <= r.value <= MaxInt64
    ensures r.Some? ==> |s| >= 1 && (IsDigit(s[0]) || s[0] == '+' || s[0] == '-')
    ensures r.Some? ==> forall i :: 1 <= i < |s| ==> IsDigit(s[i])
    ensures r.Some? ==> |Unsigned(s)| >= 1 && AllDigits(Unsigned(s))
    ensures r.Some? ==>
              r.value == (if s[0] == '-' then 0 - DecimalValue(Unsigned(s)) else DecimalValue(Unsigned(s)))
    ensures |Unsigned(s)| >= 1 && AllDigits(Unsigned(s)) && s[0] != '-' && DecimalValue(Unsigned(s)) <= MaxInt64
            ==> r.Some?
    ensures |Unsigned(s)| >= 1 && AllDigits(Unsigned(s)) && s[0] == '-' && DecimalValue(Unsigned(s)) <= -MinInt64
            ==> r.Some?
  {
    if |s| == 0 then None
    else
      var digits := Unsigned(s);
      if |digits| == 0 || !AllDigits(digits) then None
      else
        var magnitude: int := DecimalValue(digits);
        var v: int := if s[0] == '-' then -magnitude else magnitude;
        if MinInt64 <= v <= MaxInt64 then Some(v) else None
  }

  /** Examples of the syntax Go accepts and rejects: a `+` sign and leading
      zeros are accepted, a bare sign and an embedded underscore are not. */
  lemma AtoiSigns()
    ensures Atoi("+45") == Some(45)
    ensures Atoi("045") == Some(45)
    ensures Atoi("-7") == Some(-7)
    ensures Atoi("-") == None
    ensures Atoi("+") == None
    ensures Atoi("") == None
    ensures Atoi("4_5") == None
  {
    assert Unsigned("+45") == "45";
    assert "45"[..1] == "4";
    assert DecimalValue("45") == 45;
    assert "045"[..2] == "04" && "04"[..1] == "0";
    assert Unsigned("-7") == "7";
    assert !IsDigit("4_5"[1]);
  }

  /** The canonical decimal rendering of a natural number (Go's `strconv.Itoa`
      on non-negative values). */
  function Decimal(n: nat): (s: string)
    ensures |s| >= 1 && AllDigits(s)
    decreases n
  {
    if n < 10 then [DigitChar(n)] else Decimal(n / 10) + [DigitChar(n % 10)]
  }

  lemma {:induction false} DecimalValueOfDecimal(n: nat)
    ensures DecimalValue(Decimal(n)) == n
    decreases n
  {
    if n >= 10 {
      var s := Decimal(n);
      assert s[..|s| - 1] == Decimal(n / 10);
      DecimalValueOfDecimal(n / 10);
    }
  }

  /** `Atoi` reads back every in-range non-negative number it is given in
      canonical decimal form. */
  lemma AtoiDecimal(n: nat)
    requires n <= MaxInt64
    ensures Atoi(Decimal(n)) == Some(n)
  {
    DecimalValueOfDecimal(n);
  }

  /** ... and every in-range negative number written with a leading minus. */
  lemma AtoiNegativeDecimal(n: nat)
    requires n <= -MinInt64
    ensures Atoi(['-'] + Decimal(n)) == Some(0 - n)
  {
    DecimalValueOfDecimal(n);
    assert (['-'] + Decimal(n))[1..] == Decimal(n);
  }
}
