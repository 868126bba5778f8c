/** The parts of the .NET runtime that the notification core leans on:
    32-bit integers with unchecked (wrapping) arithmetic, `int.Parse`,
    `String.Split(char)`, `Array.ConvertAll`, and the exceptions they throw,
    written as values so that every error path can be stated. */
module Runtime {

  /** The exceptions the modelled code can raise. */
  datatype Exception =
    | FormatException            // int.Parse on a piece that is not an integer
    | OverflowException          // int.Parse on an integer outside Int32
    | IndexOutOfRangeException   // indexing an int[] past its end
    | ArgumentNullException      // a null key given to a dictionary
    | ArgumentException          // CompareTo given an object of another type
    | AggregateException         // the deliberate crash of a service job

  /** A reference that may be null: `None` is null. */
  datatype Option<+T> = None | Some(value: T)

  datatype Result<+T> = Ok(value: T) | Err(error: Exception)

  datatype Outcome = Pass | Fail(error: Exception)

  const MinInt32: int := -0x8000_0000
  const MaxInt32: int := 0x7fff_ffff
  const Two32: int := 0x1_0000_0000

  /** System.Int32 */
  type Int32 = x: int | -0x8000_0000 <= x <= 0x7fff_ffff

  /** The value an unchecked Int32 operation yields for the mathematical value `x`. */
  function Wrap32(x: int): (r: Int32)
    ensures (x - r) % Two32 == 0
    ensures MinInt32 <= x <= MaxInt32 ==> r == x
  {
    var m := (x + 0x8000_0000) % Two32;
    assert x - (m - 0x8000_0000) == ((x + 0x8000_0000) / Two32) * Two32;
    m - 0x8000_0000
  }

  /** Two integers that differ by a multiple of 2^32 wrap to the same Int32. */
  lemma WrapCongruent(x: int, y: int, k: int)
    requires x == y + k * Two32
    ensures Wrap32(x) == Wrap32(y)
  {
    var a, b := x + 0x8000_0000, y + 0x8000_0000;
    var q, r := b / Two32, b % Two32;
    assert b == q * Two32 + r;
    assert a == (q + k) * Two32 + r;
    DivModUnique(a, q + k, r);
  }

  lemma DivModUnique(a: int, q: int, r: int)
    requires a == q * Two32 + r && 0 <= r < Two32
    ensures a % Two32 == r
  {
    var q', r' := a / Two32, a % Two32;
    assert a == q' * Two32 + r';
    assert (q - q') * Two32 == r' - r;
  }

  /** Wrapping an operand of a product before multiplying does not change the
      wrapped product: unchecked Int32 multiplication is multiplication modulo 2^32. */
  lemma WrapMulLeft(a: int, b: int)
    ensures Wrap32(Wrap32(a) * b) == Wrap32(a * b)
  {
    var w := Wrap32(a);
    var k := (a - w) / Two32;
    assert a - w == k * Two32;
    assert w * b == a * b + (-(k * b)) * Two32 by {
      assert w * b == (a - k * Two32) * b;
    }
    WrapCongruent(w * b, a * b, -(k * b));
  }

  lemma WrapMulRight(a: int, b: int)
    ensures Wrap32(a * Wrap32(b)) == Wrap32(a * b)
  {
    WrapMulLeft(b, a);
    assert a * Wrap32(b) == Wrap32(b) * a;
    assert a * b == b * a;
  }

  /** Unchecked Int32 negation of a difference: `-(x - y)` and `y - x` agree
      except when the wrapped difference is MinInt32, which has no negation. */
  lemma WrapNeg(x: int)
    requires Wrap32(x) != MinInt32
    ensures Wrap32(-x) == -Wrap32(x)
  {
    var w := Wrap32(x);
    var k := (x - w) / Two32;
    assert x - w == k * Two32;
    assert -x == -w + (-k) * Two32;
    WrapCongruent(-x, -w, -k);
  }

  // ---------------------------------------------------------------------------
  // String.Split(char)

  /** `s.Split(sep)`: the pieces of `s` between occurrences of `sep`, empty
      pieces included; there is always at least one piece. */
  function Split(s: string, sep: char): (r: seq<string>)
    ensures |r| >= 1
    ensures forall i :: 0 <= i < |r| ==> sep !in r[i]
  {
    if s == [] then [[]]
    else if s[0] == sep then [[]] + Split(s[1..], sep)
    else
      var rest := Split(s[1..], sep);
      [[s[0]] + rest[0]] + rest[1..]
  }

  /** `string.Join(sep, pieces)`. */
  function Join(pieces: seq<string>, sep: char): string
    requires |pieces| >= 1
  {
    if |pieces| == 1 then pieces[0] else pieces[0] + [sep] + Join(pieces[1..], sep)
  }

  /** The number of occurrences of `c` in `s`. */
  function Count(s: string, c: char): nat
  {
    if s == [] then 0 else (if s[0] == c then 1 else 0) + Count(s[1..], c)
  }

  /** Split yields one piece more than there are separators. */
  lemma {:induction false} SplitCount(s: string, sep: char)
    ensures |Split(s, sep)| == Count(s, sep) + 1
  {
    if s != [] {
      SplitCount(s[1..], sep);
    }
  }

  /** Joining the pieces of a split gives back the original string. */
  lemma {:induction false} JoinSplit(s: string, sep: char)
    ensures Join(Split(s, sep), sep) == s
  {
    if s == [] {
    } else if s[0] == sep {
      JoinSplit(s[1..], sep);
      assert Split(s, sep) == [[]] + Split(s[1..], sep);
    } else {
      JoinSplit(s[1..], sep);
      var rest := Split(s[1..], sep);
      var r := Split(s, sep);
      assert r == [[s[0]] + rest[0]] + rest[1..];
      if |rest| == 1 {
        assert s == [s[0]] + s[1..];
      } else {
        assert r[1..] == rest[1..];
        assert Join(rest, sep) == rest[0] + [sep] + Join(rest[1..], sep);
        assert s == [s[0]] + s[1..];
      }
    }
  }

  /** Splitting a string that starts with a separator-free prefix `a`:
      `a` is glued to the front of the first piece. */
  lemma {:induction false} SplitPrefix(a: string, t: string, sep: char)
    requires sep !in a
    ensures Split(a + t, sep) == [a + Split(t, sep)[0]] + Split(t, sep)[1..]
  {
    if a == [] {
      assert a + t == t && a + Split(t, sep)[0] == Split(t, sep)[0];
      assert Split(t, sep) == [Split(t, sep)[0]] + Split(t, sep)[1..];
    } else {
      SplitPrefix(a[1..], t, sep);
      assert (a + t)[0] == a[0] && (a + t)[1..] == a[1..] + t;
      var rest := Split(a[1..] + t, sep);
      assert rest[0] == a[1..] + Split(t, sep)[0];
      assert rest[1..] == Split(t, sep)[1..];
      assert Split(a + t, sep) == [[a[0]] + rest[0]] + rest[1..];
      assert [a[0]] + (a[1..] + Split(t, sep)[0]) == a + Split(t, sep)[0];
    }
  }

  /** Splitting a join of separator-free pieces gives back the pieces. */
  lemma {:induction false} SplitJoin(pieces: seq<string>, sep: char)
    requires |pieces| >= 1
    requires forall i :: 0 <= i < |pieces| ==> sep !in pieces[i]
    ensures Split(Join(pieces, sep), sep) == pieces
  {
    if |pieces| == 1 {
      SplitPrefix(pieces[0], [], sep);
      assert pieces[0] + [] == pieces[0];
    } else {
      var tail := Join(pieces[1..], sep);
      SplitJoin(pieces[1..], sep);
      assert pieces[0] + [sep] + tail == pieces[0] + ([sep] + tail);
      SplitPrefix(pieces[0], [sep] + tail, sep);
      assert ([sep] + tail)[1..] == tail;
      assert Split([sep] + tail, sep) == [[]] + Split(tail, sep);
      assert pieces[0] + [] == pieces[0];
      assert pieces == [pieces[0]] + pieces[1..];
    }
  }

  // ---------------------------------------------------------------------------
  // int.Parse(string), NumberStyles.Integer

  /** The white space int.Parse skips at either end: U+0009 to U+000D and U+0020. */
  predicate IsWhite(c: char)
  {
    c == ' ' || '\t' <= c <= '\r'
  }

  predicate IsDigit(c: char)
  {
    '0' <= c <= '9'
  }

  predicate AllDigits(s: string)
  {
    forall i :: 0 <= i < |s| ==> IsDigit(s[i])
  }

  function TrimStart(s: string): (r: string)
    ensures |r| <= |s|
    ensures r != [] ==> !IsWhite(r[0])
  {
    if s != [] && IsWhite(s[0]) then TrimStart(s[1..]) else s
  }

  function TrimEnd(s: string): (r: string)
    ensures |r| <= |s|
    ensures r != [] ==> !IsWhite(r[|r| - 1])
  {
    if s != [] && IsWhite(s[|s| - 1]) then TrimEnd(s[..|s| - 1]) else s
  }

  /** The trailing U+0000 characters int.Parse drops before the trailing
      white space: a string may end with any number of them. */
  function TrimNulls(s: string): (r: string)
    ensures |r| <= |s| && r == s[..|r|]
    ensures r != [] ==> r[|r| - 1] != '\0'
  {
    if s != [] && s[|s| - 1] == '\0' then TrimNulls(s[..|s| - 1]) else s
  }

  /** A run of `n` U+0000 characters. */
  function Nulls(n: nat): (r: string)
    ensures |r| == n
  {
    seq(n, _ => '\0')
  }

  /** The value of a string of decimal digits, most significant first. */
  function DigitsValue(s: string): nat
    requires AllDigits(s)
  {
    if s == [] then 0
    else DigitsValue(s[..|s| - 1]) * 10 + (s[|s| - 1] as int - '0' as int)
  }

  /** `int.Parse(s)`: optional white space, an optional sign, one or more
      decimal digits, optional white space, then any number of U+0000
      characters; a malformed string throws FormatException, a well-formed
      one outside Int32 OverflowException. */
  function ParseInt32(s: string): (r: Result<Int32>)
    ensures r.Err? ==> r.error == FormatException || r.error == OverflowException
    ensures TrimEnd(TrimNulls(TrimStart(s))) == [] ==> r == Err(FormatException)
  {
    ParseTrimmed(TrimEnd(TrimNulls(TrimStart(s))))
  }

  /** int.Parse on a string whose surrounding white space is already removed. */
  function ParseTrimmed(t: string): (r: Result<Int32>)
    ensures r.Err? ==> r.error == FormatException || r.error == OverflowException
    ensures t == [] ==> r == Err(FormatException)
  {
    var negative := t != [] && t[0] == '-';
    var digits := if t != [] && (t[0] == '-' || t[0] == '+') then t[1..] else t;
    if digits == [] || !AllDigits(digits) then Err(FormatException)
    else
      var magnitude: int := DigitsValue(digits);
      var v := if negative then -magnitude else magnitude;
      if MinInt32 <= v <= MaxInt32 then Ok(v) else Err(OverflowException)
  }

  /** Trailing U+0000 characters do not change what int.Parse reads. */
  lemma ParseTrailingNulls(s: string, n: nat)
    ensures ParseInt32(s + Nulls(n)) == ParseInt32(s)
  {
    TrimStartAppend(s, Nulls(n));
    TrimNullsAppend(TrimStart(s), n);
  }

  lemma {:induction false} TrimStartAppend(s: string, z: string)
    requires z == [] || !IsWhite(z[0])
    ensures TrimStart(s + z) == TrimStart(s) + z
  {
    if s == [] {
      assert s + z == z;
    } else if IsWhite(s[0]) {
      assert (s + z)[1..] == s[1..] + z;
      TrimStartAppend(s[1..], z);
    } else {
      assert (s + z)[0] == s[0];
    }
  }

  lemma {:induction false} TrimNullsAppend(t: string, n: nat)
    ensures TrimNulls(t + Nulls(n)) == TrimNulls(t)
  {
    if n == 0 {
      assert t + Nulls(n) == t;
    } else {
      var u := t + Nulls(n);
      assert u[|u| - 1] == '\0';
      assert u[..|u| - 1] == t + Nulls(n - 1);
      TrimNullsAppend(t, n - 1);
    }
  }

  /** `Array.ConvertAll(pieces, int.Parse)`: parses the pieces in order and
      stops at the first one that throws. */
  function ParseAll(pieces: seq<string>): (r: Result<seq<Int32>>)
    ensures r.Ok? <==> forall i :: 0 <= i < |pieces| ==> ParseInt32(pieces[i]).Ok?
    ensures r.Ok? ==> |r.value| == |pieces| &&
                      forall i :: 0 <= i < |pieces| ==> ParseInt32(pieces[i]) == Ok(r.value[i])
    ensures r.Err? ==> r.error == FormatException || r.error == OverflowException
  {
    if pieces == [] then Ok([])
    else
      match ParseInt32(pieces[0])
      case Err(e) => Err(e)
      case Ok(x) =>
        match ParseAll(pieces[1..])
        case Err(e) => Err(e)
        case Ok(xs) => Ok([x] + xs)
  }

  /** The exception ConvertAll throws is the one of the first piece that fails. */
  lemma {:induction false} ParseAllFirstError(pieces: seq<string>, i: nat)
    requires i < |pieces| && ParseInt32(pieces[i]).Err?
    requires forall j :: 0 <= j < i ==> ParseInt32(pieces[j]).Ok?
    ensures ParseAll(pieces) == Err(ParseInt32(pieces[i]).error)
  {
    if i > 0 {
      assert ParseInt32(pieces[0]).Ok?;
      assert forall j :: 0 <= j < i - 1 ==> pieces[1..][j] == pieces[j + 1];
      ParseAllFirstError(pieces[1..], i - 1);
    }
  }

  // ---------------------------------------------------------------------------
  // Int32.ToString(), the partner of int.Parse

  function DigitChar(d: nat): (c: char)
    requires d < 10
    ensures IsDigit(c) && c as int - '0' as int == d
  {
    ('0' as int + d) as char
  }

  /** The decimal digits of `n`, most significant first, without leading zeros. */
  function Decimal(n: nat): (r: string)
    ensures r != [] && AllDigits(r)
  {
    if n < 10 then [DigitChar(n)] else Decimal(n / 10) + [DigitChar(n % 10)]
  }

  /** `x.ToString()` for an Int32 in the invariant culture. */
  function FormatInt32(x: Int32): string
  {
    if x < 0 then ['-'] + Decimal(-(x as int)) else Decimal(x)
  }

  lemma {:induction false} DecimalValue(n: nat)
    ensures DigitsValue(Decimal(n)) == n
  {
    if n >= 10 {
      DecimalValue(n / 10);
      var s := Decimal(n);
      assert s[..|s| - 1] == Decimal(n / 10);
    }
  }

  lemma TrimNoWhite(s: string)
    requires s != [] && !IsWhite(s[0]) && !IsWhite(s[|s| - 1]) && s[|s| - 1] != '\0'
    ensures TrimEnd(TrimNulls(TrimStart(s))) == s
  {
    assert TrimStart(s) == s;
    assert TrimNulls(s) == s;
  }

  /** int.Parse reads back every Int32 that ToString writes. */
  lemma ParseFormat(x: Int32)
    ensures ParseInt32(FormatInt32(x)) == Ok(x)
  {
    var s := FormatInt32(x);
    var d := if x < 0 then Decimal(-(x as int)) else Decimal(x);
    assert s[|s| - 1] == d[|d| - 1];
    assert IsDigit(s[|s| - 1]);
    TrimNoWhite(s);
    ParseFormatTrimmed(x);
  }

  lemma ParseFormatTrimmed(x: Int32)
    ensures ParseTrimmed(FormatInt32(x)) == Ok(x)
  {
    var s := FormatInt32(x);
    if x < 0 {
      var m: nat := -(x as int);
      DecimalValue(m);
      assert s == ['-'] + Decimal(m);
      assert s[1..] == Decimal(m);
    } else {
      DecimalValue(x);
      assert IsDigit(s[0]);
    }
  }

  /** The text of an Int32 holds no '.' separator. */
  lemma FormatHasNoDot(x: Int32)
    ensures '.' !in FormatInt32(x)
  {
    var s := FormatInt32(x);
    forall i | 0 <= i < |s| ensures s[i] != '.' {
      if x < 0 && i > 0 {
        assert s[i] == Decimal(-(x as int))[i - 1];
      }
    }
  }
}
