/** The pieces of the Java library the controllers lean on: String.trim, ASCII case
    conversion, Integer.parseInt, the decimal rendering of an int inside a string
    concatenation, and splitting text at a separator character. */
module JavaText {

  datatype Option<T> = None | Some(value: T)

  /** The range of a Java int. */
  const MinInt: int := -0x8000_0000
  const MaxInt: int := 0x7fff_ffff

  // ---------------------------------------------------------------- trim

  /** String.trim strips every character whose code is at most U+0020. */
  predicate IsTrimmable(c: char) { c <= ' ' }

  function TrimStart(s: string): (r: string)
    ensures |r| <= |s| && r == s[|s| - |r|..]
    ensures r == [] || !IsTrimmable(r[0])
    ensures forall k :: 0 <= k < |s| - |r| ==> IsTrimmable(s[k])
  {
    if s != [] && IsTrimmable(s[0]) then TrimStart(s[1..]) else s
  }

  function TrimEnd(s: string): (r: string)
    ensures |r| <= |s| && r == s[..|r|]
    ensures r == [] || !IsTrimmable(r[|r| - 1])
    ensures forall k :: |r| <= k < |s| ==> IsTrimmable(s[k])
  {
    if s != [] && IsTrimmable(s[|s| - 1]) then TrimEnd(s[..|s| - 1]) else s
  }

  /** String.trim: neither end of the result is trimmable, and the result is `s`
      with only trimmable characters removed from its two ends. */
  function Trim(s: string): (r: string)
    ensures r == [] || (!IsTrimmable(r[0]) && !IsTrimmable(r[|r| - 1]))
    ensures |r| <= |s|
  {
    TrimEnd(TrimStart(s))
  }

  /** Trimming twice is trimming once. */
  lemma {:induction false} TrimIdempotent(s: string)
    ensures Trim(Trim(s)) == Trim(s)
  {
    var t := Trim(s);
    if t != [] {
      TrimUntouched(t);
    }
  }

  /** Text without padding at either end is left as it is. */
  lemma {:induction false} TrimUntouched(s: string)
    requires s == [] || (!IsTrimmable(s[0]) && !IsTrimmable(s[|s| - 1]))
    ensures Trim(s) == s
  {
    assert TrimStart(s) == s;
  }

  /** TrimEnd leaves nothing only of a text whose first character is trimmable. */
  lemma TrimEndEmpty(a: string)
    ensures TrimEnd(a) == [] && a != [] ==> IsTrimmable(a[0])
  {
  }

  /** Trimming gives the empty string exactly when every character is trimmable. */
  lemma {:induction false} TrimEmptyIff(s: string)
    ensures Trim(s) == [] <==> forall k :: 0 <= k < |s| ==> IsTrimmable(s[k])
  {
    var a := TrimStart(s);
    TrimEndEmpty(a);
    if Trim(s) != [] {
      var j := |s| - |a|;
      assert a != [] && a[0] == s[j] && !IsTrimmable(s[j]);
    }
  }

  predicate AllTrimmable(s: string) { forall k :: 0 <= k < |s| ==> IsTrimmable(s[k]) }

  lemma {:induction false} TrimStartPadded(p: string, t: string)
    requires AllTrimmable(p)
    ensures TrimStart(p + t) == TrimStart(t)
  {
    if p != [] {
      assert (p + t)[0] == p[0] && IsTrimmable(p[0]);
      assert (p + t)[1..] == p[1..] + t;
      assert AllTrimmable(p[1..]) by {
        forall k | 0 <= k < |p| - 1 ensures IsTrimmable(p[1..][k]) {
          assert p[1..][k] == p[k + 1];
        }
      }
      TrimStartPadded(p[1..], t);
      assert TrimStart(p + t) == TrimStart((p + t)[1..]);
    } else {
      assert p + t == t;
    }
  }

  lemma {:induction false} TrimEndPadded(t: string, q: string)
    requires AllTrimmable(q)
    ensures TrimEnd(t + q) == TrimEnd(t)
  {
    if q != [] {
      var q' := q[..|q| - 1];
      assert (t + q)[|t + q| - 1] == q[|q| - 1] && IsTrimmable(q[|q| - 1]);
      assert (t + q)[..|t + q| - 1] == t + q';
      assert AllTrimmable(q') by {
        forall k | 0 <= k < |q'| ensures IsTrimmable(q'[k]) {
          assert q'[k] == q[k];
        }
      }
      TrimEndPadded(t, q');
      assert TrimEnd(t + q) == TrimEnd((t + q)[..|t + q| - 1]);
    } else {
      assert t + q == t;
    }
  }

  /** Trim removes the padding around a text whose own ends are not trimmable, and
      nothing else. */
  lemma {:induction false} TrimPadded(p: string, s: string, q: string)
    requires AllTrimmable(p) && AllTrimmable(q)
    requires s == [] || (!IsTrimmable(s[0]) && !IsTrimmable(s[|s| - 1]))
    ensures Trim(p + s + q) == s
  {
    assert p + s + q == p + (s + q);
    TrimStartPadded(p, s + q);
    if s == [] {
      assert s + q == q;
    } else {
      assert (s + q)[0] == s[0];
      assert TrimStart(s + q) == s + q;
      TrimEndPadded(s, q);
      assert TrimEnd(s) == s;
    }
  }

  // ---------------------------------------------------------------- case

  /** String.toUpperCase restricted to ASCII: 'a'..'z' become 'A'..'Z'. */
  function UpperChar(c: char): (r: char)
    ensures 'a' <= c <= 'z' ==> 'A' <= r <= 'Z'
    ensures !('a' <= c <= 'z') ==> r == c
  {
    if 'a' <= c <= 'z' then (c as int - 32) as char else c
  }

  function LowerChar(c: char): (r: char)
    ensures 'A' <= c <= 'Z' ==> 'a' <= r <= 'z'
    ensures !('A' <= c <= 'Z') ==> r == c
  {
    if 'A' <= c <= 'Z' then (c as int + 32) as char else c
  }

  function ToUpperCase(s: string): (r: string)
    ensures |r| == |s|
    ensures forall k :: 0 <= k < |s| ==> r[k] == UpperChar(s[k])
  {
    if s == [] then [] else [UpperChar(s[0])] + ToUpperCase(s[1..])
  }

  function ToLowerCase(s: string): (r: string)
    ensures |r| == |s|
    ensures forall k :: 0 <= k < |s| ==> r[k] == LowerChar(s[k])
  {
    if s == [] then [] else [LowerChar(s[0])] + ToLowerCase(s[1..])
  }

  /** `needle` occurs somewhere inside `hay` (String.contains). */
  predicate Contains(hay: string, needle: string)
  {
    (|needle| <= |hay| && hay[..|needle|] == needle) || (hay != [] && Contains(hay[1..], needle))
  }

  // ---------------------------------------------------------------- decimal numbers

  predicate IsDigit(c: char) { '0' <= c <= '9' }

  predicate AllDigits(s: string) { forall k :: 0 <= k < |s| ==> IsDigit(s[k]) }

  function DigitValue(c: char): (d: nat)
    requires IsDigit(c)
    ensures d < 10
  {
    c as int - '0' as int
  }

  function DigitChar(d: nat): (c: char)
    requires d < 10
    ensures IsDigit(c) && DigitValue(c) == d
  {
    ('0' as int + d) as char
  }

  /** The value of a string of decimal digits, most significant first. */
  function DecimalValue(s: string): nat
    requires AllDigits(s)
  {
    if s == [] then 0 else DecimalValue(s[..|s| - 1]) * 10 + DigitValue(s[|s| - 1])
  }

  /** Decimal digits of a natural number, without leading zeros. */
  function NatToDecimal(n: nat): (r: string)
    ensures r != [] && AllDigits(r)
    ensures |r| > 1 ==> r[0] != '0'
    decreases n
  {
    if n < 10 then [DigitChar(n)] else NatToDecimal(n / 10) + [DigitChar(n % 10)]
  }

  /** How Java renders an int inside a string concatenation (Integer.toString). */
  function IntToDecimal(n: int): (r: string)
    ensures r != [] && (n < 0 <==> r[0] == '-')
    ensures AllDigits(if n < 0 then r[1..] else r)
  {
    if n < 0 then "-" + NatToDecimal(-n) else NatToDecimal(n)
  }

  /** Integer.parseInt with radix 10: an optional '+' or '-', then at least one
      ASCII digit, and a value inside the int range; anything else is a
      NumberFormatException, here None. */
  function ParseInt(s: string): (r: Option<int>)
    ensures r.Some? ==> MinInt <= r.value <= MaxInt
    ensures r.Some? ==> s != [] && (s[0] == '-' || s[0] == '+' || IsDigit(s[0]))
    ensures r.Some? && AllDigits(s) ==> r.value == DecimalValue(s)
  {
    if s == [] then None
    else
      var signed := s[0] == '-' || s[0] == '+';
      var digits := if signed then s[1..] else s;
      if digits == [] || !AllDigits(digits) then None
      else
        var magnitude: int := DecimalValue(digits);
        var v := if s[0] == '-' then -magnitude else magnitude;
        if MinInt <= v <= MaxInt then Some(v) else None
  }

  /** The message a NumberFormatException from Integer.parseInt carries. */
  function NumberFormatMessage(s: string): string
  {
    "For input string: \"" + s + "\""
  }

  lemma {:induction false} DecimalValueOfNatToDecimal(n: nat)
    ensures DecimalValue(NatToDecimal(n)) == n
    decreases n
  {
    var r := NatToDecimal(n);
    if n >= 10 {
      DecimalValueOfNatToDecimal(n / 10);
      assert r[..|r| - 1] == NatToDecimal(n / 10);
    }
  }

  /** Rendering an int and parsing it back gives the same int. */
  lemma {:induction false} ParseIntOfDecimal(n: int)
    requires MinInt <= n <= MaxInt
    ensures ParseInt(IntToDecimal(n)) == Some(n)
  {
    var s := IntToDecimal(n);
    if n < 0 {
      var d := NatToDecimal(-n);
      DecimalValueOfNatToDecimal(-n);
      assert s == "-" + d && s[1..] == d;
      assert s[0] == '-' && d != [] && AllDigits(d);
    } else {
      var d := NatToDecimal(n);
      DecimalValueOfNatToDecimal(n);
      assert s == d && IsDigit(s[0]);
    }
  }

  // ---------------------------------------------------------------- separators

  /** The text before the first `sep` in `s` (all of `s` when there is none). */
  function Before(s: string, sep: char): (r: string)
    ensures |r| <= |s| && r == s[..|r|]
    ensures sep !in r
    ensures |r| < |s| ==> s[|r|] == sep
  {
    if s == [] || s[0] == sep then [] else [s[0]] + Before(s[1..], sep)
  }

  /** The text after the first `sep` in `s`. */
  function After(s: string, sep: char): (r: string)
    requires sep in s
  {
    s[|Before(s, sep)| + 1..]
  }

  /** Splitting `a + [sep] + b` at its first `sep` gives back `a` and `b` when `a`
      holds no `sep`. */
  lemma {:induction false} SplitAtFirst(a: string, sep: char, b: string)
    requires sep !in a
    ensures Before(a + [sep] + b, sep) == a
    ensures After(a + [sep] + b, sep) == b
  {
    if a != [] {
      SplitAtFirst(a[1..], sep, b);
      assert (a + [sep] + b)[1..] == a[1..] + [sep] + b;
    }
  }

  /** The index of the first '\n' in `s`, or |s| when there is none. */
  function LineEnd(s: string): (i: nat)
    ensures i <= |s|
    ensures forall k :: 0 <= k < i ==> s[k] != '\n'
    ensures i < |s| ==> s[i] == '\n'
  {
    if s == [] || s[0] == '\n' then 0 else 1 + LineEnd(s[1..])
  }

  /** The lines of `s`, separated by '\n' (String.split("\n", -1)). */
  function Lines(s: string): (r: seq<string>)
    ensures r != []
    decreases |s|
  {
    var i := LineEnd(s);
    if i == |s| then [s] else [s[..i]] + Lines(s[i + 1..])
  }

  lemma {:induction false} LineEndAfter(line: string, rest: string)
    requires '\n' !in line
    ensures LineEnd(line + "\n" + rest) == |line|
  {
    if line != [] {
      LineEndAfter(line[1..], rest);
      assert (line + "\n" + rest)[1..] == line[1..] + "\n" + rest;
    }
  }

  /** A line without '\n' followed by '\n' and more text starts the list of lines. */
  lemma {:induction false} LinesCons(line: string, rest: string)
    requires '\n' !in line
    ensures Lines(line + "\n" + rest) == [line] + Lines(rest)
  {
    var s := line + "\n" + rest;
    LineEndAfter(line, rest);
    assert s[..|line|] == line;
    assert s[|line| + 1..] == rest;
  }

  /** Text without '\n' is a single line. */
  lemma LinesSingle(s: string)
    requires '\n' !in s
    ensures Lines(s) == [s]
  {
  }
}
