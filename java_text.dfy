/**
 * The parts of the Java runtime library that the transfer code relies on for text:
 * `String.split` with a one-character separator, `Integer.parseInt` and `Integer.toString`.
 */
module JavaText {
  import opened Wrappers

  /** Range of Java's 32-bit `int`. */
  const MinInt: int := -0x8000_0000
  const MaxInt: int := 0x7fff_ffff

  /** The unchecked exceptions the core can raise. */
  datatype RuntimeError =
    | ArrayIndexOutOfBounds(index: int)
    | NumberFormat(input: string)

  predicate IsDigit(c: char) {
    '0' <= c <= '9'
  }

  function DigitValue(c: char): (d: nat)
    requires IsDigit(c)
    ensures d < 10
  {
    c as int - '0' as int
  }

  function DigitChar(d: nat): (c: char)
    requires d < 10
    ensures IsDigit(c) && DigitValue(c) == d
  {
    ('0' as int + d) as char
  }

  predicate AllDigits(s: string) {
    forall i | 0 <= i < |s| :: IsDigit(s[i])
  }

  /** The value of a string of decimal digits, most significant digit first. */
  function DigitsValue(s: string): nat
    requires AllDigits(s)
  {
    if |s| == 0 then 0 else DigitsValue(s[..|s| - 1]) * 10 + DigitValue(s[|s| - 1])
  }

  /** The text after an optional leading `-` or `+`: the digits `Integer.parseInt` reads. */
  function Magnitude(s: string): string {
    if |s| > 0 && (s[0] == '-' || s[0] == '+') then s[1..] else s
  }

  /**
   * `Integer.parseInt(s)`: an optional `-` or `+`, then one or more decimal digits, whose
   * value lies in the `int` range. Anything else throws NumberFormatException (None here).
   */
  function ParseInt(s: string): (r: Option<int>)
    ensures r.Some? ==> MinInt <= r.value <= MaxInt
    ensures r.Some? ==> |s| > 0 && (IsDigit(s[0]) || s[0] == '-' || s[0] == '+')
  {
    var digits := Magnitude(s);
    if |s| == 0 || |digits| == 0 || !AllDigits(digits) then None
    else
      var value := DigitsValue(digits) as int;
      var v := if s[0] == '-' then -value else value;
      if MinInt <= v <= MaxInt then Some(v) else None
  }

  /**
   * What `Integer.parseInt` accepts: exactly an optional sign followed by a non-empty digit
   * string (leading zeros allowed) whose signed value fits in an `int`; that value is the result.
   */
  lemma ParseIntAccepts(s: string)
    ensures ParseInt(s).Some? ==>
              |s| > 0 && |Magnitude(s)| > 0 && AllDigits(Magnitude(s)) &&
              ParseInt(s).value == if s[0] == '-' then -(DigitsValue(Magnitude(s)) as int) else DigitsValue(Magnitude(s)) as int
    ensures (|s| > 0 && |Magnitude(s)| > 0 && AllDigits(Magnitude(s)) &&
             var v := if s[0] == '-' then -(DigitsValue(Magnitude(s)) as int) else DigitsValue(Magnitude(s)) as int;
             MinInt <= v <= MaxInt) ==> ParseInt(s).Some?
  {
  }

  /** A few inputs: a trailing non-digit, a bare sign and the empty string are rejected. */
  lemma ParseIntExamples()
    ensures ParseInt("1a") == None && ParseInt("-") == None && ParseInt("") == None
    ensures ParseInt("+007") == Some(7) && ParseInt("-12") == Some(-12)
  {
    assert !AllDigits(Magnitude("1a")) by { assert !IsDigit("1a"[1]); }
    assert Magnitude("+007") == "007";
    assert DigitsValue("007") == 7 by {
      assert "007"[..2] == "00" && "00"[..1] == "0" && "0"[..0] == "";
    }
    assert Magnitude("-12") == "12";
    assert DigitsValue("12") == 12 by {
      assert "12"[..1] == "1" && "1"[..0] == "";
    }
  }

  /** The decimal digits of `n`, most significant first. */
  function Decimal(n: nat): string
    decreases n
  {
    if n < 10 then [DigitChar(n)] else Decimal(n / 10) + [DigitChar(n % 10)]
  }

  /** `Decimal(n)` is a non-empty digit string without leading zeros whose value is `n`. */
  lemma {:induction false} DecimalDigits(n: nat)
    ensures |Decimal(n)| > 0 && AllDigits(Decimal(n)) && DigitsValue(Decimal(n)) == n
    ensures Decimal(n)[0] != '0' || n == 0
    decreases n
  {
    if n >= 10 {
      DecimalDigits(n / 10);
      var s := Decimal(n);
      assert s[..|s| - 1] == Decimal(n / 10);
    }
  }

  /** `Integer.toString(i)`, which is also what `"..." + i` appends. */
  function IntToString(i: int): string {
    if i < 0 then "-" + Decimal(-i) else Decimal(i)
  }

  /** Formatting an `int` and parsing it back gives the same `int`. */
  lemma ParseIntToString(i: int)
    requires MinInt <= i <= MaxInt
    ensures ParseInt(IntToString(i)) == Some(i)
  {
    var s := IntToString(i);
    DecimalDigits(if i < 0 then -i else i);
    if i < 0 {
      assert s[1..] == Decimal(-i);
    } else {
      assert IsDigit(s[0]);
    }
  }

  /** `s.indexOf(c)`: the first position of `c` in `s`, or -1. */
  function IndexOf(s: string, c: char): (r: int)
    ensures r == -1 <==> c !in s
    ensures r != -1 ==> 0 <= r < |s| && s[r] == c && c !in s[..r]
  {
    if |s| == 0 then -1
    else if s[0] == c then 0
    else
      var j := IndexOf(s[1..], c);
      assert s[1..][..(if j < 0 then 0 else j)] == s[1..(if j < 0 then 1 else j + 1)];
      if j < 0 then -1 else j + 1
  }

  /** All the pieces between occurrences of `c`, empty ones included. */
  function SplitAll(s: string, c: char): (parts: seq<string>)
    ensures |parts| >= 1
    ensures forall k | 0 <= k < |parts| :: c !in parts[k]
    decreases |s|
  {
    var i := IndexOf(s, c);
    if i < 0 then [s] else [s[..i]] + SplitAll(s[i + 1..], c)
  }

  /** `parts` without its trailing empty pieces. */
  function TrimTrailingEmpty(parts: seq<string>): (r: seq<string>)
    ensures |r| <= |parts| && r == parts[..|r|]
    ensures |r| > 0 ==> r[|r| - 1] != ""
    ensures forall k | |r| <= k < |parts| :: parts[k] == ""
  {
    if |parts| > 0 && parts[|parts| - 1] == "" then TrimTrailingEmpty(parts[..|parts| - 1])
    else parts
  }

  /** `m` empty pieces. */
  function Empties(m: nat): (e: seq<string>)
    ensures |e| == m && forall k | 0 <= k < m :: e[k] == ""
  {
    seq(m, k => "")
  }

  /**
   * `s.split(String.valueOf(c))` with the default limit 0: with no separator the result is
   * `[s]` itself; otherwise the pieces between separators, with trailing empty pieces removed.
   */
  function Split(s: string, c: char): (parts: seq<string>)
    ensures forall k | 0 <= k < |parts| :: c !in parts[k]
  {
    if c !in s then [s] else TrimTrailingEmpty(SplitAll(s, c))
  }

  /** `String.join(String.valueOf(c), parts)`. */
  function Join(parts: seq<string>, c: char): string
    decreases |parts|
  {
    if |parts| == 0 then ""
    else if |parts| == 1 then parts[0]
    else parts[0] + [c] + Join(parts[1..], c)
  }

  lemma {:induction false} IndexOfAfter(p: string, c: char, rest: string)
    requires c !in p
    ensures IndexOf(p + [c] + rest, c) == |p|
    decreases |p|
  {
    var s := p + [c] + rest;
    if |p| > 0 {
      assert s[1..] == p[1..] + [c] + rest;
      IndexOfAfter(p[1..], c, rest);
    }
  }

  /** One separator after a separator-free prefix: `SplitAll` cuts exactly there. */
  lemma SplitAllAfter(p: string, c: char, rest: string)
    requires c !in p
    ensures SplitAll(p + [c] + rest, c) == [p] + SplitAll(rest, c)
  {
    var s := p + [c] + rest;
    IndexOfAfter(p, c, rest);
    assert s[..|p|] == p;
    assert s[|p| + 1..] == rest;
  }

  lemma {:induction false} SplitAllJoin(parts: seq<string>, c: char)
    requires |parts| >= 1
    requires forall k | 0 <= k < |parts| :: c !in parts[k]
    ensures SplitAll(Join(parts, c), c) == parts
    decreases |parts|
  {
    if |parts| > 1 {
      var tail := Join(parts[1..], c);
      assert Join(parts, c) == parts[0] + [c] + tail;
      SplitAllAfter(parts[0], c, tail);
      SplitAllJoin(parts[1..], c);
      assert parts == [parts[0]] + parts[1..];
    }
  }

  /** Trimming removes exactly the empty pieces appended after a non-empty last piece. */
  lemma {:induction false} TrimEmpties(parts: seq<string>, m: nat)
    requires parts == [] || parts[|parts| - 1] != ""
    ensures TrimTrailingEmpty(parts + Empties(m)) == parts
    decreases m
  {
    if m == 0 {
      assert parts + Empties(0) == parts;
    } else {
      var all := parts + Empties(m);
      assert all[|all| - 1] == "";
      assert all[..|all| - 1] == parts + Empties(m - 1);
      TrimEmpties(parts, m - 1);
    }
  }

  /** A join of two or more pieces holds the separator. */
  lemma JoinHasSeparator(parts: seq<string>, c: char)
    requires |parts| >= 2
    ensures c in Join(parts, c)
  {
    var s := Join(parts, c);
    assert s == parts[0] + [c] + Join(parts[1..], c);
    assert s[|parts[0]|] == c;
  }

  /**
   * Splitting a join gives back the pieces, provided no piece holds the separator and the
   * last piece is not empty; `m` empty pieces after it (trailing separators) are dropped.
   */
  lemma SplitJoin(parts: seq<string>, m: nat, c: char)
    requires |parts| >= 1 && parts[|parts| - 1] != ""
    requires forall k | 0 <= k < |parts| :: c !in parts[k]
    ensures Split(Join(parts + Empties(m), c), c) == parts
  {
    var all := parts + Empties(m);
    assert forall k | 0 <= k < |all| :: c !in all[k];
    if |all| == 1 {
      assert Join(all, c) == parts[0];
    } else {
      JoinHasSeparator(all, c);
      SplitAllJoin(all, c);
      TrimEmpties(parts, m);
    }
  }

  /** Text made only of two or more separators splits into no pieces at all. */
  lemma SplitOnlySeparators(m: nat, c: char)
    requires m >= 2
    ensures Split(Join(Empties(m), c), c) == []
  {
    assert forall k | 0 <= k < m :: c !in Empties(m)[k];
    JoinHasSeparator(Empties(m), c);
    SplitAllJoin(Empties(m), c);
    TrimEmpties([], m);
    assert [] + Empties(m) == Empties(m);
  }
}
