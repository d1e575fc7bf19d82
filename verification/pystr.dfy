/**
 The handful of Python built-ins the application leans on, written out over
 `seq<char>`: list repetition `[x] * n`, `sep.join(parts)`, `s.split(c)` with a
 one-character separator, `int(s)` on a decimal literal and the decimal literal of
 an int. Python integers are unbounded, like Dafny's `int`, but two of these
 built-ins bound what they accept: `[x] * n` needs a count that fits a 64-bit index
 (`OverflowError` otherwise), and `int(s)` refuses a literal of more than 4300
 digits (`ValueError`, the interpreter's default limit).
 */
module PyStr {
  import opened Options

  /** n copies of x, and the empty list whenever n <= 0: the list `[x] * n` builds
      for a count that fits an index (see `ListRepeat`). */
  function Replicate<T>(x: T, n: int): (r: seq<T>)
    ensures |r| == if n <= 0 then 0 else n
    ensures forall i :: 0 <= i < |r| ==> r[i] == x
    decreases if n <= 0 then 0 else n
  {
    if n <= 0 then [] else [x] + Replicate(x, n - 1)
  }

  /** The range of a 64-bit `Py_ssize_t`, the index type a repetition count is
      converted to. */
  const IndexMin: int := -0x8000_0000_0000_0000
  const IndexMax: int := 0x7FFF_FFFF_FFFF_FFFF

  predicate IsIndexSized(n: int) {
    IndexMin <= n <= IndexMax
  }

  /** Python's `[x] * n`: `None` stands for the `OverflowError` raised when n does
      not fit an index; otherwise n copies of x, none when n <= 0. */
  function ListRepeat<T>(x: T, n: int): (r: Option<seq<T>>)
    ensures r.Some? <==> IsIndexSized(n)
    ensures r.Some? ==> |r.value| == (if n <= 0 then 0 else n)
    ensures r.Some? ==> forall i :: 0 <= i < |r.value| ==> r.value[i] == x
  {
    if IsIndexSized(n) then Some(Replicate(x, n)) else None
  }

  /** Python's `sep.join(parts)`: the parts in order, `sep` between neighbours. */
  function Join(sep: string, parts: seq<string>): (r: string)
    ensures |parts| == 0 ==> r == ""
    ensures |parts| >= 1 ==> |parts[0]| <= |r| && r[..|parts[0]|] == parts[0]
    decreases |parts|
  {
    if |parts| == 0 then ""
    else if |parts| == 1 then parts[0]
    else parts[0] + sep + Join(sep, parts[1..])
  }

  /** The summed lengths of the parts. */
  function TotalLength(parts: seq<string>): nat
    decreases |parts|
  {
    if |parts| == 0 then 0 else |parts[0]| + TotalLength(parts[1..])
  }

  /** A join is as long as its parts together plus one separator between each pair. */
  lemma {:induction false} JoinLength(sep: string, parts: seq<string>)
    requires |parts| >= 1
    ensures |Join(sep, parts)| == TotalLength(parts) + (|parts| - 1) * |sep|
    decreases |parts|
  {
    if |parts| > 1 {
      JoinLength(sep, parts[1..]);
      assert (|parts| - 2) * |sep| + |sep| == (|parts| - 1) * |sep|;
    }
  }

  /** Position of the first occurrence of `c` in `s`. */
  function IndexOf(s: string, c: char): (i: nat)
    requires c in s
    ensures i < |s| && s[i] == c
    ensures c !in s[..i]
  {
    if s[0] == c then 0
    else
      var j := IndexOf(s[1..], c);
      assert s[..j + 1] == [s[0]] + s[1..][..j];
      1 + j
  }

  /** Python's `s.split(c)` for a one-character separator: the maximal
      separator-free pieces, so `"".split(c) == [""]` and `"a,".split(",") == ["a", ""]`. */
  function Split(s: string, c: char): (r: seq<string>)
    ensures |r| >= 1
    ensures forall i :: 0 <= i < |r| ==> c !in r[i]
    decreases |s|
  {
    if c !in s then [s]
    else
      var i := IndexOf(s, c);
      [s[..i]] + Split(s[i + 1..], c)
  }

  /** Joining the pieces of a split with the same separator gives back the string. */
  lemma {:induction false} JoinSplit(s: string, c: char)
    ensures Join([c], Split(s, c)) == s
    decreases |s|
  {
    if c in s {
      var i := IndexOf(s, c);
      var rest := s[i + 1..];
      JoinSplit(rest, c);
      assert Split(s, c) == [s[..i]] + Split(rest, c);
      assert s == s[..i] + [c] + rest;
    }
  }

  /** The first separator of `p + [c] + tail` sits right after `p` when `p` has none. */
  lemma {:induction false} IndexOfAfterPrefix(p: string, c: char, tail: string)
    requires c !in p
    ensures IndexOf(p + [c] + tail, c) == |p|
    decreases |p|
  {
    var s := p + [c] + tail;
    if |p| > 0 {
      assert s[0] == p[0];
      assert s[1..] == p[1..] + [c] + tail;
      IndexOfAfterPrefix(p[1..], c, tail);
    }
  }

  /** Splitting a join of separator-free parts recovers exactly those parts. */
  lemma {:induction false} SplitJoin(parts: seq<string>, c: char)
    requires |parts| >= 1
    requires forall i :: 0 <= i < |parts| ==> c !in parts[i]
    ensures Split(Join([c], parts), c) == parts
    decreases |parts|
  {
    var p := parts[0];
    if |parts| > 1 {
      var tail := Join([c], parts[1..]);
      var s := Join([c], parts);
      assert s == p + [c] + tail;
      assert s[|p|] == c;
      IndexOfAfterPrefix(p, c, tail);
      assert s[..|p|] == p;
      assert s[|p| + 1..] == tail;
      assert Split(s, c) == [p] + Split(tail, c);
      SplitJoin(parts[1..], c);
      assert parts == [p] + parts[1..];
    }
  }

  predicate IsDigit(c: char) {
    '0' <= c <= '9'
  }

  predicate AllDigits(s: string) {
    forall i :: 0 <= i < |s| ==> IsDigit(s[i])
  }

  /** The value of a string of decimal digits, most significant first. */
  function DigitsValue(s: string): nat
    requires AllDigits(s)
    decreases |s|
  {
    if |s| == 0 then 0
    else 10 * DigitsValue(s[..|s| - 1]) + (s[|s| - 1] as int - '0' as int)
  }

  function Pow10(k: nat): nat {
    if k == 0 then 1 else 10 * Pow10(k - 1)
  }

  /** A one followed by k zeros is worth ten to the k. */
  lemma {:induction false} OneThenZeros(k: nat)
    ensures AllDigits(['1'] + Replicate('0', k))
    ensures DigitsValue(['1'] + Replicate('0', k)) == Pow10(k)
  {
    if k > 0 {
      OneThenZeros(k - 1);
      var s := ['1'] + Replicate('0', k);
      assert s[..|s| - 1] == ['1'] + Replicate('0', k - 1);
    }
  }

  /** The shape of a decimal integer literal: an optional sign, then digits. */
  predicate IsIntLiteral(s: string) {
    |s| > 0 &&
    if s[0] == '+' || s[0] == '-' then |s| > 1 && AllDigits(s[1..]) else AllDigits(s)
  }

  /** The number of characters of `s` after a leading sign, if any: the digits of a
      literal, leading zeros included. */
  function DigitCount(s: string): nat {
    if |s| > 0 && (s[0] == '+' || s[0] == '-') then |s| - 1 else |s|
  }

  /** The most digits `int(s)` converts by default; a longer literal is refused. */
  const MaxStrDigits: nat := 4300

  /** Python's `int(s)` on a string: `None` stands for the `ValueError` it raises on
      anything but a literal, and on a literal of more than `MaxStrDigits` digits. */
  function ParseInt(s: string): (r: Option<int>)
    ensures r.Some? <==> IsIntLiteral(s) && DigitCount(s) <= MaxStrDigits
    ensures r.Some? && s[0] == '-' ==> r.value <= 0
    ensures r.Some? && s[0] != '-' ==> r.value >= 0
  {
    if |s| == 0 || DigitCount(s) > MaxStrDigits then None
    else if s[0] == '+' || s[0] == '-' then
      if |s| > 1 && AllDigits(s[1..]) then
        var v: int := DigitsValue(s[1..]);
        Some(if s[0] == '-' then -v else v)
      else None
    else if AllDigits(s) then Some(DigitsValue(s))
    else None
  }

  /** The decimal digits of a natural number, without leading zeros. */
  function ShowNat(n: nat): (s: string)
    ensures |s| >= 1 && AllDigits(s)
    ensures |s| == 1 || s[0] != '0'
    ensures DigitsValue(s) == n
    decreases n
  {
    var d := [('0' as int + n % 10) as char];
    if n < 10 then d
    else
      var hi := ShowNat(n / 10);
      var s := hi + d;
      assert s[..|s| - 1] == hi;
      s
  }

  /** The decimal literal of n, as `str(n)` writes it: `int` reads it back as n
      unless it has more digits than `int` accepts (where `str` refuses too). */
  function ShowInt(n: int): (s: string)
    ensures IsIntLiteral(s)
    ensures ParseInt(s) == if DigitCount(s) <= MaxStrDigits then Some(n) else None
    ensures n >= 0 ==> IsDigit(s[0])
    ensures n < 0 ==> |s| >= 2 && s[0] == '-' && AllDigits(s[1..])
  {
    if n >= 0 then ShowNat(n)
    else
      var s := "-" + ShowNat(-n);
      assert s[1..] == ShowNat(-n);
      s
  }

  /** Worked cases: a plain count, leading zeros, and a count far outside any
      machine integer. */
  lemma ParseIntScenarios()
    ensures ParseInt("3") == Some(3)
    ensures ParseInt("007") == Some(7)
    ensures ParseInt("-100000000000000000000") == Some(-100000000000000000000)
  {
    assert ShowInt(3) == "3";
    assert DigitsValue("007") == 7 by {
      assert "007"[..2] == "00" && "00"[..1] == "0" && "0"[..0] == "";
    }
    var s := "-100000000000000000000";
    OneThenZeros(20);
    assert s[1..] == ['1'] + Replicate('0', 20);
    assert Pow10(5) == 100000;
    assert Pow10(10) == 10000000000;
    assert Pow10(15) == 1000000000000000;
    assert Pow10(20) == 100000000000000000000;
    assert |s| == 22 && s[0] == '-';
  }
}
