/** The parts of the Java platform whose exact behaviour the command-line client relies on:
    the range of `long`, `Long.toString`, `Long.parseLong`, `String.indexOf`, `String.split`
    with a one-character pattern, `Collectors.joining` and the `%-Ns` conversion of
    `String.format`. Strings are sequences of characters. */
module JavaLang {
  import opened Wrappers

  const LONG_MIN: int := -0x8000_0000_0000_0000
  const LONG_MAX: int := 0x7FFF_FFFF_FFFF_FFFF
  const LONG_MODULUS: int := 0x1_0000_0000_0000_0000

  /** Java's 64-bit `long`. */
  type Long = x: int | LONG_MIN <= x <= LONG_MAX

  /** The exceptions the modelled code throws; `JSON` is org.json's `JSONException`, raised
      when a response lacks an array the code asks for with `getJSONArray`. */
  datatype JavaException =
    | IllegalArgument(message: string)
    | IllegalState(message: string)
    | ArrayIndexOutOfBounds(index: int, length: int)
    | NullPointer
    | IO(message: string)
    | JSON(message: string)

  /** Two's-complement wrap-around of a `long` multiplication or addition. */
  function WrapLong(x: int): (r: Long)
    ensures LONG_MIN <= x <= LONG_MAX ==> r == x
  {
    (x - LONG_MIN) % LONG_MODULUS + LONG_MIN
  }

  /** The wrapped value differs from the exact one by a multiple of 2^64. */
  lemma WrapLongCongruence(x: int)
    ensures (WrapLong(x) - x) % LONG_MODULUS == 0
  {
    var a := x - LONG_MIN;
    assert a == (a / LONG_MODULUS) * LONG_MODULUS + a % LONG_MODULUS;
    assert WrapLong(x) - x == -(a / LONG_MODULUS) * LONG_MODULUS;
  }

  /** Numbers that differ by a multiple of 2^64 wrap to the same `long`. */
  lemma WrapLongCongruent(x: int, y: int, k: int)
    requires x - y == k * LONG_MODULUS
    ensures WrapLong(x) == WrapLong(y)
  {
    var a := x - LONG_MIN;
    var b := y - LONG_MIN;
    assert a == b + k * LONG_MODULUS;
    var q := b / LONG_MODULUS;
    var r := b % LONG_MODULUS;
    assert a == (q + k) * LONG_MODULUS + r;
    assert a % LONG_MODULUS == r;
  }

  /** Accumulating in a `long` step by step wraps like the exact sum wrapped once. */
  lemma WrapLongAdd(a: int, b: int)
    ensures WrapLong(WrapLong(a) + b) == WrapLong(a + b)
  {
    var w := WrapLong(a);
    WrapLongCongruence(a);
    var k := (w - a) / LONG_MODULUS;
    assert w - a == k * LONG_MODULUS;
    WrapLongCongruent(w + b, a + b, k);
  }

  // ---------------------------------------------------------------- decimal digits

  predicate IsDigit(c: char) {
    '0' <= c <= '9'
  }

  predicate AllDigits(s: string) {
    forall i :: 0 <= i < |s| ==> IsDigit(s[i])
  }

  function DigitChar(d: int): (c: char)
    requires 0 <= d < 10
    ensures IsDigit(c) && c as int - '0' as int == d
  {
    (('0' as int) + d) as char
  }

  /** The number a string of decimal digits denotes. */
  function DigitsValue(s: string): nat
    requires AllDigits(s)
  {
    if |s| == 0 then 0
    else DigitsValue(s[..|s| - 1]) * 10 + (s[|s| - 1] as int - '0' as int)
  }

  /** `Long.toString` of a non-negative number: its decimal digits without leading zeros. */
  function NatToString(n: nat): (s: string)
    ensures |s| > 0 && AllDigits(s)
    ensures s[0] == '0' ==> n == 0 && s == "0"
  {
    if n < 10 then [DigitChar(n)] else NatToString(n / 10) + [DigitChar(n % 10)]
  }

  /** `Long.toString` / `Integer.toString`: a minus sign before the digits of a negative number. */
  function IntToString(n: int): (s: string)
    ensures |s| > 0
    ensures n >= 0 ==> s == NatToString(n)
    ensures n < 0 ==> s == "-" + NatToString(-n)
  {
    if n < 0 then "-" + NatToString(-n) else NatToString(n)
  }

  /** Reading the digits back gives the number. */
  lemma {:induction false} NatToStringRoundTrip(n: nat)
    ensures DigitsValue(NatToString(n)) == n
  {
    if n >= 10 {
      NatToStringRoundTrip(n / 10);
      var s := NatToString(n);
      assert s[..|s| - 1] == NatToString(n / 10);
    }
  }

  /** `Long.parseLong`: an optional `+` or `-`, then one or more digits, denoting a value in
      the range of `long`; anything else raises `NumberFormatException` (here `None`). */
  function ParseLong(s: string): (r: Option<Long>)
    ensures r.Some? ==> |s| > 0
  {
    if |s| == 0 then None
    else if s[0] == '-' then SignedValue(s[1..], true)
    else if s[0] == '+' then SignedValue(s[1..], false)
    else SignedValue(s, false)
  }

  /** The value of the digits after the sign, if there are any and it fits in a `long`. */
  function SignedValue(digits: string, negative: bool): Option<Long> {
    if |digits| == 0 || !AllDigits(digits) then None
    else
      var magnitude: int := DigitsValue(digits);
      var v := if negative then -magnitude else magnitude;
      if LONG_MIN <= v <= LONG_MAX then Some(v) else None
  }

  /** `Long.parseLong` reads back what `Long.toString` prints. */
  lemma {:induction false} ParseLongRoundTrip(n: Long)
    ensures ParseLong(IntToString(n)) == Some(n)
  {
    if n < 0 {
      var m: nat := -(n as int);
      var t := NatToString(m);
      NatToStringRoundTrip(m);
      assert SignedValue(t, true) == Some(n);
      var s := "-" + t;
      assert s[0] == '-' && s[1..] == t;
      assert ParseLong(s) == SignedValue(t, true);
    } else {
      var s := NatToString(n);
      NatToStringRoundTrip(n);
      assert SignedValue(s, false) == Some(n);
      assert s[0] != '-' && s[0] != '+';
    }
  }

  /** What `parseLong` accepts: an optional `+` or `-`, then one or more ASCII digits whose
      signed value fits in a `long`; the result is that value. */
  lemma ParseLongAccepts(s: string)
    ensures var digits := if |s| > 0 && (s[0] == '-' || s[0] == '+') then s[1..] else s;
      ParseLong(s).Some? <==> (|digits| > 0 && AllDigits(digits) &&
        var m: int := DigitsValue(digits);
        LONG_MIN <= (if s[0] == '-' then -m else m) <= LONG_MAX)
    ensures ParseLong(s).Some? ==> var digits := if s[0] == '-' || s[0] == '+' then s[1..] else s;
      var m: int := DigitsValue(digits);
      ParseLong(s).value == if s[0] == '-' then -m else m
  {
  }

  /** Letters and a trailing letter are rejected. */
  lemma ParseLongRejectsLetters()
    ensures ParseLong("abc").None? && ParseLong("1a").None?
  {
    assert !IsDigit("abc"[0]);
    assert !IsDigit("1a"[1]);
  }

  /** A lone sign and the empty string are rejected. */
  lemma ParseLongRejectsEmpty()
    ensures ParseLong("-").None? && ParseLong("+").None? && ParseLong("").None?
  {
  }

  /** A leading `+` or `-` is accepted before the digits. */
  lemma ParseLongSigned()
    ensures ParseLong("+7") == Some(7) && ParseLong("-12") == Some(-12)
  {
    assert "+7"[1..] == "7";
    assert "-12"[1..] == "12" && "12"[..1] == "1";
  }

  // ---------------------------------------------------------------- strings

  /** `String.indexOf(c)`: the first position of `c`, or -1. */
  function IndexOf(s: string, c: char): (r: int)
    ensures -1 <= r < |s|
    ensures r == -1 <==> c !in s
    ensures r >= 0 ==> s[r] == c && c !in s[..r]
  {
    if |s| == 0 then -1
    else if s[0] == c then 0
    else
      var k := IndexOf(s[1..], c);
      if k == -1 then -1
      else
        assert s[..k + 1] == [s[0]] + s[1..][..k];
        k + 1
  }

  /** A position holding `c` with no `c` before it is where `indexOf` finds it. */
  lemma IndexOfAt(s: string, c: char, p: nat)
    requires p < |s| && s[p] == c && c !in s[..p]
    ensures IndexOf(s, c) == p
  {
    assert s[p] in s;
  }

  /** `n` spaces. */
  function Spaces(n: nat): (r: string)
    ensures |r| == n && forall i :: 0 <= i < n ==> r[i] == ' '
  {
    if n == 0 then "" else Spaces(n - 1) + " "
  }

  /** `String.format("%-" + width + "s", s)`: left-justified, padded with spaces to at least
      `width` characters, never truncated. */
  function Pad(s: string, width: nat): (r: string)
    ensures |r| == if |s| >= width then |s| else width
    ensures r[..|s|] == s
    ensures forall i :: |s| <= i < |r| ==> r[i] == ' '
  {
    if |s| >= width then s else s + Spaces(width - |s|)
  }

  /** `Collectors.joining(sep)` / `String.join(sep, xs)`. */
  function Join(sep: string, xs: seq<string>): string {
    if |xs| == 0 then ""
    else if |xs| == 1 then xs[0]
    else xs[0] + sep + Join(sep, xs[1..])
  }

  /** Every piece of `s` between occurrences of `c`, empty pieces included
      (there is always one more piece than there are occurrences). */
  function SplitAll(s: string, c: char): (r: seq<string>)
    ensures |r| > 0
    ensures forall k :: 0 <= k < |r| ==> c !in r[k]
    decreases |s|
  {
    if c !in s then [s]
    else
      var p := IndexOf(s, c);
      [s[..p]] + SplitAll(s[p + 1..], c)
  }

  /** A piece without `c`, then `c`, then the rest: the piece comes first. */
  lemma SplitAllCons(x: string, c: char, rest: string)
    requires c !in x
    ensures SplitAll(x + [c] + rest, c) == [x] + SplitAll(rest, c)
  {
    var s := x + [c] + rest;
    assert s[|x|] == c;
    assert s[..|x|] == x;
    IndexOfAt(s, c, |x|);
    assert s[|x| + 1..] == rest;
  }

  /** Joining with a one-character separator and splitting at it are inverse, as long as no
      element contains the separator. */
  lemma {:induction false} SplitJoinRoundTrip(xs: seq<string>, c: char)
    requires |xs| > 0
    requires forall k :: 0 <= k < |xs| ==> c !in xs[k]
    ensures SplitAll(Join([c], xs), c) == xs
  {
    if |xs| > 1 {
      var rest := Join([c], xs[1..]);
      assert Join([c], xs) == xs[0] + [c] + rest;
      SplitAllCons(xs[0], c, rest);
      SplitJoinRoundTrip(xs[1..], c);
      assert [xs[0]] + xs[1..] == xs;
    }
  }

  /** Drops the empty strings at the end of a sequence, and only those. */
  function StripTrailingEmpty(xs: seq<string>): (r: seq<string>)
    ensures |r| <= |xs| && r == xs[..|r|]
    ensures |r| > 0 ==> r[|r| - 1] != ""
    ensures forall k :: |r| <= k < |xs| ==> xs[k] == ""
  {
    if |xs| == 0 || xs[|xs| - 1] != "" then xs
    else StripTrailingEmpty(xs[..|xs| - 1])
  }

  /** `String.split(String.valueOf(c))` for a character that is not special in a regular
      expression: when `c` does not occur the answer is `[s]` itself (even for the empty
      string); otherwise the pieces between occurrences, with trailing empty pieces removed. */
  function Split(s: string, c: char): seq<string> {
    if c !in s then [s] else StripTrailingEmpty(SplitAll(s, c))
  }

  /** Some string of `xs` is non-empty. */
  predicate SomeNonEmpty(xs: seq<string>) {
    exists k :: 0 <= k < |xs| && xs[k] != ""
  }

  /** `t` has a character other than `c`. */
  predicate SomeOther(t: string, c: char) {
    exists j :: 0 <= j < |t| && t[j] != c
  }

  /** Some piece of `SplitAll(t, c)` is non-empty exactly when `t` has a character other than `c`. */
  lemma {:induction false} SplitAllNonEmpty(t: string, c: char)
    ensures SomeNonEmpty(SplitAll(t, c)) <==> SomeOther(t, c)
  {
    var xs := SplitAll(t, c);
    if c !in t {
      if |t| > 0 {
        assert t[0] != c && xs[0] != "";
      }
    } else {
      var p := IndexOf(t, c);
      var rest := t[p + 1..];
      SplitAllNonEmpty(rest, c);
      assert xs == [t[..p]] + SplitAll(rest, c);
      if SomeOther(t, c) {
        var j :| 0 <= j < |t| && t[j] != c;
        if j < p {
          assert t[..p][j] == t[j];
          assert xs[0] != "";
        } else {
          assert j != p && rest[j - p - 1] == t[j];
          var k :| 0 <= k < |SplitAll(rest, c)| && SplitAll(rest, c)[k] != "";
          assert xs[k + 1] != "";
        }
      }
      if SomeNonEmpty(xs) {
        var k :| 0 <= k < |xs| && xs[k] != "";
        if k == 0 {
          assert t[..p][0] == t[0];
          assert t[0] in t[..p];
        } else {
          assert SplitAll(rest, c)[k - 1] != "";
          var j :| 0 <= j < |rest| && rest[j] != c;
          assert t[p + 1 + j] != c;
        }
      }
    }
  }

  /** Removing trailing empty strings leaves more than `k` elements exactly when some element
      at index `k` or later is non-empty. */
  lemma StripTrailingEmptyLength(xs: seq<string>, k: nat)
    ensures |StripTrailingEmpty(xs)| > k <==> exists j :: k <= j < |xs| && xs[j] != ""
  {
    var r := StripTrailingEmpty(xs);
    if |r| > k {
      assert xs[|r| - 1] == r[|r| - 1];
    }
  }

  /** A character other than `c` after position `p`, seen from the suffix after `p`. */
  lemma SomeOtherAfter(s: string, c: char, p: nat)
    requires p < |s|
    ensures SomeOther(s[p + 1..], c) <==> exists j :: p < j < |s| && s[j] != c
  {
    var rest := s[p + 1..];
    if SomeOther(rest, c) {
      var i :| 0 <= i < |rest| && rest[i] != c;
      assert s[p + 1 + i] != c;
    }
    if exists j :: p < j < |s| && s[j] != c {
      var j :| p < j < |s| && s[j] != c;
      assert rest[j - p - 1] != c;
    }
  }

  /** A non-empty string after the first element is a non-empty string of the tail. */
  lemma SomeNonEmptyAfterFirst(x: string, ys: seq<string>)
    ensures (exists j :: 1 <= j < |[x] + ys| && ([x] + ys)[j] != "") <==> SomeNonEmpty(ys)
  {
    var xs := [x] + ys;
    if exists j :: 1 <= j < |xs| && xs[j] != "" {
      var j :| 1 <= j < |xs| && xs[j] != "";
      assert ys[j - 1] != "";
    }
    if SomeNonEmpty(ys) {
      var k :| 0 <= k < |ys| && ys[k] != "";
      assert xs[k + 1] != "";
    }
  }

  /** `String.split` yields at least two pieces exactly when `c` occurs and is followed,
      somewhere, by a character other than `c`; the first two pieces are then the text
      before the first `c` and the text from there up to the next `c` (or the end). */
  lemma SplitFirstTwo(s: string, c: char)
    ensures |Split(s, c)| >= 2 <==> c in s && exists j :: IndexOf(s, c) < j < |s| && s[j] != c
    ensures |Split(s, c)| >= 2 ==>
      var p := IndexOf(s, c);
      var rest := s[p + 1..];
      Split(s, c)[0] == s[..p] &&
      Split(s, c)[1] == (if c in rest then rest[..IndexOf(rest, c)] else rest)
  {
    if c in s {
      SplitTwoPieces(s, c);
      SplitFirstPieces(s, c);
    }
  }

  /** When `c` occurs, `split` gives two pieces exactly when a character other than `c`
      follows the first `c`. */
  lemma SplitTwoPieces(s: string, c: char)
    requires c in s
    ensures |Split(s, c)| >= 2 <==> exists j :: IndexOf(s, c) < j < |s| && s[j] != c
  {
    var p := IndexOf(s, c);
    var rest := s[p + 1..];
    var xs := SplitAll(s, c);
    assert xs == [s[..p]] + SplitAll(rest, c);
    StripTrailingEmptyLength(xs, 1);
    SomeNonEmptyAfterFirst(s[..p], SplitAll(rest, c));
    SplitAllNonEmpty(rest, c);
    SomeOtherAfter(s, c, p);
  }

  /** The first two pieces of `split`, when there are two. */
  lemma SplitFirstPieces(s: string, c: char)
    requires c in s
    ensures |Split(s, c)| >= 2 ==>
      var p := IndexOf(s, c);
      var rest := s[p + 1..];
      Split(s, c)[0] == s[..p] &&
      Split(s, c)[1] == (if c in rest then rest[..IndexOf(rest, c)] else rest)
  {
    var p := IndexOf(s, c);
    var rest := s[p + 1..];
    var xs := SplitAll(s, c);
    assert xs == [s[..p]] + SplitAll(rest, c);
    var r := StripTrailingEmpty(xs);
    if |r| >= 2 {
      assert r[0] == xs[0] && r[1] == xs[1];
    }
  }



  /** `String.format("%s", x)` / `String.valueOf(x)` of a possibly null string. */
  function StringValueOf(x: Option<string>): (r: string)
    ensures x.Some? ==> r == x.value
    ensures x.None? ==> r == "null"
  {
    match x
    case Some(v) => v
    case None => "null"
  }
}
