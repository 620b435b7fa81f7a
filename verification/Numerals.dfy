/** Numbers as digit strings: `itoa`, which writes the digits backwards and reverses them in place,
    and the eight-digit hexadecimal form of `printf`. */
module Numerals {
  import opened Machine

  const LOOKUP: seq<char> := "0123456789ABCDEFGHIJKLMNOPQRSTUVWXYZ"

  function Digit(d: int): (c: char)
    requires 0 <= d < 36
    ensures c != NUL
  {
    LOOKUP[d]
  }

  function DigitValue(c: char): int {
    if '0' <= c <= '9' then c as int - '0' as int
    else if 'A' <= c <= 'Z' then c as int - 'A' as int + 10
    else 0
  }

  /** The digits are 0 to 9 and then A to Z. */
  lemma DigitsInOrder(d: int)
    requires 0 <= d < 36
    ensures Digit(d) as int == if d < 10 then '0' as int + d else 'A' as int + (d - 10)
  {
  }

  lemma DigitRoundTrip(d: int)
    requires 0 <= d < 36
    ensures DigitValue(Digit(d)) == d
    ensures Digit(d) == '0' <==> d == 0
  {
  }

  lemma Quotient(v: int, radix: int)
    requires v > 0 && radix >= 2
    ensures 0 <= v / radix < v && 0 <= v % radix < radix
    ensures v == (v / radix) * radix + v % radix
    ensures v / radix == 0 <==> v < radix
  {
    var q := v / radix;
    if q >= 1 {
      assert q * radix >= 2 * q by { MulAtLeast(q, radix, 2); }
    }
    if q <= -1 {
      MulAtLeast(-q, radix, 2);
    }
  }

  lemma MulAtLeast(q: int, r: int, k: int)
    requires q >= 0 && r >= k
    ensures q * r >= q * k
  {
    assert q * (r - k) >= 0;
  }

  /** The digits of a number, most significant first. */
  function Numeral(v: nat, radix: int): (s: seq<char>)
    requires 2 <= radix <= 36
    ensures |s| >= 1 && NUL !in s
    decreases v
  {
    if v == 0 then ['0']
    else
      (Quotient(v, radix);
       (if v / radix == 0 then [] else Numeral(v / radix, radix)) + [Digit(v % radix)])
  }

  function Parse(s: seq<char>, radix: int): int
    decreases |s|
  {
    if s == [] then 0 else Parse(s[..|s| - 1], radix) * radix + DigitValue(s[|s| - 1])
  }

  lemma ParseSnoc(s: seq<char>, c: char, radix: int)
    ensures Parse(s + [c], radix) == Parse(s, radix) * radix + DigitValue(c)
  {
    assert (s + [c])[..|s|] == s;
  }

  lemma LowestDigit(radix: int, high: seq<char>, d: int)
    requires 2 <= radix <= 36 && 0 <= d < radix
    ensures Parse(high + [Digit(d)], radix) == Parse(high, radix) * radix + d
  {
    ParseSnoc(high, Digit(d), radix);
  }

  /** The digits read back as the number, and the first one is 0 for no number but 0. */
  lemma {:induction false} NumeralRoundTrip(v: nat, radix: int)
    requires 2 <= radix <= 36
    ensures Parse(Numeral(v, radix), radix) == v
    ensures Numeral(v, radix)[0] == '0' <==> v == 0
    decreases v
  {
    if v == 0 {
      ParseSnoc([], '0', radix);
      assert [] + ['0'] == ['0'];
    } else {
      Quotient(v, radix);
      DigitRoundTrip(v % radix);
      var high := if v / radix == 0 then [] else Numeral(v / radix, radix);
      LowestDigit(radix, high, v % radix);
      if v / radix != 0 {
        NumeralRoundTrip(v / radix, radix);
      }
    }
  }

  /** The last digit of a numeral is the remainder by the radix, the others are the numeral of the quotient. */
  lemma NumeralDigits(v: nat, radix: int)
    requires 2 <= radix <= 36
    ensures 0 <= v / radix && 0 <= v % radix < radix
    ensures var s, d := Numeral(v, radix), v % radix;
            && s[|s| - 1] as int == (if d < 10 then '0' as int + d else 'A' as int + (d - 10))
            && s[..|s| - 1] == if v < radix then [] else Numeral(v / radix, radix)
  {
    if v > 0 {
      Quotient(v, radix);
      DigitsInOrder(v % radix);
    } else {
      assert v % radix == 0 by { QuotientOfZero(radix); }
    }
  }

  lemma QuotientOfZero(radix: int)
    requires radix >= 2
    ensures 0 / radix == 0 && 0 % radix == 0
  {
  }

  function Pow(radix: int, n: nat): int {
    if n == 0 then 1 else radix * Pow(radix, n - 1)
  }

  /** A number below the `n`-th power of the radix has at most `n` digits. */
  lemma {:induction false} NumeralLength(v: nat, radix: int, n: nat)
    requires 2 <= radix <= 36 && n >= 1 && v < Pow(radix, n)
    ensures |Numeral(v, radix)| <= n
    decreases v
  {
    if v == 0 {
    } else {
      Quotient(v, radix);
      assert Pow(radix, 1) == radix * Pow(radix, 0);
      assert v / radix < Pow(radix, n - 1) by {
        if v / radix >= Pow(radix, n - 1) {
          MulAtLeast(radix, v / radix, Pow(radix, n - 1));
        }
      }
      if v / radix != 0 {
        NumeralLength(v / radix, radix, n - 1);
      }
    }
  }

  function Reverse(s: seq<char>): (r: seq<char>)
    ensures |r| == |s|
    ensures forall k :: 0 <= k < |s| ==> r[k] == s[|s| - 1 - k]
  {
    seq(|s|, k requires 0 <= k < |s| => s[|s| - 1 - k])
  }

  lemma ReverseSnoc(s: seq<char>, c: char)
    ensures Reverse(s + [c]) == [c] + Reverse(s)
  {
  }

  /** The digits of a number not yet written, none if it is used up. */
  function High(v: nat, radix: int): seq<char>
    requires 2 <= radix <= 36
  {
    if v == 0 then [] else Numeral(v, radix)
  }

  /** Writing the lowest digit moves it from the number to the digits written so far. */
  lemma DigitMoves(v: nat, radix: int, digits: seq<char>)
    requires 2 <= radix <= 36 && v > 0
    ensures 0 <= v / radix < v && 0 <= v % radix < radix
    ensures High(v, radix) + Reverse(digits) == High(v / radix, radix) + Reverse(digits + [Digit(v % radix)])
  {
    Quotient(v, radix);
    ReverseSnoc(digits, Digit(v % radix));
  }

  /** The string that starts at a position of a buffer. */
  ghost predicate StringAt(buf: seq<char>, at: nat, s: seq<char>) {
    && at + |s| < |buf| && buf[at + |s|] == NUL && NUL !in s
    && forall k :: at <= k < at + |s| ==> buf[k] == s[k - at]
  }

  method Strlen(buf: array<char>, at: nat, ghost s: seq<char>) returns (len: nat)
    requires StringAt(buf[..], at, s)
    ensures len == |s|
  {
    len := 0;
    while buf[at + len] != NUL
      invariant len <= |s|
      invariant forall k :: 0 <= k < |s| ==> s[k] != NUL
      decreases |s| - len
    {
      len := len + 1;
    }
  }

  /** `strrev`: swaps from both ends towards the middle. */
  method Strrev(buf: array<char>, at: nat, ghost s: seq<char>)
    requires StringAt(buf[..], at, s)
    modifies buf
    ensures StringAt(buf[..], at, Reverse(s))
    ensures forall k :: 0 <= k < buf.Length && !(at <= k < at + |s|) ==> buf[k] == old(buf[k])
  {
    var len := Strlen(buf, at, s);
    var beg, end := 0, len - 1;
    while beg < end
      invariant 0 <= beg <= len && end == len - 1 - beg
      invariant forall k :: at <= k < at + len ==>
                              buf[k] == if beg <= k - at <= end then s[k - at] else s[len - 1 - (k - at)]
      invariant forall k :: 0 <= k < buf.Length && !(at <= k < at + len) ==> buf[k] == old(buf[k])
    {
      buf[at + end], buf[at + beg] := buf[at + beg], buf[at + end];
      beg := beg + 1;
      end := end - 1;
    }
    assert forall c :: c in Reverse(s) ==> c in s;
  }

  /** `digits` are the low digits of `want`, written backwards, and `left` is the number the others spell. */
  predicate Splits(want: seq<char>, left: nat, digits: seq<char>, radix: int) {
    2 <= radix <= 36 && want == High(left, radix) + Reverse(digits)
  }

  /** The digits stand in the buffer from a position on. */
  ghost predicate Written(buf: seq<char>, at: nat, digits: seq<char>) {
    at + |digits| <= |buf| && buf[at..at + |digits|] == digits
  }

  lemma WrittenSnoc(buf: seq<char>, at: nat, digits: seq<char>, c: char)
    requires Written(buf, at, digits) && at + |digits| < |buf|
    ensures Written(buf[at + |digits| := c], at, digits + [c])
  {
  }

  /** The lowest digit and the number left. */
  method NextDigit(left: nat, radix: int, ghost want: seq<char>, ghost digits: seq<char>) returns (c: char, rest: nat)
    requires 0 < left && Splits(want, left, digits, radix)
    ensures rest < left && c != NUL
    ensures Splits(want, rest, digits + [c], radix)
    ensures |digits| < |want| && (rest > 0 ==> |digits| + 1 < |want|)
    ensures rest == 0 ==> want == Reverse(digits + [c])
  {
    DigitMoves(left, radix, digits);
    c := LOOKUP[left % radix];
    rest := left / radix;
    assert [] + Reverse(digits + [c]) == Reverse(digits + [c]);
  }

  /** The digits of a positive number as a string, lowest place first. */
  method WriteDigits(value: int, buf: array<char>, at: nat, radix: int, ghost want: seq<char>)
    returns (ghost digits: seq<char>)
    requires 0 < value && Splits(want, value, [], radix)
    requires at + |want| < buf.Length
    modifies buf
    ensures want == Reverse(digits)
    ensures StringAt(buf[..], at, digits)
    ensures forall k :: 0 <= k < buf.Length && !(at <= k <= at + |digits|) ==> buf[k] == old(buf[k])
  {
    var newval, n := value, 0;
    digits := [];
    while newval > 0
      invariant 0 <= newval && n == |digits| && NUL !in digits
      invariant Splits(want, newval, digits, radix)
      invariant n <= |want| && (newval == 0 ==> want == Reverse(digits))
      invariant Written(buf[..], at, digits)
      invariant forall k :: 0 <= k < buf.Length && !(at <= k < at + n) ==> buf[k] == old(buf[k])
    {
      var c, rest := NextDigit(newval, radix, want, digits);
      WrittenSnoc(buf[..], at, digits, c);
      buf[at + n] := c;
      newval := rest;
      digits := digits + [c];
      n := n + 1;
    }
    buf[at + n] := NUL;
  }

  /** `itoa`: writes the digits of a 32-bit number as a string. */
  method Itoa(value: int, buf: array<char>, at: nat, radix: int)
    requires 0 <= value < UINT && 2 <= radix <= 36
    requires at + |Numeral(value, radix)| < buf.Length
    modifies buf
    ensures StringAt(buf[..], at, Numeral(value, radix))
    ensures forall k :: 0 <= k < buf.Length && !(at <= k <= at + |Numeral(value, radix)|) ==> buf[k] == old(buf[k])
  {
    if value == 0 {
      buf[at] := '0';
      buf[at + 1] := NUL;
      return;
    }
    assert High(value, radix) + Reverse([]) == Numeral(value, radix);
    ghost var digits := WriteDigits(value, buf, at, radix, Numeral(value, radix));
    Strrev(buf, at, digits);
  }

  /** The string at a position, as `puts` sends it out. */
  method Puts(buf: array<char>, at: nat, ghost s: seq<char>) returns (out: seq<char>)
    requires StringAt(buf[..], at, s)
    ensures out == s
  {
    var len := Strlen(buf, at, s);
    out := buf[at..at + len];
  }

  /** The places before a string from `start` on become zeros. */
  method FillZeros(buf: array<char>, start: nat, at: nat, ghost digits: seq<char>)
    requires start <= at && StringAt(buf[..], at, digits)
    modifies buf
    ensures StringAt(buf[..], at, digits) && forall k :: start <= k < at ==> buf[k] == '0'
  {
    var i := start;
    while i < at
      invariant start <= i <= at
      invariant forall k :: start <= k < i ==> buf[k] == '0'
      invariant StringAt(buf[..], at, digits)
    {
      buf[i] := '0';
      i := i + 1;
    }
  }

  /** The `%#x` conversion: the digits go behind eight places, and the places they leave are zeros. */
  method PrintHex(value: int) returns (out: seq<char>)
    requires 0 <= value < UINT
    ensures |out| == 8 && Parse(out, 16) == value
    ensures |Numeral(value, 16)| <= 8 && out[8 - |Numeral(value, 16)|..] == Numeral(value, 16)
    ensures forall k :: 0 <= k < 8 - |Numeral(value, 16)| ==> out[k] == '0'
  {
    var buf := new char[64];
    HexLength(value);
    var digits := Numeral(value, 16);
    Itoa(value, buf, 8, 16);
    var start := Strlen(buf, 8, digits);
    FillZeros(buf, start, 8, digits);
    PaddedAt(buf[..], start, 8, digits);
    out := Puts(buf, start, Zeros(8 - start) + digits);
    ParseZeros(8 - start, digits, 16);
    NumeralRoundTrip(value, 16);
  }

  /** A string with zeros before it. */
  lemma PaddedAt(buf: seq<char>, start: nat, at: nat, s: seq<char>)
    requires start <= at && StringAt(buf, at, s) && forall k :: start <= k < at ==> buf[k] == '0'
    ensures StringAt(buf, start, Zeros(at - start) + s)
  {
  }

  function Zeros(n: nat): (z: seq<char>)
    ensures |z| == n && NUL !in z
  {
    seq(n, _ => '0')
  }

  lemma HexLength(v: nat)
    requires v < UINT
    ensures |Numeral(v, 16)| <= 8
  {
    assert Pow(16, 8) == UINT by {
      assert Pow(16, 2) == 16 * Pow(16, 1) == 256;
      assert Pow(16, 4) == 16 * Pow(16, 3) == 0x1_0000;
      assert Pow(16, 6) == 16 * Pow(16, 5) == 0x100_0000;
    }
    NumeralLength(v, 16, 8);
  }

  lemma {:induction false} ParseZeros(n: nat, s: seq<char>, radix: int)
    ensures Parse(Zeros(n) + s, radix) == Parse(s, radix)
    decreases |s|, n
  {
    if s == [] && n == 0 {
      assert Zeros(0) + [] == [];
    } else if s == [] {
      ParseZeros(n - 1, [], radix);
      assert Zeros(n - 1) + [] == Zeros(n - 1);
      assert Zeros(n) + [] == Zeros(n - 1) + ['0'];
      ParseSnoc(Zeros(n - 1), '0', radix);
    } else {
      var t := s[..|s| - 1];
      ParseZeros(n, t, radix);
      assert Zeros(n) + s == (Zeros(n) + t) + [s[|s| - 1]];
      ParseSnoc(Zeros(n) + t, s[|s| - 1], radix);
    }
  }
}
