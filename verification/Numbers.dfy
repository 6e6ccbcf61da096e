/** `itoa`, `strrev` and the number conversions of `printf` (`lib.c`, `ece391support.c`). */
module Numbers {
  import opened Bytes

  const ZERO: Byte := 48
  const MINUS: Byte := 45

  predicate Radix(radix: nat) {
    2 <= radix <= 36
  }

  /** Entry `d` of the lookup string, digits and then capital letters. */
  function DigitChar(d: nat): Byte {
    if d < 10 then (48 + d) as Byte else if d < 36 then (55 + d) as Byte else NUL
  }

  /** What a character stands for as a digit; 36 when it is none. */
  function DigitValue(c: Byte): nat {
    if 48 <= c < 58 then c as nat - 48 else if 65 <= c < 91 then c as nat - 55 else 36
  }

  /** The number that a text denotes in positional notation. */
  function Value(s: seq<Byte>, radix: nat): nat {
    if s == [] then 0 else Value(s[..|s| - 1], radix) * radix + DigitValue(s[|s| - 1])
  }

  predicate Digits(s: seq<Byte>, radix: nat) {
    forall i :: 0 <= i < |s| ==> DigitValue(s[i]) < radix
  }

  /** A number as it is written: digits only, at least one, and no zero in front of others. */
  predicate Canonical(s: seq<Byte>, radix: nat) {
    Digits(s, radix) && s != [] && (|s| > 1 ==> s[0] != ZERO)
  }

  lemma Monotone(a: nat, b: nat, c: nat)
    ensures a <= b ==> a * c <= b * c
  {
    if a <= b {
      assert b * c == a * c + (b - a) * c;
    }
  }

  lemma Divide(v: nat, radix: nat)
    requires Radix(radix)
    ensures v / radix * radix + v % radix == v && v % radix < radix
    ensures v < radix ==> v / radix == 0 && v % radix == v
    ensures v >= radix ==> 0 < v / radix < v
  {
    Quotient(v / radix, v % radix, radix);
  }

  lemma Quotient(q: nat, r: nat, radix: nat)
    requires 2 <= radix && r < radix
    ensures q * radix + r < radix <==> q == 0
    ensures q > 0 ==> q < q * radix + r
  {
    if q > 0 { Monotone(2, radix, q); Monotone(1, q, radix); }
  }

  function Numeral(v: nat, radix: nat): seq<Byte>
    requires Radix(radix)
  {
    Divide(v, radix);
    if v < radix then [DigitChar(v)] else Numeral(v / radix, radix) + [DigitChar(v % radix)]
  }

  lemma DigitRoundTrip(d: nat, c: Byte)
    ensures d < 36 ==> DigitValue(DigitChar(d)) == d && DigitChar(d) != NUL
    ensures DigitValue(c) < 36 ==> DigitChar(DigitValue(c)) == c
  {
  }

  lemma {:induction false} NumeralIsCanonical(v: nat, radix: nat)
    requires Radix(radix)
    ensures Canonical(Numeral(v, radix), radix) && NulFree(Numeral(v, radix))
    ensures v > 0 ==> Numeral(v, radix)[0] != ZERO
  {
    hide DigitChar, DigitValue;
    Divide(v, radix);
    DigitRoundTrip(v % radix, ZERO);
    NonZeroDigit(v % radix);
    if v >= radix {
      NumeralIsCanonical(v / radix, radix);
    }
  }

  lemma NonZeroDigit(d: nat)
    ensures 0 < d < 36 ==> DigitChar(d) != ZERO
  {
  }

  lemma {:induction false} NumeralDenotes(v: nat, radix: nat)
    requires Radix(radix)
    ensures Value(Numeral(v, radix), radix) == v
  {
    hide DigitChar, DigitValue;
    Divide(v, radix);
    DigitRoundTrip(v % radix, 0);
    Append(if v < radix then [] else Numeral(v / radix, radix), DigitChar(v % radix), radix);
    if v >= radix {
      NumeralDenotes(v / radix, radix);
    }
  }

  lemma Append(s: seq<Byte>, c: Byte, radix: nat)
    ensures Value(s + [c], radix) == Value(s, radix) * radix + DigitValue(c)
  {
    assert (s + [c])[..|s|] == s;
  }

  /** Writing a number and reading it are inverse: the canonical texts are the numerals, one for each number. */
  lemma {:induction false} NumeralIsExact(s: seq<Byte>, v: nat, radix: nat)
    requires Radix(radix)
    ensures s == Numeral(v, radix) <==> Canonical(s, radix) && Value(s, radix) == v
  {
    NumeralIsCanonical(v, radix);
    NumeralDenotes(v, radix);
    if Canonical(s, radix) && Value(s, radix) == v {
      CanonicalIsNumeral(s, radix);
    }
  }

  lemma {:induction false} CanonicalIsNumeral(s: seq<Byte>, radix: nat)
    requires Radix(radix) && Canonical(s, radix)
    ensures s == Numeral(Value(s, radix), radix)
    ensures s[0] != ZERO ==> Value(s, radix) > 0
    decreases |s|
  {
    var n := |s| - 1;
    var head, c := s[..n], s[n];
    var d := DigitValue(c);
    hide DigitChar, DigitValue;
    assert s == head + [c];
    DigitRoundTrip(0, c);
    ZeroDigit(c);
    if n > 0 {
      assert head[0] == s[0];
      CanonicalIsNumeral(head, radix);
      Compose(Value(head, radix), d, radix);
    } else {
      assert Value(head, radix) == 0;
      Divide(d, radix);
    }
  }

  lemma ZeroDigit(c: Byte)
    ensures DigitValue(c) == 0 ==> c == ZERO
  {
  }

  lemma Compose(q: nat, d: nat, radix: nat)
    requires Radix(radix) && d < radix
    ensures (q * radix + d) / radix == q && (q * radix + d) % radix == d && (q > 0 ==> q * radix + d >= radix)
  {
    var v := q * radix + d;
    Divide(v, radix);
    SameQuotient(v / radix, v % radix, q, d, radix);
    Monotone(1, q, radix);
  }

  lemma SameQuotient(a: nat, r: nat, b: nat, s: nat, c: nat)
    requires a * c + r == b * c + s && r < c && s < c
    ensures a == b && r == s
  {
    Monotone(a + 1, b, c);
    Monotone(b + 1, a, c);
    assert (a + 1) * c == a * c + c && (b + 1) * c == b * c + c;
  }

  function Power(radix: nat, n: nat): nat {
    if n == 0 then 1 else Power(radix, n - 1) * radix
  }

  /** A numeral takes at most `n` digits exactly for numbers below the `n`th power of the radix. */
  lemma {:induction false} NumeralLength(v: nat, radix: nat, n: nat)
    requires Radix(radix) && n > 0
    ensures |Numeral(v, radix)| <= n <==> v < Power(radix, n)
    decreases n
  {
    Divide(v, radix);
    if n == 1 {
      assert Power(radix, 1) == Power(radix, 0) * radix == radix;
    } else {
      NumeralLength(v / radix, radix, n - 1);
      Shift(v, v / radix, v % radix, radix, Power(radix, n - 1));
      PowerGrows(radix, n - 1);
      assert v < radix ==> |Numeral(v, radix)| == 1;
    }
  }

  lemma Shift(v: nat, q: nat, r: nat, radix: nat, p: nat)
    requires v == q * radix + r && r < radix
    ensures v < p * radix <==> q < p
  {
    Monotone(q + 1, p, radix);
    Monotone(p, q, radix);
    assert (q + 1) * radix == q * radix + radix;
  }

  lemma {:induction false} PowerGrows(radix: nat, n: nat)
    requires Radix(radix)
    ensures Power(radix, n) >= 1
  {
    if n > 0 { PowerGrows(radix, n - 1); }
  }

  function Reversed(s: seq<Byte>): (r: seq<Byte>)
    ensures |r| == |s|
  {
    seq(|s|, i requires 0 <= i < |s| => s[|s| - 1 - i])
  }

  /** The buffer holds the C string `text` from `base` on. */
  ghost predicate StringAt(buf: seq<Byte>, base: nat, text: seq<Byte>) {
    && base + |text| < |buf| && buf[base + |text|] == NUL && NulFree(text)
    && forall i :: base <= i < base + |text| ==> buf[i] == text[i - base]
  }

  predicate NulFree(s: seq<Byte>) {
    forall i :: 0 <= i < |s| ==> s[i] != NUL
  }

  method StrLen(buf: array<Byte>, base: nat, ghost text: seq<Byte>) returns (n: nat)
    requires StringAt(buf[..], base, text)
    ensures n == |text|
  {
    n := 0;
    while buf[base + n] != NUL
      invariant n <= |text|
      decreases |text| - n
    {
      n := n + 1;
    }
  }

  /** `strrev`, in place. */
  method StrRev(buf: array<Byte>, base: nat, ghost text: seq<Byte>)
    requires StringAt(buf[..], base, text)
    modifies buf
    ensures StringAt(buf[..], base, Reversed(text))
    ensures forall i :: 0 <= i < buf.Length && !(base <= i < base + |text|) ==> buf[i] == old(buf[i])
  {
    var n := StrLen(buf, base, text);
    var beg: int, end: int := 0, n - 1;
    while beg < end
      invariant 0 <= beg && end == n - 1 - beg && beg <= end + 2
      invariant forall i :: base <= i < base + n ==>
        buf[i] == text[if beg <= i - base <= end then i - base else n - 1 - (i - base)]
      invariant forall i :: 0 <= i < buf.Length && !(base <= i < base + n) ==> buf[i] == old(buf[i])
    {
      var tmp := buf[base + end];
      buf[base + end] := buf[base + beg];
      buf[base + beg] := tmp;
      beg := beg + 1;
      end := end - 1;
    }
  }

  /** What is still to be written when `v` is left: nothing for 0. */
  function Upper(v: nat, radix: nat): seq<Byte>
    requires Radix(radix)
  {
    if v == 0 then [] else Numeral(v, radix)
  }

  /** One turn of the digit loop moves a digit from the numeral to the buffer, last one first. */
  lemma OneDigit(v: nat, low: seq<Byte>, radix: nat)
    requires Radix(radix) && v > 0
    ensures Upper(v, radix) + Reversed(low)
         == Upper(v / radix, radix) + Reversed(low + [DigitChar(v % radix)])
    ensures v / radix < v && |Upper(v, radix)| == |Upper(v / radix, radix)| + 1
  {
    hide DigitChar;
    Divide(v, radix);
    var c := DigitChar(v % radix);
    assert Reversed(low + [c]) == [c] + Reversed(low);
    assert Upper(v, radix) == Upper(v / radix, radix) + [c];
  }

  /** The digit loop of `itoa`. */
  method WriteDigits(value: nat, buf: array<Byte>, base: nat, radix: nat) returns (newbuf: nat, ghost low: seq<Byte>)
    requires Radix(radix) && value > 0 && base + |Numeral(value, radix)| < buf.Length
    modifies buf
    ensures Reversed(low) == Numeral(value, radix) && newbuf == base + |low|
    ensures forall i :: base <= i < newbuf ==> buf[i] == low[i - base]
    ensures forall i :: 0 <= i < buf.Length && !(base <= i < newbuf) ==> buf[i] == old(buf[i])
  {
    hide DigitChar, Numeral, Reversed;
    ghost var text := Numeral(value, radix);
    var newval: nat := value;
    newbuf, low := base, [];
    ReversedTwice(low);
    assert text == Upper(newval, radix) + Reversed(low);
    while newval > 0
      invariant newbuf == base + |low| && |low| + |Upper(newval, radix)| == |text|
      invariant forall i :: base <= i < newbuf ==> buf[i] == low[i - base]
      invariant text == Upper(newval, radix) + Reversed(low)
      invariant forall i :: 0 <= i < buf.Length && !(base <= i < newbuf) ==> buf[i] == old(buf[i])
    {
      OneDigit(newval, low, radix);
      buf[newbuf] := DigitChar(newval % radix);
      low := low + [DigitChar(newval % radix)];
      newbuf := newbuf + 1;
      newval := newval / radix;
    }
    assert [] + Reversed(low) == Reversed(low);
  }

  /** `itoa`: the numeral, terminated, and not a byte beyond. */
  method Itoa(value: nat, buf: array<Byte>, base: nat, radix: nat)
    requires Radix(radix) && base + |Numeral(value, radix)| < buf.Length
    modifies buf
    ensures StringAt(buf[..], base, Numeral(value, radix))
    ensures forall i :: 0 <= i < buf.Length && !(base <= i <= base + |Numeral(value, radix)|) ==> buf[i] == old(buf[i])
  {
    hide DigitChar, Numeral, Reversed;
    NumeralIsCanonical(value, radix);
    if value == 0 {
      ZeroNumeral(radix);
      buf[base] := ZERO;
      buf[base + 1] := NUL;
      return;
    }
    var newbuf;
    ghost var low;
    newbuf, low := WriteDigits(value, buf, base, radix);
    buf[newbuf] := NUL;
    ReversedTwice(low);
    StrRev(buf, base, low);
  }

  lemma ZeroNumeral(radix: nat)
    requires Radix(radix)
    ensures Numeral(0, radix) == [ZERO]
  {
  }

  lemma ReversedTwice(s: seq<Byte>)
    ensures Reversed(Reversed(s)) == s && (s == [] ==> Reversed(s) == []) && (NulFree(Reversed(s)) ==> NulFree(s))
  {
    assert forall i :: 0 <= i < |s| ==> s[i] == Reversed(s)[|s| - 1 - i];
  }

  /** `puts`: the bytes it hands to `putc`. */
  method Puts(buf: array<Byte>, base: nat, ghost text: seq<Byte>) returns (out: seq<Byte>)
    requires StringAt(buf[..], base, text)
    ensures out == text
  {
    out := [];
    var index: nat := 0;
    while buf[base + index] != NUL
      invariant index == |out| <= |text| && out == text[..index]
      decreases |text| - index
    {
      out := out + [buf[base + index]];
      index := index + 1;
    }
  }

  function Zeros(n: nat): seq<Byte> {
    seq(n, _ => ZERO)
  }

  /** Zeros in front do not change the value. */
  lemma {:induction false} ZerosInFront(n: nat, s: seq<Byte>, radix: nat)
    requires Radix(radix)
    ensures Value(Zeros(n) + s, radix) == Value(s, radix)
    decreases n, |s|
  {
    hide DigitValue;
    if s != [] {
      var k := |s| - 1;
      var c := s[k];
      ZerosInFront(n, s[..k], radix);
      Append(Zeros(n) + s[..k], c, radix);
      assert Zeros(n) + s == (Zeros(n) + s[..k]) + [c];
    } else if n > 0 {
      ZerosInFront(n - 1, [], radix);
      Append(Zeros(n - 1), ZERO, radix);
      ZeroIsZero();
      assert Zeros(n) + [] == Zeros(n - 1) + [ZERO] && Zeros(n - 1) + [] == Zeros(n - 1);
    }
  }

  lemma ZerosAreDigits(n: nat, s: seq<Byte>, radix: nat)
    requires Radix(radix) && Digits(s, radix)
    ensures Digits(Zeros(n) + s, radix)
  {
  }

  lemma ZeroIsZero()
    ensures DigitValue(ZERO) == 0
  {
  }

  /** Numbers of 32 bits take at most 8 digits in base 16, 10 in base 10 and 32 in any other. */
  lemma WordLengths(value: nat, radix: nat)
    requires value < WORD_SPAN && Radix(radix)
    ensures |Numeral(value, 16)| <= 8 && |Numeral(value, 10)| <= 10 && |Numeral(value, radix)| <= 32
  {
    hide Numeral, Power;
    Powers();
    NumeralLength(value, 16, 8);
    NumeralLength(value, 10, 10);
    NumeralLength(value, radix, 32);
    PowerMonotone(radix, 32);
  }

  lemma Powers()
    ensures Power(16, 8) == WORD_SPAN && Power(10, 10) > WORD_SPAN && Power(2, 32) == WORD_SPAN
  {
    PowerSum(2, 8, 8);
    PowerSum(2, 16, 16);
    PowerSum(10, 5, 5);
    PowerSum(16, 4, 4);
    assert Power(2, 8) == 256 && Power(10, 5) == 100000 && Power(16, 4) == 0x1_0000;
  }

  lemma {:induction false} PowerSum(b: nat, m: nat, n: nat)
    ensures Power(b, m + n) == Power(b, m) * Power(b, n)
  {
    if n > 0 {
      PowerSum(b, m, n - 1);
      assert Power(b, m + n) == Power(b, m) * Power(b, n - 1) * b;
    }
  }

  lemma {:induction false} PowerMonotone(radix: nat, n: nat)
    requires Radix(radix)
    ensures Power(2, n) <= Power(radix, n)
  {
    if n > 0 {
      PowerMonotone(radix, n - 1);
      Monotone(Power(2, n - 1), Power(radix, n - 1), 2);
      Monotone(2, radix, Power(radix, n - 1));
    }
  }

  /** `%x` and `%#x`: with the mark always eight digits, by zeros written in front of the string. */
  method ConvertHex(value: nat, alternate: bool) returns (out: seq<Byte>)
    requires value < WORD_SPAN
    ensures Digits(out, 16) && Value(out, 16) == value
    ensures if alternate then |out| == 8 else Canonical(out, 16)
  {
    hide Numeral, Digits, Value;
    WordLengths(value, 16);
    NumeralIsCanonical(value, 16);
    NumeralDenotes(value, 16);
    ghost var text := Numeral(value, 16);
    var conv := new Byte[64];
    if !alternate {
      Itoa(value, conv, 0, 16);
      out := Puts(conv, 0, text);
    } else {
      Itoa(value, conv, 8, 16);
      var start := StrLen(conv, 8, text);
      var i := start;
      while i < 8
        invariant start <= i <= 8
        invariant forall j :: start <= j < i ==> conv[j] == ZERO
        invariant StringAt(conv[..], 8, text)
      {
        conv[i] := ZERO;
        i := i + 1;
      }
      ZerosInFront(8 - start, text, 16);
      ZerosAreDigits(8 - start, text, 16);
      out := Puts(conv, start, Zeros(8 - start) + text);
    }
  }

  /** `%u`. */
  method ConvertUnsigned(value: nat) returns (out: seq<Byte>)
    requires value < WORD_SPAN
    ensures out == Numeral(value, 10)
  {
    WordLengths(value, 10);
    var conv := new Byte[36];
    Itoa(value, conv, 0, 10);
    out := Puts(conv, 0, Numeral(value, 10));
  }

  /** The number that a decimal text with an optional minus sign denotes. */
  function SignedValue(s: seq<Byte>): int {
    if s != [] && s[0] == MINUS then 0 - Value(s[1..], 10) else Value(s, 10)
  }

  /** `%d`, down to the smallest number, whose negation as a 32-bit word is itself. */
  method ConvertSigned(value: int) returns (out: seq<Byte>)
    requires -0x8000_0000 <= value < 0x8000_0000
    ensures SignedValue(out) == value && 0 < |out| <= 11
    ensures Canonical(if value < 0 then out[1..] else out, 10)
  {
    hide Numeral, Digits, Value;
    var conv := new Byte[36];
    var magnitude := if value < 0 then Unsigned32(-value) else value;
    assert magnitude == if value < 0 then -value else value;
    WordLengths(magnitude, 10);
    NumeralIsCanonical(magnitude, 10);
    NumeralDenotes(magnitude, 10);
    ghost var text := Numeral(magnitude, 10);
    if value < 0 {
      conv[0] := MINUS;
      Itoa(magnitude, conv, 1, 10);
      out := Puts(conv, 0, [MINUS] + text);
      assert out[1..] == text;
    } else {
      Itoa(magnitude, conv, 0, 10);
      out := Puts(conv, 0, text);
      MinusIsNoDigit(text);
    }
  }

  lemma MinusIsNoDigit(s: seq<Byte>)
    requires Digits(s, 10) && s != []
    ensures s[0] != MINUS
  {
  }
}
