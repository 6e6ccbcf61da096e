/** Bytes, C strings and the small facts about sequences and remainders that other modules use. */
module Bytes {

  newtype Byte = b: int | 0 <= b < 256

  const NUL: Byte := 0
  const NEWLINE: Byte := 10
  const RETURN: Byte := 13
  const SPACE: Byte := 32
  const DOT: Byte := 46
  const WORD_SPAN := 0x1_0000_0000

  function Min(a: int, b: int): int {
    if a <= b then a else b
  }

  function Max(a: int, b: int): int {
    if a >= b then a else b
  }

  /** A value as a C `uint32_t`. */
  function Unsigned32(x: int): nat {
    x % WORD_SPAN
  }

  /** The bytes of a string literal. */
  function Ascii(s: string): seq<Byte> {
    seq(|s|, i requires 0 <= i < |s| => (s[i] as int % 256) as Byte)
  }

  /** Byte `i` of a C string whose storage is `s`; past the storage there is the terminator. */
  function CharAt(s: seq<Byte>, i: nat): Byte {
    if i < |s| then s[i] else NUL
  }

  /** The C string held in the first `n` bytes of `s`: everything before the first NUL. */
  function CString(s: seq<Byte>, n: nat): (r: seq<Byte>)
    ensures |r| <= n && |r| <= |s|
    ensures r == s[..|r|] && NUL !in r
    ensures |r| < n && |r| < |s| ==> s[|r|] == NUL
  {
    if n == 0 || s == [] || s[0] == NUL then [] else [s[0]] + CString(s[1..], n - 1)
  }

  /** A prefix that has no NUL and is followed by one (or by the end) is the C string. */
  lemma {:induction false} CStringUnique(s: seq<Byte>, n: nat, k: nat)
    requires k <= n && k <= |s| && NUL !in s[..k]
    requires k == n || k == |s| || s[k] == NUL
    ensures CString(s, n) == s[..k]
  {
    if k > 0 {
      assert s[0] == s[..k][0];
      assert s[1..][..k - 1] == s[..k][1..];
      CStringUnique(s[1..], n - 1, k - 1);
      assert s[..k] == [s[0]] + s[1..][..k - 1];
    }
  }

  lemma ConcatAssociates<T>(a: seq<T>, b: seq<T>, c: seq<T>)
    ensures (a + b) + c == a + (b + c)
  {
  }

  lemma SliceOfSlice<T>(s: seq<T>, i: nat, j: nat, a: nat, b: nat)
    requires i <= j <= |s| && a <= b <= j - i
    ensures s[i..j][a..b] == s[i + a..i + b]
  {
    var l, r := s[i..j][a..b], s[i + a..i + b];
    assert |l| == |r|;
    forall k | 0 <= k < |l| ensures l[k] == r[k] {
      assert l[k] == s[i..j][a + k] == s[i + (a + k)];
    }
  }

  /** A C string reaches at least to where no NUL has come yet. */
  lemma {:induction false} CStringReaches(s: seq<Byte>, n: nat, i: nat)
    requires i < n && i <= |s| && NUL !in s[..i]
    ensures i <= |CString(s, n)| && CharAt(CString(s, n), i) == CharAt(s, i)
  {
    if i > 0 {
      assert s[0] == s[..i][0] && s[1..][..i - 1] == s[..i][1..];
      CStringReaches(s[1..], n - 1, i - 1);
    }
  }

  /** The remainder of the next number. */
  lemma ModStep(n: nat, p: nat)
    requires p > 0
    ensures (n + 1) % p == if n % p + 1 == p then 0 else n % p + 1
  {
    var q := n / p;
    assert n == p * q + n % p;
    if n % p + 1 == p {
      assert n + 1 == p * (q + 1);
      MultipleHasNoRest(q + 1, p);
    } else {
      RestIsUnique(n + 1, q, p, n % p + 1);
    }
  }

  lemma MultipleHasNoRest(q: nat, p: nat)
    requires p > 0
    ensures (p * q) % p == 0
  {
    RestIsUnique(p * q, q, p, 0);
  }

  lemma RestIsUnique(n: nat, q: nat, p: nat, r: nat)
    requires p > 0 && r < p && n == p * q + r
    ensures n % p == r
  {
    var d := n / p - q;
    assert n == p * (n / p) + n % p;
    assert p * d == p * (n / p) - p * q == r - n % p;
    ProductIsFar(p, d);
  }

  lemma ProductIsFar(p: int, d: int)
    requires p > 0
    ensures d >= 1 ==> p * d >= p
    ensures d <= -1 ==> p * d <= -p
  {
  }

  lemma {:induction false} SubsetIsSmaller<T>(a: set<T>, b: set<T>)
    requires a <= b
    ensures |a| <= |b|
    decreases a
  {
    if x :| x in a { SubsetIsSmaller(a - {x}, b - {x}); }
  }
}
