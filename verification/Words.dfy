/** Machine words: the unsigned integers of the guest, their widths, and the
    little-endian byte order in which they are stored. */
module Words {

  type Byte = b: nat | b < 0x100

  type U64 = x: nat | x < 0x1_0000_0000_0000_0000

  /** Operand widths in bytes. */
  type Width = w: nat | w == 1 || w == 2 || w == 4 || w == 8 witness 1

  datatype Option<+T> = None | Some(value: T)

  datatype Result<+T, +E> = Ok(value: T) | Err(error: E) {
    predicate IsFailure() {
      Err?
    }

    function PropagateFailure<U>(): Result<U, E>
      requires Err?
    {
      Err(error)
    }

    function Extract(): T
      requires Ok?
    {
      value
    }
  }

  /** Conversion to uint64: reduction modulo 2^64.  The first case is no
      exception; it spares the verifier a division. */
  function Wrap64(x: int): U64 {
    if 0 <= x < 0x1_0000_0000_0000_0000 then x else x % 0x1_0000_0000_0000_0000
  }

  lemma WrapIs(x: int)
    ensures Wrap64(x) == x % 0x1_0000_0000_0000_0000
  {
  }

  /** Reducing the parts first makes no difference to a sum. */
  lemma WrapSum(x: int, y: int)
    ensures Wrap64(x + Wrap64(y)) == Wrap64(x + y) && Wrap64(Wrap64(y) + x) == Wrap64(x + y)
  {
    hide Wrap64;
    WrapIs(y);
    WrapIs(x + Wrap64(y));
    WrapIs(x + y);
  }

  lemma WrapSums(x: int, y: int)
    ensures Wrap64(Wrap64(x) + Wrap64(y)) == Wrap64(x + y)
  {
    hide Wrap64;
    WrapSum(Wrap64(x), y);
    WrapSum(y, x);
  }

  lemma WrapDiff(x: int, y: int)
    ensures Wrap64(Wrap64(x) - Wrap64(y)) == Wrap64(x - y)
  {
    hide Wrap64;
    WrapIs(y);
    WrapIs(x);
    WrapIs(Wrap64(x) - Wrap64(y));
    WrapIs(x - y);
  }

  /** Number of values of a width: 2^(8*w). */
  function Span(w: Width): nat {
    if w == 1 then 0x100
    else if w == 2 then 0x1_0000
    else if w == 4 then 0x1_0000_0000
    else 0x1_0000_0000_0000_0000
  }

  /** The low `w` bytes of `v`. */
  function Low(v: U64, w: Width): U64 {
    v % Span(w)
  }

  /** Two's complement reading of the low `w` bytes. */
  function Signed(v: U64, w: Width): int {
    var low := Low(v, w);
    if low < Span(w) / 2 then low else low - Span(w)
  }

  /** Does a value fit a signed operand of width w? */
  predicate FitsSigned(v: int, w: Width) {
    -(Span(w) / 2) <= v < Span(w) / 2
  }

  /** The most significant bit of a `w`-byte value. */
  predicate SignSet(v: U64, w: Width) {
    Low(v, w) >= Span(w) / 2
  }

  function SignExtend(v: U64, w: Width): U64 {
    Wrap64(Signed(v, w))
  }

  function LeToNat(b: seq<Byte>): nat {
    if b == [] then 0 else b[0] + 0x100 * LeToNat(b[1..])
  }

  function NatToLe(v: nat, n: nat): (b: seq<Byte>)
    ensures |b| == n
  {
    if n == 0 then [] else [v % 0x100] + NatToLe(v / 0x100, n - 1)
  }

  function Pow256(n: nat): nat
    ensures Pow256(n) > 0
  {
    if n == 0 then 1 else 0x100 * Pow256(n - 1)
  }

  lemma {:induction false} LeBound(b: seq<Byte>)
    ensures LeToNat(b) < Pow256(|b|)
  {
    if b != [] {
      LeBound(b[1..]);
    }
  }

  /** Reading back what was stored gives the value truncated to the bytes stored. */
  lemma {:induction false} LeRoundTrip(v: nat, n: nat)
    ensures LeToNat(NatToLe(v, n)) == v % Pow256(n)
  {
    if n > 0 {
      LeRoundTrip(v / 0x100, n - 1);
      assert NatToLe(v, n)[1..] == NatToLe(v / 0x100, n - 1);
      ModSplit(v, Pow256(n - 1));
    }
  }

  lemma ModSplit(v: nat, p: nat)
    requires p > 0
    ensures v % (0x100 * p) == v % 0x100 + 0x100 * ((v / 0x100) % p)
  {
    var q, r := (v / 0x100) / p, (v / 0x100) % p;
    var k := v % 0x100 + 0x100 * r;
    assert v / 0x100 == p * q + r;
    assert v == (0x100 * p) * q + k;
    assert 0 <= k < 0x100 * p;
    ModUnique(v, 0x100 * p, q, k);
  }

  lemma ModUnique(v: int, m: nat, q: int, k: int)
    requires m > 0 && v == m * q + k && 0 <= k < m
    ensures v % m == k && v / m == q
  {
    var d := v / m - q;
    assert v == m * (v / m) + v % m;
    assert m * d == k - v % m;
    if d >= 1 {
      MulGrows(m, d);
      assert false;
    } else if d <= -1 {
      MulGrows(m, -d);
      assert false;
    }
  }

  lemma MulGrows(m: int, d: int)
    requires m > 0 && d >= 1
    ensures m * d >= m && m * -d == -(m * d)
  {
  }

  lemma Pow256Widths()
    ensures Pow256(0) == 1 && Pow256(1) == 0x100 && Pow256(2) == 0x1_0000 && Pow256(4) == 0x1_0000_0000
    ensures Pow256(8) == 0x1_0000_0000_0000_0000
  {
    assert Pow256(4) == 0x100 * (0x100 * Pow256(2));
    assert Pow256(6) == 0x100 * (0x100 * Pow256(4));
    assert Pow256(8) == 0x100 * (0x100 * Pow256(6));
  }

  /** Bytes read as a number of at most eight bytes fit a uint64. */
  function LeWord(b: seq<Byte>): U64
    requires |b| <= 8
  {
    LeBound(b);
    Pow256Mono(|b|, 8);
    Pow256Widths();
    LeToNat(b)
  }

  lemma Pow256Mono(m: nat, n: nat)
    requires m <= n
    ensures Pow256(m) <= Pow256(n)
    decreases n - m
  {
    if m < n {
      Pow256Mono(m + 1, n);
    }
  }

  /** A word written little-endian is read back. */
  lemma WordBack(v: U64, w: Width)
    requires v < Span(w)
    ensures LeWord(NatToLe(v, w)) == v
  {
    hide NatToLe, LeToNat, Pow256;
    LeRoundTrip(v, w);
    Pow256Widths();
    assert Pow256(w) == Span(w);
    LowSmall(v, w);
  }

  lemma LowSmall(v: U64, w: Width)
    requires v < Span(w)
    ensures v % Span(w) == v && Low(v, w) == v
  {
    ModUnique(v, Span(w), 0, v);
  }
}
