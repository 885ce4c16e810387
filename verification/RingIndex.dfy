/** Index arithmetic of the ring: the bit tricks of `atomicqueue` related to plain arithmetic,
    and the argument checks of `New`. Machine words are 64 bits wide. */
module RingIndex {

  /** One more than the largest value of a `uint64`. */
  const WORD: nat := 0x1_0000_0000_0000_0000

  const F_BLOCKFULL: nat := 1
  const F_DROPFULL: nat := 2
  const DEFAULT_BUFFER_SIZE: nat := 256

  /** Bitwise and, bit by bit. */
  function BitAnd(a: nat, b: nat): nat {
    if a == 0 || b == 0 then 0
    else 2 * BitAnd(a / 2, b / 2) + (if a % 2 == 1 && b % 2 == 1 then 1 else 0)
  }

  function Pow2(k: nat): (p: nat)
    ensures p >= 1
  {
    if k == 0 then 1 else 2 * Pow2(k - 1)
  }

  ghost predicate IsPow2(n: nat) {
    exists k: nat :: n == Pow2(k)
  }

  lemma {:induction false} BitAndSelf(n: nat)
    ensures BitAnd(n, n) == n
  {
    if n > 0 {
      BitAndSelf(n / 2);
    }
  }

  /** Masking with one less than a power of two is the remainder. */
  lemma {:induction false} MaskIsRemainder(x: nat, k: nat)
    ensures BitAnd(x, Pow2(k) - 1) == x % Pow2(k)
  {
    if k > 0 && x > 0 {
      MaskIsRemainder(x / 2, k - 1);
      var p := Pow2(k - 1);
      assert (2 * p - 1) / 2 == p - 1;
      HalfRemainder(x, p);
    } else if k > 0 {
      assert 0 % Pow2(k) == 0;
    }
  }

  lemma HalfRemainder(x: nat, p: nat)
    requires p > 0
    ensures x % (2 * p) == 2 * ((x / 2) % p) + x % 2
  {
    var q, r := (x / 2) / p, (x / 2) % p;
    assert x / 2 == q * p + r;
    assert x == (2 * p) * q + (2 * r + x % 2) by {
      assert x == 2 * (x / 2) + x % 2;
      assert 2 * (q * p) == (2 * p) * q;
    }
    RemainderUnique(x, 2 * p, q, 2 * r + x % 2);
  }

  lemma RemainderUnique(x: int, m: nat, q: int, r: nat)
    requires m > 0 && r < m && x == m * q + r
    ensures x % m == r && x / m == q
  {
    var e := x / m - q;
    assert m * (x / m) + x % m == x;
    assert m * e == r - x % m by {
      assert m * e == m * (x / m) - m * q;
    }
  }

  /** The test `size & (size-1) != 0` of `New` rejects exactly the sizes that are not powers of two. */
  lemma {:induction false} PowerOfTwoTest(n: nat)
    requires n > 0
    ensures BitAnd(n, n - 1) == 0 <==> IsPow2(n)
  {
    if n == 1 {
      assert n == Pow2(0);
    } else if n % 2 == 1 {
      BitAndSelf(n / 2);
      assert (n - 1) / 2 == n / 2;
      forall k: nat ensures n != Pow2(k) {
      }
    } else {
      PowerOfTwoTest(n / 2);
      assert (n - 1) / 2 == n / 2 - 1;
      if IsPow2(n / 2) {
        var k: nat :| n / 2 == Pow2(k);
        assert n == Pow2(k + 1);
      }
      if IsPow2(n) {
        var k: nat :| n == Pow2(k);
        assert n / 2 == Pow2(k - 1);
      }
    }
  }

  /** A power of two below the word size divides it, so wrapping a counter keeps its slot. */
  lemma {:induction false} Pow2Splits(k: nat, m: nat)
    ensures Pow2(k + m) == Pow2(k) * Pow2(m)
  {
    if k > 0 {
      Pow2Splits(k - 1, m);
      assert 2 * (Pow2(k - 1) * Pow2(m)) == (2 * Pow2(k - 1)) * Pow2(m);
    }
  }

  lemma WordIsPow2()
    ensures Pow2(64) == WORD
  {
    assert Pow2(8) == 256;
    Pow2Splits(8, 8);
    assert Pow2(16) == 0x1_0000;
    Pow2Splits(16, 16);
    assert Pow2(32) == 0x1_0000_0000;
    Pow2Splits(32, 32);
  }

  /** A ring size, an `int` in the source, is well below a word. */
  lemma RingSizeFits(k: nat)
    requires k <= 62
    ensures Pow2(k) < WORD
  {
    Pow2Grows(k, 64);
    WordIsPow2();
  }

  lemma {:induction false} Pow2Grows(k: nat, m: nat)
    requires k < m
    ensures Pow2(k) < Pow2(m)
  {
    if k + 1 < m {
      Pow2Grows(k, m - 1);
    }
  }

  lemma NestedRemainder(x: nat, m: nat, c: nat)
    requires m > 0 && c > 0
    ensures m * c > 0
    ensures (x % (m * c)) % m == x % m
  {
    assert m * c > 0;
    var q, r := x / (m * c), x % (m * c);
    var q2, r2 := r / m, r % m;
    assert x == m * c * q + r && r == m * q2 + r2;
    assert m * c * q == m * (c * q);
    assert x == m * (c * q + q2) + r2;
    RemainderUnique(x, m, c * q + q2, r2);
  }

  /** The slot `mask` computes from a wrapped 64-bit counter is the one the unbounded counter names. */
  lemma MaskOfWrapped(x: nat, k: nat)
    requires k <= 64
    ensures BitAnd(x % WORD, Pow2(k) - 1) == x % Pow2(k)
  {
    MaskIsRemainder(x % WORD, k);
    WordIsPow2();
    Pow2Splits(k, 64 - k);
    NestedRemainder(x, Pow2(k), Pow2(64 - k));
  }

  lemma WrappedRemainder(x: nat, k: nat)
    requires k <= 64
    ensures (x % WORD) % Pow2(k) == x % Pow2(k)
  {
    MaskIsRemainder(x % WORD, k);
    MaskOfWrapped(x, k);
  }

  lemma SumOfWrapped(a: nat, b: nat)
    ensures (a % WORD + b) % WORD == (a + b) % WORD
  {
  }

  lemma WrappedSum(a: nat, b: nat, k: nat)
    requires k <= 64
    ensures (a % WORD + b) % Pow2(k) == (a + b) % Pow2(k)
  {
    SumOfWrapped(a, b);
    WrappedRemainder(a % WORD + b, k);
    WrappedRemainder(a + b, k);
  }

  /** Two counters less than a word apart are equal when their wrapped values are. */
  lemma WrapInjective(a: nat, b: nat)
    requires a <= b < a + WORD
    ensures a % WORD == b % WORD <==> a == b
    ensures (b % WORD - a % WORD) % WORD == b - a
  {
    var qa, ra, qb, rb := a / WORD, a % WORD, b / WORD, b % WORD;
    assert b - a == WORD * (qb - qa) + (rb - ra);
    RemainderUnique(rb - ra, WORD, -(qb - qa), b - a);
  }

  /** Two counters closer than the ring size never share a slot. */
  lemma SlotsDistinct(a: nat, b: nat, size: nat)
    requires size > 0 && a < b < a + size
    ensures a % size != b % size
  {
    if a % size == b % size {
      var qa, qb := a / size, b / size;
      assert b == size * qb + b % size && a == size * qa + a % size;
      RemainderUnique(b - a, size, qb - qa, 0);
      RemainderUnique(b - a, size, 0, b - a);
    }
  }

  datatype Policy = BlockFull | DropFull

  datatype NewError = NegativeSize | SizeNotPowerOfTwo | BadFlags

  datatype NewResult = Created(size: nat, channelSize: nat, policy: Policy) | Refused(error: NewError)

  /** `cmp&f == f`; a negative word is its two's complement. */
  predicate HasFlag(cmp: int, f: nat) {
    BitAnd(cmp % WORD, f) == f
  }

  /** The argument checks of `New`, in the order the constructor makes them. */
  function New(size: int, channelSize: int, flags: int): (r: NewResult)
    ensures r.Created? ==> IsPow2(r.size) && r.channelSize >= 1
    ensures r.Created? <==>
            && size >= 0 && channelSize >= 0
            && (size == 0 || IsPow2(size))
            && (HasFlag(flags, F_BLOCKFULL) <==> !HasFlag(flags, F_DROPFULL))
    ensures r.Created? ==> (r.policy.BlockFull? <==> HasFlag(flags, F_BLOCKFULL))
    ensures r.Created? && size != 0 ==> r.size == size
    ensures r.Created? ==> r.channelSize == if channelSize != 0 then channelSize else r.size
    ensures r.Refused? ==> (r.error.NegativeSize? <==> size < 0 || channelSize < 0)
    ensures r.Refused? && size >= 0 && channelSize >= 0 ==> (r.error.SizeNotPowerOfTwo? <==> size != 0 && !IsPow2(size))
  {
    if size < 0 || channelSize < 0 then
      Refused(NegativeSize)
    else
      var sz := if size == 0 then DEFAULT_BUFFER_SIZE else size;
      assert IsPow2(DEFAULT_BUFFER_SIZE) by { assert Pow2(8) == 256; }
      PowerOfTwoTest(sz);
      if BitAnd(sz, sz - 1) != 0 then
        Refused(SizeNotPowerOfTwo)
      else if HasFlag(flags, F_BLOCKFULL) == HasFlag(flags, F_DROPFULL) then
        Refused(BadFlags)
      else
        Created(sz, if channelSize == 0 then sz else channelSize,
                if HasFlag(flags, F_BLOCKFULL) then BlockFull else DropFull)
  }
}
