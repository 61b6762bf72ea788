/**
 * PairEncoder (knight, bridges and hypertunnels programs) and encode_pair
 * (Manhattan grid): a pair of small integers packed as first * key + second.
 * Division and remainder are the C++ ones, which truncate toward zero.
 */
module PairEncoding {

  /** C++ `a / b`: the quotient rounded toward zero. */
  function TruncDiv(a: int, b: int): (q: int)
    requires b != 0
    ensures a >= 0 && b > 0 ==> q == a / b
    ensures (a >= 0) == (b > 0) || a == 0 ==> q >= 0
  {
    var m := (if a < 0 then -a else a) / (if b < 0 then -b else b);
    if (a < 0) != (b < 0) then -m else m
  }

  /** C++ `a % b`: takes the sign of a, so that a == TruncDiv(a, b) * b + TruncRem(a, b). */
  function TruncRem(a: int, b: int): (r: int)
    requires b != 0
    ensures a >= 0 && b > 0 ==> r == a % b
  {
    a - TruncDiv(a, b) * b
  }

  /** A PairEncoder: the multiplier key and whether (a, b) and (b, a) get different codes. */
  datatype PairEncoder = PairEncoder(key: int, ordered: bool)

  /** encode(first, second): an unordered encoder sorts the pair first. */
  function Encode(e: PairEncoder, first: int, second: int): (code: int)
  {
    if !e.ordered && first > second then second * e.key + first else first * e.key + second
  }

  /** decode(code): (0, 0) for a zero key, else the C++ quotient and remainder by the key. */
  function Decode(e: PairEncoder, code: int): (p: (int, int))
    ensures e.key == 0 ==> p == (0, 0)
    ensures e.key != 0 ==> code == p.0 * e.key + p.1
  {
    if e.key == 0 then (0, 0) else (TruncDiv(code, e.key), TruncRem(code, e.key))
  }

  lemma {:induction false} MulAtLeast(t: int, k: int)
    requires t >= 1 && k > 0
    ensures t * k >= k
    decreases t
  {
    if t > 1 {
      MulAtLeast(t - 1, k);
      assert t * k == (t - 1) * k + k;
    }
  }

  /** Multiplying by a non-negative factor keeps the order. */
  lemma MulMono(a: int, b: int, k: int)
    requires a <= b && k >= 0
    ensures a * k <= b * k
  {
    assert b * k - a * k == (b - a) * k;
  }

  /** The code of (q, r) with 0 <= q < rows and 0 <= r < key lies in [0, rows * key). */
  lemma CodeInRange(rows: int, key: int, q: int, r: int)
    requires 0 <= q < rows && 0 <= r < key
    ensures 0 <= q * key + r < rows * key
  {
    MulMono(0, q, key);
    MulMono(q + 1, rows, key);
  }

  /** A code in [0, rows * key) has its quotient in [0, rows). */
  lemma QuotientInRange(rows: int, key: int, c: int)
    requires key > 0 && 0 <= c < rows * key
    ensures 0 <= c / key < rows && 0 <= c % key < key && c == (c / key) * key + c % key
  {
    if c / key >= rows {
      MulMono(rows, c / key, key);
    }
  }

  /** With a positive key, q * key + r with 0 <= r < key determines q and r. */
  lemma DivModUnique(key: int, q: int, r: int)
    requires key > 0 && 0 <= r < key
    ensures (q * key + r) / key == q && (q * key + r) % key == r
  {
    var c := q * key + r;
    var q', r' := c / key, c % key;
    assert c == q' * key + r' && 0 <= r' < key;
    assert (q - q') * key == r' - r;
    if q > q' {
      MulAtLeast(q - q', key);
    } else if q < q' {
      MulAtLeast(q' - q, key);
    }
  }

  /** An ordered encoder round-trips a pair with 0 <= first and 0 <= second < key. */
  lemma DecodeEncodeOrdered(e: PairEncoder, first: int, second: int)
    requires e.ordered && e.key > 0 && first >= 0 && 0 <= second < e.key
    ensures Decode(e, Encode(e, first, second)) == (first, second)
  {
    var c := Encode(e, first, second);
    assert c == first * e.key + second;
    MulMono(0, first, e.key);
    DivModUnique(e.key, first, second);
    assert TruncDiv(c, e.key) == first;
    assert TruncRem(c, e.key) == second;
  }

  /** An unordered encoder returns the sorted pair for two values in [0, key). */
  lemma DecodeEncodeUnordered(e: PairEncoder, a: int, b: int)
    requires !e.ordered && e.key > 0 && 0 <= a < e.key && 0 <= b < e.key
    ensures Decode(e, Encode(e, a, b)) == (if a <= b then (a, b) else (b, a))
  {
    var lo, hi := if a <= b then a else b, if a <= b then b else a;
    var c := Encode(e, a, b);
    assert c == lo * e.key + hi;
    MulMono(0, lo, e.key);
    DivModUnique(e.key, lo, hi);
    assert TruncDiv(c, e.key) == lo;
    assert TruncRem(c, e.key) == hi;
  }

  /** An unordered encoder gives both orientations of a pair the same code. */
  lemma EncodeSymmetric(e: PairEncoder, a: int, b: int)
    requires !e.ordered
    ensures Encode(e, a, b) == Encode(e, b, a)
  {
  }

  /** Distinct pairs with second components in [0, key) get distinct codes under an ordered encoder. */
  lemma EncodeInjective(e: PairEncoder, a: int, b: int, a': int, b': int)
    requires e.ordered && e.key > 0 && a >= 0 && a' >= 0 && 0 <= b < e.key && 0 <= b' < e.key
    requires Encode(e, a, b) == Encode(e, a', b')
    ensures a == a' && b == b'
  {
    DecodeEncodeOrdered(e, a, b);
    DecodeEncodeOrdered(e, a', b');
  }

  /** Under an unordered encoder, pairs in [0, key) share a code exactly when they are the same pair in some orientation. */
  lemma EncodeUnorderedInjective(e: PairEncoder, a: int, b: int, a': int, b': int)
    requires !e.ordered && e.key > 0 && 0 <= a < e.key && 0 <= b < e.key && 0 <= a' < e.key && 0 <= b' < e.key
    ensures Encode(e, a, b) == Encode(e, a', b') <==> (a == a' && b == b') || (a == b' && b == a')
  {
    DecodeEncodeUnordered(e, a, b);
    DecodeEncodeUnordered(e, a', b');
  }

  /** encode_pair(first, second, key) of the Manhattan grid: the row-major cell index. */
  function EncodePair(first: int, second: int, key: int): int {
    first * key + second
  }

  /** The cells of an n x m grid are numbered one-to-one onto [0, n * m). */
  lemma {:induction false} EncodePairBijective(n: int, m: int)
    requires n >= 0 && m > 0
    ensures forall i, j :: 0 <= i < n && 0 <= j < m ==> 0 <= EncodePair(i, j, m) < n * m
    ensures forall i, j, i', j' ::
      (0 <= i < n && 0 <= j < m && 0 <= i' < n && 0 <= j' < m && EncodePair(i, j, m) == EncodePair(i', j', m))
      ==> (i == i' && j == j')
    ensures forall c :: 0 <= c < n * m ==> 0 <= c / m < n && EncodePair(c / m, c % m, m) == c
  {
    forall i, j | 0 <= i < n && 0 <= j < m ensures 0 <= EncodePair(i, j, m) < n * m {
      assert i * m <= (n - 1) * m;
    }
    forall i, j, i', j' | 0 <= i < n && 0 <= j < m && 0 <= i' < n && 0 <= j' < m &&
      EncodePair(i, j, m) == EncodePair(i', j', m)
      ensures i == i' && j == j'
    {
      EncodeInjective(PairEncoder(m, true), i, j, i', j');
    }
    forall c | 0 <= c < n * m ensures 0 <= c / m < n && EncodePair(c / m, c % m, m) == c {
    }
  }
}
