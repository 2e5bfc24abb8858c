/** Bytes, machine integers, results and hash collisions shared by every component. */
module Common {
  type byte = x: int | 0 <= x < 256
  type Bytes = seq<byte>

  const TWO_32: int := 0x1_0000_0000
  const TWO_63: int := 0x8000_0000_0000_0000
  const TWO_64: int := 0x1_0000_0000_0000_0000

  type uint32 = x: int | 0 <= x < TWO_32
  type uint64 = x: int | 0 <= x < TWO_64
  type int64 = x: int | -TWO_63 <= x < TWO_63

  /** The 64-bit pattern of an integer, as an unsigned value: what Go's + - * and uint64(x) keep. */
  function Wrap64(x: int): uint64 {
    x % TWO_64
  }

  /** The 64-bit pattern of an integer, as a signed value: what Go's int64(x) keeps. */
  function Wrap64Signed(x: int): int64 {
    var u := x % TWO_64;
    if u < TWO_63 then u else u - TWO_64
  }

  lemma WrapTwice(x: int, y: int)
    ensures Wrap64(Wrap64(x) + y) == Wrap64(x + y)
  {
    var q := x / TWO_64;
    assert x + y == q * TWO_64 + (x % TWO_64 + y);
  }

  lemma WholeWraps(x: int, k: int)
    ensures Wrap64(x + k * TWO_64) == Wrap64(x)
  {
  }

  lemma WrapOfUint64(x: int)
    requires 0 <= x < TWO_64
    ensures Wrap64(x) == x
  {
  }

  function Min(a: int, b: int): int {
    if a < b then a else b
  }

  datatype Option<+T> = None | Some(value: T)

  datatype Result<+T, +E> = Ok(value: T) | Err(error: E)

  // ---------- Digests and hashing ----------

  type Digest = d: Bytes | |d| == 32 witness seq(32, _ => 0)

  const ZERO_DIGEST: Digest :=
    [0, 0, 0, 0, 0, 0, 0, 0, 0, 0, 0, 0, 0, 0, 0, 0,
     0, 0, 0, 0, 0, 0, 0, 0, 0, 0, 0, 0, 0, 0, 0, 0]

  /** A hash function is an arbitrary parameter: nothing is assumed about it. */
  type Hasher = Bytes -> Digest

  /**
   * Two distinct inputs with the same hash, one taken from each of two given finite sets.
   * Some collision always exists (there are more inputs than digests), so a result that falls
   * back on a collision has to say among which inputs it is found.
   */
  ghost predicate Collision(H: Hasher, a: set<Bytes>, b: set<Bytes>) {
    exists x, y {:trigger Collide(H, x, y)} :: x in a && y in b && Collide(H, x, y)
  }

  predicate Collide(H: Hasher, x: Bytes, y: Bytes) {
    x != y && H(x) == H(y)
  }

  lemma CollisionIn(H: Hasher, x: Bytes, y: Bytes, a: set<Bytes>, b: set<Bytes>)
    requires x in a && y in b && x != y && H(x) == H(y)
    ensures Collision(H, a, b)
  {
    assert Collide(H, x, y);
  }

  lemma CollisionGrows(H: Hasher, a: set<Bytes>, b: set<Bytes>, a': set<Bytes>, b': set<Bytes>)
    requires Collision(H, a, b) && a <= a' && b <= b'
    ensures Collision(H, a', b')
  {
    var x, y :| x in a && y in b && Collide(H, x, y);
    CollisionIn(H, x, y, a', b');
  }
}
