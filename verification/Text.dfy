/** Byte strings as the program prints, compares and sorts them. */
module Text {
  import opened Common

  /** The bytes of an ASCII literal. */
  function Ascii(s: string): (r: Bytes)
    ensures |r| == |s|
    ensures forall i :: 0 <= i < |s| && s[i] < 128 as char ==> r[i] == s[i] as int
  {
    seq(|s|, i requires 0 <= i < |s| => s[i] as int % 256)
  }

  lemma AsciiZeroFree(s: string)
    requires forall i :: 0 <= i < |s| ==> 0 as char < s[i] < 128 as char
    ensures 0 !in Ascii(s)
  {
  }

  // ---------- Decimal and hexadecimal ----------

  predicate IsDigit(c: byte) {
    48 <= c <= 57
  }

  predicate AllDigits(s: Bytes) {
    forall c :: c in s ==> IsDigit(c)
  }

  function Decimal(n: nat): (r: Bytes)
    ensures r != [] && AllDigits(r)
  {
    if n < 10 then [48 + n] else Decimal(n / 10) + [48 + n % 10]
  }

  function DecimalValue(s: Bytes): int {
    if s == [] then 0 else
    var k := |s| - 1;
    10 * DecimalValue(s[..k]) + (s[k] as int - 48)
  }

  lemma {:induction false} ValueOfDecimal(n: nat)
    ensures DecimalValue(Decimal(n)) == n
  {
    if n >= 10 {
      ValueOfDecimal(n / 10);
      assert Decimal(n)[..|Decimal(n)| - 1] == Decimal(n / 10);
    }
  }

  function Zeros(n: nat): (r: Bytes)
    ensures |r| == n
  {
    if n == 0 then [] else [48] + Zeros(n - 1)
  }

  /** Go's %020d. */
  function Decimal20(n: nat): Bytes {
    var s := Decimal(n);
    if |s| < 20 then Zeros(20 - |s|) + s else s
  }

  lemma {:induction false} ValueOfZeros(n: nat, s: Bytes)
    ensures DecimalValue(Zeros(n) + s) == DecimalValue(s)
    decreases n + |s|
  {
    var all := Zeros(n) + s;
    if s != [] {
      ValueOfZeros(n, s[..|s| - 1]);
      assert all[..|all| - 1] == Zeros(n) + s[..|s| - 1];
    } else if n > 0 {
      ZerosEnd(n);
      ValueOfZeros(n - 1, []);
      assert all[..n - 1] == Zeros(n - 1) + [];
    }
  }

  lemma {:induction false} ZerosEnd(n: nat)
    requires n > 0
    ensures Zeros(n) == Zeros(n - 1) + [48]
  {
    if n > 1 {
      ZerosEnd(n - 1);
    }
  }

  lemma Decimal20Injective(a: nat, b: nat)
    requires Decimal20(a) == Decimal20(b)
    ensures a == b
  {
    ValueOfDecimal20(a);
    ValueOfDecimal20(b);
  }

  function Pow10(k: nat): nat {
    if k == 0 then 1 else 10 * Pow10(k - 1)
  }

  lemma {:induction false} DecimalLength(n: nat, k: nat)
    requires k > 0 && n < Pow10(k)
    ensures |Decimal(n)| <= k
  {
    if n >= 10 {
      DecimalLength(n / 10, k - 1);
    }
  }

  /** Twenty digits hold every 64-bit number. */
  lemma DecimalFits(n: nat)
    requires n < TWO_64
    ensures |Decimal(n)| <= 20
  {
    assert Pow10(5) == 100_000;
    assert Pow10(10) == 100_000 * Pow10(5);
    assert Pow10(15) == 100_000 * Pow10(10);
    assert Pow10(20) == 100_000 * Pow10(15);
    DecimalLength(n, 20);
  }

  lemma {:induction false} ZerosAreDigits(n: nat)
    ensures AllDigits(Zeros(n))
  {
    if n > 0 {
      ZerosAreDigits(n - 1);
    }
  }

  lemma ValueOfDecimal20(n: nat)
    ensures DecimalValue(Decimal20(n)) == n
  {
    ValueOfDecimal(n);
    var s := Decimal(n);
    if |s| < 20 {
      ValueOfZeros(20 - |s|, s);
    }
  }

  /** A number followed by a byte that is no digit can be read back. */
  lemma DigitsThenMark(a: Bytes, x: Bytes, b: Bytes, y: Bytes, mark: byte)
    requires AllDigits(a) && AllDigits(b) && !IsDigit(mark)
    requires a + [mark] + x == b + [mark] + y
    ensures a == b && x == y
  {
    var s, t := a + [mark] + x, b + [mark] + y;
    assert s[|a|] == mark && t[|b|] == mark;
    assert forall i :: 0 <= i < |a| ==> s[i] == a[i] && a[i] in a;
    assert forall i :: 0 <= i < |b| ==> t[i] == b[i] && b[i] in b;
    assert |a| == |b|;
    assert a == s[..|a|] && b == t[..|b|];
    assert x == s[|a| + 1..] && y == t[|b| + 1..];
  }

  function HexDigit(n: int): byte
    requires 0 <= n < 16
  {
    if n < 10 then 48 + n else 87 + n
  }

  function Hex(b: Bytes): (r: Bytes)
    ensures |r| == 2 * |b|
    ensures forall c :: c in r ==> IsDigit(c) || 97 <= c <= 102
  {
    if b == [] then [] else [HexDigit(b[0] / 16), HexDigit(b[0] % 16)] + Hex(b[1..])
  }

  /** Two digits a byte, the high one first. */
  lemma {:induction false} HexAt(b: Bytes, i: nat)
    requires i < |b|
    ensures Hex(b)[2 * i] == Ascii("0123456789abcdef")[b[i] / 16]
    ensures Hex(b)[2 * i + 1] == Ascii("0123456789abcdef")[b[i] % 16]
  {
    HexDigitSpelled(b[i] / 16);
    HexDigitSpelled(b[i] % 16);
    if i > 0 {
      HexAt(b[1..], i - 1);
    }
  }

  lemma HexDigitSpelled(n: int)
    requires 0 <= n < 16
    ensures HexDigit(n) == Ascii("0123456789abcdef")[n]
  {
  }

  lemma {:induction false} HexInjective(a: Bytes, b: Bytes)
    requires Hex(a) == Hex(b)
    ensures a == b
  {
    assert |a| == |b|;
    if a != [] {
      assert Hex(a)[0] == Hex(b)[0] && Hex(a)[1] == Hex(b)[1];
      assert a[0] == 16 * (a[0] / 16) + a[0] % 16 && b[0] == 16 * (b[0] / 16) + b[0] % 16;
      assert Hex(a)[2..] == Hex(a[1..]) && Hex(b)[2..] == Hex(b[1..]);
      HexInjective(a[1..], b[1..]);
    }
  }

  // ---------- Byte order ----------

  /** bytes.Compare(a, b) < 0, and Go's order on strings. */
  predicate Less(a: Bytes, b: Bytes) {
    b != [] && (a == [] || a[0] < b[0] || (a[0] == b[0] && Less(a[1..], b[1..])))
  }

  lemma {:induction false} LessIrreflexive(a: Bytes)
    ensures !Less(a, a)
  {
    if a != [] {
      LessIrreflexive(a[1..]);
    }
  }

  lemma {:induction false} LessTransitive(a: Bytes, b: Bytes, c: Bytes)
    requires Less(a, b) && Less(b, c)
    ensures Less(a, c)
  {
    if a != [] && a[0] == b[0] == c[0] {
      LessTransitive(a[1..], b[1..], c[1..]);
    }
  }

  lemma {:induction false} LessTotal(a: Bytes, b: Bytes)
    ensures a == b || Less(a, b) || Less(b, a)
  {
    if a != [] && b != [] && a[0] == b[0] {
      LessTotal(a[1..], b[1..]);
      assert a == [a[0]] + a[1..] && b == [b[0]] + b[1..];
    }
  }

  /** Less is the order of bytes.Compare: a proper prefix comes first, else the first difference decides. */
  lemma {:induction false} LessIff(a: Bytes, b: Bytes)
    ensures Less(a, b) <==> a < b || exists i :: 0 <= i < |a| && i < |b| && a[..i] == b[..i] && a[i] < b[i]
  {
    if a != [] && b != [] {
      if a[0] == b[0] {
        LessIff(a[1..], b[1..]);
        PrefixOfTails(a, b);
        forall i {:trigger a[..i]} | 0 <= i < |a| && i < |b| && a[..i] == b[..i] && a[i] < b[i]
          ensures Less(a[1..], b[1..])
        {
          assert i > 0 && a[1..][..i - 1] == a[..i][1..] == b[..i][1..] == b[1..][..i - 1];
          assert a[1..][i - 1] < b[1..][i - 1];
        }
        if i :| 0 <= i < |a[1..]| && i < |b[1..]| && a[1..][..i] == b[1..][..i] && a[1..][i] < b[1..][i] {
          assert a[..i + 1] == [a[0]] + a[1..][..i] == b[..i + 1];
          assert a[i + 1] < b[i + 1];
        }
      } else if a[0] < b[0] {
        assert a[..0] == b[..0];
      } else {
        forall i | 0 <= i < |a| && i < |b| && a[i] < b[i] ensures a[..i] != b[..i] {
          assert i > 0 ==> a[..i][0] != b[..i][0];
        }
      }
    }
  }

  lemma PrefixOfTails(a: Bytes, b: Bytes)
    requires a != [] && b != [] && a[0] == b[0]
    ensures a < b <==> a[1..] < b[1..]
  {
    assert a == [a[0]] + a[1..] && b == [b[0]] + b[1..];
  }

  // ---------- Sorted lists of keys ----------

  predicate Ascending(s: seq<Bytes>) {
    forall i, j :: 0 <= i < j < |s| ==> Less(s[i], s[j])
  }

  ghost predicate Lists(s: seq<Bytes>, keys: set<Bytes>) {
    forall k :: k in s <==> k in keys
  }

  function Insert(k: Bytes, s: seq<Bytes>): seq<Bytes> {
    if s == [] || Less(k, s[0]) then [k] + s else [s[0]] + Insert(k, s[1..])
  }

  lemma {:induction false} InsertSorts(k: Bytes, s: seq<Bytes>)
    requires Ascending(s) && k !in s
    ensures Ascending(Insert(k, s))
    ensures forall x :: x in Insert(k, s) <==> x == k || x in s
  {
    if s != [] && !Less(k, s[0]) {
      LessTotal(k, s[0]);
      InsertSorts(k, s[1..]);
      var tail := Insert(k, s[1..]);
      assert forall j :: 0 <= j < |tail| ==> tail[j] in tail;
      assert forall x :: x in s[1..] ==> Less(s[0], x);
      assert Insert(k, s) == [s[0]] + tail;
      assert forall x :: x in s <==> x == s[0] || x in s[1..];
    } else if s != [] {
      forall j | 0 <= j < |s| ensures Less(k, s[j]) {
        if j > 0 {
          LessTransitive(k, s[0], s[j]);
        }
      }
    }
  }

  /** The one ascending list of a set of keys. */
  ghost function Listing(keys: set<Bytes>): (r: seq<Bytes>)
    ensures Ascending(r) && Lists(r, keys)
    decreases |keys|
  {
    if keys == {} then [] else
    var k :| k in keys;
    InsertSorts(k, Listing(keys - {k}));
    Insert(k, Listing(keys - {k}))
  }

  /** Two ascending lists of the same keys are the same list. */
  lemma {:induction false} ListingUnique(s: seq<Bytes>, t: seq<Bytes>)
    requires Ascending(s) && Ascending(t)
    requires forall k :: k in s <==> k in t
    ensures s == t
  {
    assert t != [] ==> t[0] in t;
    if s != [] {
      assert s[0] in s;
      var j :| 0 <= j < |t| && t[j] == s[0];
      var i :| 0 <= i < |s| && s[i] == t[0];
      if j > 0 && i > 0 {
        LessTransitive(s[0], s[i], s[0]);
      }
      LessIrreflexive(s[0]);
      TailKeys(s);
      TailKeys(t);
      ListingUnique(s[1..], t[1..]);
      assert s == [s[0]] + s[1..] && t == [t[0]] + t[1..];
    }
  }

  lemma TailKeys(s: seq<Bytes>)
    requires s != [] && Ascending(s)
    ensures s[0] !in s[1..] && Ascending(s[1..])
    ensures forall k :: k in s[1..] <==> k in s && k != s[0]
  {
    LessIrreflexive(s[0]);
    forall k | k in s[1..] ensures k != s[0] && k in s {
      var i :| 0 <= i < |s[1..]| && s[1..][i] == k;
      assert Less(s[0], s[i + 1]);
    }
    forall k | k in s && k != s[0] ensures k in s[1..] {
      var i :| 0 <= i < |s| && s[i] == k;
      assert s[1..][i - 1] == k;
    }
  }

  lemma AscendingDistinct(s: seq<Bytes>)
    requires Ascending(s)
    ensures forall i, j :: 0 <= i < j < |s| ==> s[i] != s[j]
  {
    forall i, j | 0 <= i < j < |s| ensures s[i] != s[j] {
      LessIrreflexive(s[i]);
    }
  }
}
