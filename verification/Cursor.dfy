/** internal/rpc/r2p_cursor.go: the list cursor, "ts|id" in unpadded base64url, and its older plain-number form. */
module Cursor {
  import opened Common
  import opened Text

  // ---------- Unpadded base64url (RFC 4648, sections 3.2 and 5) ----------

  type sextet = x: int | 0 <= x < 64

  function Letter(v: sextet): byte {
    if v < 26 then 65 + v else if v < 52 then 71 + v else if v < 62 then v - 4 else if v == 62 then 45 else 95
  }

  function LetterValue(c: byte): Option<sextet> {
    if 65 <= c <= 90 then Some(c - 65)
    else if 97 <= c <= 122 then Some(c - 71)
    else if IsDigit(c) then Some(c + 4)
    else if c == 45 then Some(62)
    else if c == 95 then Some(63)
    else None
  }

  lemma LetterRoundTrip(v: sextet)
    ensures LetterValue(Letter(v)) == Some(v) && Letter(v) != 10 && Letter(v) != 13
  {
  }

  function High6(x: byte): sextet {
    x / 4
  }

  function Low2High4(x: byte, y: byte): sextet {
    x % 4 * 16 + y / 16
  }

  function Low4High2(y: byte, z: byte): sextet {
    y % 16 * 4 + z / 64
  }

  function Low6(z: byte): sextet {
    z % 64
  }

  /** Three bytes as four sextets; a last one or two bytes as two or three. */
  function Sextets(b: Bytes): (r: seq<sextet>)
  {
    if b == [] then []
    else if |b| == 1 then [High6(b[0]), Low2High4(b[0], 0)]
    else if |b| == 2 then [High6(b[0]), Low2High4(b[0], b[1]), Low4High2(b[1], 0)]
    else [High6(b[0]), Low2High4(b[0], b[1]), Low4High2(b[1], b[2]), Low6(b[2])] + Sextets(b[3..])
  }

  function FirstByte(a: sextet, b: sextet): byte {
    a * 4 + b / 16
  }

  function SecondByte(a: sextet, b: sextet): byte {
    a % 16 * 16 + b / 4
  }

  function ThirdByte(a: sextet, b: sextet): byte {
    a % 4 * 64 + b
  }

  /** Bits left over at the end are ignored; a lone last sextet is an error. */
  function FromSextets(v: seq<sextet>): Option<Bytes> {
    if v == [] then Some([])
    else if |v| == 1 then None
    else if |v| == 2 then Some([FirstByte(v[0], v[1])])
    else if |v| == 3 then Some([FirstByte(v[0], v[1]), SecondByte(v[1], v[2])])
    else
      match FromSextets(v[4..])
      case None => None
      case Some(rest) => Some([FirstByte(v[0], v[1]), SecondByte(v[1], v[2]), ThirdByte(v[2], v[3])] + rest)
  }

  lemma ThreeBytes(x: byte, y: byte, z: byte)
    ensures FirstByte(High6(x), Low2High4(x, y)) == x
    ensures SecondByte(Low2High4(x, y), Low4High2(y, z)) == y
    ensures ThirdByte(Low4High2(y, z), Low6(z)) == z
  {
  }

  lemma {:induction false} SextetsRoundTrip(b: Bytes)
    ensures FromSextets(Sextets(b)) == Some(b)
  {
    hide FirstByte, SecondByte, ThirdByte, High6, Low2High4, Low4High2, Low6;
    if |b| == 1 {
      ThreeBytes(b[0], 0, 0);
      assert b == [b[0]];
    } else if |b| == 2 {
      ThreeBytes(b[0], b[1], 0);
      assert b == [b[0], b[1]];
    } else if |b| > 2 {
      SextetsRoundTrip(b[3..]);
      ThreeBytes(b[0], b[1], b[2]);
      assert Sextets(b)[4..] == Sextets(b[3..]);
      assert b == [b[0], b[1], b[2]] + b[3..];
    }
  }

  function Letters(v: seq<sextet>): (r: Bytes)
    ensures |r| == |v|
  {
    if v == [] then [] else [Letter(v[0])] + Letters(v[1..])
  }

  /** Line breaks are skipped, any other byte outside the alphabet is an error. */
  function Values(s: Bytes): Option<seq<sextet>> {
    if s == [] then Some([])
    else if s[0] == 10 || s[0] == 13 then Values(s[1..])
    else
      match (LetterValue(s[0]), Values(s[1..]))
      case (Some(v), Some(rest)) => Some([v] + rest)
      case _ => None
  }

  lemma ValuesCons(c: byte, x: sextet, s: Bytes, v: seq<sextet>)
    requires c != 10 && c != 13 && LetterValue(c) == Some(x) && Values(s) == Some(v)
    ensures Values([c] + s) == Some([x] + v)
  {
    hide LetterValue;
    assert ([c] + s)[1..] == s;
  }

  lemma {:induction false} ValuesOfLetters(v: seq<sextet>)
    ensures Values(Letters(v)) == Some(v)
  {
    if v != [] {
      LetterRoundTrip(v[0]);
      ValuesOfLetters(v[1..]);
      ValuesCons(Letter(v[0]), v[0], Letters(v[1..]), v[1..]);
      hide Letter, LetterValue, Values;
      assert v == [v[0]] + v[1..];
    }
  }

  function EncodeToString(b: Bytes): Bytes {
    Letters(Sextets(b))
  }

  function DecodeString(s: Bytes): Option<Bytes> {
    match Values(s)
    case None => None
    case Some(v) => FromSextets(v)
  }

  lemma Base64RoundTrip(b: Bytes)
    ensures DecodeString(EncodeToString(b)) == Some(b)
  {
    SextetsRoundTrip(b);
    ValuesOfLetters(Sextets(b));
  }

  /** The alphabet of RFC 4648, section 5. */
  predicate Spells(c: byte, v: sextet) {
    if v < 26 then c == Ascii("ABCDEFGHIJKLMNOPQRSTUVWXYZ")[v]
    else if v < 52 then c == Ascii("abcdefghijklmnopqrstuvwxyz")[v - 26]
    else if v < 62 then c == Ascii("0123456789")[v - 52]
    else if v == 62 then c == Ascii("-")[0]
    else c == Ascii("_")[0]
  }

  /** A byte has a value exactly when the alphabet has it. */
  lemma LetterValueIff(c: byte, v: sextet)
    ensures LetterValue(c) == Some(v) <==> Spells(c, v)
  {
    if Spells(c, v) {
      LetterSpelled(v);
      LetterRoundTrip(v);
      SpelledOnce(c, Letter(v), v);
    } else if LetterValue(c) == Some(v) {
      LetterSpelled(v);
    }
  }

  lemma SpelledOnce(c: byte, d: byte, v: sextet)
    requires Spells(c, v) && Spells(d, v)
    ensures c == d
  {
  }

  /** Line breaks anywhere in the text change nothing. */
  lemma {:induction false} LineBreaksSkipped(p: Bytes, s: Bytes)
    ensures Values(p + [10] + s) == Values(p + s) && DecodeString(p + [10] + s) == DecodeString(p + s)
    ensures Values(p + [13] + s) == Values(p + s) && DecodeString(p + [13] + s) == DecodeString(p + s)
  {
    hide LetterValue, FromSextets;
    if p == [] {
      assert p + s == s && (p + [10] + s)[1..] == s && (p + [13] + s)[1..] == s;
    } else {
      LineBreaksSkipped(p[1..], s);
      assert (p + s)[1..] == p[1..] + s;
      assert (p + [10] + s)[1..] == p[1..] + [10] + s && (p + [13] + s)[1..] == p[1..] + [13] + s;
    }
  }

  /** What encoding gives, letter by letter: the sextets of the bytes. */
  lemma {:induction false} EncodedLetters(b: Bytes, i: nat)
    requires i < |Sextets(b)|
    ensures |EncodeToString(b)| == |Sextets(b)| && Spells(EncodeToString(b)[i], Sextets(b)[i])
  {
    hide Sextets, Letters, Letter, Spells;
    LettersAt(Sextets(b), i);
    LetterSpelled(Sextets(b)[i]);
  }

  lemma {:induction false} LettersAt(v: seq<sextet>, i: nat)
    requires i < |v|
    ensures Letters(v)[i] == Letter(v[i])
  {
    if i > 0 {
      LettersAt(v[1..], i - 1);
    }
  }

  lemma LetterSpelled(v: sextet)
    ensures Spells(Letter(v), v)
  {
    if v < 26 {
      UpperSpelled(v);
    } else if v < 52 {
      LowerSpelled(v - 26);
    } else if v < 62 {
      FigureSpelled(v - 52);
    }
  }

  lemma UpperSpelled(i: nat)
    requires i < 26
    ensures Ascii("ABCDEFGHIJKLMNOPQRSTUVWXYZ")[i] == 65 + i
  {
  }

  lemma LowerSpelled(i: nat)
    requires i < 26
    ensures Ascii("abcdefghijklmnopqrstuvwxyz")[i] == 97 + i
  {
  }

  lemma FigureSpelled(i: nat)
    requires i < 10
    ensures Ascii("0123456789")[i] == 48 + i
  {
  }

  /** Three bytes are four sextets of the same 24 bits; one or two last bytes are padded with zero bits. */
  lemma {:induction false} SextetsSpelled(x: byte, y: byte, z: byte, rest: Bytes)
    ensures Sextets([]) == [] && Sextets([x, y, z] + rest) == Sextets([x, y, z]) + Sextets(rest)
    ensures |Sextets([x, y, z])| == 4 && BitsOf(Sextets([x, y, z])) == Bytes24(x, y, z)
    ensures |Sextets([x, y])| == 3 && BitsOf(Sextets([x, y])) == Bytes24(x, y, 0)
    ensures |Sextets([x])| == 2 && BitsOf(Sextets([x])) == Bytes24(x, 0, 0)
  {
    hide High6, Low2High4, Low4High2, Low6, Bits, Bytes24, Sextets;
    BitsOfThree(x, y, z);
    BitsOfThree(x, 0, 0);
    BitsOfThree(x, y, 0);
    SextetsUnfold(x, y, z, rest);
    SextetsUnfold(x, y, z, []);
    assert [x, y, z] + [] == [x, y, z];
  }

  lemma {:induction false} SextetsUnfold(x: byte, y: byte, z: byte, rest: Bytes)
    ensures Sextets([x, y, z] + rest) == [High6(x), Low2High4(x, y), Low4High2(y, z), Low6(z)] + Sextets(rest)
    ensures Sextets([]) == [] && Sextets([x]) == [High6(x), Low2High4(x, 0)]
    ensures Sextets([x, y]) == [High6(x), Low2High4(x, y), Low4High2(y, 0)]
  {
    hide High6, Low2High4, Low4High2, Low6;
    assert ([x, y, z] + rest)[3..] == rest;
  }

  /** The number two to four sextets spell, as 24 bits. */
  function BitsOf(s: seq<sextet>): int {
    if |s| == 4 then Bits(s[0], s[1], s[2], s[3])
    else if |s| == 3 then Bits(s[0], s[1], s[2], 0)
    else if |s| == 2 then Bits(s[0], s[1], 0, 0)
    else 0
  }

  function Bytes24(x: byte, y: byte, z: byte): int {
    65536 * (x as int) + 256 * (y as int) + z
  }

  /** The number four sextets spell. */
  function Bits(a: sextet, b: sextet, c: sextet, d: sextet): int {
    262144 * (a as int) + 4096 * (b as int) + 64 * (c as int) + d
  }

  lemma {:induction false} BitsOfThree(x: byte, y: byte, z: byte)
    ensures Bits(High6(x), Low2High4(x, y), Low4High2(y, z), Low6(z)) == Bytes24(x, y, z)
    ensures Low6(0) == 0 && Low4High2(0, 0) == 0
  {
  }

  // ---------- Signed decimal numbers ----------

  const MINUS: byte := 45
  const PLUS: byte := 43
  const BAR: byte := 124

  /** Go's %d of an int64. */
  function FormatInt(n: int): (r: Bytes)
    ensures r != []
  {
    if n < 0 then [MINUS] + Decimal(-n) else Decimal(n)
  }

  predicate IsSigned(s: Bytes) {
    s != [] && (s[0] == MINUS || s[0] == PLUS)
  }

  function Magnitude(s: Bytes): Bytes {
    if IsSigned(s) then s[1..] else s
  }

  /** Go's strconv.ParseInt(s, 10, 64). */
  function ParseInt(s: Bytes): Option<int64> {
    var digits := Magnitude(s);
    if digits == [] || !AllDigits(digits) then None else
    var value := if s[0] == MINUS then -DecimalValue(digits) else DecimalValue(digits);
    if -TWO_63 <= value < TWO_63 then Some(value) else None
  }

  lemma ParseFormatted(n: int64)
    ensures ParseInt(FormatInt(n)) == Some(n)
  {
    hide Decimal, DecimalValue;
    var d := Decimal(if n < 0 then -(n as int) else n);
    ValueOfDecimal(if n < 0 then -(n as int) else n);
    if n < 0 {
      assert Magnitude([MINUS] + d) == d;
    } else {
      assert d[0] in d;
    }
  }

  /** What reads as a number: digits, a sign before them or not, within 64 bits. */
  lemma ParseSpelled(d: Bytes)
    requires d != [] && AllDigits(d)
    ensures ParseInt(d) == if DecimalValue(d) < TWO_63 then Some(DecimalValue(d)) else None
    ensures ParseInt(Ascii("+") + d) == ParseInt(d)
    ensures ParseInt(Ascii("-") + d) == if DecimalValue(d) <= TWO_63 then Some(-DecimalValue(d)) else None
  {
    hide DecimalValue;
    assert d[0] in d;
    assert Ascii("+") == [PLUS] && Ascii("-") == [MINUS];
    assert Magnitude([PLUS] + d) == d && Magnitude([MINUS] + d) == d;
    DecimalValueNonnegative(d);
  }

  lemma {:induction false} DecimalValueNonnegative(d: Bytes)
    requires AllDigits(d)
    ensures DecimalValue(d) >= 0
  {
    if d != [] {
      var k := |d| - 1;
      assert d[k] in d;
      DecimalValueNonnegative(d[..k]);
    }
  }

  /** Nothing else reads as one. */
  lemma NumberIsSpelled(s: Bytes)
    requires ParseInt(s).Some?
    ensures exists d :: d != [] && AllDigits(d) && (s == d || s == Ascii("+") + d || s == Ascii("-") + d)
  {
    hide DecimalValue, AllDigits;
    var d := Magnitude(s);
    assert Ascii("+") == [PLUS] && Ascii("-") == [MINUS];
    assert s == d || s == [s[0]] + d;
  }

  // ---------- The cursor ----------

  function BeforeBar(s: Bytes): Bytes {
    if s == [] || s[0] == BAR then [] else [s[0]] + BeforeBar(s[1..])
  }

  lemma {:induction false} BeforeFirstBar(p: Bytes, rest: Bytes)
    requires BAR !in p
    ensures BeforeBar(p + [BAR] + rest) == p
  {
    var s := p + [BAR] + rest;
    if p != [] {
      assert s[0] == p[0] && p[0] in p;
      assert s[1..] == p[1..] + [BAR] + rest;
      BeforeFirstBar(p[1..], rest);
    }
  }

  datatype Decoded = Decoded(ts: int64, id: Bytes, ok: bool)

  function EncodeCursor(ts: int64, id: Bytes): Bytes {
    EncodeToString(FormatInt(ts) + [BAR] + id)
  }

  /** strings.SplitN(raw, "|", 2) and a number before the bar. */
  function Split(raw: Bytes): Option<(int64, Bytes)> {
    if BAR !in raw then None else
    var first := BeforeBar(raw);
    match ParseInt(first)
    case None => None
    case Some(t) => if |first| < |raw| then Some((t, raw[|first| + 1..])) else None
  }

  function DecodeCursor(s: Bytes): Decoded {
    if s == [] then Decoded(0, [], true) else
    var decoded := DecodeString(s);
    if decoded.Some? && Split(decoded.value).Some?
        then Decoded(Split(decoded.value).value.0, Split(decoded.value).value.1, true)
    else
      match ParseInt(s)
      case Some(t) => Decoded(t, [], true)
      case None => Decoded(0, [], false)
  }

  lemma NoBarInNumber(ts: int64)
    ensures BAR !in FormatInt(ts)
  {
    var d := Decimal(if ts < 0 then -(ts as int) else ts);
    assert AllDigits(d);
  }

  lemma SplitJoined(ts: int64, id: Bytes)
    ensures Split(FormatInt(ts) + [BAR] + id) == Some((ts, id))
  {
    var p := FormatInt(ts);
    var raw := p + [BAR] + id;
    assert raw[|p|] == BAR;
    NoBarInNumber(ts);
    BeforeFirstBar(p, id);
    ParseFormatted(ts);
    assert raw[|p| + 1..] == id;
  }

  /** Decoding undoes encoding for every timestamp and every id, bars in the id included. */
  lemma CursorRoundTrip(ts: int64, id: Bytes)
    ensures EncodeCursor(ts, id) != [] && DecodeCursor(EncodeCursor(ts, id)) == Decoded(ts, id, true)
  {
    hide Split, ParseInt, FormatInt, DecodeString, EncodeToString;
    var raw := FormatInt(ts) + [BAR] + id;
    Base64RoundTrip(raw);
    SplitJoined(ts, id);
    EncodedNotEmpty(raw);
  }

  lemma EncodedNotEmpty(raw: Bytes)
    requires raw != []
    ensures EncodeToString(raw) != []
  {
  }

  lemma {:induction false} ValuesOfDigits(s: Bytes)
    requires AllDigits(s)
    ensures Values(s).Some? && |Values(s).value| == |s|
    ensures forall i :: 0 <= i < |s| ==> Values(s).value[i] == s[i] as int + 4
  {
    if s != [] {
      assert s[0] in s;
      ValuesOfDigits(s[1..]);
      var v := Values(s[1..]).value;
      assert Values(s).value == [s[0] as int + 4] + v;
    }
  }

  /** Read as base64url, a number starts with a byte that starts no number. */
  lemma NumberAsBase64(s: Bytes)
    requires ParseInt(s).Some? && DecodeString(s).Some?
    ensures DecodeString(s).value != [] && DecodeString(s).value[0] >= 0xD3
  {
    var digits := Magnitude(s);
    ValuesOfDigits(digits);
    if IsSigned(s) {
      assert s[0] == MINUS;
      assert digits[0] in digits;
      assert Values(s).value == [62] + Values(digits).value;
    } else {
      assert s[0] in s;
      assert |s| > 1 ==> s[1] in s;
    }
  }

  lemma HighByteStartsNoNumber(raw: Bytes)
    requires raw != [] && raw[0] >= 0xD3
    ensures Split(raw).None?
  {
    var first := BeforeBar(raw);
    assert first[0] == raw[0];
    assert first[0] in first;
  }

  /** Every number a cursor of the older form can be, signed or not, still decodes as that number. */
  lemma LegacyCursorDecodes(s: Bytes)
    requires ParseInt(s).Some?
    ensures DecodeCursor(s) == Decoded(ParseInt(s).value, [], true)
  {
    hide ParseInt, Split, DecodeString;
    if DecodeString(s).Some? {
      NumberAsBase64(s);
      HighByteStartsNoNumber(DecodeString(s).value);
    }
    NumbersNotEmpty(s);
  }

  lemma NumbersNotEmpty(s: Bytes)
    requires ParseInt(s).Some?
    ensures s != []
  {
  }

  /** The two forms never overlap: no encoded cursor reads as a number. */
  lemma EncodedIsNoNumber(ts: int64, id: Bytes)
    ensures ParseInt(EncodeCursor(ts, id)).None?
  {
    hide ParseInt, Split, DecodeString, EncodeToString;
    var raw := FormatInt(ts) + [BAR] + id;
    Base64RoundTrip(raw);
    SplitJoined(ts, id);
    if ParseInt(EncodeCursor(ts, id)).Some? {
      NumberAsBase64(EncodeCursor(ts, id));
      HighByteStartsNoNumber(raw);
    }
  }

  /** A cursor is accepted when it is empty, when it decodes to a number before a bar, or when it is a number itself. */
  lemma {:induction false} AcceptedIff(s: Bytes)
    ensures DecodeCursor([]) == Decoded(0, [], true)
    ensures DecodeCursor(s).ok
            <==> s == [] || (DecodeString(s).Some? && Split(DecodeString(s).value).Some?) || ParseInt(s).Some?
    ensures !DecodeCursor(s).ok ==> DecodeCursor(s) == Decoded(0, [], false)
  {
    hide ParseInt, Split, DecodeString;
  }

  /** One cursor, byte by byte: a negative time and a two-letter id. */
  lemma CursorExample()
    ensures EncodeCursor(-120, Ascii("ab")) == Ascii("LTEyMHxhYg")
  {
    hide FormatInt, Sextets, Letters;
    ExampleText();
    ExampleSextets();
    ExampleLetters();
  }

  lemma ExampleText()
    ensures FormatInt(-120) + [BAR] + Ascii("ab") == [45, 49, 50, 48, 124, 97, 98]
  {
    assert Decimal(12) == [49, 50];
    assert Decimal(120) == [49, 50, 48];
  }

  lemma ExampleSextets()
    ensures Sextets([45, 49, 50, 48, 124, 97, 98]) == [11, 19, 4, 50, 12, 7, 49, 33, 24, 32]
  {
    hide Sextets, High6, Low2High4, Low4High2, Low6;
    SextetsUnfold(45, 49, 50, [48, 124, 97, 98]);
    SextetsUnfold(48, 124, 97, [98]);
    SextetsUnfold(98, 0, 0, []);
    ExampleBits();
    assert [45, 49, 50] + [48, 124, 97, 98] == [45, 49, 50, 48, 124, 97, 98];
    assert [48, 124, 97] + [98] == [48, 124, 97, 98];
  }

  lemma ExampleBits()
    ensures High6(45) == 11 && Low2High4(45, 49) == 19 && Low4High2(49, 50) == 4 && Low6(50) == 50
    ensures High6(48) == 12 && Low2High4(48, 124) == 7 && Low4High2(124, 97) == 49 && Low6(97) == 33
    ensures High6(98) == 24 && Low2High4(98, 0) == 32
  {
  }

  lemma {:induction false} ExampleLetters()
    ensures Letters([11, 19, 4, 50, 12, 7, 49, 33, 24, 32]) == Ascii("LTEyMHxhYg")
  {
    hide Letters;
    var v: seq<sextet> := [11, 19, 4, 50, 12, 7, 49, 33, 24, 32];
    forall k | 0 <= k < 10 ensures Letters(v)[k] == Letter(v[k]) {
      LettersAt(v, k);
    }
  }
}
