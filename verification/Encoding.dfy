/**
 * The bytes that a hash-chain block feeds to SHA-256 (src/log/hash_chain.rs): previous hash,
 * little-endian index, data, RFC 3339 timestamp and little-endian nonce, with no delimiter
 * between them. The main result is that the encoding is nevertheless injective whenever the
 * previous hash has 64 characters, because the timestamp holds exactly one 'T', at offset 10.
 */
module Encoding {

  type Byte = b: nat | b < 256
  type Bytes = seq<Byte>
  type U64 = n: nat | n < 0x1_0000_0000_0000_0000

  function Pow(base: nat, k: nat): nat {
    if k == 0 then 1 else base * Pow(base, k - 1)
  }

  lemma CancelPrefix(a: Bytes, b: Bytes, c: Bytes, d: Bytes)
    requires a + b == c + d && |a| == |c|
    ensures a == c && b == d
  {
    assert a == (a + b)[..|a|] && c == (c + d)[..|c|];
    assert b == (a + b)[|a|..] && d == (c + d)[|c|..];
  }

  lemma CancelSuffix(a: Bytes, b: Bytes, c: Bytes, d: Bytes)
    requires a + b == c + d && |b| == |d|
    ensures a == c && b == d
  {
    assert |a| == |c|;
    CancelPrefix(a, b, c, d);
  }

  // ----- numbers -----

  function LittleEndian(n: nat, k: nat): (r: Bytes)
    ensures |r| == k
  {
    if k == 0 then [] else [n % 256] + LittleEndian(n / 256, k - 1)
  }

  lemma {:induction false} LittleEndianInjective(a: nat, b: nat, k: nat)
    requires a < Pow(256, k) && b < Pow(256, k) && LittleEndian(a, k) == LittleEndian(b, k)
    ensures a == b
  {
    if k > 0 {
      CancelPrefix([a % 256], LittleEndian(a / 256, k - 1), [b % 256], LittleEndian(b / 256, k - 1));
      assert [a % 256][0] == [b % 256][0];
      LittleEndianInjective(a / 256, b / 256, k - 1);
    }
  }

  /** Zero-padded decimal digits in ASCII. */
  function Decimal(n: nat, k: nat): (r: Bytes)
    ensures |r| == k
    ensures forall i :: 0 <= i < |r| ==> 48 <= r[i] <= 57
  {
    if k == 0 then [] else Decimal(n / 10, k - 1) + [48 + n % 10]
  }

  lemma {:induction false} DecimalInjective(a: nat, b: nat, k: nat)
    requires a < Pow(10, k) && b < Pow(10, k) && Decimal(a, k) == Decimal(b, k)
    ensures a == b
  {
    if k > 0 {
      CancelSuffix(Decimal(a / 10, k - 1), [48 + a % 10], Decimal(b / 10, k - 1), [48 + b % 10]);
      assert [48 + a % 10][0] == [48 + b % 10][0];
      DecimalInjective(a / 10, b / 10, k - 1);
    }
  }

  lemma Powers()
    ensures Pow(10, 2) == 100 && Pow(10, 3) == 1000 && Pow(10, 4) == 10000
    ensures Pow(10, 6) == 1_000_000 && Pow(10, 9) == 1_000_000_000
    ensures Pow(256, 8) == 0x1_0000_0000_0000_0000
  {
    assert Pow(10, 4) == 10 * Pow(10, 3) && Pow(10, 3) == 10 * Pow(10, 2) && Pow(10, 2) == 10 * Pow(10, 1);
    assert Pow(10, 6) == 10 * Pow(10, 5) && Pow(10, 5) == 10 * Pow(10, 4);
    assert Pow(10, 9) == 10 * Pow(10, 8) && Pow(10, 8) == 10 * Pow(10, 7) && Pow(10, 7) == 10 * Pow(10, 6);
    assert Pow(256, 8) == 256 * Pow(256, 7) && Pow(256, 7) == 256 * Pow(256, 6) && Pow(256, 6) == 256 * Pow(256, 5);
    assert Pow(256, 5) == 256 * Pow(256, 4) && Pow(256, 4) == 256 * Pow(256, 3) && Pow(256, 3) == 256 * Pow(256, 2);
    assert Pow(256, 2) == 256 * Pow(256, 1);
  }

  // ----- timestamps -----

  datatype CivilTime = CivilTime(year: nat, month: nat, day: nat, hour: nat, minute: nat, second: nat, nanos: nat)

  /** A UTC instant with a four-digit year; second 60 is a leap second. */
  predicate IsTimestamp(t: CivilTime) {
    && t.year <= 9999 && 1 <= t.month <= 12 && 1 <= t.day <= 31
    && t.hour < 24 && t.minute < 60 && t.second <= 60 && t.nanos < 1_000_000_000
  }

  type Timestamp = t: CivilTime | IsTimestamp(t) witness CivilTime(1970, 1, 1, 0, 0, 0, 0)

  const DASH: Byte := 45
  const COLON: Byte := 58
  const DOT: Byte := 46
  const PLUS: Byte := 43
  const LETTER_T: Byte := 84

  /** As many fractional digits as needed, in threes. */
  function Fraction(nanos: nat): (r: Bytes)
    ensures |r| in {0, 4, 7, 10}
    ensures forall i :: 0 <= i < |r| ==> r[i] <= 58
  {
    if nanos == 0 then []
    else if nanos % 1_000_000 == 0 then [DOT] + Decimal(nanos / 1_000_000, 3)
    else if nanos % 1000 == 0 then [DOT] + Decimal(nanos / 1000, 6)
    else [DOT] + Decimal(nanos, 9)
  }

  function Date(t: Timestamp): (r: Bytes)
    ensures |r| == 10
    ensures forall i :: 0 <= i < |r| ==> r[i] <= 58
  {
    Decimal(t.year, 4) + ([DASH] + (Decimal(t.month, 2) + ([DASH] + Decimal(t.day, 2))))
  }

  function TimeOfDay(t: Timestamp): (r: Bytes)
    ensures |r| == 8
    ensures forall i :: 0 <= i < |r| ==> r[i] <= 58
  {
    Decimal(t.hour, 2) + ([COLON] + (Decimal(t.minute, 2) + ([COLON] + Decimal(t.second, 2))))
  }

  const OFFSET: Bytes := [PLUS, 48, 48, COLON, 48, 48]

  function Rfc3339(t: Timestamp): (r: Bytes)
    ensures 25 <= |r| && r[10] == LETTER_T
    ensures forall i :: 0 <= i < |r| && i != 10 ==> r[i] != LETTER_T
  {
    Date(t) + ([LETTER_T] + (TimeOfDay(t) + (Fraction(t.nanos) + OFFSET)))
  }

  lemma FractionInjective(a: nat, b: nat)
    requires a < 1_000_000_000 && b < 1_000_000_000 && Fraction(a) == Fraction(b)
    ensures a == b
  {
    Powers();
    if a != 0 {
      CancelPrefix([DOT], Fraction(a)[1..], [DOT], Fraction(b)[1..]);
      if |Fraction(a)| == 4 {
        DecimalInjective(a / 1_000_000, b / 1_000_000, 3);
      } else if |Fraction(a)| == 7 {
        DecimalInjective(a / 1000, b / 1000, 6);
      } else {
        DecimalInjective(a, b, 9);
      }
    }
  }

  /** Fields of known lengths around two separators can be read back. */
  lemma SplitFields(sep: Bytes, a: Bytes, b: Bytes, c: Bytes, x: Bytes, y: Bytes, z: Bytes)
    requires |a| == |x| && |b| == |y|
    requires a + (sep + (b + (sep + c))) == x + (sep + (y + (sep + z)))
    ensures a == x && b == y && c == z
  {
    CancelPrefix(a, sep + (b + (sep + c)), x, sep + (y + (sep + z)));
    CancelPrefix(sep, b + (sep + c), sep, y + (sep + z));
    CancelPrefix(b, sep + c, y, sep + z);
    CancelPrefix(sep, c, sep, z);
  }

  lemma Rfc3339Injective(s: Timestamp, t: Timestamp)
    requires Rfc3339(s) == Rfc3339(t)
    ensures s == t
  {
    Powers();
    CancelPrefix(Date(s), [LETTER_T] + (TimeOfDay(s) + (Fraction(s.nanos) + OFFSET)),
                 Date(t), [LETTER_T] + (TimeOfDay(t) + (Fraction(t.nanos) + OFFSET)));
    CancelPrefix([LETTER_T], TimeOfDay(s) + (Fraction(s.nanos) + OFFSET),
                 [LETTER_T], TimeOfDay(t) + (Fraction(t.nanos) + OFFSET));
    CancelPrefix(TimeOfDay(s), Fraction(s.nanos) + OFFSET, TimeOfDay(t), Fraction(t.nanos) + OFFSET);
    CancelSuffix(Fraction(s.nanos), OFFSET, Fraction(t.nanos), OFFSET);
    SplitFields([DASH], Decimal(s.year, 4), Decimal(s.month, 2), Decimal(s.day, 2),
                Decimal(t.year, 4), Decimal(t.month, 2), Decimal(t.day, 2));
    SplitFields([COLON], Decimal(s.hour, 2), Decimal(s.minute, 2), Decimal(s.second, 2),
                Decimal(t.hour, 2), Decimal(t.minute, 2), Decimal(t.second, 2));
    DecimalInjective(s.year, t.year, 4);
    DecimalInjective(s.month, t.month, 2);
    DecimalInjective(s.day, t.day, 2);
    DecimalInjective(s.hour, t.hour, 2);
    DecimalInjective(s.minute, t.minute, 2);
    DecimalInjective(s.second, t.second, 2);
    FractionInjective(s.nanos, t.nanos);
  }

  // ----- data followed by a timestamp -----

  /** The last 'T' shows where the data ends, whatever the data contains. */
  lemma DataLengthIsDetermined(d: Bytes, s: Timestamp, e: Bytes, t: Timestamp)
    requires d + Rfc3339(s) == e + Rfc3339(t)
    ensures |d| >= |e|
  {
    assert (e + Rfc3339(t))[|e| + 10] == LETTER_T;
  }

  /** What a block's hash covers. */
  datatype Fields = Fields(previousHash: Bytes, index: U64, data: Bytes, timestamp: Timestamp, nonce: U64)

  function Preimage(f: Fields): Bytes {
    f.previousHash + (LittleEndian(f.index, 8) + ((f.data + Rfc3339(f.timestamp)) + LittleEndian(f.nonce, 8)))
  }

  /** No two blocks whose previous hashes have the same length share a preimage. */
  lemma PreimageInjective(f: Fields, g: Fields)
    requires |f.previousHash| == |g.previousHash| && Preimage(f) == Preimage(g)
    ensures f == g
  {
    Powers();
    var x, y := f.data + Rfc3339(f.timestamp), g.data + Rfc3339(g.timestamp);
    var i, j, m, n := LittleEndian(f.index, 8), LittleEndian(g.index, 8), LittleEndian(f.nonce, 8), LittleEndian(g.nonce, 8);
    CancelPrefix(f.previousHash, i + (x + m), g.previousHash, j + (y + n));
    CancelPrefix(i, x + m, j, y + n);
    CancelSuffix(x, m, y, n);
    DataLengthIsDetermined(f.data, f.timestamp, g.data, g.timestamp);
    DataLengthIsDetermined(g.data, g.timestamp, f.data, f.timestamp);
    CancelPrefix(f.data, Rfc3339(f.timestamp), g.data, Rfc3339(g.timestamp));
    Rfc3339Injective(f.timestamp, g.timestamp);
    LittleEndianInjective(f.index, g.index, 8);
    LittleEndianInjective(f.nonce, g.nonce, 8);
  }
}
