/**
 * Reading back what a hash-chain block feeds to SHA-256: byte order, digits, the fixed columns of
 * the RFC 3339 text, and the data between fields that carry no lengths.
 */
module EncodingRoundTrip {
  import opened Encoding

  // ----- numbers -----

  /** The first byte is the least significant. */
  function LittleValue(bytes: Bytes): nat {
    if bytes == [] then 0 else bytes[0] + 256 * LittleValue(bytes[1..])
  }

  lemma {:induction false} LittleEndianDecodes(n: nat, k: nat)
    requires n < Pow(256, k)
    ensures LittleValue(LittleEndian(n, k)) == n
  {
    if k > 0 {
      LittleEndianDecodes(n / 256, k - 1);
      assert LittleEndian(n, k)[1..] == LittleEndian(n / 256, k - 1);
    }
  }

  /** ASCII digits, the last of which is the least significant. */
  function Number(digits: Bytes): int {
    if digits == [] then 0 else 10 * Number(digits[..|digits| - 1]) + digits[|digits| - 1] - 48
  }

  lemma {:induction false} DecimalDecodes(n: nat, k: nat)
    requires n < Pow(10, k)
    ensures Number(Decimal(n, k)) == n
  {
    if k > 0 {
      DecimalDecodes(n / 10, k - 1);
      assert Decimal(n, k)[..k - 1] == Decimal(n / 10, k - 1);
    }
  }

  // ----- timestamps -----

  /** Fractional digits after a dot, as nanoseconds. */
  function ReadFraction(f: Bytes): int
    requires |f| <= 10
  {
    if f == [] then 0 else Number(f[1..]) * Pow(10, 10 - |f|)
  }

  lemma FractionDecodes(nanos: nat)
    requires nanos < 1_000_000_000
    ensures ReadFraction(Fraction(nanos)) == nanos
    ensures Fraction(nanos) != [] ==> Fraction(nanos)[0] == DOT
  {
    Powers();
    var f := Fraction(nanos);
    if |f| == 4 {
      assert f[1..] == Decimal(nanos / 1_000_000, 3);
      DecimalDecodes(nanos / 1_000_000, 3);
    } else if |f| == 7 {
      assert f[1..] == Decimal(nanos / 1000, 6);
      DecimalDecodes(nanos / 1000, 6);
    } else if |f| == 10 {
      assert f[1..] == Decimal(nanos, 9);
      DecimalDecodes(nanos, 9);
    }
  }

  /** Two separators around fields of known lengths. */
  lemma Columns(a: Bytes, b: Bytes, c: Bytes, sep: Byte)
    ensures
      var text, m, n := a + ([sep] + (b + ([sep] + c))), |a| + 1, |a| + 1 + |b| + 1;
      && |text| == n + |c| && text[..|a|] == a && text[m..m + |b|] == b && text[n..] == c
      && text[|a|] == sep && text[n - 1] == sep
  {
  }

  lemma DateDecodes(t: Timestamp)
    ensures
      var d := Date(t);
      Number(d[..4]) == t.year && Number(d[5..7]) == t.month && Number(d[8..]) == t.day && d[4] == d[7] == DASH
  {
    Powers();
    Columns(Decimal(t.year, 4), Decimal(t.month, 2), Decimal(t.day, 2), DASH);
    DecimalDecodes(t.year, 4);
    DecimalDecodes(t.month, 2);
    DecimalDecodes(t.day, 2);
  }

  lemma TimeOfDayDecodes(t: Timestamp)
    ensures
      var d := TimeOfDay(t);
      Number(d[..2]) == t.hour && Number(d[3..5]) == t.minute && Number(d[6..]) == t.second && d[2] == d[5] == COLON
  {
    Powers();
    Columns(Decimal(t.hour, 2), Decimal(t.minute, 2), Decimal(t.second, 2), COLON);
    DecimalDecodes(t.hour, 2);
    DecimalDecodes(t.minute, 2);
    DecimalDecodes(t.second, 2);
  }

  /** The columns YYYY-MM-DDThh:mm:ss, the fraction, and six characters of offset. */
  predicate Reads(text: Bytes, t: CivilTime)
    requires 25 <= |text| <= 35
  {
    && Number(text[..4]) == t.year && Number(text[5..7]) == t.month && Number(text[8..10]) == t.day
    && Number(text[11..13]) == t.hour && Number(text[14..16]) == t.minute && Number(text[17..19]) == t.second
    && ReadFraction(text[19..|text| - 6]) == t.nanos
    && text[4] == text[7] == DASH && text[10] == LETTER_T && text[13] == text[16] == COLON
    && (|text| > 25 ==> text[19] == DOT) && text[|text| - 6..] == OFFSET
  }

  lemma Parts(t: Timestamp)
    ensures
      var text, f := Rfc3339(t), Fraction(t.nanos);
      && |text| == 25 + |f| && text[..10] == Date(t) && text[10] == LETTER_T
      && text[11..19] == TimeOfDay(t) && text[19..|text| - 6] == f && text[|text| - 6..] == OFFSET
  {
    var rest := TimeOfDay(t) + (Fraction(t.nanos) + OFFSET);
    assert Rfc3339(t)[11..] == rest;
    assert rest[..8] == TimeOfDay(t) && rest[8..] == Fraction(t.nanos) + OFFSET;
  }

  lemma SliceOfSlice(text: Bytes, lo: nat, hi: nat, i: nat, j: nat)
    requires lo <= hi <= |text| && i <= j <= hi - lo
    ensures text[lo..hi][i..j] == text[lo + i..lo + j]
  {
    forall k | 0 <= k < j - i ensures text[lo..hi][i..j][k] == text[lo + i..lo + j][k] {
    }
  }

  /** The text of a timestamp shows each of its fields, to the nanosecond, in its own column. */
  lemma Rfc3339Decodes(t: Timestamp)
    ensures |Rfc3339(t)| <= 35 && Reads(Rfc3339(t), t)
  {
    var text := Rfc3339(t);
    Parts(t);
    DateDecodes(t);
    TimeOfDayDecodes(t);
    FractionDecodes(t.nanos);
    SliceOfSlice(text, 0, 10, 0, 4);
    SliceOfSlice(text, 0, 10, 5, 7);
    SliceOfSlice(text, 0, 10, 8, 10);
    SliceOfSlice(text, 11, 19, 0, 2);
    SliceOfSlice(text, 11, 19, 3, 5);
    SliceOfSlice(text, 11, 19, 6, 8);
    assert text[4] == Date(t)[4] && text[7] == Date(t)[7];
    assert text[13] == TimeOfDay(t)[2] && text[16] == TimeOfDay(t)[5];
    if |text| > 25 {
      assert text[19] == Fraction(t.nanos)[0];
    }
  }

  // ----- blocks -----

  /** The place of the last 'T', or -1. */
  function LastT(bytes: Bytes): (p: int)
    ensures -1 <= p < |bytes|
  {
    if bytes == [] then -1
    else if bytes[|bytes| - 1] == LETTER_T then |bytes| - 1
    else LastT(bytes[..|bytes| - 1])
  }

  lemma {:induction false} LastTIsLast(bytes: Bytes, p: nat)
    requires p < |bytes| && bytes[p] == LETTER_T
    requires forall i :: p < i < |bytes| ==> bytes[i] != LETTER_T
    ensures LastT(bytes) == p
  {
    if p < |bytes| - 1 {
      LastTIsLast(bytes[..|bytes| - 1], p);
    }
  }

  /** How a reader who knows the length of the previous hash takes a preimage apart: eight bytes of
      index, data up to ten characters before the last 'T', the timestamp, eight bytes of nonce. */
  ghost predicate Decodes(bytes: Bytes, hashLength: nat, f: Fields) {
    var start, end := hashLength + 8, |bytes| - 8;
    && start <= end
    && bytes[..hashLength] == f.previousHash && LittleValue(bytes[hashLength..start]) == f.index
    && LittleValue(bytes[end..]) == f.nonce
    && var body := bytes[start..end];
       var cut := LastT(body) - 10;
       && 0 <= cut && body[..cut] == f.data && 25 <= |body| - cut <= 35 && Reads(body[cut..], f.timestamp)
  }

  lemma BodyDecodes(data: Bytes, t: Timestamp)
    ensures
      var body := data + Rfc3339(t);
      LastT(body) == |data| + 10 && body[..|data|] == data && body[|data|..] == Rfc3339(t)
  {
    var body := data + Rfc3339(t);
    assert body[|data| + 10] == Rfc3339(t)[10];
    forall i | |data| + 10 < i < |body| ensures body[i] != LETTER_T {
      assert body[i] == Rfc3339(t)[i - |data|];
    }
    LastTIsLast(body, |data| + 10);
  }

  lemma PreimageParts(f: Fields)
    ensures
      var bytes, n := Preimage(f), |f.previousHash|;
      && |bytes| == n + 8 + |f.data| + |Rfc3339(f.timestamp)| + 8
      && bytes[..n] == f.previousHash && bytes[n..n + 8] == LittleEndian(f.index, 8)
      && bytes[n + 8..|bytes| - 8] == f.data + Rfc3339(f.timestamp) && bytes[|bytes| - 8..] == LittleEndian(f.nonce, 8)
  {
    var rest := (f.data + Rfc3339(f.timestamp)) + LittleEndian(f.nonce, 8);
    assert Preimage(f)[|f.previousHash| + 8..] == rest;
  }

  /** Every field of every block, the data included whatever it contains, can be read back from the
      bytes that are hashed. */
  lemma PreimageDecodes(f: Fields)
    ensures Decodes(Preimage(f), |f.previousHash|, f)
  {
    Powers();
    PreimageParts(f);
    BodyDecodes(f.data, f.timestamp);
    LittleEndianDecodes(f.index, 8);
    LittleEndianDecodes(f.nonce, 8);
    Rfc3339Decodes(f.timestamp);
  }
}
