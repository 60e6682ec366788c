/** The Base58btc encoder behind `computeIpfsCidV0`, proved against a decoder. */
module Base58 {

  type byte = x: int | 0 <= x < 256

  const ALPHABET: string := "123456789" + "ABCDEFGH" + "JKLMN" + "PQRSTUVWXYZ" + "abcdefghijk" + "mnopqrstuvwxyz"

  // ---------- Numbers ----------

  /** Big-endian value of a byte string. */
  function FromBytes(bs: seq<byte>): nat {
    if bs == [] then 0 else FromBytes(bs[..|bs| - 1]) * 256 + bs[|bs| - 1]
  }

  function LeadingZeros(bs: seq<byte>): (z: nat)
    ensures z <= |bs|
    ensures forall i :: 0 <= i < z ==> bs[i] == 0
    ensures z < |bs| ==> bs[z] != 0
  {
    if bs == [] || bs[0] != 0 then 0 else 1 + LeadingZeros(bs[1..])
  }

  function Pow(b: nat, e: nat): nat {
    if e == 0 then 1 else b * Pow(b, e - 1)
  }

  // ---------- The decoder ----------

  /** The digit a Base58 character stands for; characters outside the alphabet count as zero. */
  function CharValue(c: char): (d: nat)
    ensures d < 58
  {
    if '1' <= c <= '9' then (c - '1') as int
    else if 'A' <= c <= 'H' then 9 + (c - 'A') as int
    else if 'J' <= c <= 'N' then 17 + (c - 'J') as int
    else if 'P' <= c <= 'Z' then 22 + (c - 'P') as int
    else if 'a' <= c <= 'k' then 33 + (c - 'a') as int
    else if 'm' <= c <= 'z' then 44 + (c - 'm') as int
    else 0
  }

  /** The number a Base58 text denotes. */
  function Value(text: string): nat {
    if text == [] then 0 else Value(text[..|text| - 1]) * 58 + CharValue(text[|text| - 1])
  }

  function LeadingOnes(text: string): nat {
    if text == [] || text[0] != '1' then 0 else 1 + LeadingOnes(text[1..])
  }

  // ---------- The encoder ----------

  /** The Base58 character of a digit, by the ranges of the alphabet. */
  function DigitChar(d: nat): char
    requires d < 58
  {
    if d < 9 then '1' + d as char
    else if d < 17 then 'A' + (d - 9) as char
    else if d < 22 then 'J' + (d - 17) as char
    else if d < 33 then 'P' + (d - 22) as char
    else if d < 44 then 'a' + (d - 33) as char
    else 'm' + (d - 44) as char
  }

  /** The alphabet text lists exactly these characters. */
  lemma AlphabetIsOrdered(d: nat)
    requires d < 58
    ensures ALPHABET[d] == DigitChar(d)
  {
    if d < 33 { FirstHalf(d); } else { SecondHalf(d); }
  }

  lemma FirstHalf(d: nat)
    requires d < 33
    ensures ALPHABET[d] == DigitChar(d)
  {
    var digits, aToH, jToN, pToZ := "123456789", "ABCDEFGH", "JKLMN", "PQRSTUVWXYZ";
    if d < 9 { assert ALPHABET[d] == digits[d]; }
    else if d < 17 { assert ALPHABET[d] == aToH[d - 9]; }
    else if d < 22 { assert ALPHABET[d] == jToN[d - 17]; }
    else { assert ALPHABET[d] == pToZ[d - 22]; }
  }

  lemma SecondHalf(d: nat)
    requires 33 <= d < 58
    ensures ALPHABET[d] == DigitChar(d)
  {
    var aToK, mToZ := "abcdefghijk", "mnopqrstuvwxyz";
    if d < 44 { assert ALPHABET[d] == aToK[d - 33]; } else { assert ALPHABET[d] == mToZ[d - 44]; }
  }

  method Character(d: nat) returns (c: char)
    requires d < 58
    ensures c == DigitChar(d)
  {
    AlphabetIsOrdered(d);
    c := ALPHABET[d];
  }

  /** Base-58 numeral without leading zeros, as characters; empty for zero. */
  function Numeral(n: nat): string {
    if n == 0 then "" else Numeral(n / 58) + [DigitChar(n % 58)]
  }

  function Ones(k: nat): (s: string)
    ensures |s| == k && forall i :: 0 <= i < k ==> s[i] == '1'
  {
    seq(k, _ => '1')
  }

  function Encoding(bs: seq<byte>): string {
    Ones(LeadingZeros(bs)) + Numeral(FromBytes(bs))
  }

  /** Divide by 58 until nothing is left. */
  method EncodeNumber(number: nat) returns (encoded: string)
    ensures encoded == Numeral(number)
  {
    var num := number;
    encoded := "";
    while num > 0
      invariant Numeral(num) + encoded == Numeral(number)
    {
      PeelDigit(num, encoded);
      var c := Character(num % 58);
      encoded := [c] + encoded;
      num := num / 58;
    }
  }

  /** The number of the bytes, then one '1' in front for each leading zero byte. */
  method Encode(bs: seq<byte>) returns (encoded: string)
    ensures encoded == Encoding(bs)
  {
    encoded := EncodeNumber(FromBytes(bs));
    ghost var numeral := encoded;
    var i := 0;
    while i < |bs| && bs[i] == 0
      invariant 0 <= i <= LeadingZeros(bs)
      invariant encoded == Ones(i) + numeral
    {
      encoded := ['1'] + encoded;
      assert ['1'] + Ones(i) == Ones(i + 1);
      i := i + 1;
    }
  }

  lemma PeelDigit(n: nat, rest: string)
    requires n > 0
    ensures Numeral(n) + rest == Numeral(n / 58) + ([DigitChar(n % 58)] + rest)
  {
  }

  // ---------- Round trip ----------

  /** The decoder reads every alphabet character back, and only '1' as zero. */
  lemma AlphabetDecodes(d: nat)
    requires d < 58
    ensures CharValue(ALPHABET[d]) == d
    ensures ALPHABET[d] == '1' <==> d == 0
  {
    AlphabetIsOrdered(d);
    DigitDecodes(d);
  }

  lemma DigitDecodes(d: nat)
    requires d < 58
    ensures CharValue(DigitChar(d)) == d
    ensures DigitChar(d) == '1' <==> d == 0
  {
  }

  lemma {:induction false} NumeralValue(n: nat)
    ensures Value(Numeral(n)) == n
    ensures n > 0 ==> Numeral(n) != "" && Numeral(n)[0] != '1'
  {
    if n > 0 {
      DigitDecodes(n % 58);
      NumeralValue(n / 58);
      assert Numeral(n)[..|Numeral(n)| - 1] == Numeral(n / 58);
    }
  }

  lemma {:induction false} ValueOfOnes(k: nat, text: string)
    ensures Value(Ones(k) + text) == Value(text)
    decreases |text|, k
  {
    if text != "" {
      var front := text[..|text| - 1];
      assert (Ones(k) + text)[..k + |front|] == Ones(k) + front;
      ValueOfOnes(k, front);
    } else if k > 0 {
      assert Ones(k) + text == Ones(k);
      assert Ones(k)[..k - 1] == Ones(k - 1) + "";
      ValueOfOnes(k - 1, "");
    } else {
      assert Ones(k) + text == text;
    }
  }

  lemma {:induction false} LeadingOnesCount(k: nat, text: string)
    requires text == "" || text[0] != '1'
    ensures LeadingOnes(Ones(k) + text) == k
  {
    if k > 0 {
      assert (Ones(k) + text)[1..] == Ones(k - 1) + text;
      LeadingOnesCount(k - 1, text);
    } else {
      assert Ones(k) + text == text;
    }
  }

  /** Decoding the encoding gives back the number and the leading-zero count, for every byte string. */
  lemma RoundTrip(bs: seq<byte>)
    ensures Value(Encoding(bs)) == FromBytes(bs)
    ensures LeadingOnes(Encoding(bs)) == LeadingZeros(bs)
  {
    var n := FromBytes(bs);
    NumeralValue(n);
    ValueOfOnes(LeadingZeros(bs), Numeral(n));
    LeadingOnesCount(LeadingZeros(bs), Numeral(n));
  }

  // ---------- Injectivity ----------

  lemma {:induction false} ZerosAreZero(bs: seq<byte>)
    ensures FromBytes(bs) == 0 <==> LeadingZeros(bs) == |bs|
  {
    if bs != [] {
      var front := bs[..|bs| - 1];
      ZerosAreZero(front);
      var z := LeadingZeros(front);
      assert forall i :: 0 <= i < z ==> bs[i] == 0;
      if z < |front| {
        assert bs[z] != 0;
        assert LeadingZeros(bs) == z;
      }
    }
  }

  lemma {:induction false} LeadingZerosUnique(bs: seq<byte>, z: nat)
    requires z <= |bs| && (forall i :: 0 <= i < z ==> bs[i] == 0) && (z < |bs| ==> bs[z] != 0)
    ensures LeadingZeros(bs) == z
  {
  }

  lemma LeadingZerosOfFront(bs: seq<byte>)
    requires bs != []
    ensures var z := LeadingZeros(bs);
      LeadingZeros(bs[..|bs| - 1]) == if z == |bs| then z - 1 else z
  {
    var z := LeadingZeros(bs);
    LeadingZerosUnique(bs[..|bs| - 1], if z == |bs| then z - 1 else z);
  }

  /** The number and the leading-zero count determine the bytes. */
  lemma {:induction false} BytesDetermined(a: seq<byte>, b: seq<byte>)
    requires FromBytes(a) == FromBytes(b) && LeadingZeros(a) == LeadingZeros(b)
    ensures a == b
    decreases |a|
  {
    ZerosAreZero(a);
    ZerosAreZero(b);
    if a == [] || b == [] {
      assert FromBytes(a) == 0;
      assert |a| == |b|;
    } else {
      var fa, fb := a[..|a| - 1], b[..|b| - 1];
      LeadingZerosOfFront(a);
      LeadingZerosOfFront(b);
      BytesDetermined(fa, fb);
      assert a == fa + [a[|a| - 1]] && b == fb + [b[|b| - 1]];
    }
  }

  /** Different byte strings, of equal or different length, have different encodings. */
  lemma EncodingIsInjective(a: seq<byte>, b: seq<byte>)
    requires Encoding(a) == Encoding(b)
    ensures a == b
  {
    RoundTrip(a);
    RoundTrip(b);
    BytesDetermined(a, b);
  }

  // ---------- CID version 0 ----------

  const MULTIHASH_PREFIX: seq<byte> := [0x12, 0x20]

  /** The CID of a 32-byte SHA-256 digest. */
  method ComputeIpfsCidV0(digest: seq<byte>) returns (cid: string)
    requires |digest| == 32
    ensures |cid| == 46 && cid[..2] == "Qm"
    ensures Value(cid) == FromBytes(MULTIHASH_PREFIX + digest)
  {
    cid := Encode(MULTIHASH_PREFIX + digest);
    RoundTrip(MULTIHASH_PREFIX + digest);
    CidShape(digest);
  }

  lemma ShiftSum(x: nat, p: nat, f: nat)
    ensures (x * p + f) * 256 == x * (256 * p) + f * 256
  {
  }

  lemma {:induction false} FromBytesConcat(a: seq<byte>, b: seq<byte>)
    ensures FromBytes(a + b) == FromBytes(a) * Pow(256, |b|) + FromBytes(b)
    ensures FromBytes(b) < Pow(256, |b|)
  {
    if b == [] {
      assert a + b == a;
    } else {
      var front, last := b[..|b| - 1], b[|b| - 1];
      assert (a + b)[..|a + b| - 1] == a + front;
      FromBytesConcat(a, front);
      ShiftSum(FromBytes(a), Pow(256, |front|), FromBytes(front));
    }
  }

  lemma DivideBounds(n: nat, lo: nat, hi: nat)
    requires 58 * lo <= n < 58 * hi
    ensures lo <= n / 58 < hi
  {
  }

  lemma ScalePow(m: nat, k: nat)
    requires k > 0
    ensures m * Pow(58, k) == 58 * (m * Pow(58, k - 1))
  {
    var p := Pow(58, k - 1);
    assert m * (58 * p) == 58 * (m * p);
  }

  /** If m * 58^k <= n < (m + 1) * 58^k, the numeral of n is that of m followed by k characters. */
  lemma {:induction false} NumeralPrefix(n: nat, m: nat, k: nat)
    requires m > 0 && m * Pow(58, k) <= n < (m + 1) * Pow(58, k)
    ensures |Numeral(n)| == |Numeral(m)| + k
    ensures Numeral(n)[..|Numeral(m)|] == Numeral(m)
    decreases k
  {
    if k == 0 {
      assert n == m;
    } else {
      ScalePow(m, k);
      ScalePow(m + 1, k);
      DivideBounds(n, m * Pow(58, k - 1), (m + 1) * Pow(58, k - 1));
      NumeralPrefix(n / 58, m, k - 1);
      assert n > 0 by { NumeralNonEmpty(m); }
    }
  }

  lemma NumeralNonEmpty(m: nat)
    requires m > 0
    ensures |Numeral(m)| > 0
  {
  }

  /** Every SHA-256 multihash encodes to 46 characters starting with "Qm". */
  lemma CidShape(digest: seq<byte>)
    requires |digest| == 32
    ensures |Encoding(MULTIHASH_PREFIX + digest)| == 46
    ensures Encoding(MULTIHASH_PREFIX + digest)[..2] == "Qm"
  {
    var bs := MULTIHASH_PREFIX + digest;
    assert bs[0] != 0;
    var n := FromBytes(bs);
    FromBytesConcat(MULTIHASH_PREFIX, digest);
    PrefixValue();
    CidBounds();
    NumeralPrefix(n, 1378, 44);
    Numeral1378();
    assert Encoding(bs) == Numeral(n);
  }

  lemma PrefixValue()
    ensures FromBytes(MULTIHASH_PREFIX) == 0x1220
  {
    assert MULTIHASH_PREFIX[..1] == [0x12] && [0x12 as byte][..0] == [];
  }

  lemma Numeral1378()
    ensures Numeral(1378) == "Qm"
  {
    assert Numeral(23) == "Q";
  }

  lemma Pow58To44()
    ensures Pow(58, 44) == 389790918707373377135528568990913592653094657612049369038476873218241589149696
  {
    assert Pow(58, 4) == 11316496;
    assert Pow(58, 8) == 128063081718016;
    assert Pow(58, 12) == 1449225352009601191936;
    assert Pow(58, 16) == 16400152899115243850138976256;
    assert Pow(58, 20) == 185592264682226060569122324245118976;
    assert Pow(58, 24) == 2100254120907352485526230505830591911428096;
    assert Pow(58, 28) == 23767517358231570773047645414309870043308402671616;
    assert Pow(58, 32) == 268965015114358137726910587140455987105619365599731777536;
    assert Pow(58, 36) == 3043741517681573408154032751732621616256793128331902261559033856;
    assert Pow(58, 40) == 34444488709877454747081479018851205589883534409595458615323760395288576;
    assert Pow(58, 44) == 389790918707373377135528568990913592653094657612049369038476873218241589149696;
  }

  lemma Pow256To32()
    ensures Pow(256, 32) == 115792089237316195423570985008687907853269984665640564039457584007913129639936
  {
    assert Pow(256, 4) == 4294967296;
    assert Pow(256, 8) == 18446744073709551616;
    assert Pow(256, 12) == 79228162514264337593543950336;
    assert Pow(256, 16) == 340282366920938463463374607431768211456;
    assert Pow(256, 20) == 1461501637330902918203684832716283019655932542976;
    assert Pow(256, 24) == 6277101735386680763835789423207666416102355444464034512896;
    assert Pow(256, 28) == 26959946667150639794667015087019630673637144422540572481103610249216;
    assert Pow(256, 32) == 115792089237316195423570985008687907853269984665640564039457584007913129639936;
  }

  lemma CidBounds()
    ensures 1378 * Pow(58, 44) <= 0x1220 * Pow(256, 32)
    ensures 0x1221 * Pow(256, 32) <= 1379 * Pow(58, 44)
  {
    Pow58To44();
    Pow256To32();
  }
}
