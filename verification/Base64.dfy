/** The base64 digits that name a job: base64_encode, its use in str2md5base64, and a decoder. */
module Base64 {
  import opened Arith
  import opened CText

  type bit = n: int | 0 <= n < 2

  /** n characters in the order of their codes. */
  function Run(first: char, n: nat): (r: string)
    requires first as int + n < 128
    ensures |r| == n && forall i :: 0 <= i < n ==> r[i] as int == first as int + i
  {
    seq(n, i requires 0 <= i < n => (first as int + i) as char)
  }

  /** The URL-safe alphabet of section 5 of RFC 4648. */
  const ALPHABET := Run('A', 26) + Run('a', 26) + Run('0', 10) + "-_"

  // ----- Numbers and their bits, the most significant first

  function Num(bits: seq<bit>): (r: nat)
    ensures r < Pow2(|bits|)
  {
    if bits == [] then 0 else 2 * Num(bits[..|bits| - 1]) + bits[|bits| - 1]
  }

  function BitsOf(n: nat, k: nat): (r: seq<bit>)
    ensures |r| == k
  {
    if k == 0 then [] else BitsOf(n / 2, k - 1) + [n % 2]
  }

  lemma {:induction false} NumOfBits(n: nat, k: nat)
    requires n < Pow2(k)
    ensures Num(BitsOf(n, k)) == n
    decreases k
  {
    if k > 0 {
      NumOfBits(n / 2, k - 1);
      assert BitsOf(n, k)[..k - 1] == BitsOf(n / 2, k - 1);
    }
  }

  lemma {:induction false} BitsOfNum(bits: seq<bit>)
    ensures BitsOf(Num(bits), |bits|) == bits
  {
    if bits != [] {
      BitsOfNum(bits[..|bits| - 1]);
    }
  }

  lemma Reorder(a: int, b: int, c: int)
    ensures a * (b * c) == (a * b) * c == b * (a * c) == (a * c) * b
  {
  }

  lemma {:induction false} NumConcat(a: seq<bit>, b: seq<bit>)
    ensures Num(a + b) == Num(a) * Pow2(|b|) + Num(b)
  {
    if b == [] {
      assert a + b == a;
    } else {
      var init := b[..|b| - 1];
      NumConcat(a, init);
      assert (a + b)[..|a + b| - 1] == a + init;
      Reorder(2, Num(a), Pow2(|init|));
      assert Pow2(|b|) == 2 * Pow2(|init|);
    }
  }

  function Zeros(k: nat): (r: seq<bit>)
    ensures |r| == k
  {
    seq(k, _ => 0)
  }

  lemma {:induction false} NumZeros(k: nat)
    ensures Num(Zeros(k)) == 0
  {
    if k > 0 {
      NumZeros(k - 1);
      assert Zeros(k)[..k - 1] == Zeros(k - 1);
    }
  }

  // ----- The encoding by bits

  function AllBits(bytes: seq<byte>): (r: seq<bit>)
    ensures |r| == 8 * |bytes|
  {
    if bytes == [] then [] else BitsOf(bytes[0], 8) + AllBits(bytes[1..])
  }

  /** The digit of six bits. */
  function Digit(bits: seq<bit>): char
    requires |bits| == 6
  {
    Pow2Of6();
    ALPHABET[Num(bits)]
  }

  lemma Pow2Of6()
    ensures Pow2(6) == 64 && Pow2(8) == 256
  {
    assert Pow2(3) == 8;
    Pow2Sum(3, 3);
    Pow2Sum(2, 6);
  }

  /** Bits in groups of six, the last one filled up with zeros. */
  function EncodeBits(bits: seq<bit>): (r: string)
    ensures |r| == (|bits| + 5) / 6
  {
    if bits == [] then ""
    else if |bits| < 6 then [Digit(bits + Zeros(6 - |bits|))]
    else [Digit(bits[..6])] + EncodeBits(bits[6..])
  }

  function EncodeText(bytes: seq<byte>): (r: string)
    ensures |r| == (8 * |bytes| + 5) / 6
  {
    EncodeBits(AllBits(bytes))
  }

  // ----- The decoder

  function Sextets(text: string): seq<bit> {
    if text == "" then [] else BitsOf(IndexOf(ALPHABET, text[0]), 6) + Sextets(text[1..])
  }

  function BytesOf(bits: seq<bit>): seq<byte> {
    Pow2Of6();
    if |bits| < 8 then [] else [Num(bits[..8])] + BytesOf(bits[8..])
  }

  function DecodeText(text: string): seq<byte> {
    BytesOf(Sextets(text))
  }

  lemma LetterAt(k: nat)
    requires k < 64
    ensures |ALPHABET| == 64
    ensures ALPHABET[k] as int == if k < 26 then 65 + k else if k < 52 then 71 + k else if k < 62 then k - 4
                                  else if k == 62 then 45 else 95
  {
  }

  /** No letter occurs twice in the alphabet. */
  lemma DigitIndex(k: nat)
    requires k < 64
    ensures |ALPHABET| == 64 && IndexOf(ALPHABET, ALPHABET[k]) == k
  {
    forall i | 0 <= i < k ensures ALPHABET[i] != ALPHABET[k] {
      LetterAt(i);
      LetterAt(k);
    }
    IndexOfIs(ALPHABET, ALPHABET[k], k);
  }

  lemma DigitBits(bits: seq<bit>)
    requires |bits| == 6
    ensures BitsOf(IndexOf(ALPHABET, Digit(bits)), 6) == bits
  {
    Pow2Of6();
    DigitIndex(Num(bits));
    BitsOfNum(bits);
  }

  lemma SextetsOfOne(c: char)
    ensures Sextets([c]) == BitsOf(IndexOf(ALPHABET, c), 6)
  {
    assert [c][1..] == "";
  }

  /** Decoding gives the bits back with fewer than six zeros after them. */
  lemma {:induction false} SextetsOfEncoding(bits: seq<bit>)
    ensures exists k :: 0 <= k < 6 && Sextets(EncodeBits(bits)) == bits + Zeros(k)
  {
    hide BitsOf, IndexOf, Digit;
    if bits == [] {
      assert Sextets("") == bits + Zeros(0);
    } else if |bits| < 6 {
      var k := 6 - |bits|;
      DigitBits(bits + Zeros(k));
      SextetsOfOne(Digit(bits + Zeros(k)));
    } else {
      SextetsOfEncoding(bits[6..]);
      var k :| 0 <= k < 6 && Sextets(EncodeBits(bits[6..])) == bits[6..] + Zeros(k);
      DigitBits(bits[..6]);
      assert EncodeBits(bits)[1..] == EncodeBits(bits[6..]);
      assert bits[..6] + (bits[6..] + Zeros(k)) == bits + Zeros(k);
    }
  }

  lemma {:induction false} BytesOfBits(bytes: seq<byte>, rest: seq<bit>)
    requires |rest| < 8
    ensures BytesOf(AllBits(bytes) + rest) == bytes
  {
    if bytes == [] {
      assert AllBits(bytes) + rest == rest;
    } else {
      var bits := AllBits(bytes) + rest;
      Pow2Of6();
      NumOfBits(bytes[0], 8);
      assert bits[..8] == BitsOf(bytes[0], 8) && bits[8..] == AllBits(bytes[1..]) + rest;
      BytesOfBits(bytes[1..], rest);
    }
  }

  /** Every byte comes back. */
  lemma RoundTrip(bytes: seq<byte>)
    ensures DecodeText(EncodeText(bytes)) == bytes
  {
    SextetsOfEncoding(AllBits(bytes));
    var k :| 0 <= k < 6 && Sextets(EncodeText(bytes)) == AllBits(bytes) + Zeros(k);
    BytesOfBits(bytes, Zeros(k));
  }

  // ----- The 32-bit accumulator

  /** The low |pending| bits of the accumulator are the pending ones; what is above them was encoded
      already, or shifted out. */
  ghost predicate Low(bits: nat, pending: seq<bit>) {
    bits < TWO32 && bits % Pow2(|pending|) == Num(pending)
  }

  /** bits << k on an unsigned int. */
  function ShiftLeft(bits: nat, k: nat): (r: nat)
    ensures r < TWO32
  {
    bits * Pow2(k) % TWO32
  }

  /** (bits >> k) & 0x3F. */
  function SixBits(bits: nat, k: nat): (r: nat)
    ensures r < 64
  {
    bits / Pow2(k) % 64
  }

  lemma DividesWord(k: nat)
    requires k <= 32
    ensures TWO32 == Pow2(32 - k) * Pow2(k)
  {
    Pow2Of6();
    Pow2Sum(8, 8);
    Pow2Sum(16, 16);
    Pow2Sum(32 - k, k);
  }

  lemma Distribute(m: int, a: int, b: int)
    ensures m * (a - b) == m * a - m * b && m * (a + b) == m * a + m * b
  {
  }

  lemma MulMonotone(p: nat, x: int, y: int)
    requires x <= y
    ensures p * x <= p * y
  {
    assert p * (y - x) >= 0;
  }

  lemma MulLess(p: nat, x: int, y: int)
    requires p > 0 && p * x < p * y
    ensures p * x <= p * y - p
  {
    if x >= y {
      MulMonotone(p, y, x);
    } else {
      Distribute(p, y, x);
      MulAtLeast(p, y - x);
    }
  }

  /** Shifting left by p, in a word of w, keeps what is below q under what is below p. */
  lemma ShiftKeepsLow(bits: nat, q: nat, p: nat, add: nat, w: nat, fits: nat)
    requires q > 0 && p > 0 && add < p && w > 0 && w == fits * (q * p)
    ensures (bits * p % w + add) % (q * p) == bits % q * p + add
  {
    var high, low, t, m := bits / q, bits % q, bits * p / w, q * p;
    assert bits * p % w == bits * p - w * t;
    assert bits * p == m * high + low * p by {
      Distribute(p, q * high, low);
      Reorder(q, p, high);
    }
    assert w * t == m * (fits * t) by { Reorder(m, fits, t); }
    Distribute(m, high, fits * t);
    assert low * p + add < m by {
      Distribute(p, q, low);
      MulAtLeast(p, q - low);
    }
    DivModUnique(bits * p % w + add, m, high - fits * t, low * p + add);
  }

  /** The bits shifted in are free before. */
  lemma ShiftFits(bits: nat, p: nat, add: nat, w: nat, fits: nat)
    requires p > 0 && add < p && w > 0 && w == fits * p
    ensures bits * p % w + add < w
  {
    var t := bits * p / w;
    assert bits * p % w == bits * p - w * t;
    assert w * t == p * (fits * t) by { Reorder(p, fits, t); }
    Distribute(p, bits, fits * t);
    MulLess(p, bits - fits * t, fits);
  }

  /** Bits of the low part of a word that was shifted left. */
  lemma ShiftLow(bits: nat, pending: seq<bit>, more: seq<bit>)
    requires Low(bits, pending) && |pending| + |more| <= 32
    ensures Low(ShiftLeft(bits, |more|) + Num(more), pending + more)
  {
    hide Pow2, Num;
    var k := |more|;
    Pow2Sum(|pending|, k);
    NumConcat(pending, more);
    DividesWord(|pending| + k);
    DividesWord(k);
    ShiftKeepsLow(bits, Pow2(|pending|), Pow2(k), Num(more), TWO32, Pow2(32 - (|pending| + k)));
    ShiftFits(bits, Pow2(k), Num(more), TWO32, Pow2(32 - k));
  }

  /** A number whose lower part has two parts. */
  lemma SplitLow(bits: nat, p: nat, six: nat, low: nat)
    requires p > 0 && six < 64 && low < p && bits % (64 * p) == six * p + low
    ensures bits / p % 64 == six && bits % p == low
  {
    var high := bits / (64 * p);
    assert bits == p * (64 * high + six) + low by {
      Reorder(p, 64, high);
      Distribute(p, 64 * high, six);
    }
    DivModUnique(bits, p, 64 * high + six, low);
    DivModUnique(64 * high + six, 64, high, six);
  }

  /** The highest six of the pending bits. */
  lemma TakeSix(bits: nat, pending: seq<bit>)
    requires Low(bits, pending) && |pending| >= 6
    ensures SixBits(bits, |pending| - 6) == Num(pending[..6]) && Low(bits, pending[6..])
  {
    hide Pow2, Num;
    var s := |pending| - 6;
    Pow2Of6();
    Pow2Sum(6, s);
    NumConcat(pending[..6], pending[6..]);
    assert pending[..6] + pending[6..] == pending;
    SplitLow(bits, Pow2(s), Num(pending[..6]), Num(pending[6..]));
  }

  // ----- base64_encode and str2md5base64

  /** One outer round of the encoder: the pending bits in groups of six. */
  method EmitSextets(out: array<char>, outSize: nat, bits: nat, pending: nat, ghost p: seq<bit>, ghost rest: seq<bit>)
    returns (size: nat, shift: nat, ghost left: seq<bit>)
    requires |p| == pending && Low(bits, p) && outSize + pending / 6 <= out.Length
    modifies out
    ensures shift == |left| < 6 && Low(bits, left) && size == outSize + pending / 6 <= out.Length
    ensures out[..size] + EncodeBits(left + rest) == old(out[..outSize]) + EncodeBits(p + rest)
    ensures out[size..] == old(out[size..])
  {
    hide Low, Num, EncodeBits, SixBits;
    size, shift, left := outSize, pending, p;
    while shift >= 6
      invariant shift == |left| && Low(bits, left) && size + shift / 6 == outSize + pending / 6
      invariant size <= out.Length && outSize <= size
      invariant out[..size] + EncodeBits(left + rest) == old(out[..outSize]) + EncodeBits(p + rest)
      invariant out[size..] == old(out[size..])
    {
      NextDigit(left, rest);
      TakeSix(bits, left);
      LetterAt(SixBits(bits, shift - 6));
      ghost var before := out[..size];
      shift := shift - 6;
      out[size] := ALPHABET[SixBits(bits, shift)];
      assert out[..size + 1] == before + [Digit(left[..6])];
      assert before + ([Digit(left[..6])] + EncodeBits(left[6..] + rest))
             == out[..size + 1] + EncodeBits(left[6..] + rest);
      left := left[6..];
      size := size + 1;
    }
  }

  lemma NextDigit(p: seq<bit>, rest: seq<bit>)
    requires |p| >= 6
    ensures EncodeBits(p + rest) == [Digit(p[..6])] + EncodeBits(p[6..] + rest)
  {
    assert (p + rest)[..6] == p[..6] && (p + rest)[6..] == p[6..] + rest;
  }

  lemma PadLast(p: seq<bit>)
    requires 0 < |p| < 6
    ensures EncodeBits(p + Zeros(6 - |p|)) == EncodeBits(p)
  {
    var padded := p + Zeros(6 - |p|);
    assert padded[..6] == padded && padded[6..] == [];
  }

  /** The next byte, or the padding of the last bits, below the pending bits. */
  method ShiftIn(enc: seq<byte>, at: nat, bits: nat, shift: nat, ghost pending: seq<bit>)
    returns (i: nat, word: nat, count: nat, ghost more: seq<bit>)
    requires at <= |enc| && shift == |pending| < 6 && Low(bits, pending) && (at < |enc| || shift > 0)
    ensures i <= |enc| && Low(word, pending + more) && count == |pending| + |more| && count <= 13
    ensures if at < |enc| then i == at + 1 else i == at && count == 6
    ensures EncodeBits(pending + more + AllBits(enc[i..])) == EncodeBits(pending + AllBits(enc[at..]))
  {
    hide Low, Num, BitsOf, EncodeBits, ShiftLeft;
    if at < |enc| {
      more := BitsOf(enc[at], 8);
      Pow2Of6();
      NumOfBits(enc[at], 8);
      ShiftLow(bits, pending, more);
      // The low eight bits are free, so that | is +.
      word := ShiftLeft(bits, 8) + enc[at];
      count := shift + 8;
      i := at + 1;
      assert enc[at..][1..] == enc[i..];
      assert pending + AllBits(enc[at..]) == pending + more + AllBits(enc[i..]);
    } else {
      more := Zeros(6 - shift);
      NumZeros(6 - shift);
      ShiftLow(bits, pending, more);
      word := ShiftLeft(bits, 6 - shift);
      count := 6;
      i := at;
      PadLast(pending);
      assert pending + AllBits(enc[at..]) == pending && pending + more + AllBits(enc[i..]) == pending + more;
    }
  }

  lemma NothingLeft(enc: seq<byte>, pending: seq<bit>)
    requires pending == []
    ensures EncodeBits(pending + AllBits(enc[|enc|..])) == ""
  {
  }

  lemma LowNothing()
    ensures Low(0, [])
  {
  }

  /** base64_encode. A round may write one character more than outMax allows, so the memory has to
      have room for it. */
  method Base64Encode(enc: seq<byte>, out: array<char>, outMax: nat) returns (size: int)
    requires out.Length >= outMax + 1
    modifies out
    ensures var text := EncodeText(enc) + "=";
            if |text| <= outMax then size == |text| && out[..size] == text && out[size..] == old(out[size..])
            else size == -1
  {
    hide Low, EncodeBits, AllBits;
    var outSize: nat, bits: nat, shift: nat, i: nat := 0, 0, 0, 0;
    ghost var pending: seq<bit> := [];
    ghost var text := EncodeText(enc);
    assert enc[0..] == enc && [] + AllBits(enc) == AllBits(enc);
    LowNothing();
    while outSize < outMax
      invariant 0 <= i <= |enc| && shift == |pending| < 6 && Low(bits, pending)
      invariant outSize <= outMax + 1 && text == out[..outSize] + EncodeBits(pending + AllBits(enc[i..]))
      invariant out[outSize..] == old(out[outSize..])
      decreases |enc| - i, shift
    {
      if i == |enc| && shift == 0 {
        NothingLeft(enc, pending);
        out[outSize] := '=';
        outSize := outSize + 1;
        assert out[..outSize] == text + "=";
        return outSize;
      }
      ghost var more;
      i, bits, shift, more := ShiftIn(enc, i, bits, shift, pending);
      pending := pending + more;
      outSize, shift, pending := EmitSextets(out, outSize, bits, shift, pending, AllBits(enc[i..]));
    }
    size := -1;
  }

  /** str2md5base64 after the digest: its digits without the '='. */
  method DigestText(digest: seq<byte>) returns (buf: array<char>)
    requires |digest| == 16
    ensures fresh(buf) && IsCString(buf, EncodeText(digest)) && |EncodeText(digest)| == 22
  {
    buf := new char[50];
    var l := Base64Encode(digest, buf, 49);
    buf[l - 1] := '\0';
  }

  /** Different digests have different texts. */
  lemma TextsDiffer(a: seq<byte>, b: seq<byte>)
    requires EncodeText(a) == EncodeText(b)
    ensures a == b
  {
    RoundTrip(a);
    RoundTrip(b);
  }
}
