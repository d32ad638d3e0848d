/** Internet checksums (RFC 1071; section 3.1 of RFC 791): the sum of the IP header and the
    checksums of TCP and UDP with their pseudo header. Words are read in the little-endian
    order of the machine. */
module IpChecksum {

  import opened Machine

  // ---------------------------------------------------------------- one's complement sums

  /** The one's complement sum of 16-bit words whose plain sum is `s`: a number from 0 to 0xFFFF
      that is zero only if `s` is. */
  function Ones(s: nat): (r: nat)
    ensures r < U16 && (r == 0 <==> s == 0)
  {
    if s == 0 then 0 else 1 + (s - 1) % 0xFFFF
  }

  /** `Ones(s)` is the only number from 1 to 0xFFFF that is congruent to a positive `s`. */
  lemma OnesUnique(s: nat, r: nat, q: int)
    requires 0 < r < U16 && s == r + q * 0xFFFF && 0 < s
    ensures Ones(s) == r
  {
    assert s - 1 == q * 0xFFFF + (r - 1);
    assert (q * 0xFFFF + (r - 1)) % 0xFFFF == r - 1;
  }

  lemma OnesIs(s: nat) returns (q: nat)
    requires s > 0
    ensures s == Ones(s) + q * 0xFFFF
  {
    q := (s - 1) / 0xFFFF;
  }

  /** Adding the upper to the lower half keeps the one's complement sum. */
  lemma FoldOnce(s: nat)
    ensures Ones(s / U16 + s % U16) == Ones(s)
    ensures s >= U16 ==> s / U16 + s % U16 < s
  {
    if s > 0 {
      var q := OnesIs(s);
      var t := s / U16 + s % U16;
      assert s == s / U16 * U16 + s % U16;
      assert t == Ones(s) + (q - s / U16) * 0xFFFF;
      OnesUnique(t, Ones(s), q - s / U16);
    }
  }

  /** The two-step fold of `ip_checksum`, for a 32-bit sum. */
  lemma TwoFolds(s: nat)
    requires s < U32
    ensures var r := s / U16 + s % U16; (r + r / U16) % U16 == Ones(s)
  {
    FoldOnce(s);
    var r := s / U16 + s % U16;
    FoldOnce(r);
    assert r < 2 * U16 - 1;
    if r < U16 {
      assert r == 0 || Ones(r) == r by { if r > 0 { OnesUnique(r, r, 0); } }
    } else {
      var t := r - U16 + 1;
      OnesUnique(r, t, 1);
    }
  }

  /** Filling in the complement makes the sum 0xFFFF. */
  lemma Complement(s: nat)
    ensures Ones(s + (0xFFFF - Ones(s))) == 0xFFFF
  {
    if s == 0 {
      OnesUnique(0xFFFF, 0xFFFF, 0);
    } else {
      var q := OnesIs(s);
      OnesUnique(s + (0xFFFF - Ones(s)), 0xFFFF, q);
    }
  }

  /** The looped fold of the TCP and UDP checksums. */
  method Fold(s: nat) returns (r: nat)
    ensures r == Ones(s)
  {
    r := s;
    while r / U16 != 0
      invariant Ones(r) == Ones(s)
      decreases r
    {
      FoldOnce(r);
      r := r % U16 + r / U16;
    }
    if r > 0 {
      OnesUnique(r, r, 0);
    }
  }

  // ---------------------------------------------------------------- words

  function At(data: seq<Byte>, i: nat): Byte {
    if i < |data| then data[i] else 0
  }

  /** Word `k` as the machine reads it, a missing last byte being zero. */
  function Little(data: seq<Byte>, k: nat): nat {
    At(data, 2 * k) + 256 * At(data, 2 * k + 1)
  }

  /** Word `k` in network order. */
  function Big(data: seq<Byte>, k: nat): nat {
    256 * At(data, 2 * k) + At(data, 2 * k + 1)
  }

  function LittleSum(data: seq<Byte>, k: nat): nat {
    if k == 0 then 0 else LittleSum(data, k - 1) + Little(data, k - 1)
  }

  function BigSum(data: seq<Byte>, k: nat): nat {
    if k == 0 then 0 else BigSum(data, k - 1) + Big(data, k - 1)
  }

  function Words(data: seq<Byte>): nat {
    (|data| + 1) / 2
  }

  /** The plain sum of all words. */
  function Sum(data: seq<Byte>): nat {
    LittleSum(data, Words(data))
  }

  /** The sum of the first `n` bytes, with weight `a` at even and `b` at odd positions. */
  ghost function ByteSum(data: seq<Byte>, n: nat, a: nat, b: nat): nat
    requires n <= |data|
  {
    if n == 0 then 0 else ByteSum(data, n - 1, a, b) + data[n - 1] * if (n - 1) % 2 == 0 then a else b
  }

  /** Words are pairs of bytes, and the last word of an odd number of bytes is its last byte. */
  lemma {:induction false} LittleIsBytes(data: seq<Byte>, k: nat)
    requires k <= Words(data)
    ensures LittleSum(data, k) == ByteSum(data, Min(2 * k, |data|), 1, 256)
  {
    if k > 0 {
      LittleIsBytes(data, k - 1);
      LastWord(data, 2 * k - 2, 1, 256);
    }
  }

  lemma {:induction false} BigIsBytes(data: seq<Byte>, k: nat)
    requires k <= Words(data)
    ensures BigSum(data, k) == ByteSum(data, Min(2 * k, |data|), 256, 1)
  {
    if k > 0 {
      BigIsBytes(data, k - 1);
      LastWord(data, 2 * k - 2, 256, 1);
    }
  }

  lemma LastWord(data: seq<Byte>, m: nat, a: nat, b: nat)
    requires m % 2 == 0 && m < |data|
    ensures ByteSum(data, Min(m + 2, |data|), a, b) == ByteSum(data, m, a, b) + At(data, m) * a + At(data, m + 1) * b
  {
    assert ByteSum(data, m + 1, a, b) == ByteSum(data, m, a, b) + data[m] * a;
    if m + 2 <= |data| {
      OddPosition(m);
      assert ByteSum(data, m + 2, a, b) == ByteSum(data, m + 1, a, b) + data[m + 1] * b;
    }
  }

  lemma OddPosition(m: nat)
    requires m % 2 == 0
    ensures (m + 1) % 2 == 1
  {
  }

  /** The plain sum is that of all bytes, every second one 256-fold. */
  lemma SumIsBytes(data: seq<Byte>)
    ensures Sum(data) == ByteSum(data, |data|, 1, 256)
  {
    LittleIsBytes(data, Words(data));
  }

  /** `data` with the 16-bit value `v` at the even offset `2 * f`. */
  function Stored(data: seq<Byte>, f: nat, v: nat): (r: seq<Byte>)
    requires 2 * f + 2 <= |data| && v < U16
    ensures |r| == |data|
  {
    data[2 * f := v % 256][2 * f + 1 := v / 256]
  }

  lemma {:induction false} SumStored(data: seq<Byte>, f: nat, v: nat, k: nat)
    requires 2 * f + 2 <= |data| && v < U16 && Little(data, f) == 0
    ensures LittleSum(Stored(data, f, v), k) == LittleSum(data, k) + if f < k then v else 0
  {
    if k > 0 {
      SumStored(data, f, v, k - 1);
    }
  }

  // ---------------------------------------------------------------- the checksum of a block

  /** The complement of the one's complement sum, of which 32 bits of the plain sum are kept. */
  function ChecksumOf(sum: nat): (c: nat)
    ensures c < U16
  {
    0xFFFF - Ones(sum % U32)
  }

  /** `ip_checksum` of a block. */
  method Checksum(data: seq<Byte>) returns (c: nat)
    ensures c == ChecksumOf(ByteSum(data, |data|, 1, 256)) == ChecksumOf(Sum(data))
  {
    SumIsBytes(data);
    var result, i, len: nat := 0, 0, |data|;
    while len > 1
      invariant 2 * i + len == |data| && result == LittleSum(data, i) % U32
    {
      SumWraps(LittleSum(data, i), Little(data, i));
      result := (result + (data[2 * i] + 256 * data[2 * i + 1])) % U32;
      i, len := i + 1, len - 2;
    }
    if len != 0 {
      SumWraps(LittleSum(data, i), Little(data, i));
      result := (result + data[2 * i]) % U32;
    }
    c := FoldTwice(result);
  }

  /** The end of `ip_checksum`. */
  method FoldTwice(sum: nat) returns (c: nat)
    requires sum < U32
    ensures c == 0xFFFF - Ones(sum)
  {
    TwoFolds(sum);
    var result := sum / U16 + sum % U16;
    result := result + result / U16;
    c := 0xFFFF - result % U16;
  }

  lemma SumWraps(a: nat, b: nat)
    ensures (a % U32 + b) % U32 == (a + b) % U32
  {
    var q := a / U32;
    assert a + b == q * U32 + (a % U32 + b);
  }

  /** Filling in the complement does not carry out of 32 bits: it leads to the next multiple of
      0xFFFF, and 0xFFFF_FFFF is one. */
  lemma ComplementFits(s: nat)
    requires s < U32
    ensures s + (0xFFFF - Ones(s)) < U32
  {
    if s > 0 {
      var q := OnesIs(s);
      assert s + (0xFFFF - Ones(s)) == (q + 1) * 0xFFFF;
      assert q * 0xFFFF < 0x1_0001 * 0xFFFF;
    }
  }

  /** A block whose checksum field was zero and then filled sums up to zero, whatever its length;
      `rest` is the sum of what is not in the block. */
  lemma FilledIsZero(data: seq<Byte>, f: nat, rest: nat)
    requires 2 * f + 2 <= |data| && Little(data, f) == 0
    ensures ChecksumOf(rest + Sum(Stored(data, f, ChecksumOf(rest + Sum(data))))) == 0
  {
    var s := rest + Sum(data);
    var c := ChecksumOf(s);
    SumStored(data, f, c, Words(data));
    assert rest + Sum(Stored(data, f, c)) == s + c;
    ComplementIsZero(s);
  }

  lemma ComplementIsZero(s: nat)
    ensures ChecksumOf(s + ChecksumOf(s)) == 0
  {
    var m, c := s % U32, ChecksumOf(s);
    Complement(m);
    ComplementFits(m);
    SumWraps(s, c);
    assert (s + c) % U32 == m + c;
  }

  /** The 32 bits that are kept lose nothing exactly if the carries out of them add up to a
      multiple of 0xFFFF and something is left. */
  lemma ChecksumExact(s: nat)
    ensures ChecksumOf(s) == 0xFFFF - Ones(s) <==> s == 0 || (s / U32 % 0xFFFF == 0 && s % U32 != 0)
  {
    var k, m := s / U32, s % U32;
    assert s == k * U32 + m;
    if m > 0 {
      var p := OnesIs(m);
      var r := Ones(m);
      assert s == (k + r) + (p + k * 0x1_0001) * 0xFFFF;
      CarriesVanish(s, k, r, p + k * 0x1_0001);
    }
  }

  /** A plain sum of two to the 32 is summed up as nothing. */
  lemma CarryLost()
    ensures ChecksumOf(U32) == 0xFFFF != 0xFFFF - Ones(U32)
  {
    ChecksumExact(U32);
  }

  lemma CarriesVanish(s: nat, k: nat, r: nat, q: nat)
    requires 0 < r < U16 && s == (k + r) + q * 0xFFFF
    ensures Ones(s) == r <==> k % 0xFFFF == 0
  {
    if k % 0xFFFF == 0 {
      OnesUnique(s, r, q + k / 0xFFFF);
    }
    if Ones(s) == r {
      var p := OnesIs(s);
      assert k == (p - q) * 0xFFFF;
    }
  }

  /** Up to 128 KiB, more than a packet can hold, nothing is carried out of the 32 bits. */
  lemma {:induction false} SumFits(data: seq<Byte>, k: nat)
    ensures LittleSum(data, k) <= k * 0xFFFF
    ensures |data| <= 0x2_0000 && k == Words(data) ==> LittleSum(data, k) < U32
  {
    if k > 0 { SumFits(data, k - 1); }
  }

  /** Filling in the checksum of a header. */
  method FillChecksum(data: array<Byte>, f: nat)
    requires 2 * f + 2 <= data.Length && Little(data[..], f) == 0
    modifies data
    ensures data[..] == Stored(old(data[..]), f, ChecksumOf(Sum(old(data[..]))))
    ensures ChecksumOf(Sum(data[..])) == 0
  {
    var c := Checksum(data[..]);
    FilledIsZero(data[..], f, 0);
    Store(data, f, c);
  }

  method Store(data: array<Byte>, f: nat, v: nat)
    requires 2 * f + 2 <= data.Length && v < U16
    modifies data
    ensures data[..] == Stored(old(data[..]), f, v)
  {
    data[2 * f] := v % 256;
    data[2 * f + 1] := v / 256;
  }

  // ---------------------------------------------------------------- TCP and UDP

  function Swap(x: nat): (r: nat)
    requires x < U16
    ensures r < U16
  {
    x % 256 * 256 + x / 256
  }

  /** The sum of the pseudo header; addresses, protocol and length are in network order, so that
      the machine reads them with swapped bytes. */
  function Pseudo(saddr: nat, daddr: nat, protocol: Byte, length: nat): nat {
    saddr / U16 % U16 + saddr % U16 + daddr / U16 % U16 + daddr % U16 + Swap(protocol) + Swap(length % U16)
  }

  /** The pseudo header of section 3.1 of RFC 793, byte by byte: two addresses of which the machine
      reads the first byte as the lowest, a zero, the protocol and the length in network order. */
  function PseudoHeader(saddr: nat, daddr: nat, protocol: Byte, length: nat): (r: seq<Byte>)
    ensures |r| == 12
  {
    [saddr % 256, saddr / 256 % 256, saddr / U16 % 256, saddr / 0x100_0000 % 256,
     daddr % 256, daddr / 256 % 256, daddr / U16 % 256, daddr / 0x100_0000 % 256,
     0, protocol, length / 256 % 256, length % 256]
  }

  lemma Halves(x: nat)
    requires x < U32
    ensures x % 256 + 256 * (x / 256 % 256) == x % U16
    ensures x / U16 % 256 + 256 * (x / 0x100_0000 % 256) == x / U16 % U16
  {
    var y := x / U16;
    assert x / 0x100_0000 == y / 256;
    assert x / 256 == 256 * y + x % U16 / 256;
  }

  lemma TwoWords(data: seq<Byte>, k: nat)
    ensures LittleSum(data, k + 2) == LittleSum(data, k) + Little(data, k) + Little(data, k + 1)
  {
    assert LittleSum(data, k + 1) == LittleSum(data, k) + Little(data, k);
  }

  lemma SixWords(data: seq<Byte>, k: nat)
    requires k == 0
    ensures LittleSum(data, k + 6) ==
            Little(data, k) + Little(data, k + 1) + Little(data, k + 2) + Little(data, k + 3) + Little(data,
              k + 4) + Little(data, k + 5)
  {
    TwoWords(data, k);
    TwoWords(data, k + 2);
    TwoWords(data, k + 4);
  }

  lemma AddressWords(saddr: nat, daddr: nat, protocol: Byte, length: nat, h: seq<Byte>)
    requires saddr < U32 && daddr < U32 && h == PseudoHeader(saddr, daddr, protocol, length)
    ensures Little(h, 0) == saddr % U16 && Little(h, 1) == saddr / U16 % U16
    ensures Little(h, 2) == daddr % U16 && Little(h, 3) == daddr / U16 % U16
  {
    Halves(saddr);
    Halves(daddr);
  }

  lemma LengthWords(saddr: nat, daddr: nat, protocol: Byte, length: nat, h: seq<Byte>)
    requires h == PseudoHeader(saddr, daddr, protocol, length)
    ensures Little(h, 4) == Swap(protocol) && Little(h, 5) == Swap(length % U16)
  {
    var l := length % U16;
    assert length % 256 == l % 256 && length / 256 % 256 == l / 256;
  }

  /** What the code adds up is the sum of the pseudo header. */
  lemma PseudoIsSum(saddr: nat, daddr: nat, protocol: Byte, length: nat)
    requires saddr < U32 && daddr < U32
    ensures Pseudo(saddr, daddr, protocol, length) == Sum(PseudoHeader(saddr, daddr, protocol, length))
  {
    var h := PseudoHeader(saddr, daddr, protocol, length);
    AddressWords(saddr, daddr, protocol, length, h);
    LengthWords(saddr, daddr, protocol, length, h);
    SixWords(h, 0);
    SumOfSix(h);
  }

  lemma SumOfSix(h: seq<Byte>)
    requires |h| == 12
    ensures Sum(h) == LittleSum(h, 6)
  {
  }

  /** `compute_tcp_checksum` (field at word 8) and `compute_udp_checksum` (field at word 3). */
  method TransportChecksum(saddr: nat, daddr: nat, protocol: Byte, data: array<Byte>, f: nat)
    requires 2 * f + 2 <= data.Length && saddr < U32 && daddr < U32
    modifies data
    ensures var rest := Pseudo(saddr, daddr, protocol, data.Length);
      && data[..] == Stored(Stored(old(data[..]), f, 0), f, ChecksumOf(rest + Sum(Stored(old(data[..]), f, 0))))
      && ChecksumOf(rest + Sum(data[..])) == 0
  {
    ghost var rest := Pseudo(saddr, daddr, protocol, data.Length);
    var result := PseudoSum(saddr, daddr, protocol, data.Length);
    Store(data, f, 0);
    ghost var zeroed := data[..];
    result := AddWords(data[..], result, rest);
    ghost var sum := rest + Sum(zeroed);
    FilledIsZero(zeroed, f, rest);
    result := Fold(result);
    Store(data, f, 0xFFFF - result);
  }

  method PseudoSum(saddr: nat, daddr: nat, protocol: Byte, length: nat) returns (result: nat)
    requires saddr < U32 && daddr < U32
    ensures result == Pseudo(saddr, daddr, protocol, length) < U32
  {
    var a: nat, b: nat, c: nat, d: nat := saddr / U16 % U16, saddr % U16, daddr / U16 % U16, daddr % U16;
    result := Add(0, a);
    result := Add(result, b);
    result := Add(result, c);
    result := Add(result, d);
    result := Add(result, Swap(protocol));
    result := Add(result, Swap(length % U16));
  }

  /** 32-bit addition. */
  method Add(x: nat, y: nat) returns (r: nat)
    ensures r == (x + y) % U32 && (x + y < U32 ==> r == x + y)
  {
    r := (x + y) % U32;
  }

  /** The loop over the words, and the odd byte. */
  method AddWords(data: seq<Byte>, start: nat, ghost rest: nat) returns (result: nat)
    requires start == rest < U32
    ensures result == (rest + Sum(data)) % U32
  {
    var i, len: nat := 0, |data|;
    result := start;
    while len > 1
      invariant 2 * i + len == |data| && result == (rest + LittleSum(data, i)) % U32
    {
      SumWraps(rest + LittleSum(data, i), Little(data, i));
      var low: nat, high: nat := data[2 * i], data[2 * i + 1];
      result := (result + (low + 256 * high)) % U32;
      i, len := i + 1, len - 2;
    }
    if len > 0 {
      SumWraps(rest + LittleSum(data, i), Little(data, i));
      result := (result + data[2 * i]) % U32;
    }
  }

  // ---------------------------------------------------------------- byte order

  /** The sums in the two byte orders differ by a factor of 256, modulo 0xFFFF. */
  lemma {:induction false} OrderFactor(data: seq<Byte>, k: nat) returns (q: int)
    ensures BigSum(data, k) == 256 * LittleSum(data, k) - q * 0xFFFF
  {
    if k == 0 {
      q := 0;
    } else {
      q := OrderFactor(data, k - 1);
      q := q + At(data, 2 * k - 1);
    }
  }

  lemma {:induction false} OrderZero(data: seq<Byte>, k: nat)
    ensures BigSum(data, k) == 0 <==> LittleSum(data, k) == 0
  {
    if k > 0 { OrderZero(data, k - 1); }
  }

  /** Summing in the machine's byte order and storing in it gives the bytes that RFC 1071
      defines in network order. */
  lemma ByteOrder(data: seq<Byte>, k: nat)
    ensures Ones(BigSum(data, k)) == Swap(Ones(LittleSum(data, k)))
  {
    var l, b := LittleSum(data, k), BigSum(data, k);
    OrderZero(data, k);
    if l > 0 {
      var q := OrderFactor(data, k);
      var p := OnesIs(l);
      var x := Ones(l);
      var h := x / 256;
      assert 256 * x == Swap(x) + h * 0xFFFF;
      assert b == Swap(x) + (h + 256 * p - q) * 0xFFFF;
      OnesUnique(b, Swap(x), h + 256 * p - q);
    }
  }

  // ---------------------------------------------------------------- the definition of the checksum

  /** The sum of RFC 1071: 16-bit words in network order, a missing last byte being zero. */
  ghost function NetworkSum(data: seq<Byte>): nat { ByteSum(data, |data|, 256, 1) }

  lemma SwapComplement(x: nat)
    requires x < U16
    ensures Swap(0xFFFF - x) == 0xFFFF - Swap(x)
  {
  }

  /** As long as no carry is lost, the checksum read in network order is the one of RFC 1071. */
  lemma DefinedChecksum(data: seq<Byte>)
    requires Sum(data) < U32
    ensures Swap(ChecksumOf(Sum(data))) == 0xFFFF - Ones(NetworkSum(data))
  {
    NetworkIs(data);
    ByteOrder(data, Words(data));
    SwappedChecksum(Sum(data), NetworkSum(data));
  }

  lemma NetworkIs(data: seq<Byte>)
    ensures NetworkSum(data) == BigSum(data, Words(data))
  {
    BigIsBytes(data, Words(data));
  }

  lemma SwappedChecksum(sum: nat, net: nat)
    requires sum < U32 && Ones(net) == Swap(Ones(sum))
    ensures Swap(ChecksumOf(sum)) == 0xFFFF - Ones(net)
  {
    SwapComplement(Ones(sum));
    assert sum % U32 == sum;
  }

  lemma {:induction false} BytesAppend(x: seq<Byte>, y: seq<Byte>, n: nat, a: nat, b: nat)
    requires |x| % 2 == 0 && n <= |y|
    ensures ByteSum(x + y, |x| + n, a, b) == ByteSum(x, |x|, a, b) + ByteSum(y, n, a, b)
  {
    if n == 0 {
      BytesPrefix(x, y, |x|, a, b);
    } else {
      BytesAppend(x, y, n - 1, a, b);
      assert (x + y)[|x| + n - 1] == y[n - 1] && (|x| + n - 1) % 2 == (n - 1) % 2;
    }
  }

  lemma {:induction false} BytesPrefix(x: seq<Byte>, y: seq<Byte>, n: nat, a: nat, b: nat)
    requires n <= |x|
    ensures ByteSum(x + y, n, a, b) == ByteSum(x, n, a, b)
  {
    if n > 0 { BytesPrefix(x, y, n - 1, a, b); }
  }

  /** The checksum of a TCP or UDP segment is the one of RFC 1071 over its pseudo header and all its
      bytes, for an odd number of them too. */
  lemma SegmentChecksum(saddr: nat, daddr: nat, protocol: Byte, data: seq<Byte>)
    requires saddr < U32 && daddr < U32 && |data| + 12 <= 0x2_0000
    ensures var header := PseudoHeader(saddr, daddr, protocol, |data|);
      Swap(ChecksumOf(Pseudo(saddr, daddr, protocol, |data|) + Sum(data))) == 0xFFFF - Ones(NetworkSum(header + data))
  {
    var header := PseudoHeader(saddr, daddr, protocol, |data|);
    PseudoIsSum(saddr, daddr, protocol, |data|);
    SumIsBytes(header);
    SumIsBytes(data);
    SumIsBytes(header + data);
    BytesAppend(header, data, |data|, 1, 256);
    SumFits(header + data, Words(header + data));
    DefinedChecksum(header + data);
  }
}
