/** The checksum and the two-layer byte cipher of the network packet. */
module PacketCodec {
  import opened Basics

  const HEADER_MAX_SIZE: nat := 5 // code, len (2 bytes, low first), randKey, checkSum

  function Pow2(n: nat): (p: nat)
    ensures p > 0
  {
    if n == 0 then 1 else 2 * Pow2(n - 1)
  }

  /** The lowest n bits of the exclusive or. */
  function Xor(a: nat, b: nat, n: nat): (r: nat)
    ensures r < Pow2(n)
  {
    if n == 0 then 0 else 2 * Xor(a / 2, b / 2, n - 1) + if a % 2 == b % 2 then 0 else 1
  }

  lemma {:induction false} XorTwice(a: nat, b: nat, n: nat)
    requires a < Pow2(n)
    ensures Xor(Xor(a, b, n), b, n) == a
  {
    if n > 0 {
      XorTwice(a / 2, b / 2, n - 1);
      HalfAndBit(Xor(a / 2, b / 2, n - 1), if a % 2 == b % 2 then 0 else 1);
    }
  }

  lemma HalfAndBit(half: nat, bit: nat)
    requires bit < 2
    ensures (2 * half + bit) / 2 == half && (2 * half + bit) % 2 == bit
  {
  }

  // ++i on a byte
  function Next(i: Byte): Byte {
    if i == 0xff then 0 else i + 1
  }

  // A byte masked with a number, which is computed as an int and then cut to a byte.
  function Masked(a: Byte, mask: nat): (r: Byte) {
    assert Pow2(8) == 0x100;
    Xor(a, mask, 8)
  }

  lemma MaskedTwice(a: Byte, mask: nat)
    ensures Masked(Masked(a, mask), mask) == a
  {
    assert Pow2(8) == 0x100;
    XorTwice(a, mask, 8);
  }

  // Bit k of a number, the lowest being bit 0.
  function Bit(a: nat, k: nat): (b: nat)
    ensures b < 2
  {
    if k == 0 then a % 2 else Bit(a / 2, k - 1)
  }

  lemma {:induction false} BitOfXor(a: nat, b: nat, n: nat, k: nat)
    requires k < n
    ensures Bit(Xor(a, b, n), k) == if Bit(a, k) == Bit(b, k) then 0 else 1
  {
    HalfAndBit(Xor(a / 2, b / 2, n - 1), if a % 2 == b % 2 then 0 else 1);
    if k > 0 {
      BitOfXor(a / 2, b / 2, n - 1, k - 1);
    }
  }

  lemma {:induction false} BitsDetermine(a: nat, b: nat, n: nat)
    requires a < Pow2(n) && b < Pow2(n) && forall k: nat :: k < n ==> Bit(a, k) == Bit(b, k)
    ensures a == b
  {
    if n > 0 {
      assert Bit(a, 0) == Bit(b, 0);
      forall k: nat | k < n - 1 ensures Bit(a / 2, k) == Bit(b / 2, k) {
        assert Bit(a, k + 1) == Bit(b, k + 1);
      }
      BitsDetermine(a / 2, b / 2, n - 1);
    }
  }

  /** r is, in each of its eight bits, the exclusive or of a and the number b. */
  ghost predicate IsXor(r: Byte, a: Byte, b: nat) {
    forall k: nat :: k < 8 ==> Bit(r, k) == if Bit(a, k) == Bit(b, k) then 0 else 1
  }

  /** Masking is the exclusive or of the low eight bits. */
  lemma MaskedIff(r: Byte, a: Byte, mask: nat)
    ensures r == Masked(a, mask) <==> IsXor(r, a, mask)
  {
    assert Pow2(8) == 0x100;
    forall k: nat | k < 8 ensures Bit(Masked(a, mask), k) == if Bit(a, k) == Bit(mask, k) then 0 else 1 {
      BitOfXor(a, mask, 8, k);
    }
    if IsXor(r, a, mask) {
      BitsDetermine(r, Masked(a, mask), 8);
    }
  }

  // The two cipher layers: each byte is masked with the layer's last byte, a key and the count i.
  function Encrypt(s: seq<Byte>, randKey: Byte, key: Byte, P: Byte, E: Byte, i: nat): (r: seq<Byte>)
    ensures |r| == |s|
  {
    if s == [] then []
    else
      var P' := Masked(s[0], P + randKey + i);
      var E' := Masked(P', E + key + i);
      [E'] + Encrypt(s[1..], randKey, key, P', E', i + 1)
  }

  function Decrypt(s: seq<Byte>, randKey: Byte, key: Byte, P: Byte, E: Byte, i: nat): (r: seq<Byte>)
    ensures |r| == |s|
  {
    if s == [] then []
    else
      var P' := Masked(s[0], E + key + i);
      [Masked(P', P + randKey + i)] + Decrypt(s[1..], randKey, key, P', s[0], i + 1)
  }

  /** Byte i of the cipher: the inner byte is the plain byte xor (previous inner byte + randKey +
      count), and the outer byte the inner one xor (previous outer byte + key + count). */
  ghost predicate CipherAt(plain: seq<Byte>, inner: seq<Byte>, outer: seq<Byte>, randKey: Byte, key: Byte,
                           first: nat, i: nat)
    requires |inner| == |outer| == |plain| + 1 && i < |plain|
  {
    && IsXor(inner[i + 1], plain[i], inner[i] + randKey + first + i)
    && IsXor(outer[i + 1], inner[i + 1], outer[i] + key + first + i)
  }

  /** The law of the cipher, in plain terms; entry 0 of inner and outer is what they start from. */
  ghost predicate CipherLaw(plain: seq<Byte>, inner: seq<Byte>, outer: seq<Byte>, randKey: Byte, key: Byte,
                            first: nat) {
    && |inner| == |outer| == |plain| + 1
    && forall i: nat :: i < |plain| ==> CipherAt(plain, inner, outer, randKey, key, first, i)
  }

  lemma {:induction false} EncryptLaw(s: seq<Byte>, randKey: Byte, key: Byte, P: Byte, E: Byte, i: nat)
      returns (inner: seq<Byte>)
    ensures CipherLaw(s, inner, [E] + Encrypt(s, randKey, key, P, E, i), randKey, key, i) && inner[0] == P
  {
    if s == [] {
      inner := [P];
    } else {
      hide Masked, IsXor;
      var P' := Masked(s[0], P + randKey + i);
      var E' := Masked(P', E + key + i);
      MaskedIff(P', s[0], P + randKey + i);
      MaskedIff(E', P', E + key + i);
      var more := EncryptLaw(s[1..], randKey, key, P', E', i + 1);
      inner := [P] + more;
      var outer, rest := [E] + Encrypt(s, randKey, key, P, E, i), [E'] + Encrypt(s[1..], randKey, key, P', E', i + 1);
      assert outer == [E] + rest;
      forall j: nat | j < |s| ensures CipherAt(s, inner, outer, randKey, key, i, j) {
        if j > 0 {
          assert CipherAt(s[1..], more, rest, randKey, key, i + 1, j - 1);
        }
      }
    }
  }

  /** The law leaves no choice: it holds of the bytes that Encrypt gives and of no others. */
  lemma {:induction false} LawIsEncrypt(s: seq<Byte>, inner: seq<Byte>, outer: seq<Byte>, randKey: Byte, key: Byte,
                                        i: nat)
    requires CipherLaw(s, inner, outer, randKey, key, i)
    ensures outer[1..] == Encrypt(s, randKey, key, inner[0], outer[0], i)
  {
    if s != [] {
      hide Masked, IsXor;
      assert CipherAt(s, inner, outer, randKey, key, i, 0);
      MaskedIff(inner[1], s[0], inner[0] + randKey + i);
      MaskedIff(outer[1], inner[1], outer[0] + key + i);
      var s', inner', outer', i' := s[1..], inner[1..], outer[1..], i + 1;
      forall j: nat | j < |s'| ensures CipherAt(s', inner', outer', randKey, key, i', j) {
        assert CipherAt(s, inner, outer, randKey, key, i, j + 1);
      }
      LawIsEncrypt(s', inner', outer', randKey, key, i');
      assert outer[1..] == [outer[1]] + outer[1..][1..];
    }
  }

  // Both layers start from 0 and the count from 1.
  ghost predicate FromZero(plain: seq<Byte>, inner: seq<Byte>, cipher: seq<Byte>, randKey: Byte, key: Byte) {
    CipherLaw(plain, inner, [0] + cipher, randKey, key, 1) && inner[0] == 0
  }

  /** `cipher` is what the law makes of `plain`. */
  ghost predicate Enciphers(plain: seq<Byte>, cipher: seq<Byte>, randKey: Byte, key: Byte) {
    exists inner: seq<Byte> :: FromZero(plain, inner, cipher, randKey, key)
  }

  lemma EnciphersIff(plain: seq<Byte>, cipher: seq<Byte>, randKey: Byte, key: Byte)
    ensures Enciphers(plain, cipher, randKey, key) <==> cipher == Encrypt(plain, randKey, key, 0, 0, 1)
  {
    hide CipherLaw, Encrypt;
    if Enciphers(plain, cipher, randKey, key) {
      var inner :| FromZero(plain, inner, cipher, randKey, key);
      LawIsEncrypt(plain, inner, [0] + cipher, randKey, key, 1);
      assert ([0] + cipher)[1..] == cipher;
    }
    var inner := EncryptLaw(plain, randKey, key, 0, 0, 1);
    assert FromZero(plain, inner, Encrypt(plain, randKey, key, 0, 0, 1), randKey, key);
  }

  lemma {:induction false} DecryptEncrypt(s: seq<Byte>, randKey: Byte, key: Byte, P: Byte, E: Byte, i: nat)
    ensures Decrypt(Encrypt(s, randKey, key, P, E, i), randKey, key, P, E, i) == s
  {
    hide Masked;
    if s != [] {
      var P' := Masked(s[0], P + randKey + i);
      var E' := Masked(P', E + key + i);
      MaskedTwice(s[0], P + randKey + i);
      MaskedTwice(P', E + key + i);
      DecryptEncrypt(s[1..], randKey, key, P', E', i + 1);
    }
  }

  lemma {:induction false} EncryptDecrypt(s: seq<Byte>, randKey: Byte, key: Byte, P: Byte, E: Byte, i: nat)
    ensures Encrypt(Decrypt(s, randKey, key, P, E, i), randKey, key, P, E, i) == s
  {
    hide Masked;
    if s != [] {
      var P' := Masked(s[0], E + key + i);
      MaskedTwice(s[0], E + key + i);
      MaskedTwice(P', P + randKey + i);
      EncryptDecrypt(s[1..], randKey, key, P', s[0], i + 1);
    }
  }

  function Plus(a: Byte, b: Byte): (r: Byte)
    ensures r == (a + b) % 0x100
  {
    if a + b < 0x100 then a + b else a + b - 0x100
  }

  lemma PlusAssociates(a: Byte, b: Byte, c: Byte)
    ensures Plus(Plus(a, b), c) == Plus(a, Plus(b, c)) && Plus(a, 0) == a
  {
  }

  lemma PlusCancels(a: Byte, b: Byte)
    ensures Plus(a, b) == a <==> b == 0
  {
  }

  function Sum(s: seq<Byte>): Byte {
    if s == [] then 0 else Plus(Sum(s[..|s| - 1]), s[|s| - 1])
  }

  lemma SumOfOne(x: Byte)
    ensures Sum([x]) == x
  {
    assert [x][..0] == [];
  }

  lemma {:induction false} SumOfBoth(s: seq<Byte>, t: seq<Byte>)
    ensures Sum(s + t) == Plus(Sum(s), Sum(t))
  {
    hide Plus;
    if t == [] {
      assert s + t == s;
      PlusAssociates(Sum(s), 0, 0);
    } else {
      var last := |t| - 1;
      SumOfBoth(s, t[..last]);
      assert (s + t)[..|s + t| - 1] == s + t[..last];
      PlusAssociates(Sum(s), Sum(t[..last]), t[last]);
    }
  }

  // How many bytes from the checksum on are encoded: the BYTE that size + 1 is cut to.
  function EncodedLength(size: nat): (n: Byte)
    ensures n <= size + 1 && (size <= 254 ==> n == size + 1)
  {
    (size + 1) % 0x100
  }

  // How many payload bytes the receiver sums up.
  function Summed(size: nat): (n: nat)
    ensures n <= Announced(size)
  {
    if EncodedLength(size) == 0 then 0 else EncodedLength(size) - 1
  }

  // How many payload bytes the sender sums up: the USHORT that size is cut to.
  function Announced(size: nat): (n: nat)
    ensures n <= size && (size <= 0xffff ==> n == size)
  {
    size % 0x1_0000
  }

  /** A packet buffer up to its rear: five header bytes and the payload. */
  type Packet = b: seq<Byte> | |b| >= HEADER_MAX_SIZE witness [0, 0, 0, 0, 0]

  function Size(b: Packet): nat {
    |b| - HEADER_MAX_SIZE
  }

  /** The five header bytes: the code, the payload's length in two bytes, low byte first, the
      random key, and the sum of the payload bytes. */
  ghost predicate IsHeader(b: Packet, code: Byte, randKey: Byte) {
    && b[0] == code && b[3] == randKey
    && b[1] as int + 0x100 * (b[2] as int) == (|b| - 5) % 0x1_0000
    && (|b| - 5 < 0x1_0000 ==> b[4] == Sum(b[5..]))
  }

  function WithHeader(b: Packet, code: Byte, randKey: Byte): (r: Packet)
    ensures |r| == |b| && r[HEADER_MAX_SIZE..] == b[HEADER_MAX_SIZE..] && IsHeader(r, code, randKey)
  {
    var n := Announced(Size(b));
    var r := [code, n % 0x100, n / 0x100, randKey, Sum(b[HEADER_MAX_SIZE..HEADER_MAX_SIZE + n])] + b[HEADER_MAX_SIZE..];
    assert r[HEADER_MAX_SIZE..] == b[HEADER_MAX_SIZE..];
    assert n == Size(b) ==> b[HEADER_MAX_SIZE..HEADER_MAX_SIZE + n] == b[HEADER_MAX_SIZE..];
    r
  }

  // The end of the part of the packet that is encoded; it starts at the checksum.
  function CodedEnd(b: Packet): (n: nat)
    ensures 4 <= n <= |b|
  {
    4 + EncodedLength(Size(b))
  }

  function CodedPart(b: Packet): (s: seq<Byte>)
    ensures |s| == EncodedLength(Size(b))
  {
    b[4..CodedEnd(b)]
  }

  function Replaced(b: Packet, part: seq<Byte>): (r: Packet)
    requires |part| == EncodedLength(Size(b))
    ensures |r| == |b|
  {
    b[..4] + part + b[CodedEnd(b)..]
  }

  lemma ReplacedTwice(b: Packet, part: seq<Byte>, part': seq<Byte>)
    requires |part| == |part'| == EncodedLength(Size(b))
    ensures CodedPart(Replaced(b, part)) == part && Replaced(b, part)[3] == b[3]
    ensures Replaced(Replaced(b, part), part') == Replaced(b, part')
    ensures Replaced(b, CodedPart(b)) == b
  {
  }

  function Encoded(b: Packet, key: Byte): (r: Packet)
    ensures |r| == |b|
  {
    Replaced(b, Encrypt(CodedPart(b), b[3], key, 0, 0, 1))
  }

  function Decoded(b: Packet, key: Byte): (r: Packet)
    ensures |r| == |b|
  {
    Replaced(b, Decrypt(CodedPart(b), b[3], key, 0, 0, 1))
  }

  lemma EncodedParts(b: Packet, key: Byte)
    ensures var n, e := CodedEnd(b), Encoded(b, key);
            && e[..4] == b[..4] && e[3] == b[3] && e[n..] == b[n..]
            && e[4..n] == Encrypt(b[4..n], b[3], key, 0, 0, 1)
  {
    hide Encrypt;
  }

  /** What Decode reports: the checksum fits the payload, as far as it is summed up. */
  predicate Accepted(b: Packet) {
    Sum(b[HEADER_MAX_SIZE..HEADER_MAX_SIZE + Summed(Size(b))]) == b[4]
  }

  /** Decoding undoes encoding and the other way round, whatever the keys and the packet. */
  lemma CodecIsBijective(b: Packet, key: Byte)
    ensures Decoded(Encoded(b, key), key) == b && Encoded(Decoded(b, key), key) == b
  {
    hide Encrypt, Decrypt, CodedPart, Replaced;
    var part := CodedPart(b);
    var e, d := Encrypt(part, b[3], key, 0, 0, 1), Decrypt(part, b[3], key, 0, 0, 1);
    DecryptEncrypt(part, b[3], key, 0, 0, 1);
    EncryptDecrypt(part, b[3], key, 0, 0, 1);
    ReplacedTwice(b, e, part);
    ReplacedTwice(b, d, part);
  }

  /** The loop counter of Encode and Decode after k turns. */
  function Counter(k: nat): Byte {
    if k == 0 then 1 else Next(Counter(k - 1))
  }

  /** The loops end: after some number of turns the counter has passed the length. */
  ghost predicate LoopsEnd(size: nat) {
    exists k: nat :: Counter(k) > EncodedLength(size)
  }

  lemma {:induction false} CounterValue(k: nat)
    requires k <= 254
    ensures Counter(k) == k + 1
  {
    if k > 0 {
      CounterValue(k - 1);
    }
  }

  /** The counter is a BYTE and never passes 255: the loops go on for ever exactly when the
      size is 254 above a multiple of 256. */
  lemma LoopsEndIff(size: nat)
    ensures LoopsEnd(size) <==> size % 0x100 != 254
    ensures LoopsEnd(size) <==> EncodedLength(size) != 255
  {
    if EncodedLength(size) != 255 {
      CounterValue(EncodedLength(size));
    }
  }

  /** The packet gets through: Encode and Decode return, and Decode reports success. */
  ghost predicate GetsThrough(b: Packet, code: Byte, randKey: Byte, key: Byte) {
    LoopsEnd(Size(b)) && Accepted(Decoded(Encoded(WithHeader(b, code, randKey), key), key))
  }

  /** The payload bytes that the sender sums up and the receiver does not. */
  function Unsummed(b: Packet): seq<Byte> {
    b[HEADER_MAX_SIZE + Summed(Size(b))..HEADER_MAX_SIZE + Announced(Size(b))]
  }

  /** Decoding restores what the sender had before it encoded; and a packet gets through if and
      only if its size is not 254 above a multiple of 256 and the payload bytes that only the
      sender sums up add up to 0. */
  lemma GetsThroughIff(b: Packet, code: Byte, randKey: Byte, key: Byte)
    ensures var sent := WithHeader(b, code, randKey); Decoded(Encoded(sent, key), key) == sent
    ensures GetsThrough(b, code, randKey, key) <==> Size(b) % 0x100 != 254 && Sum(Unsummed(b)) == 0
  {
    LoopsEndIff(Size(b));
    CodecIsBijective(WithHeader(b, code, randKey), key);
    AcceptedAsSent(b, code, randKey);
    hide Encoded, Decoded, WithHeader, LoopsEnd, Unsummed;
  }

  lemma AcceptedAsSent(b: Packet, code: Byte, randKey: Byte)
    ensures Accepted(WithHeader(b, code, randKey)) <==> Sum(Unsummed(b)) == 0
  {
    var sent := WithHeader(b, code, randKey);
    var h, k, n := HEADER_MAX_SIZE, HEADER_MAX_SIZE + Summed(Size(b)), HEADER_MAX_SIZE + Announced(Size(b));
    assert sent[h..k] == b[h..k];
    assert b[h..n] == b[h..k] + b[k..n];
    SumOfBoth(b[h..k], b[k..n]);
    PlusCancels(Sum(b[h..k]), Sum(b[k..n]));
  }

  /** For payloads of at most 253 bytes the round trip always succeeds. */
  lemma RoundTrip(b: Packet, code: Byte, randKey: Byte, key: Byte)
    requires Size(b) <= 253
    ensures var sent := WithHeader(b, code, randKey);
            var got := Decoded(Encoded(sent, key), key);
            && GetsThrough(b, code, randKey, key)
            && got == sent && got[HEADER_MAX_SIZE..] == b[HEADER_MAX_SIZE..]
  {
    GetsThroughIff(b, code, randKey, key);
    assert Unsummed(b) == [];
  }

  lemma {:induction false} SumOfZeros(s: seq<Byte>)
    requires forall i :: 0 <= i < |s| ==> s[i] == 0
    ensures Sum(s) == 0
  {
    if s != [] {
      SumOfZeros(s[..|s| - 1]);
    }
  }

  /** A payload of 255 bytes that Encode and Decode return from and that arrives undamaged, but
      is rejected. */
  lemma LongPacketRejected(code: Byte, randKey: Byte, key: Byte)
    ensures var b: Packet := seq(260, i => if i == 5 then 1 else 0);
            LoopsEnd(Size(b)) && !GetsThrough(b, code, randKey, key)
  {
    var b: Packet := seq(260, i => if i == 5 then 1 else 0);
    LoopsEndIff(255);
    GetsThroughIff(b, code, randKey, key);
    hide GetsThrough;
    var payload := Unsummed(b);
    assert payload == [1] + payload[1..];
    SumOfBoth([1], payload[1..]);
    SumOfZeros(payload[1..]);
    assert Sum([1]) == 1;
  }

  class CNetPacket {
    const mBuffer: array<Byte>
    var mRear: int
    var mbHeaderSet: bool
    const sCode: Byte
    const sPacketKey: Byte

    ghost predicate Valid()
      reads this
    {
      HEADER_MAX_SIZE <= mRear <= mBuffer.Length
    }

    /** The packet: mZero is the start of the buffer and mFront lies behind the header. */
    ghost function Contents(): (b: Packet)
      requires Valid()
      reads this, mBuffer
    {
      mBuffer[..mRear]
    }

    constructor (iBufferSize: nat, code: Byte, key: Byte)
      ensures Valid() && Size(Contents()) == 0 && !mbHeaderSet && sCode == code && sPacketKey == key
      ensures fresh(mBuffer) && mBuffer.Length == iBufferSize + HEADER_MAX_SIZE
    {
      mBuffer := new Byte[iBufferSize + HEADER_MAX_SIZE](_ => 0);
      mRear, mbHeaderSet, sCode, sPacketKey := HEADER_MAX_SIZE, false, code, key;
    }

    /** Appends bytes for which there is room. */
    method PutData(chpSrc: seq<Byte>)
      requires Valid() && mRear + |chpSrc| <= mBuffer.Length
      modifies this`mRear, mBuffer
      ensures Valid() && Contents() == old(Contents()) + chpSrc
    {
      ghost var b := Contents();
      for i := 0 to |chpSrc|
        invariant mRear == old(mRear) && mBuffer[..mRear + i] == b + chpSrc[..i]
      {
        mBuffer[mRear + i] := chpSrc[i];
        assert mBuffer[..mRear + i + 1] == mBuffer[..mRear + i] + [chpSrc[i]];
      }
      assert chpSrc[..|chpSrc|] == chpSrc;
      mRear := mRear + |chpSrc|;
    }

    /** The first call puts the header in and encodes; later calls change nothing. */
    method ReadySend(rand: Byte)
      requires Valid() && (mbHeaderSet || LoopsEnd(Size(Contents())))
      modifies this`mbHeaderSet, mBuffer
      ensures Valid() && mbHeaderSet
      ensures Contents() == if old(mbHeaderSet) then old(Contents())
                            else Encoded(WithHeader(old(Contents()), sCode, rand), sPacketKey)
    {
      if mbHeaderSet {
        return;
      }
      SetHeader(rand);
      Encode();
      mbHeaderSet := true;
    }

    method SetHeader(rand: Byte)
      requires Valid()
      modifies mBuffer
      ensures Contents() == WithHeader(old(Contents()), sCode, rand)
      ensures IsHeader(Contents(), sCode, rand) && Contents()[HEADER_MAX_SIZE..] == old(Contents())[HEADER_MAX_SIZE..]
    {
      ghost var b := Contents();
      var pFront := HEADER_MAX_SIZE;
      var sum: Byte := 0;
      var len := (mRear - HEADER_MAX_SIZE) % 0x1_0000;
      for i := 0 to len
        invariant pFront == HEADER_MAX_SIZE + i && sum == Sum(b[HEADER_MAX_SIZE..pFront])
        invariant mBuffer[..mRear] == b
      {
        SumOneMore(b, HEADER_MAX_SIZE, pFront);
        sum := Plus(sum, mBuffer[pFront]);
        pFront := pFront + 1;
      }
      mBuffer[0], mBuffer[1], mBuffer[2], mBuffer[3], mBuffer[4] := sCode, len % 0x100, len / 0x100, rand, sum;
    }

    // (BYTE)(mRear - mFront + 1)
    method CodedLength() returns (len: Byte)
      requires Valid()
      ensures len == EncodedLength(Size(Contents()))
    {
      len := (mRear - HEADER_MAX_SIZE + 1) % 0x100;
    }

    method Encode()
      requires Valid() && LoopsEnd(Size(Contents()))
      modifies mBuffer
      ensures Contents() == Encoded(old(Contents()), sPacketKey)
      ensures var n := 4 + (mRear - HEADER_MAX_SIZE + 1) % 0x100;
              && n <= mRear && Contents()[..4] == old(Contents())[..4] && Contents()[n..] == old(Contents())[n..]
              && Enciphers(old(Contents())[4..n], Contents()[4..n], mBuffer[3], sPacketKey)
    {
      EncodeBytes();
      ghost var b := old(Contents());
      EnciphersIff(CodedPart(b), Encrypt(CodedPart(b), b[3], sPacketKey, 0, 0, 1), b[3], sPacketKey);
      EncodedParts(b, sPacketKey);
      hide Enciphers, Encoded;
    }

    method EncodeBytes()
      requires Valid() && LoopsEnd(Size(Contents()))
      modifies mBuffer
      ensures Contents() == Encoded(old(Contents()), sPacketKey)
    {
      hide Encrypt, Masked, EncodedLength;
      ghost var b := Contents();
      LoopsEndIff(Size(b));
      hide LoopsEnd;
      var pFront := HEADER_MAX_SIZE - 1;
      var P: Byte, E: Byte, D: Byte := 0, 0, 0;
      var randKey := mBuffer[3];
      var len := CodedLength();
      ghost var part, done := CodedPart(b), [];
      ghost var all := Encrypt(part, randKey, sPacketKey, 0, 0, 1);
      assert part[0..] == part;
      var i: Byte := 1;
      while i <= len
        invariant 1 <= i <= len + 1 && pFront == 3 + i && i == Counter(pFront - 4)
        invariant all == done + Encrypt(part[i - 1..], randKey, sPacketKey, P, E, i)
        invariant |done| == i - 1 && mBuffer[..mRear] == b[..4] + done + b[pFront..]
        decreases len - i
      {
        D := mBuffer[pFront];
        EncryptOne(part[i - 1..], randKey, sPacketKey, P, E, i);
        P := Masked(D, P + randKey + i);
        E := Masked(P, E + sPacketKey + i);
        StoreOne(b, done, pFront, E);
        mBuffer[pFront] := E;
        done := done + [E];
        pFront := pFront + 1;
        i := Next(i);
      }
      EncryptNone(randKey, sPacketKey, P, E, i);
      assert part[i - 1..] == [] && all == done;
      assert mBuffer[..mRear] == Replaced(b, done);
    }

    /** Decodes in place and says whether the checksum fits. */
    method Decode() returns (ok: bool)
      requires Valid() && LoopsEnd(Size(Contents()))
      modifies mBuffer
      ensures Contents() == Decoded(old(Contents()), sPacketKey) && ok == Accepted(Contents())
      ensures Encoded(Contents(), sPacketKey) == old(Contents())
    {
      CodecIsBijective(Contents(), sPacketKey);
      hide Encoded, Decoded, Accepted;
      DecodeBytes();
      ok := SumFits();
    }

    method DecodeBytes()
      requires Valid() && LoopsEnd(Size(Contents()))
      modifies mBuffer
      ensures Contents() == Decoded(old(Contents()), sPacketKey)
    {
      hide Decrypt, Masked, EncodedLength;
      ghost var b := Contents();
      LoopsEndIff(Size(b));
      hide LoopsEnd;
      var pFront := HEADER_MAX_SIZE - 1;
      var curP: Byte, prevP: Byte, curE: Byte, prevE: Byte, D: Byte := 0, 0, 0, 0, 0;
      var randKey := mBuffer[3];
      var len := CodedLength();
      ghost var part, done := CodedPart(b), [];
      ghost var all := Decrypt(part, randKey, sPacketKey, 0, 0, 1);
      assert part[0..] == part;
      var i: Byte := 1;
      while i <= len
        invariant 1 <= i <= len + 1 && pFront == 3 + i && i == Counter(pFront - 4)
        invariant all == done + Decrypt(part[i - 1..], randKey, sPacketKey, prevP, prevE, i)
        invariant |done| == i - 1 && mBuffer[..mRear] == b[..4] + done + b[pFront..]
        decreases len - i
      {
        curE := mBuffer[pFront];
        DecryptOne(part[i - 1..], randKey, sPacketKey, prevP, prevE, i);
        curP := Masked(curE, prevE + sPacketKey + i);
        D := Masked(curP, prevP + randKey + i);
        StoreOne(b, done, pFront, D);
        mBuffer[pFront] := D;
        done := done + [D];
        prevE := curE;
        prevP := curP;
        pFront := pFront + 1;
        i := Next(i);
      }
      DecryptNone(randKey, sPacketKey, prevP, prevE, i);
      assert part[i - 1..] == [] && all == done;
      assert mBuffer[..mRear] == Replaced(b, done);
    }

    method SumFits() returns (ok: bool)
      requires Valid()
      ensures ok == Accepted(Contents())
    {
      ghost var b := Contents();
      var len := CodedLength();
      var sum: Byte := 0;
      var pFront := HEADER_MAX_SIZE;
      var i: int := 1;
      while i < len
        invariant 1 <= i && (i <= len || i == 1) && pFront == 4 + i
        invariant sum == Sum(b[HEADER_MAX_SIZE..pFront])
      {
        SumOneMore(b, HEADER_MAX_SIZE, pFront);
        sum := Plus(sum, mBuffer[pFront]);
        pFront := pFront + 1;
        i := i + 1;
      }
      return sum == mBuffer[4];
    }
  }

  /** A payload sent and received in one buffer: it comes back, and Decode reports success if and
      only if the bytes that only the sender sums up add up to 0, as they do up to 253 bytes. */
  method Transmit(payload: seq<Byte>, code: Byte, key: Byte, rand: Byte) returns (ok: bool, got: seq<Byte>)
    requires LoopsEnd(|payload|)
    ensures got == payload
    ensures ok <==> Sum(payload[Summed(|payload|)..Announced(|payload|)]) == 0
    ensures |payload| <= 253 ==> ok
  {
    hide Encoded, Decoded, WithHeader, LoopsEnd, Accepted, Sum;
    var packet := new CNetPacket(|payload|, code, key);
    packet.PutData(payload);
    ghost var b := packet.Contents();
    assert b[HEADER_MAX_SIZE..] == payload;
    packet.ReadySend(rand);
    ok := packet.Decode();
    CodecIsBijective(WithHeader(b, code, rand), key);
    AcceptedAsSent(b, code, rand);
    SumOfNone();
    assert Unsummed(b) == payload[Summed(|payload|)..Announced(|payload|)];
    got := packet.mBuffer[HEADER_MAX_SIZE..packet.mRear];
    assert got == packet.Contents()[HEADER_MAX_SIZE..];
  }

  lemma SumOfNone()
    ensures Sum([]) == 0
  {
  }

  lemma DecryptOne(s: seq<Byte>, randKey: Byte, key: Byte, P: Byte, E: Byte, i: nat)
    requires s != []
    ensures var P' := Masked(s[0], E + key + i);
            Decrypt(s, randKey, key, P, E, i) ==
              [Masked(P', P + randKey + i)] + Decrypt(s[1..], randKey, key, P', s[0], i + 1)
  {
  }

  lemma DecryptNone(randKey: Byte, key: Byte, P: Byte, E: Byte, i: nat)
    ensures Decrypt([], randKey, key, P, E, i) == []
  {
  }

  // Storing the next byte of the coded part.
  lemma StoreOne(b: Packet, done: seq<Byte>, at: nat, x: Byte)
    requires at == 4 + |done| < |b|
    ensures (b[..4] + done + b[at..])[at := x] == b[..4] + (done + [x]) + b[at + 1..]
    ensures (b[..4] + done + b[at..])[at] == b[at]
  {
  }

  lemma SumOneMore(b: seq<Byte>, from: nat, to: nat)
    requires from <= to < |b|
    ensures Sum(b[from..to + 1]) == Plus(Sum(b[from..to]), b[to])
  {
    assert b[from..to + 1][..to - from] == b[from..to];
  }

  lemma EncryptOne(s: seq<Byte>, randKey: Byte, key: Byte, P: Byte, E: Byte, i: nat)
    requires s != []
    ensures var P' := Masked(s[0], P + randKey + i);
            var E' := Masked(P', E + key + i);
            Encrypt(s, randKey, key, P, E, i) == [E'] + Encrypt(s[1..], randKey, key, P', E', i + 1)
  {
  }

  lemma EncryptNone(randKey: Byte, key: Byte, P: Byte, E: Byte, i: nat)
    ensures Encrypt([], randKey, key, P, E, i) == []
  {
  }
}
