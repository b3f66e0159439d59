/**
 AES in counter mode, restarted at any offset of the audio file (audio/decryptor.go).
 The block cipher itself is a parameter; the mode follows section 6.5 and the standard
 incrementing function of appendix B.1 of NIST SP 800-38A.
 */
module CounterMode {
  import opened Common
  import opened Positional
  import opened ChunkedReaders

  const BLOCK_SIZE := 16

  type Block = s: seq<byte> | |s| == BLOCK_SIZE witness seq(BLOCK_SIZE, _ => 0)

  datatype Cipher = Cipher(encrypt: Block -> Block)

  const BASE_IV: seq<byte> :=
    [0x72, 0xe0, 0x67, 0xfb, 0xdd, 0xcb, 0xcf, 0x77, 0xeb, 0xe8, 0xbc, 0x64, 0x3f, 0x63, 0x0d, 0x93]

  const MAX_INT64 := 0x7fff_ffff_ffff_ffff
  const BASE_COUNTER := 0xebe8_bc64_3f63_0d93

  /** Exclusive or, bit by bit from the low end, of numbers of `w` bits. */
  function XorBits(a: nat, b: nat, w: nat): (r: nat)
    ensures r < Pow(2, w)
  {
    if w == 0 then 0 else (a + b) % 2 + 2 * XorBits(a / 2, b / 2, w - 1)
  }

  function Xor(a: byte, b: byte): byte {
    assert Pow(2, 8) == 256;
    XorBits(a, b, 8)
  }

  lemma {:induction false} XorTwice(a: nat, b: nat, w: nat)
    requires a < Pow(2, w)
    ensures XorBits(XorBits(a, b, w), b, w) == a
  {
    if w > 0 {
      XorTwice(a / 2, b / 2, w - 1);
      BitBack(a, b, XorBits(a / 2, b / 2, w - 1));
    }
  }

  lemma BitBack(a: nat, b: nat, y: nat)
    ensures var x := (a + b) % 2 + 2 * y;
            x / 2 == y && (x + b) % 2 == a % 2
  {
    var bit := (a + b) % 2;
    assert (bit + 2 * y) / 2 == y;
    assert (bit + 2 * y + b) % 2 == (bit + b) % 2;
    assert (bit + b) % 2 == a % 2;
  }

  /** Bit by bit it is exclusive or: a bit is set exactly where the two differ. */
  lemma {:induction false} XorBit(a: nat, b: nat, w: nat, k: nat)
    requires k < w
    ensures (XorBits(a, b, w) / Pow(2, k)) % 2 == 1 <==> (a / Pow(2, k)) % 2 != (b / Pow(2, k)) % 2
  {
    var rest := XorBits(a / 2, b / 2, w - 1);
    hide Pow;
    LowBit(a, b, rest);
    if k == 0 {
      PowZero(XorBits(a, b, w));
      PowZero(a);
      PowZero(b);
    } else {
      XorBit(a / 2, b / 2, w - 1, k - 1);
      HalfFirst(a, k);
      HalfFirst(b, k);
      HalfFirst(XorBits(a, b, w), k);
    }
  }

  lemma PowZero(n: nat)
    ensures n / Pow(2, 0) == n
  {
  }

  lemma HalfFirst(n: nat, k: nat)
    requires k > 0
    ensures n / Pow(2, k) == (n / 2) / Pow(2, k - 1)
  {
    DivDiv(n, 2, Pow(2, k - 1));
  }

  lemma LowBit(a: nat, b: nat, y: nat)
    ensures ((a + b) % 2 + 2 * y) % 2 == 1 <==> a % 2 != b % 2
    ensures ((a + b) % 2 + 2 * y) / 2 == y
  {
    assert ((a + b) % 2 + 2 * y) % 2 == (a + b) % 2;
  }

  lemma {:induction false} XorZero(b: nat, w: nat)
    requires b < Pow(2, w)
    ensures XorBits(0, b, w) == b
  {
    if w > 0 {
      XorZero(b / 2, w - 1);
    }
  }

  /** Byte `i` of the key stream that starts at counter block `iv`. */
  function KeyByte(c: Cipher, iv: Block, i: nat): byte {
    c.encrypt(Advance(iv, i / BLOCK_SIZE))[i % BLOCK_SIZE]
  }

  /** One sequential decryption of a whole text. */
  function Decrypt(c: Cipher, iv: Block, text: seq<byte>): (r: seq<byte>)
    ensures |r| == |text|
    ensures forall i :: 0 <= i < |r| ==> r[i] == Xor(text[i], KeyByte(c, iv, i))
  {
    seq(|text|, i requires 0 <= i < |text| => Xor(text[i], KeyByte(c, iv, i)))
  }

  /** Encryption and decryption are the same operation: what was encrypted under the key stream comes back. */
  lemma DecryptTwice(c: Cipher, iv: Block, text: seq<byte>)
    ensures Decrypt(c, iv, Decrypt(c, iv, text)) == text
  {
    var once := Decrypt(c, iv, text);
    forall i | 0 <= i < |text|
      ensures Xor(once[i], KeyByte(c, iv, i)) == text[i]
    {
      assert Pow(2, 8) == 256;
      XorTwice(text[i], KeyByte(c, iv, i), 8);
    }
  }

  /** Decrypting zeros gives the key stream. */
  lemma ZerosGiveKeyStream(c: Cipher, iv: Block, n: nat, i: nat)
    requires i < n
    ensures Decrypt(c, iv, seq(n, _ => 0))[i] == KeyByte(c, iv, i)
  {
    assert Pow(2, 8) == 256;
    XorZero(KeyByte(c, iv, i), 8);
  }

  /**
   Block `k` of the key stream is the encryption of the counter block that stands for the
   starting one plus `k`, modulo 2^128.
   */
  lemma KeyStreamBlock(c: Cipher, iv: Block, k: nat, n: nat)
    requires (k + 1) * BLOCK_SIZE <= n
    ensures Decrypt(c, iv, seq(n, _ => 0))[k * BLOCK_SIZE..(k + 1) * BLOCK_SIZE] == c.encrypt(CounterBlock(iv, k))
  {
    hide Decrypt, KeyByte, CounterBlock;
    CounterIsAdvance(iv, k);
    forall i | 0 <= i < BLOCK_SIZE
      ensures Decrypt(c, iv, seq(n, _ => 0))[k * BLOCK_SIZE + i] == c.encrypt(CounterBlock(iv, k))[i]
    {
      ZerosGiveKeyStream(c, iv, n, k * BLOCK_SIZE + i);
      KeyByteInBlock(c, iv, k, i);
    }
  }

  /** The block that stands for the number of `iv` plus `k`, modulo 2^128. */
  function CounterBlock(iv: Block, k: nat): Block {
    Fixed(256, (Value(256, iv) + k) % Pow(256, BLOCK_SIZE), BLOCK_SIZE)
  }

  lemma CounterIsAdvance(iv: Block, k: nat)
    ensures CounterBlock(iv, k) == Advance(iv, k)
  {
    hide Pow, Value, Fixed, Advance;
    AdvanceWraps(iv, k);
    FixedValue(256, Advance(iv, k));
  }

  lemma KeyByteInBlock(c: Cipher, iv: Block, k: nat, i: nat)
    requires i < BLOCK_SIZE
    ensures KeyByte(c, iv, k * BLOCK_SIZE + i) == c.encrypt(Advance(iv, k))[i]
  {
    hide Advance;
    DivModUnique(k, i, BLOCK_SIZE);
  }

  // ----- the stream

  /** A key stream in use: the next counter block and what is left of the last output block. */
  class CtrStream {
    const cipher: Cipher
    var ctr: Block
    var unused: seq<byte>

    /** `used` bytes of the key stream of `iv` have been consumed. */
    ghost predicate At(iv: Block, used: nat)
      reads this
    {
      && |unused| < BLOCK_SIZE
      && (used + |unused|) % BLOCK_SIZE == 0
      && ctr == Advance(iv, (used + |unused|) / BLOCK_SIZE)
      && forall i :: 0 <= i < |unused| ==> unused[i] == KeyByte(cipher, iv, used + i)
    }

    constructor (cipher: Cipher, iv: Block)
      ensures this.cipher == cipher && At(iv, 0)
    {
      this.cipher, this.ctr, this.unused := cipher, iv, [];
    }

    method NextKeyByte(ghost iv: Block, ghost used: nat) returns (k: byte)
      requires At(iv, used)
      modifies this
      ensures k == KeyByte(cipher, iv, used) && At(iv, used + 1)
    {
      if |unused| == 0 {
        var out := cipher.encrypt(ctr);
        forall i | 0 <= i < BLOCK_SIZE
          ensures out[i] == KeyByte(cipher, iv, used + i)
        {
          SameBlock(used, i);
        }
        ctr := Increment(ctr);
        k, unused := out[0], out[1..];
      } else {
        k, unused := unused[0], unused[1..];
      }
    }

    /** XOR the first `n` bytes of the buffer with the next `n` bytes of the key stream. */
    method XorKeyStream(dst: array<byte>, n: nat, ghost iv: Block, ghost used: nat)
      requires At(iv, used) && n <= dst.Length
      modifies this, dst
      ensures At(iv, used + n)
      ensures forall i :: 0 <= i < n ==> dst[i] == Xor(old(dst[i]), KeyByte(cipher, iv, used + i))
      ensures forall i :: n <= i < dst.Length ==> dst[i] == old(dst[i])
    {
      for j := 0 to n
        invariant At(iv, used + j)
        invariant forall i :: 0 <= i < j ==> dst[i] == Xor(old(dst[i]), KeyByte(cipher, iv, used + i))
        invariant forall i :: j <= i < dst.Length ==> dst[i] == old(dst[i])
      {
        var k := NextKeyByte(iv, used + j);
        dst[j] := Xor(dst[j], k);
      }
    }
  }

  lemma SameBlock(used: nat, i: nat)
    requires used % BLOCK_SIZE == 0 && i < BLOCK_SIZE
    ensures (used + i) / BLOCK_SIZE == used / BLOCK_SIZE && (used + i) % BLOCK_SIZE == i
  {
  }

  // ----- restarting the counter

  /** Add to the digits from `half` on, modulo `m`, and leave the digits before alone. */
  function AddLow(base: seq<byte>, half: nat, block: nat, m: nat): (iv: seq<byte>)
    requires half <= |base| && m > 0
    ensures |iv| == |base|
  {
    base[..half] + Fixed(256, (Value(256, base[half..]) + block) % m, |base| - half)
  }

  /** The counter block for `block`: a 64-bit add, with wrap-around, on the low half of the base. */
  function RestartIv(block: nat): (iv: Block) {
    AddLow(BASE_IV, 8, block, TWO_TO_THE_64)
  }

  /** Adding to the low digits alone is counting up the whole, exactly while there is no carry out of them. */
  lemma AddLowIsAdvance(base: seq<byte>, half: nat, block: nat, m: nat)
    requires half <= |base| && m == Pow(256, |base| - half) && block < m
    requires Value(256, base) + block < Pow(256, |base|)
    ensures AddLow(base, half, block, m) == Advance(base, block) <==> Value(256, base[half..]) + block < m
  {
    var low := Value(256, base[half..]);
    AdvanceValue(base, block);
    AddLowValue(base, half, block, m);
    if low + block < m {
      SameWidthSameValue(256, AddLow(base, half, block, m), Advance(base, block));
    }
  }

  lemma AddLowValue(base: seq<byte>, half: nat, block: nat, m: nat)
    requires half <= |base| && m == Pow(256, |base| - half) && block < m
    ensures var sum := Value(256, base) + block;
            Value(256, AddLow(base, half, block, m)) == if Value(256, base[half..]) + block < m then sum else sum - m
  {
    var low := Value(256, base[half..]);
    ValueBound(256, base[half..]);
    WrapOnce(low + block, m);
    ReplaceLow(base, half, (low + block) % m);
  }

  lemma ReplaceLow(base: seq<byte>, half: nat, counter: nat)
    requires half <= |base| && counter < Pow(256, |base| - half)
    ensures Value(256, base[..half] + Fixed(256, counter, |base| - half)) ==
            Value(256, base) - Value(256, base[half..]) + counter
  {
    var w := |base| - half;
    ValueFixed(256, counter, w);
    ValueConcat(256, base[..half], Fixed(256, counter, w));
    ValueConcat(256, base[..half], base[half..]);
    assert base == base[..half] + base[half..];
  }

  lemma WrapOnce(x: nat, m: nat)
    requires x < 2 * m
    ensures x % m == if x < m then x else x - m
  {
    if x >= m {
      DivModUnique(1, x - m, m);
    }
  }

  lemma BaseCounter()
    ensures Value(256, BASE_IV[8..]) == BASE_COUNTER
    ensures Pow(256, 8) == TWO_TO_THE_64
    ensures Value(256, BASE_IV) < (TWO_TO_THE_64 - 1) * TWO_TO_THE_64
  {
    var high, low: seq<byte> := BASE_IV[..8], BASE_IV[8..];
    assert low == [0xeb, 0xe8, 0xbc, 0x64, 0x3f, 0x63, 0x0d, 0x93];
    assert high == [0x72, 0xe0, 0x67, 0xfb, 0xdd, 0xcb, 0xcf, 0x77];
    Octets(0xeb, 0xe8, 0xbc, 0x64, 0x3f, 0x63, 0x0d, 0x93);
    Octets(0x72, 0xe0, 0x67, 0xfb, 0xdd, 0xcb, 0xcf, 0x77);
    ValueConcat(256, high, low);
    assert BASE_IV == high + low;
  }

  lemma Octets(a: byte, b: byte, c: byte, d: byte, e: byte, f: byte, g: byte, h: byte)
    ensures Pow(256, 8) == TWO_TO_THE_64
    ensures Value(256, [a, b, c, d, e, f, g, h]) ==
            (((a * 256 + b) * 256 + c) * 256 + d) * 4294967296 + (((e * 256 + f) * 256 + g) * 256 + h)
  {
    assert Pow(256, 4) == 4294967296;
    PowAdd(256, 4, 4);
    FourOctets(a, b, c, d);
    FourOctets(e, f, g, h);
    ValueConcat(256, [a, b, c, d], [e, f, g, h]);
    assert [a, b, c, d] + [e, f, g, h] == [a, b, c, d, e, f, g, h];
  }

  lemma FourOctets(a: byte, b: byte, c: byte, d: byte)
    ensures Value(256, [a, b, c, d]) == ((a * 256 + b) * 256 + c) * 256 + d
  {
    ValueSnoc(256, [], a);
    ValueSnoc(256, [a], b);
    ValueSnoc(256, [a, b], c);
    ValueSnoc(256, [a, b, c], d);
    assert [] + [a] == [a] && [a] + [b] == [a, b] && [a, b] + [c] == [a, b, c];
    assert [a, b, c] + [d] == [a, b, c, d];
  }

  /**
   The 64-bit add equals `block` increments of the whole 128-bit counter exactly while
   the low half does not wrap.
   */
  lemma RestartIsAdvance(block: nat)
    requires block < TWO_TO_THE_64
    ensures RestartIv(block) == Advance(BASE_IV, block) <==> block < TWO_TO_THE_64 - BASE_COUNTER
  {
    BaseCounter();
    PowAdd(256, 8, 8);
    AddLowIsAdvance(BASE_IV, 8, block, TWO_TO_THE_64);
  }

  /** No position an int64 can hold makes the counter wrap. */
  lemma NoWrapForInt64(pos: nat)
    requires pos <= MAX_INT64
    ensures pos / BLOCK_SIZE < TWO_TO_THE_64 - BASE_COUNTER
    ensures RestartIv(pos / BLOCK_SIZE) == Advance(BASE_IV, pos / BLOCK_SIZE)
  {
    RestartIsAdvance(pos / BLOCK_SIZE);
  }

  /** The restarted stream, past the bytes thrown away, is the base stream from `pos` on. */
  lemma RestartedKeyByte(c: Cipher, pos: nat, i: nat)
    requires pos <= MAX_INT64
    ensures KeyByte(c, RestartIv(pos / BLOCK_SIZE), pos % BLOCK_SIZE + i) == KeyByte(c, BASE_IV, pos + i)
  {
    NoWrapForInt64(pos);
    AdvanceAdd(BASE_IV, pos / BLOCK_SIZE, (pos % BLOCK_SIZE + i) / BLOCK_SIZE);
    assert pos / BLOCK_SIZE + (pos % BLOCK_SIZE + i) / BLOCK_SIZE == (pos + i) / BLOCK_SIZE;
  }

  // ----- the decrypting reader

  class Decryptor {
    const reader: HttpChunkedReader
    const cipher: Cipher
    const throwaway: array<byte>

    constructor (reader: HttpChunkedReader, cipher: Cipher)
      ensures this.reader == reader && this.cipher == cipher
      ensures fresh(throwaway) && throwaway.Length == BLOCK_SIZE
    {
      this.reader, this.cipher := reader, cipher;
      this.throwaway := new byte[BLOCK_SIZE];
    }

    /**
     The first `n` bytes of the buffer are exactly that slice of one sequential
     decryption of the whole file, whatever was cached and wherever chunk and block
     boundaries fall.
     */
    method ReadAt(p: array<byte>, pos: nat) returns (n: nat, e: ReadError)
      requires reader.Valid() && pos <= MAX_INT64
      requires throwaway.Length == BLOCK_SIZE && throwaway != p
      modifies p, throwaway, reader`chunks, reader`clock
      ensures reader.Valid()
      ensures Delivered(Decrypt(cipher, BASE_IV, reader.remote.body), old(p[..]), p[..], pos, n)
      ensures e == NoError ==> n == if pos < reader.len then Min(p.Length, reader.len - pos) else 0
      ensures e == EndOfFile <==> pos / CHUNK_SIZE >= ChunkCount(reader.len)
      ensures old(reader.Healthy()) ==> e != ChunkFailed
    {
      hide KeyByte, Decrypt, RestartIv, ChunkCount;
      var stream := StreamAt(pos);
      n, e := reader.ReadAt(p, pos);
      ghost var raw := p[..];
      if n > 0 {
        stream.XorKeyStream(p, n, RestartIv(pos / BLOCK_SIZE), pos % BLOCK_SIZE);
      }
      DecryptedSlice(cipher, reader.remote.body, old(p[..]), raw, p[..], pos, n);
    }

    /** A stream restarted at the block of `pos`, with the bytes before `pos` thrown away. */
    method StreamAt(pos: nat) returns (stream: CtrStream)
      requires pos <= MAX_INT64 && throwaway.Length == BLOCK_SIZE
      modifies throwaway
      ensures fresh(stream) && stream.cipher == cipher
      ensures stream.At(RestartIv(pos / BLOCK_SIZE), pos % BLOCK_SIZE)
    {
      var off := pos % BLOCK_SIZE;
      var newIv := NewIv(pos);
      stream := new CtrStream(cipher, newIv);
      if off > 0 {
        stream.XorKeyStream(throwaway, off, newIv, 0);
      }
    }

    static method NewIv(pos: nat) returns (iv: Block)
      requires pos <= MAX_INT64
      ensures iv == RestartIv(pos / BLOCK_SIZE)
    {
      hide Value, Fixed, Pow;
      var block := pos / BLOCK_SIZE;
      var counter := Value(256, BASE_IV[8..]);
      counter := (counter + block) % TWO_TO_THE_64;
      iv := BASE_IV[..8] + Fixed(256, counter, 8);
    }
  }

  lemma DecryptedSlice(c: Cipher, body: seq<byte>, before: seq<byte>, raw: seq<byte>, buf: seq<byte>, pos: nat, n: nat)
    requires pos <= MAX_INT64 && Delivered(body, before, raw, pos, n) && |buf| == |raw|
    requires forall i :: 0 <= i < n ==>
               buf[i] == Xor(raw[i], KeyByte(c, RestartIv(pos / BLOCK_SIZE), pos % BLOCK_SIZE + i))
    requires forall i :: n <= i < |buf| ==> buf[i] == raw[i]
    ensures Delivered(Decrypt(c, BASE_IV, body), before, buf, pos, n)
  {
    forall i | 0 <= i < n
      ensures buf[i] == Decrypt(c, BASE_IV, body)[pos + i]
    {
      RestartedKeyByte(c, pos, i);
    }
  }
}
