/**
 Streaming message digests: what MD5 (RFC 1321 section 3) and SHA-1 (RFC 3174 sections 4 and 6.1)
 compute, for any compression function, and the 64-bit length counter kept in two 32-bit words.
 */
module StreamingDigests {
  import opened Wire

  const WORD: int := 0x1_0000_0000

  /** The compression fold over whole 64-byte blocks. */
  function Compress<R>(f: (R, seq<byte>) -> R, regs: R, blocks: seq<byte>): (r: R)
    requires |blocks| % 64 == 0
    decreases |blocks|
  {
    if blocks == [] then regs else Compress(f, f(regs, blocks[..64]), blocks[64..])
  }

  lemma {:induction false} CompressConcat<R>(f: (R, seq<byte>) -> R, regs: R, a: seq<byte>, b: seq<byte>)
    requires |a| % 64 == 0 && |b| % 64 == 0
    ensures Compress(f, regs, a + b) == Compress(f, Compress(f, regs, a), b)
    decreases |a|
  {
    if a == [] {
      assert a + b == b;
    } else {
      assert (a + b)[..64] == a[..64];
      assert (a + b)[64..] == a[64..] + b;
      CompressConcat(f, f(regs, a[..64]), a[64..], b);
    }
  }

  lemma CompressOne<R>(f: (R, seq<byte>) -> R, regs: R, block: seq<byte>)
    requires |block| == 64
    ensures Compress(f, regs, block) == f(regs, block)
  {
    assert block[..64] == block && block[64..] == [];
    assert Compress(f, f(regs, block), []) == f(regs, block);
  }

  /** The whole blocks of a message and what is left over. */
  function Whole(msg: seq<byte>): (r: seq<byte>)
    ensures |r| % 64 == 0 && |r| + |msg| % 64 == |msg|
  {
    msg[..|msg| - |msg| % 64]
  }

  function Rest(msg: seq<byte>): (r: seq<byte>)
    ensures |r| == |msg| % 64
  {
    msg[|msg| - |msg| % 64..]
  }

  function Zeros(n: nat): (r: seq<byte>)
    ensures |r| == n
  {
    if n == 0 then [] else Zeros(n - 1) + [0]
  }

  /** How many zero bytes follow the 0x80 so that eight bytes complete a block. */
  function ZeroCount(n: nat): (z: nat)
    ensures z < 64 && (n + 1 + z) % 64 == 56
  {
    (55 - n) % 64
  }

  /** The padded message: a one bit, zeros, and the length field. */
  function Padded(msg: seq<byte>, lengthField: seq<byte>): (r: seq<byte>)
    requires |lengthField| == 8
    ensures |r| % 64 == 0
  {
    BlockIsFull(|msg| + 1 + ZeroCount(|msg|));
    msg + [0x80] + Zeros(ZeroCount(|msg|)) + lengthField
  }

  lemma BlockIsFull(x: nat)
    requires x % 64 == 56
    ensures (x + 8) % 64 == 0
  {
    var q := x / 64;
    assert x + 8 == 64 * (q + 1);
  }

  /** The bit length modulo 2^64. */
  function BitLength(msg: seq<byte>): (b: nat)
    ensures b < WORD * WORD
  {
    8 * |msg| % (WORD * WORD)
  }

  function LittleEndian32(v: uint32): (r: seq<byte>)
    ensures |r| == 4
  {
    [v % 0x100, v / 0x100 % 0x100, v / 0x1_0000 % 0x100, v / 0x100_0000]
  }

  /** RFC 1321: the low-order word first, each word with its low-order byte first. */
  function Md5LengthField(msg: seq<byte>): (r: seq<byte>)
    ensures |r| == 8
  {
    LittleEndian32(BitLength(msg) % WORD) + LittleEndian32(BitLength(msg) / WORD)
  }

  /** RFC 3174: the high-order word first, each word with its high-order byte first. */
  function Sha1LengthField(msg: seq<byte>): (r: seq<byte>)
    ensures |r| == 8
  {
    EncodeUlong(BitLength(msg) / WORD) + EncodeUlong(BitLength(msg) % WORD)
  }

  // ---------------------------------------------------------------- the padding, byte by byte

  function Pow256(k: nat): (r: nat)
    ensures r >= 1
  {
    if k == 0 then 1 else 0x100 * Pow256(k - 1)
  }

  /** The message, 0x80, zeros up to the next multiple of 64 that leaves eight bytes, and these eight. */
  ghost predicate HasPaddingShape(msg: seq<byte>, r: seq<byte>) {
    && |r| % 64 == 0 && |msg| + 9 <= |r| < |msg| + 9 + 64
    && r[..|msg|] == msg && r[|msg|] == 0x80
    && forall i :: |msg| < i < |r| - 8 ==> r[i] == 0
  }

  /** RFC 1321 section 3: the length in bits, modulo 2^64, with the low-order byte first. */
  ghost predicate IsMd5Padding(msg: seq<byte>, r: seq<byte>) {
    && HasPaddingShape(msg, r)
    && forall k :: 0 <= k < 8 ==> r[|r| - 8 + k] == 8 * |msg| / Pow256(k) % 0x100
  }

  /** RFC 3174 section 4: the same length with the high-order byte first. */
  ghost predicate IsSha1Padding(msg: seq<byte>, r: seq<byte>) {
    && HasPaddingShape(msg, r)
    && forall k :: 0 <= k < 8 ==> r[|r| - 1 - k] == 8 * |msg| / Pow256(k) % 0x100
  }

  /** Each standard leaves no choice. */
  lemma PaddingIsUnique(msg: seq<byte>, a: seq<byte>, b: seq<byte>)
    requires (IsMd5Padding(msg, a) && IsMd5Padding(msg, b)) || (IsSha1Padding(msg, a) && IsSha1Padding(msg, b))
    ensures a == b
  {
    SameLength(msg, a, b);
    forall i | 0 <= i < |a|
      ensures a[i] == b[i]
    {
      if i < |a| - 8 {
        SameFront(msg, a, b, i);
      } else if IsMd5Padding(msg, a) && IsMd5Padding(msg, b) {
        Md5LengthByte(msg, a, i);
        Md5LengthByte(msg, b, i);
      } else {
        Sha1LengthByte(msg, a, i);
        Sha1LengthByte(msg, b, i);
      }
    }
    hide IsMd5Padding, IsSha1Padding;
  }

  lemma SameLength(msg: seq<byte>, a: seq<byte>, b: seq<byte>)
    requires HasPaddingShape(msg, a) && HasPaddingShape(msg, b)
    ensures |a| == |b|
  {
  }

  lemma SameFront(msg: seq<byte>, a: seq<byte>, b: seq<byte>, i: nat)
    requires HasPaddingShape(msg, a) && HasPaddingShape(msg, b) && |a| == |b| && i < |a| - 8
    ensures a[i] == b[i]
  {
    if i < |msg| {
      assert a[i] == a[..|msg|][i] && b[i] == b[..|msg|][i];
    }
  }

  lemma Md5LengthByte(msg: seq<byte>, r: seq<byte>, i: nat)
    requires IsMd5Padding(msg, r) && |r| - 8 <= i < |r|
    ensures r[i] == 8 * |msg| / Pow256(i - (|r| - 8)) % 0x100
  {
    var k := i - (|r| - 8);
    assert r[|r| - 8 + k] == 8 * |msg| / Pow256(k) % 0x100;
  }

  lemma Sha1LengthByte(msg: seq<byte>, r: seq<byte>, i: nat)
    requires IsSha1Padding(msg, r) && |r| - 8 <= i < |r|
    ensures r[i] == 8 * |msg| / Pow256(|r| - 1 - i) % 0x100
  {
    var k := |r| - 1 - i;
    assert r[|r| - 1 - k] == 8 * |msg| / Pow256(k) % 0x100;
  }

  lemma {:induction false} ZerosAt(n: nat, i: nat)
    requires i < n
    ensures Zeros(n)[i] == 0
  {
    if i < n - 1 {
      ZerosAt(n - 1, i);
    }
  }

  lemma PaddedHasShape(msg: seq<byte>, lengthField: seq<byte>)
    requires |lengthField| == 8
    ensures HasPaddingShape(msg, Padded(msg, lengthField))
    ensures Padded(msg, lengthField)[|Padded(msg, lengthField)| - 8..] == lengthField
  {
    var z := ZeroCount(|msg|);
    var r := Padded(msg, lengthField);
    hide ZeroCount, Zeros;
    assert |r| == |msg| + 1 + z + 8;
    forall i | |msg| < i < |r| - 8
      ensures r[i] == 0
    {
      ZerosAt(z, i - |msg| - 1);
    }
  }

  lemma PowersOf256()
    ensures Pow256(0) == 1 && Pow256(1) == 0x100 && Pow256(2) == 0x1_0000 && Pow256(3) == 0x100_0000
    ensures Pow256(4) == 0x1_0000_0000 && Pow256(5) == 0x100_0000_0000
    ensures Pow256(6) == 0x1_0000_0000_0000 && Pow256(7) == 0x100_0000_0000_0000
  {
    assert Pow256(2) == 0x100 * Pow256(1);
    assert Pow256(3) == 0x100 * Pow256(2);
    assert Pow256(4) == 0x100 * Pow256(3);
    assert Pow256(5) == 0x100 * Pow256(4);
    assert Pow256(6) == 0x100 * Pow256(5);
    assert Pow256(7) == 0x100 * Pow256(6);
  }

  /** The low four bytes of a number are those of its lowest word. */
  lemma LowBytes(m: nat, low: nat)
    requires low < WORD
    ensures (m * WORD + low) % 0x100 == low % 0x100
    ensures (m * WORD + low) / 0x100 % 0x100 == low / 0x100 % 0x100
    ensures (m * WORD + low) / 0x1_0000 % 0x100 == low / 0x1_0000 % 0x100
    ensures (m * WORD + low) / 0x100_0000 % 0x100 == low / 0x100_0000
  {
    var v := m * WORD + low;
    assert v == 0x100 * (0x100_0000 * m) + low;
    OneByteUp(0x100_0000 * m, low);
    OneByteUp(0x1_0000 * m, low / 0x100);
    OneByteUp(0x100 * m, low / 0x100 / 0x100);
    OneByteUp(m, low / 0x100 / 0x100 / 0x100);
    BytesUp(v);
    BytesUp(low);
  }

  lemma OneByteUp(a: nat, x: nat)
    ensures (0x100 * a + x) / 0x100 == a + x / 0x100 && (0x100 * a + x) % 0x100 == x % 0x100
  {
  }

  lemma BytesUp(v: nat)
    ensures v / 0x1_0000 == v / 0x100 / 0x100 && v / 0x100_0000 == v / 0x100 / 0x100 / 0x100
  {
  }

  /** The bytes above them are those of the number without that word. */
  lemma HighBytes(m: nat, low: nat)
    requires low < WORD
    ensures (m * WORD + low) / 0x1_0000_0000 == m
    ensures (m * WORD + low) / 0x100_0000_0000 == m / 0x100
    ensures (m * WORD + low) / 0x1_0000_0000_0000 == m / 0x1_0000
    ensures (m * WORD + low) / 0x100_0000_0000_0000 == m / 0x100_0000
  {
  }

  /** The bytes of the two words of a length modulo 2^64 are the bytes of the length. */
  lemma BytesOfLength(v: nat)
    ensures var low, high := v % (WORD * WORD) % WORD, v % (WORD * WORD) / WORD;
      && v / Pow256(0) % 0x100 == low % 0x100 && v / Pow256(1) % 0x100 == low / 0x100 % 0x100
      && v / Pow256(2) % 0x100 == low / 0x1_0000 % 0x100 && v / Pow256(3) % 0x100 == low / 0x100_0000
      && v / Pow256(4) % 0x100 == high % 0x100 && v / Pow256(5) % 0x100 == high / 0x100 % 0x100
      && v / Pow256(6) % 0x100 == high / 0x1_0000 % 0x100 && v / Pow256(7) % 0x100 == high / 0x100_0000
  {
    var low, high, q := v % (WORD * WORD) % WORD, v % (WORD * WORD) / WORD, v / (WORD * WORD);
    var m := q * WORD + high;
    assert v == m * WORD + low;
    PowersOf256();
    hide Pow256;
    LowBytes(m, low);
    HighBytes(m, low);
    LowBytes(q, high);
  }

  /** What MD5 compresses is what RFC 1321 prescribes. */
  lemma Md5PaddingIsStandard(msg: seq<byte>)
    ensures IsMd5Padding(msg, Padded(msg, Md5LengthField(msg)))
  {
    var f := Md5LengthField(msg);
    var r := Padded(msg, f);
    PaddedHasShape(msg, f);
    BytesOfLength(8 * |msg|);
    hide Padded, Pow256, HasPaddingShape;
    forall k | 0 <= k < 8
      ensures r[|r| - 8 + k] == 8 * |msg| / Pow256(k) % 0x100
    {
      assert r[|r| - 8 + k] == r[|r| - 8..][k];
      assert k == 0 || k == 1 || k == 2 || k == 3 || k == 4 || k == 5 || k == 6 || k == 7;
    }
  }

  /** What SHA-1 compresses is what RFC 3174 prescribes. */
  lemma Sha1PaddingIsStandard(msg: seq<byte>)
    ensures IsSha1Padding(msg, Padded(msg, Sha1LengthField(msg)))
  {
    var f := Sha1LengthField(msg);
    var r := Padded(msg, f);
    PaddedHasShape(msg, f);
    BytesOfLength(8 * |msg|);
    BytesOfUlong(BitLength(msg) / WORD);
    BytesOfUlong(BitLength(msg) % WORD);
    hide Padded, Pow256, HasPaddingShape, EncodeUlong;
    forall k | 0 <= k < 8
      ensures r[|r| - 1 - k] == 8 * |msg| / Pow256(k) % 0x100
    {
      assert r[|r| - 1 - k] == r[|r| - 8..][7 - k];
      assert k == 0 || k == 1 || k == 2 || k == 3 || k == 4 || k == 5 || k == 6 || k == 7;
    }
  }

  lemma BytesOfUlong(v: uint32)
    ensures var e := EncodeUlong(v);
      && |e| == 4 && e[3] == v % 0x100 && e[2] == v / 0x100 % 0x100
      && e[1] == v / 0x1_0000 % 0x100 && e[0] == v / 0x100_0000
  {
  }

  // ---------------------------------------------------------------- the counter

  /** What the update functions do to the two counter words when `len` bytes arrive. */
  function AddedLow(low: uint32, len: uint32): (r: uint32) {
    (low + len * 8 % WORD) % WORD
  }

  function AddedHigh(low: uint32, high: uint32, len: uint32): (r: uint32) {
    var carried := if AddedLow(low, len) < low then (high + 1) % WORD else high;
    (carried + len / 0x2000_0000) % WORD
  }

  /** The two words always hold 8 times the byte count modulo 2^64. */
  ghost predicate Counts(low: uint32, high: uint32, n: nat) {
    high * WORD + low == 8 * n % (WORD * WORD)
  }

  /** The carry test and the top three bits of the length together give exact 64-bit addition. */
  lemma AddBits(low: uint32, high: uint32, len: uint32)
    ensures AddedHigh(low, high, len) * WORD + AddedLow(low, len) == (high * WORD + low + 8 * len) % (WORD * WORD)
  {
    var x, y := len * 8 % WORD, len / 0x2000_0000;
    assert 8 * len == y * WORD + x;
    var carry := if low + x >= WORD then 1 else 0;
    var low' := AddedLow(low, len);
    assert low' == low + x - carry * WORD;
    var sum := high + carry + y;
    HighWordSum(high, carry, y);
    assert high * WORD + low + 8 * len == sum * WORD + low';
    TwoWords(sum, low');
  }

  lemma HighWordSum(high: uint32, carry: nat, y: nat)
    requires carry <= 1 && y < WORD
    ensures (((high + carry) % WORD) + y) % WORD == (high + carry + y) % WORD
  {
  }

  lemma TwoWords(sum: nat, low: uint32)
    requires sum < 2 * WORD
    ensures (sum * WORD + low) % (WORD * WORD) == sum % WORD * WORD + low
  {
    if sum < WORD {
    } else {
      assert sum % WORD == sum - WORD;
    }
  }

  lemma CounterAfter(low: uint32, high: uint32, n: nat, len: uint32)
    requires Counts(low, high, n)
    ensures Counts(AddedLow(low, len), AddedHigh(low, high, len), n + len)
  {
    AddBits(low, high, len);
    ModOfSum(8 * n, 8 * len);
  }

  lemma ModOfSum(a: nat, b: nat)
    ensures (a % (WORD * WORD) + b) % (WORD * WORD) == (a + b) % (WORD * WORD)
  {
  }

  /** The position inside the current block can be read off the low word. */
  lemma PositionInBlock(low: uint32, high: uint32, n: nat)
    requires Counts(low, high, n)
    ensures low / 8 % 64 == n % 64
    ensures low == 8 * n % (WORD * WORD) % WORD && high == 8 * n % (WORD * WORD) / WORD
  {
    var q := 8 * n / (WORD * WORD);
    var m := q * WORD + high;
    assert 8 * n == m * WORD + low;
    var k := 0x80_0000 * m;
    assert low == 8 * (n - 64 * k);
    ModShift(n, k);
  }

  lemma ModShift(n: int, k: int)
    ensures (n - 64 * k) % 64 == n % 64
  {
  }

  // ---------------------------------------------------------------- the buffer

  /**
   The state of a context that has been fed `fed`: the registers have absorbed the whole blocks and
   the buffer starts with the rest.
   */
  ghost predicate Absorbed<R(!new)>(f: (R, seq<byte>) -> R, init: R, regs: R, buffer: seq<byte>, fed: seq<byte>) {
    && |buffer| == 64
    && regs == Compress(f, init, Whole(fed))
    && buffer[..|Rest(fed)|] == Rest(fed)
  }

  lemma AbsorbWithin<R(!new)>(f: (R, seq<byte>) -> R, init: R, regs: R, buffer: seq<byte>, fed: seq<byte>, data: seq<byte>)
    requires |buffer| == 64 && |fed| % 64 + |data| < 64
    requires regs == Compress(f, init, Whole(fed))
    requires buffer[..|Rest(fed)| + |data|] == Rest(fed) + data
    ensures Absorbed(f, init, regs, buffer, fed + data)
  {
    hide Compress;
    WithinBlock(|fed|, |data|);
    assert Whole(fed + data) == Whole(fed);
    assert Rest(fed + data) == Rest(fed) + data;
  }

  lemma WithinBlock(n: nat, d: nat)
    requires n % 64 + d < 64
    ensures (n + d) % 64 == n % 64 + d
  {
    assert n + d == 64 * (n / 64) + (n % 64 + d);
  }

  lemma AbsorbToBoundary<R(!new)>(f: (R, seq<byte>) -> R, init: R, regs: R, fed: seq<byte>, data: seq<byte>)
    requires |fed| % 64 + |data| == 64
    requires regs == Compress(f, init, Whole(fed))
    ensures |fed + data| % 64 == 0 && |Rest(fed) + data| == 64
    ensures f(regs, Rest(fed) + data) == Compress(f, init, Whole(fed + data))
  {
    assert Whole(fed + data) == Whole(fed) + (Rest(fed) + data);
    CompressConcat(f, init, Whole(fed), Rest(fed) + data);
    CompressOne(f, regs, Rest(fed) + data);
  }

  lemma {:induction false} ZerosAdd(a: nat, b: nat)
    ensures Zeros(a) + Zeros(b) == Zeros(a + b)
    decreases b
  {
    if b > 0 {
      ZerosAdd(a, b - 1);
      assert Zeros(a) + (Zeros(b - 1) + [0]) == (Zeros(a) + Zeros(b - 1)) + [0];
    } else {
      assert Zeros(a) + [] == Zeros(a);
    }
  }

  lemma ZeroCountCases(n: nat)
    ensures ZeroCount(n) == if n % 64 <= 55 then 55 - n % 64 else 119 - n % 64
  {
    var q, r := n / 64, n % 64;
    assert n == 64 * q + r;
    var z := if r <= 55 then 55 - r else 119 - r;
    assert 55 - n == 64 * (if r <= 55 then -q else -q - 1) + z;
  }

  lemma PaddingMoves(w: seq<byte>, r: seq<byte>, a: seq<byte>, z: seq<byte>, l: seq<byte>)
    ensures w + r + a + z + l == w + (r + a + z + l)
  {
  }

  lemma PaddingSplits(w: seq<byte>, r: seq<byte>, a: seq<byte>, z1: seq<byte>, z2: seq<byte>, l: seq<byte>)
    ensures w + r + a + (z1 + z2) + l == w + ((r + a + z1) + (z2 + l))
  {
  }

  lemma PadInOneBlock(msg: seq<byte>, w: seq<byte>, r: seq<byte>, left: nat, lengthField: seq<byte>)
    requires |lengthField| == 8 && msg == w + r && ZeroCount(|msg|) == left
    ensures Padded(msg, lengthField) == w + (r + [0x80] + Zeros(left) + lengthField)
  {
    hide ZeroCount, Zeros;
    PaddingMoves(w, r, [0x80], Zeros(left), lengthField);
  }

  lemma WholeAndRest(msg: seq<byte>)
    ensures msg == Whole(msg) + Rest(msg)
  {
  }

  lemma PadInTwoBlocks(msg: seq<byte>, w: seq<byte>, r: seq<byte>, left: nat, lengthField: seq<byte>)
    requires |lengthField| == 8 && msg == w + r && ZeroCount(|msg|) == left + 56
    ensures Padded(msg, lengthField) == w + ((r + [0x80] + Zeros(left)) + (Zeros(56) + lengthField))
  {
    hide ZeroCount;
    ZerosAdd(left, 56);
    PaddingSplits(w, r, [0x80], Zeros(left), Zeros(56), lengthField);
  }

  /**
   The padding ends the current block when the rest leaves nine bytes free, and takes one block
   more otherwise; either way the digest is that of the padded message.
   */
  lemma PaddedCompress<R(!new)>(f: (R, seq<byte>) -> R, init: R, msg: seq<byte>, lengthField: seq<byte>)
    requires |lengthField| == 8
    ensures var regs, head, left := Compress(f, init, Whole(msg)), Rest(msg) + [0x80], 63 - |msg| % 64;
      Compress(f, init, Padded(msg, lengthField)) ==
        if left >= 8 then f(regs, head + Zeros(left - 8) + lengthField)
        else f(f(regs, head + Zeros(left)), Zeros(56) + lengthField)
  {
    hide Compress, Padded, Zeros, Whole, Rest, ZeroCount;
    var regs, head, left := Compress(f, init, Whole(msg)), Rest(msg) + [0x80], 63 - |msg| % 64;
    WholeAndRest(msg);
    ZeroCountCases(|msg|);
    if left >= 8 {
      var block := head + Zeros(left - 8) + lengthField;
      PadInOneBlock(msg, Whole(msg), Rest(msg), left - 8, lengthField);
      CompressConcat(f, init, Whole(msg), block);
      CompressOne(f, regs, block);
    } else {
      var first, second := head + Zeros(left), Zeros(56) + lengthField;
      PadInTwoBlocks(msg, Whole(msg), Rest(msg), left, lengthField);
      CompressConcat(f, init, Whole(msg), first + second);
      CompressConcat(f, regs, first, second);
      CompressOne(f, regs, first);
      CompressOne(f, f(regs, first), second);
    }
  }

  /** memcpy into a buffer. */
  method Copy(dst: array<byte>, at: nat, data: seq<byte>)
    requires at + |data| <= dst.Length
    modifies dst
    ensures dst[..] == Overwrite(old(dst[..]), at, data)
  {
    var i := 0;
    while i < |data|
      invariant 0 <= i <= |data|
      invariant dst[..] == Overwrite(old(dst[..]), at, data[..i])
    {
      dst[at + i] := data[i];
      i := i + 1;
    }
    assert data[..i] == data;
  }
}
