// Streaming MD5 and SHA-1 (src/mongoose/mongoose.c:2032-2043, 2119-2181, 3693-3745).
// The compression functions are parameters on 64-byte blocks.

module Digest {
  import opened Wrappers

  const BLOCK: nat := 64
  const WORD: nat := 0x1_0000_0000

  /** The chaining value after a message of whole blocks. */
  function Absorb<S>(f: (S, seq<byte>) -> S, start: S, m: seq<byte>): S
    requires |m| % BLOCK == 0
    decreases |m|
  {
    if m == [] then start else Absorb(f, f(start, m[..BLOCK]), m[BLOCK..])
  }

  function Whole(m: seq<byte>): (w: seq<byte>)
    ensures |w| % BLOCK == 0 && |m| - |w| == |m| % BLOCK && (|m| % BLOCK == 0 ==> w == m)
  {
    m[..|m| - |m| % BLOCK]
  }

  function Rest(m: seq<byte>): seq<byte> {
    m[|m| - |m| % BLOCK..]
  }

  lemma {:induction false} AbsorbAppend<S>(f: (S, seq<byte>) -> S, start: S, a: seq<byte>, b: seq<byte>)
    requires |a| % BLOCK == 0 && |b| % BLOCK == 0
    ensures Absorb(f, start, a + b) == Absorb(f, Absorb(f, start, a), b)
    decreases |a|
  {
    if a == [] {
      assert a + b == b;
    } else {
      assert (a + b)[..BLOCK] == a[..BLOCK] && (a + b)[BLOCK..] == a[BLOCK..] + b;
      AbsorbAppend(f, f(start, a[..BLOCK]), a[BLOCK..], b);
    }
  }

  /** One full buffer more. */
  lemma AbsorbBlock<S>(f: (S, seq<byte>) -> S, start: S, a: seq<byte>, block: seq<byte>)
    requires |a| % BLOCK == 0 && |block| == BLOCK
    ensures Absorb(f, start, a + block) == f(Absorb(f, start, a), block)
  {
    AbsorbAppend(f, start, a, block);
    var s := Absorb(f, start, a);
    assert block[..BLOCK] == block && block[BLOCK..] == [];
    assert Absorb(f, s, block) == Absorb(f, f(s, block), []);
  }

  /** What a context holds after a message: chaining value, unfinished block, bit count. */
  ghost predicate Holds<S>(f: (S, seq<byte>) -> S, start: S, m: seq<byte>, state: S, tail: seq<byte>)
  {
    state == Absorb(f, start, Whole(m)) && tail == Rest(m)
  }

  /** Two words, low one first, count the bits of the message modulo 2^64. */
  ghost predicate Counts(low: int, high: int, m: seq<byte>) {
    && low == 8 * |m| % WORD
    && high == 8 * |m| / WORD % WORD
  }

  /** The carry chain of both updates. */
  lemma CountsAppend(low: int, high: int, m: seq<byte>, data: seq<byte>)
    requires Counts(low, high, m) && |data| < WORD
    ensures var low' := (low + 8 * |data| % WORD) % WORD;
      var carried := if low' < low then (high + 1) % WORD else high;
      Counts(low', (carried + |data| / 0x2000_0000) % WORD, m + data)
  {
    var n, d := 8 * |m|, 8 * |data|;
    var low' := (low + d % WORD) % WORD;
    CarryWords(n, d);
    assert 8 * |m + data| == n + d;
    assert d / WORD == |data| / 0x2000_0000;
    CarryHigh(n / WORD, if low' < low then 1 else 0, d / WORD);
  }

  /** The low word also knows how full the unfinished block is. */
  lemma LowWordOffset(n: nat)
    ensures 8 * n % WORD / 8 % BLOCK == n % BLOCK
  {
    var k := 8 * n / WORD;
    assert 8 * n % WORD == 8 * (n - k * 0x2000_0000);
  }

  lemma CarryWords(n: nat, d: nat)
    ensures var low' := (n % WORD + d % WORD) % WORD;
      && low' == (n + d) % WORD
      && (n + d) / WORD == n / WORD + d / WORD + (if low' < n % WORD then 1 else 0)
  {
  }

  lemma CarryHigh(h: nat, c: nat, k: nat)
    requires c <= 1
    ensures ((if c == 1 then (h % WORD + 1) % WORD else h % WORD) + k) % WORD == (h + k + c) % WORD
  {
    ModAdd(h % WORD + c, k);
    ModAdd(h, c + k);
  }

  lemma ModAdd(a: nat, b: nat)
    ensures (a % WORD + b) % WORD == (a + b) % WORD
  {
  }

  // ---- what an update keeps while it consumes data ----

  /** Short data only fills the unfinished block. */
  lemma TailGrows(m: seq<byte>, data: seq<byte>)
    requires |m| % BLOCK + |data| < BLOCK
    ensures Whole(m + data) == Whole(m) && Rest(m + data) == Rest(m) + data
  {
    var n := |m| - |m| % BLOCK;
    assert |m + data| % BLOCK == |m| % BLOCK + |data|;
    assert (m + data)[..n] == m[..n] && (m + data)[n..] == m[n..] + data;
  }

  /** Data that completes the unfinished block. */
  lemma TailCompletes(m: seq<byte>, data: seq<byte>, n: nat)
    requires n == BLOCK - |m| % BLOCK <= |data|
    ensures |m + data[..n]| % BLOCK == 0
    ensures m + data[..n] == Whole(m) + (Rest(m) + data[..n])
  {
    assert m == Whole(m) + Rest(m);
  }

  lemma NextBlock(m: seq<byte>, data: seq<byte>, off: nat)
    requires off + BLOCK <= |data|
    ensures m + data[..off + BLOCK] == m + data[..off] + data[off..off + BLOCK]
  {
    assert data[..off + BLOCK] == data[..off] + data[off..off + BLOCK];
  }

  // ---- the padded message ----

  function Zeros(n: nat): seq<byte> { seq(n, _ => 0) }

  /** Section 3.1 of RFC 1321 and section 4 of RFC 3174: a one bit, then zero bits up to
      56 bytes modulo 64. */
  function ZeroCount(length: nat): (k: nat)
    ensures (length + 1 + k) % BLOCK == 56 && k < BLOCK
  {
    (BLOCK + 55 - length % BLOCK) % BLOCK
  }

  function Padded(m: seq<byte>, length: seq<byte>): (p: seq<byte>)
    ensures |length| == 8 ==> |p| % BLOCK == 0
  {
    m + [0x80] + Zeros(ZeroCount(|m|)) + length
  }

  function LittleEndian(n: nat, bytes: nat): (s: seq<byte>)
    ensures |s| == bytes
  {
    if bytes == 0 then [] else [n % 256] + LittleEndian(n / 256, bytes - 1)
  }

  function BigEndian(n: nat, bytes: nat): (s: seq<byte>)
    ensures |s| == bytes
  {
    if bytes == 0 then [] else BigEndian(n / 256, bytes - 1) + [n % 256]
  }

  /** The 64-bit length in bits. */
  function BitLength(m: seq<byte>): nat { 8 * |m| % (WORD * WORD) }

  method MemCpy(dst: array<byte>, at: nat, src: seq<byte>, from: nat, n: nat)
    requires at + n <= dst.Length && from + n <= |src|
    modifies dst
    ensures dst[..] == old(dst[..at]) + src[from..from + n] + old(dst[at + n..])
  {
    var i := 0;
    while i < n
      invariant i <= n
      invariant forall k :: 0 <= k < dst.Length ==>
        dst[k] == if at <= k < at + i then src[from + (k - at)] else old(dst[k])
    {
      dst[at + i] := src[from + i];
      i := i + 1;
    }
  }

  /** MD5_CTX and SHA1_CTX: chaining value, bit count, unfinished block. */
  class DigestContext<S> {
    const transform: (S, seq<byte>) -> S
    const start: S
    var buf: S
    var bits0: int
    var bits1: int
    const input: array<byte>

    /** The context is the one after exactly the message `m`. */
    ghost predicate After(m: seq<byte>)
      reads this, input
    {
      && input.Length == BLOCK
      && Holds(transform, start, m, buf, input[..|m| % BLOCK])
      && Counts(bits0, bits1, m)
    }

    constructor (transform: (S, seq<byte>) -> S, start: S)
      ensures After([]) && fresh(input) && this.transform == transform && this.start == start
    {
      this.transform, this.start, buf := transform, start, start;
      bits0, bits1 := 0, 0;
      input := new byte[BLOCK];
      new;
      assert input[..0] == [];
    }

    /** Adds to the bit count; returns how full the unfinished block was. */
    method CountBits(len: nat, ghost m: seq<byte>, ghost data: seq<byte>) returns (t: nat)
      requires Counts(bits0, bits1, m) && len == |data| < WORD
      modifies this`bits0, this`bits1
      ensures t == |m| % BLOCK && Counts(bits0, bits1, m + data)
    {
      CountsAppend(bits0, bits1, m, data);
      LowWordOffset(|m|);
      var low := bits0;
      bits0 := (low + 8 * len % WORD) % WORD;
      if bits0 < low { bits1 := (bits1 + 1) % WORD; }
      bits1 := (bits1 + len / 0x2000_0000) % WORD;
      t := low / 8 % BLOCK;
    }

    method Md5Update(data: seq<byte>, ghost m: seq<byte>)
      requires After(m) && |data| < WORD
      modifies this, input
      ensures After(m + data)
    {
      var t := CountBits(|data|, m, data);
      var off := 0;
      if t != 0 {
        off := BLOCK - t;
        if |data| < off {
          FillTail(t, data, 0, m, m + data);
          return;
        }
        CompleteBlock(t, data, m);
      } else {
        assert m + data[..0] == Whole(m);
      }
      off := Md5Blocks(off, data, m);
      assert m + data == m + data[..off] + data[off..];
      FillTail(0, data, off, m + data[..off], m + data);
    }

    /** Whole blocks, copied in and consumed one by one. */
    method Md5Blocks(from: nat, data: seq<byte>, ghost m: seq<byte>) returns (off: nat)
      requires input.Length == BLOCK && from <= |data| && (|m| + from) % BLOCK == 0
      requires buf == Absorb(transform, start, m + data[..from])
      modifies this`buf, input
      ensures off <= |data| < off + BLOCK && |m + data[..off]| % BLOCK == 0
      ensures Holds(transform, start, m + data[..off], buf, [])
    {
      off := from;
      while |data| - off >= BLOCK
        invariant off <= |data| && (|m| + off) % BLOCK == 0
        invariant buf == Absorb(transform, start, m + data[..off])
      {
        MemCpy(input, 0, data, off, BLOCK);
        NextBlock(m, data, off);
        assert input[..] == data[off..off + BLOCK];
        TransformInput(m + data[..off], m + data[..off + BLOCK]);
        off := off + BLOCK;
      }
      assert |m + data[..off]| == |m| + off;
    }

    /** The last copy of an update: what is left of `data` goes behind the `t` bytes waiting. */
    method FillTail(t: nat, data: seq<byte>, off: nat, ghost done: seq<byte>, ghost all: seq<byte>)
      requires input.Length == BLOCK && off <= |data| < off + BLOCK - t
      requires t == |done| % BLOCK && all == done + data[off..] && input[..t] == Rest(done)
      requires buf == Absorb(transform, start, Whole(done))
      modifies input
      ensures Holds(transform, start, all, buf, input[..|all| % BLOCK])
    {
      TailGrows(done, data[off..]);
      MemCpy(input, t, data, off, |data| - off);
      assert input[..t + (|data| - off)] == Rest(done) + data[off..];
    }

    /** Fills the unfinished block up and consumes it. */
    method CompleteBlock(t: nat, data: seq<byte>, ghost m: seq<byte>)
      requires input.Length == BLOCK && t == |m| % BLOCK && BLOCK - t <= |data|
      requires Holds(transform, start, m, buf, input[..t])
      modifies this`buf, input
      ensures (|m| + (BLOCK - t)) % BLOCK == 0
      ensures buf == Absorb(transform, start, m + data[..BLOCK - t])
    {
      TailCompletes(m, data, BLOCK - t);
      MemCpy(input, t, data, 0, BLOCK - t);
      assert input[..] == Rest(m) + data[..BLOCK - t];
      TransformInput(Whole(m), m + data[..BLOCK - t]);
    }

    method TransformInput(ghost done: seq<byte>, ghost more: seq<byte>)
      requires input.Length == BLOCK && |done| % BLOCK == 0 && more == done + input[..]
      requires buf == Absorb(transform, start, done)
      modifies this`buf
      ensures |more| % BLOCK == 0 && buf == Absorb(transform, start, more)
    {
      AbsorbBlock(transform, start, done, input[..]);
      buf := transform(buf, input[..]);
    }

    method Md5Final(ghost m: seq<byte>) returns (digest: S)
      requires After(m)
      modifies this`buf, input
      ensures digest == Absorb(transform, start, Padded(m, LittleEndian(BitLength(m), 8)))
    {
      LowWordOffset(|m|);
      ghost var done := Md5Pad(bits0 / 8 % BLOCK, m);
      ghost var front := input[..56];
      WriteLength(LittleEndian(bits0, 4), LittleEndian(bits1, 4));
      ghost var length := LittleEndian(BitLength(m), 8);
      assert input[..] == front + length by { LengthWords(m, bits0, bits1); }
      LengthLast(m, done, front, length);
      TransformInput(done, Padded(m, length));
      digest := buf;
    }

    method WriteLength(low: seq<byte>, high: seq<byte>)
      requires input.Length == BLOCK && |low| == |high| == 4
      modifies input
      ensures input[..] == old(input[..56]) + (low + high)
    {
      MemCpy(input, 56, low, 0, 4);
      assert input[..60] == old(input[..56]) + low;
      MemCpy(input, 60, high, 0, 4);
    }

    /** The one bit and the zero bits; a block without room for the length is consumed. */
    method Md5Pad(t: nat, ghost m: seq<byte>) returns (ghost done: seq<byte>)
      requires input.Length == BLOCK && t == |m| % BLOCK
      requires Holds(transform, start, m, buf, input[..t])
      modifies this`buf, input
      ensures |done| % BLOCK == 0 && buf == Absorb(transform, start, done)
      ensures done + input[..56] == m + [0x80] + Zeros(ZeroCount(|m|))
    {
      input[t] := 0x80;
      done := Whole(m);
      ghost var tail := Rest(m) + [0x80];
      assert input[..t + 1] == tail;
      PaddedBlocks(m);
      var count := BLOCK - 1 - t;
      if count < 8 {
        MemSet(input, t + 1, count);
        assert input[..] == tail + Zeros(count);
        TransformInput(done, done + (tail + Zeros(count)));
        done := done + (tail + Zeros(count));
        MemSet(input, 0, 56);
        assert input[..56] == Zeros(56);
      } else {
        MemSet(input, t + 1, count - 8);
        assert input[..56] == tail + Zeros(count - 8);
      }
    }

    /** Every sum is a 32-bit number; Sha1GuardIsExact shows what the requires keeps out. */
    method Sha1Update(data: seq<byte>, ghost m: seq<byte>)
      requires After(m) && |m| % BLOCK + |data| < WORD
      modifies this, input
      ensures After(m + data)
    {
      var j := CountBits(|data|, m, data);
      var i := 0;
      if (j + |data|) % WORD > BLOCK - 1 {
        i := Sha1Blocks(j, data, m);
        assert m + data == m + data[..i] + data[i..];
        FillTail(0, data, i, m + data[..i], m + data);
      } else {
        assert data[0..] == data;
        FillTail(j, data, 0, m, m + data);
      }
    }

    /** The guarded part: the block that was waiting, then whole blocks straight from `data`. */
    method Sha1Blocks(j: nat, data: seq<byte>, ghost m: seq<byte>) returns (i: nat)
      requires input.Length == BLOCK && j == |m| % BLOCK && BLOCK <= j + |data| < WORD
      requires Holds(transform, start, m, buf, input[..j])
      modifies this`buf, input
      ensures i <= |data| < i + BLOCK && |m + data[..i]| % BLOCK == 0
      ensures Holds(transform, start, m + data[..i], buf, [])
    {
      CompleteBlock(j, data, m);
      i := Sha1Whole(j, data, m);
      assert |m + data[..i]| == |m| + i;
      assert Whole(m + data[..i]) == m + data[..i];
    }

    method Sha1Whole(j: nat, data: seq<byte>, ghost m: seq<byte>) returns (i: nat)
      requires j == |m| % BLOCK && BLOCK <= j + |data| < WORD
      requires buf == Absorb(transform, start, m + data[..BLOCK - j])
      modifies this`buf
      ensures i <= |data| < i + BLOCK && (|m| + i) % BLOCK == 0
      ensures buf == Absorb(transform, start, m + data[..i])
    {
      i := BLOCK - j;
      NoWrap(j, i);
      while (i + 63) % WORD < |data|
        invariant BLOCK - j <= i <= |data| && (j + i) % BLOCK == 0 && i + 63 < WORD
        invariant buf == Absorb(transform, start, m + data[..i])
        decreases |data| - i
      {
        SameOffset(|m|, i);
        TransformData(data, i, m);
        i := i + BLOCK;
        NoWrap(j, i);
      }
      SameOffset(|m|, i);
    }

    method TransformData(data: seq<byte>, i: nat, ghost m: seq<byte>)
      requires i + BLOCK <= |data| && (|m| + i) % BLOCK == 0
      requires buf == Absorb(transform, start, m + data[..i])
      modifies this`buf
      ensures buf == Absorb(transform, start, m + data[..i + BLOCK])
    {
      var block := data[i..i + BLOCK];
      NextBlock(m, data, i);
      AbsorbBlock(transform, start, m + data[..i], block);
      buf := transform(buf, block);
    }

    method Sha1Final(ghost m: seq<byte>) returns (digest: S)
      requires After(m)
      modifies this, input
      ensures digest == Absorb(transform, start, Padded(m, BigEndian(BitLength(m), 8)))
    {
      var finalcount := BigEndian(bits1, 4) + BigEndian(bits0, 4);
      LengthWords(m, bits0, bits1);
      Sha1Update([0x80], m);
      PadTo56(m + [0x80], |m|);
      Sha1Update(finalcount, m + [0x80] + Zeros(ZeroCount(|m|)));
      digest := buf;
    }

    /** Zero bytes, one update each, until `count[0] & 504` is 448. */
    method PadTo56(ghost m: seq<byte>, ghost n: nat)
      requires After(m) && |m| == n + 1
      modifies this, input
      ensures After(m + Zeros(ZeroCount(n)))
    {
      ghost var z := 0;
      ghost var all := m;
      while bits0 / 8 % BLOCK != 56
        invariant z <= ZeroCount(n) && After(all) && |all| == n + 1 + z && all == m + Zeros(z)
        decreases ZeroCount(n) - z
      {
        LowWordOffset(|all|);
        PadStep(n, z);
        Sha1Update([0], all);
        all, z := all + [0], z + 1;
      }
      LowWordOffset(|all|);
      PadStep(n, z);
    }
  }

  lemma SameOffset(n: nat, i: nat)
    ensures (n % BLOCK + i) % BLOCK == (n + i) % BLOCK
  {
    assert n + i == n % BLOCK + i + n / BLOCK * BLOCK;
  }

  lemma NoWrap(j: nat, i: nat)
    requires (j + i) % BLOCK == 0 && j + i < WORD
    ensures i + 63 < WORD && (j + i + BLOCK) % BLOCK == 0
  {
    assert WORD % BLOCK == 0;
  }

  lemma LengthLast(m: seq<byte>, done: seq<byte>, front: seq<byte>, length: seq<byte>)
    requires done + front == m + [0x80] + Zeros(ZeroCount(|m|))
    ensures Padded(m, length) == done + (front + length)
  {
    assert done + (front + length) == done + front + length;
  }

  /** The padding, block by block as MD5Final builds it. */
  lemma PaddedBlocks(m: seq<byte>)
    ensures var t, tail := |m| % BLOCK, Rest(m) + [0x80];
      m + [0x80] + Zeros(ZeroCount(|m|)) ==
        if t <= 55 then Whole(m) + (tail + Zeros(55 - t))
        else Whole(m) + (tail + Zeros(63 - t)) + Zeros(56)
  {
    var t := |m| % BLOCK;
    assert m == Whole(m) + Rest(m);
    if t > 55 { assert Zeros(ZeroCount(|m|)) == Zeros(63 - t) + Zeros(56); }
  }

  lemma PadStep(n: nat, z: nat)
    requires z <= ZeroCount(n)
    ensures (n + 1 + z) % BLOCK == 56 <==> z == ZeroCount(n)
  {
  }

  method MemSet(dst: array<byte>, at: nat, n: nat)
    requires at + n <= dst.Length
    modifies dst
    ensures dst[..] == old(dst[..at]) + Zeros(n) + old(dst[at + n..])
  {
    var i := 0;
    while i < n
      invariant i <= n
      invariant forall k :: 0 <= k < dst.Length ==> dst[k] == if at <= k < at + i then 0 else old(dst[k])
    {
      dst[at + i] := 0;
      i := i + 1;
    }
  }

  /** The two count words, written one after the other, are the 64-bit length. */
  lemma LengthWords(m: seq<byte>, low: int, high: int)
    requires Counts(low, high, m)
    ensures LittleEndian(low, 4) + LittleEndian(high, 4) == LittleEndian(BitLength(m), 8)
    ensures BigEndian(high, 4) + BigEndian(low, 4) == BigEndian(BitLength(m), 8)
  {
    TwoWords(8 * |m|);
    assert Power256(4) == WORD by {
      assert Power256(1) == 256 && Power256(2) == 0x1_0000 && Power256(3) == 0x100_0000;
    }
    LittleEndianSplit(low, high, 4);
    BigEndianSplit(low, high, 4);
  }

  lemma TwoWords(n: nat)
    ensures n % (WORD * WORD) == n / WORD % WORD * WORD + n % WORD
  {
    var q := n / WORD / WORD;
    assert n / WORD == q * WORD + n / WORD % WORD;
    assert n == (q * WORD + n / WORD % WORD) * WORD + n % WORD;
    assert n == q * (WORD * WORD) + (n / WORD % WORD * WORD + n % WORD);
  }

  function Power256(k: nat): (p: nat)
    ensures p > 0
  {
    if k == 0 then 1 else 256 * Power256(k - 1)
  }

  lemma {:induction false} LittleEndianSplit(low: nat, high: nat, k: nat)
    requires low < Power256(k)
    ensures LittleEndian(high * Power256(k) + low, k + 4) == LittleEndian(low, k) + LittleEndian(high, 4)
  {
    if k > 0 {
      var n := high * Power256(k) + low;
      DivShift(high, Power256(k - 1), low);
      LittleEndianSplit(low / 256, high, k - 1);
    }
  }

  lemma {:induction false} BigEndianSplit(low: nat, high: nat, k: nat)
    requires low < Power256(k)
    ensures BigEndian(high * Power256(k) + low, k + 4) == BigEndian(high, 4) + BigEndian(low, k)
  {
    if k > 0 {
      DivShift(high, Power256(k - 1), low);
      BigEndianSplit(low / 256, high, k - 1);
    }
  }

  lemma DivShift(high: nat, p: nat, low: nat)
    ensures (high * (256 * p) + low) / 256 == high * p + low / 256
    ensures (high * (256 * p) + low) % 256 == low % 256
  {
    assert high * (256 * p) == 256 * (high * p);
  }

  // ---- what the padding says ----

  /** The number that bytes stand for, least significant first. */
  function Value(s: seq<byte>): nat {
    if s == [] then 0 else s[0] + 256 * Value(s[1..])
  }

  /** And most significant first. */
  function BigValue(s: seq<byte>): nat {
    if s == [] then 0 else 256 * BigValue(s[..|s| - 1]) + s[|s| - 1]
  }

  lemma {:induction false} LittleEndianValue(n: nat, k: nat)
    ensures Value(LittleEndian(n, k)) == n % Power256(k)
  {
    if k > 0 {
      var s := LittleEndian(n, k);
      assert s[1..] == LittleEndian(n / 256, k - 1);
      LittleEndianValue(n / 256, k - 1);
      ModByByte(n, Power256(k - 1));
    }
  }

  lemma {:induction false} BigEndianValue(n: nat, k: nat)
    ensures BigValue(BigEndian(n, k)) == n % Power256(k)
  {
    if k > 0 {
      var s := BigEndian(n, k);
      assert s[..|s| - 1] == BigEndian(n / 256, k - 1);
      BigEndianValue(n / 256, k - 1);
      ModByByte(n, Power256(k - 1));
    }
  }

  lemma ModByByte(n: nat, p: nat)
    requires p > 0
    ensures n % 256 + 256 * (n / 256 % p) == n % (256 * p)
  {
    var q, r, b := n / 256 / p, n / 256 % p, n % 256;
    assert n / 256 == q * p + r;
    assert n == (q * p + r) * 256 + b;
    assert (q * p + r) * 256 == q * (256 * p) + 256 * r;
    SameQuotient(n, q, 256 * p, 256 * r + b);
  }

  lemma SameQuotient(n: nat, q: nat, d: nat, r: nat)
    requires d > 0 && n == q * d + r && r < d
    ensures n % d == r
  {
    var e := n / d - q;
    assert n == n / d * d + n % d;
    assert e * d == r - n % d;
    assert e == 0 by { Small(e, d); }
  }

  lemma Small(e: int, d: int)
    requires -d < e * d < d
    ensures e == 0
  {}

  /** Section 3 of RFC 1321, section 4 of RFC 3174: the message, a byte with its highest bit set,
      zero bytes, and the length in the last eight, in the fewest blocks of 64. */
  lemma PaddedAsStandardised(m: seq<byte>, length: seq<byte>)
    requires |length| == 8
    ensures var p := Padded(m, length);
      && |p| % 64 == 0 && |m| + 9 <= |p| < |m| + 9 + 64
      && p[..|m|] == m && p[|m|] == 0x80 && p[|p| - 8..] == length
      && forall i :: |m| < i < |p| - 8 ==> p[i] == 0
  {
    var p := Padded(m, length);
    assert |p| == |m| + 1 + ZeroCount(|m|) + 8;
  }

  /** The last eight bytes that MD5 and SHA-1 add are the length in bits, modulo 2^64. */
  lemma LengthFields(m: seq<byte>)
    ensures Value(LittleEndian(BitLength(m), 8)) == 8 * |m| % 0x1_0000_0000_0000_0000
    ensures BigValue(BigEndian(BitLength(m), 8)) == 8 * |m| % 0x1_0000_0000_0000_0000
  {
    LittleEndianValue(BitLength(m), 8);
    BigEndianValue(BitLength(m), 8);
    EightBytes();
  }

  lemma EightBytes()
    ensures Power256(8) == 0x1_0000_0000_0000_0000
  {
    assert Power256(1) == 0x100 && Power256(2) == 0x1_0000 && Power256(3) == 0x100_0000;
    assert Power256(4) == 0x1_0000_0000 && Power256(5) == 0x100_0000_0000 && Power256(6) == 0x1_0000_0000_0000;
  }

  /** SHA1Update's guard is a wrapped 32-bit sum: it sees the full block exactly when the
      sum does not wrap, and else copies more than the block has room for. */
  lemma Sha1GuardIsExact(j: nat, len: nat)
    requires j < BLOCK && len < WORD
    ensures ((j + len) % WORD > BLOCK - 1 <==> j + len > BLOCK - 1) <==> j + len < WORD
    ensures j + len >= WORD ==> (j + len) % WORD <= BLOCK - 1 && j + len > BLOCK
  {
  }

  function Joined(chunks: seq<seq<byte>>): seq<byte> {
    if chunks == [] then [] else Joined(chunks[..|chunks| - 1]) + chunks[|chunks| - 1]
  }

  /** The digest of the concatenation, however it is cut up. */
  method MgMd5<S>(f: (S, seq<byte>) -> S, start: S, chunks: seq<seq<byte>>) returns (digest: S)
    requires forall c <- chunks :: |c| < WORD
    ensures digest == Absorb(f, start, Padded(Joined(chunks), LittleEndian(BitLength(Joined(chunks)), 8)))
  {
    var ctx := new DigestContext(f, start);
    for i := 0 to |chunks|
      invariant fresh(ctx) && fresh(ctx.input) && ctx.transform == f && ctx.start == start
      invariant ctx.After(Joined(chunks[..i]))
    {
      ctx.Md5Update(chunks[i], Joined(chunks[..i]));
      assert chunks[..i + 1][..i] == chunks[..i];
    }
    assert chunks[..|chunks|] == chunks;
    digest := ctx.Md5Final(Joined(chunks));
  }

  method Sha1<S>(f: (S, seq<byte>) -> S, start: S, chunks: seq<seq<byte>>) returns (digest: S)
    requires forall c <- chunks :: |c| < WORD - 63
    ensures digest == Absorb(f, start, Padded(Joined(chunks), BigEndian(BitLength(Joined(chunks)), 8)))
  {
    var ctx := new DigestContext(f, start);
    for i := 0 to |chunks|
      invariant fresh(ctx) && fresh(ctx.input) && ctx.transform == f && ctx.start == start
      invariant ctx.After(Joined(chunks[..i]))
    {
      ctx.Sha1Update(chunks[i], Joined(chunks[..i]));
      assert chunks[..i + 1][..i] == chunks[..i];
    }
    assert chunks[..|chunks|] == chunks;
    digest := ctx.Sha1Final(Joined(chunks));
  }
}
