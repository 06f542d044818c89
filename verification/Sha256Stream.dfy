/**
 The boot loader's streaming SHA-256 (boot/common/sha256.c) and its HMAC
 (boot/common/hmac_sha256.c), proved equal to the one-shot definitions.
 */
module Sha256Stream {
  import opened Sha256

  /** boot_sha256_ctx; `msg` is everything fed in since the last init. */
  class Context {
    const state: array<Word>
    const buf: array<Byte>
    var bitlen: nat
    var count: nat
    ghost var msg: seq<Byte>

    ghost predicate Sized()
      reads this
    {
      state.Length == 8 && buf.Length == BLOCK
    }

    ghost predicate Valid()
      reads this, state, buf
    {
      && Sized() && count < BLOCK
      && Absorbed(msg, state[..], buf[..], count)
      && bitlen == 8 * (|msg| - count) % U64
    }

    /** boot_sha256_init */
    constructor ()
      ensures Valid() && msg == [] && fresh(state) && fresh(buf)
    {
      state := new Word[8];
      buf := new Byte[BLOCK](_ => 0);
      count, bitlen := 0, 0;
      msg := [];
      new;
      state[0], state[1], state[2], state[3] := 0x6a09e667, 0xbb67ae85, 0x3c6ef372, 0xa54ff53a;
      state[4], state[5], state[6], state[7] := 0x510e527f, 0x9b05688c, 0x1f83d9ab, 0x5be0cd19;
      assert state[..] == IV;
    }

    /** boot_sha256_update */
    method Update(data: seq<Byte>)
      requires Valid()
      modifies this, state, buf
      ensures Valid() && msg == old(msg) + data
    {
      hide HashBlocks, Compress, Absorbed;
      var src := 0;
      assert msg + data[..0] == msg;
      while src < |data|
        invariant 0 <= src <= |data| && Valid() && msg == old(msg) + data[..src]
      {
        var n := BLOCK - count;
        if n > |data| - src {
          n := |data| - src;
        }
        Absorb(data[src..src + n]);
        assert data[..src] + data[src..src + n] == data[..src + n];
        src := src + n;
      }
      assert data[..src] == data;
    }

    /** One turn of the update loop: copy into the buffer, and hash the buffer when it is full. */
    method Absorb(piece: seq<Byte>)
      requires Valid() && count + |piece| <= BLOCK
      modifies this, state, buf
      ensures Valid() && msg == old(msg) + piece
    {
      hide HashBlocks, Compress, Absorbed;
      Append(piece);
      msg := msg + piece;
      if count == BLOCK {
        Flush(msg, state[..], buf[..]);
        Transform();
        bitlen := (bitlen + 512) % U64;
        count := 0;
      }
    }

    /** The copy behind the buffered bytes. */
    method Append(piece: seq<Byte>)
      requires Sized() && Absorbed(msg, state[..], buf[..], count) && count + |piece| <= BLOCK
      modifies `count, buf
      ensures Absorbed(msg + piece, state[..], buf[..], count) && count == old(count) + |piece|
    {
      ghost var before, c := buf[..], count;
      forall i | 0 <= i < |piece| {
        buf[count + i] := piece[i];
      }
      count := count + |piece|;
      Fill(msg, state[..], before, c, buf[..], piece);
    }

    /** boot_sha256_final: pad, hash the last block or two, and write out the state. */
    method Final() returns (out: seq<Byte>)
      requires Valid()
      modifies this, state, buf
      ensures out == Digest(old(msg))
    {
      hide HashBlocks, Compress, Absorbed, Zeros, BeBytes, ZeroCount;
      var total := (bitlen + 8 * count) % U64;
      ghost var m, c := msg, count;
      AbsorbedShape(msg, state[..], buf[..], count);
      PadOne();
      if count > 56 {
        PadZeros(BLOCK);
        Flush(msg, state[..], buf[..]);
        Transform();
        count := 0;
      }
      PadZeros(56);
      LastZeros(m, c, msg);
      WriteLength(total);
      Flush(msg, state[..], buf[..]);
      Transform();
      out := WriteState();
    }

    /** The 0x80 byte. */
    method PadOne()
      requires Sized() && count < BLOCK && Absorbed(msg, state[..], buf[..], count)
      modifies `count, `msg, buf
      ensures Absorbed(msg, state[..], buf[..], count) && count == old(count) + 1 && msg == old(msg) + [0x80]
    {
      hide Absorbed;
      ghost var before, c := buf[..], count;
      buf[count] := 0x80;
      count := count + 1;
      Fill(msg, state[..], before, c, buf[..], [0x80]);
      msg := msg + [0x80];
    }

    /** The zero loops. */
    method PadZeros(limit: nat)
      requires Sized() && count <= limit <= BLOCK && Absorbed(msg, state[..], buf[..], count)
      modifies `count, `msg, buf
      ensures Absorbed(msg, state[..], buf[..], count) && count == limit && msg == old(msg) + Zeros(limit - old(count))
    {
      hide Absorbed;
      assert msg + Zeros(0) == msg;
      while count < limit
        invariant old(count) <= count <= limit && Absorbed(msg, state[..], buf[..], count)
        invariant msg == old(msg) + Zeros(count - old(count))
      {
        ghost var before, c := buf[..], count;
        buf[count] := 0;
        count := count + 1;
        Fill(msg, state[..], before, c, buf[..], [0]);
        assert Zeros(c - old(count)) + [0] == Zeros(count - old(count));
        msg := msg + [0];
      }
    }

    /** wrbe64 into the last eight bytes of the buffer. */
    method WriteLength(total: nat)
      requires Sized() && count == 56 && Absorbed(msg, state[..], buf[..], count)
      modifies `msg, buf
      ensures Absorbed(msg, state[..], buf[..], BLOCK) && msg == old(msg) + BeBytes(total, 8)
    {
      hide Absorbed, BeBytes;
      ghost var before := buf[..];
      StoreBe64(total);
      Fill(msg, state[..], before, 56, buf[..], BeBytes(total, 8));
      msg := msg + BeBytes(total, 8);
    }

    method StoreBe64(total: nat)
      requires Sized()
      modifies buf
      ensures buf[..56] == old(buf[..56]) && buf[56..BLOCK] == BeBytes(total, 8)
    {
      var v := total;
      var i := 7;
      while i >= 0
        invariant -1 <= i <= 7 && buf[..56] == old(buf[..56])
        invariant BeBytes(total, 8) == BeBytes(v, i + 1) + buf[56 + i + 1..BLOCK]
      {
        ghost var tail := buf[56 + i + 1..BLOCK];
        buf[56 + i] := (v % 256) as Byte;
        assert buf[56 + i..BLOCK] == [(v % 256) as Byte] + tail;
        v := v / 256;
        i := i - 1;
      }
    }

    /** wrbe32 of the eight state words. */
    method WriteState() returns (out: seq<Byte>)
      requires Sized()
      ensures out == Serialize(state[..])
    {
      hide Bytes32;
      out := [];
      var i := 0;
      while i < 8
        invariant 0 <= i <= 8 && out == Serialize(state[..i])
      {
        assert state[..i + 1][..i] == state[..i];
        out := out + Bytes32(state[i]);
        i := i + 1;
      }
      assert state[..8] == state[..];
    }

    /** sha256_transform on the buffered block: the schedule array, then 64 rounds in place. */
    method Transform()
      requires Sized()
      modifies state
      ensures state[..] == Compress(old(state[..]), buf[..])
    {
      hide Rounds, Added;
      var w := BuildSchedule();
      var r := RunRounds(w);
      AddRegs(r);
    }

    /** The schedule loops of sha256_transform. */
    method BuildSchedule() returns (w: array<Word>)
      requires Sized()
      ensures fresh(w) && w.Length == 64 && forall t :: 0 <= t < 64 ==> w[t] == W(buf[..], t)
    {
      hide Be32, SmallSigma0, SmallSigma1, Sum4, W;
      w := new Word[64];
      ghost var block := buf[..];
      var i := 0;
      while i < 16
        invariant 0 <= i <= 16 && buf[..] == block
        invariant forall t :: 0 <= t < i ==> w[t] == W(block, t)
      {
        ScheduleHead(block, i);
        w[i] := Be32(buf[..], 4 * i);
        i := i + 1;
      }
      while i < 64
        invariant 16 <= i <= 64 && buf[..] == block
        invariant forall t :: 0 <= t < i ==> w[t] == W(block, t)
      {
        var s0 := SmallSigma0(w[i - 15]);
        var s1 := SmallSigma1(w[i - 2]);
        ScheduleStep(block, i);
        w[i] := Sum4(w[i - 16], s0, w[i - 7], s1);
        i := i + 1;
      }
    }

    /** The round loop of sha256_transform. */
    method RunRounds(w: array<Word>) returns (r: Regs)
      requires Sized() && w.Length == 64
      requires forall t :: 0 <= t < 64 ==> w[t] == W(buf[..], t)
      ensures r == Rounds(state[..], buf[..], 64)
    {
      hide BigSigma0, BigSigma1, Ch, Maj, W, Add, Sum5, Key;
      var a, b, c, d := state[0], state[1], state[2], state[3];
      var e, f, g, h := state[4], state[5], state[6], state[7];
      var i := 0;
      while i < 64
        invariant 0 <= i <= 64
        invariant Regs(a, b, c, d, e, f, g, h) == Rounds(state[..], buf[..], i)
      {
        var t1 := Sum5(h, BigSigma1(e), Ch(e, f, g), Key(i), w[i]);
        var t2 := Add(BigSigma0(a), Maj(a, b, c));
        h, g, f, e := g, f, e, Add(d, t1);
        d, c, b, a := c, b, a, Add(t1, t2);
        i := i + 1;
      }
      r := Regs(a, b, c, d, e, f, g, h);
    }

    /** The additions that end sha256_transform. */
    method AddRegs(r: Regs)
      requires Sized()
      modifies state
      ensures state[..] == Added(old(state[..]), r)
    {
      hide Add;
      AddFirst(r);
      AddLast(r);
    }

    method AddFirst(r: Regs)
      requires Sized()
      modifies state
      ensures state[0] == Add(old(state[0]), r.a) && state[1] == Add(old(state[1]), r.b)
      ensures state[2] == Add(old(state[2]), r.c) && state[3] == Add(old(state[3]), r.d)
      ensures state[4..] == old(state[4..])
    {
      hide Add;
      state[0] := Add(state[0], r.a);
      state[1] := Add(state[1], r.b);
      state[2] := Add(state[2], r.c);
      state[3] := Add(state[3], r.d);
    }

    method AddLast(r: Regs)
      requires Sized()
      modifies state
      ensures state[4] == Add(old(state[4]), r.e) && state[5] == Add(old(state[5]), r.f)
      ensures state[6] == Add(old(state[6]), r.g) && state[7] == Add(old(state[7]), r.h)
      ensures state[..4] == old(state[..4])
    {
      hide Add;
      state[4] := Add(state[4], r.e);
      state[5] := Add(state[5], r.f);
      state[6] := Add(state[6], r.g);
      state[7] := Add(state[7], r.h);
    }
  }

  /** What the context holds of `msg`: the hash of its whole blocks, the rest in the buffer. */
  ghost predicate Absorbed(msg: seq<Byte>, state: seq<Word>, buf: seq<Byte>, count: nat) {
    && |state| == 8 && |buf| == BLOCK && count <= |msg| && count <= BLOCK && (|msg| - count) % BLOCK == 0
    && state == HashBlocks(IV, msg[..|msg| - count])
    && buf[..count] == msg[|msg| - count..]
  }

  lemma AbsorbedShape(msg: seq<Byte>, state: seq<Word>, buf: seq<Byte>, count: nat)
    requires Absorbed(msg, state, buf, count)
    ensures count <= |msg| && (|msg| - count) % BLOCK == 0
  {
  }

  /** Bytes copied behind the buffered ones extend the message. */
  lemma Fill(msg: seq<Byte>, state: seq<Word>, buf: seq<Byte>, count: nat, after: seq<Byte>, piece: seq<Byte>)
    requires Absorbed(msg, state, buf, count) && count + |piece| <= BLOCK && |after| == BLOCK
    requires after[..count] == buf[..count] && after[count..count + |piece|] == piece
    ensures Absorbed(msg + piece, state, after, count + |piece|)
  {
    hide HashBlocks;
    var whole := |msg| - count;
    assert (msg + piece)[..whole] == msg[..whole];
    assert after[..count + |piece|] == after[..count] + piece;
    assert (msg + piece)[whole..] == msg[whole..] + piece;
  }

  /** A full buffer is one more block of the message. */
  lemma Flush(msg: seq<Byte>, state: seq<Word>, buf: seq<Byte>)
    requires Absorbed(msg, state, buf, BLOCK)
    ensures Absorbed(msg, Compress(state, buf), buf, 0)
    ensures Compress(state, buf) == HashBlocks(IV, msg)
  {
    hide HashBlocks, Compress;
    var whole := |msg| - BLOCK;
    assert buf[..BLOCK] == buf;
    HashBlocksAppend(IV, msg[..whole], msg[whole..]);
    assert msg[..whole] + msg[whole..] == msg;
    HashOneBlock(state, buf);
    assert msg[..|msg| - 0] == msg;
  }

  /** The zeros of one or two blocks are the fewest that leave room for the length. */
  lemma LastZeros(m: seq<Byte>, c: nat, v: seq<Byte>)
    requires c < BLOCK && c <= |m| && (|m| - c) % BLOCK == 0
    requires v == if c + 1 > 56 then m + [0x80] + Zeros(BLOCK - (c + 1)) + Zeros(56)
                  else m + [0x80] + Zeros(56 - (c + 1))
    ensures v + BeBytes((8 * (|m| - c) % U64 + 8 * c) % U64, 8) == Padded(m)
  {
    hide BeBytes, ZeroCount;
    BitCount(|m|, c);
    ZerosLeft(|m|, c);
    if c + 1 > 56 {
      assert m + [0x80] + Zeros(BLOCK - (c + 1)) + Zeros(56) == m + [0x80] + (Zeros(BLOCK - (c + 1)) + Zeros(56));
      assert Zeros(BLOCK - (c + 1)) + Zeros(56) == Zeros(ZeroCount(|m|));
    }
  }

  lemma BitCount(len: nat, c: nat)
    requires c <= len
    ensures (8 * (len - c) % U64 + 8 * c) % U64 == 8 * len % U64
  {
    var x := 8 * (len - c);
    assert x == x / U64 * U64 + x % U64;
  }

  lemma ZerosLeft(len: nat, c: nat)
    requires c < BLOCK && c <= len && (len - c) % BLOCK == 0
    ensures ZeroCount(len) == if c + 1 > 56 then BLOCK - (c + 1) + 56 else 56 - (c + 1)
  {
    assert len % BLOCK == c;
  }

  lemma ScheduleHead(block: seq<Byte>, i: nat)
    requires |block| == BLOCK && i < 16
    ensures W(block, i) == Be32(block, 4 * i)
  {
  }

  /** The schedule recurrence in the order the code adds it up. */
  lemma ScheduleStep(block: seq<Byte>, i: nat)
    requires |block| == BLOCK && 16 <= i < 64
    ensures W(block, i) == Sum4(W(block, i - 16), SmallSigma0(W(block, i - 15)), W(block, i - 7),
        SmallSigma1(W(block, i - 2)))
  {
    hide SmallSigma0, SmallSigma1, Sum4, Be32;
    Sum4Reversed(SmallSigma1(W(block, i - 2)), W(block, i - 7), SmallSigma0(W(block, i - 15)), W(block, i - 16));
  }

  // ---- HMAC, section 2 of RFC 2104 ----

  /** The key as a block: hashed first when longer than a block, then padded with zeros. */
  function KeyBlock(key: seq<Byte>): (k: seq<Byte>)
    ensures |k| == BLOCK
  {
    var k := if |key| > BLOCK then Digest(key) else key;
    k + Zeros(BLOCK - |k|)
  }

  function XorWith(block: seq<Byte>, c: Byte): (r: seq<Byte>)
    ensures |r| == |block|
  {
    seq(|block|, i requires 0 <= i < |block| => block[i] ^ c)
  }

  function Hmac(key: seq<Byte>, text: seq<Byte>): seq<Byte> {
    var k := KeyBlock(key);
    Digest(XorWith(k, 0x5c) + Digest(XorWith(k, 0x36) + text))
  }

  /** boot_hmac_sha256 */
  method HmacSha256(key: seq<Byte>, text: seq<Byte>) returns (out: seq<Byte>)
    ensures out == Hmac(key, text)
  {
    hide Digest, XorWith;
    var kpad := PadKey(key);
    var ipad, opad := MakePads(kpad);
    var inner := new Context();
    inner.Update(ipad);
    inner.Update(text);
    assert [] + ipad + text == ipad + text;
    var innerHash := inner.Final();
    var outer := new Context();
    outer.Update(opad);
    outer.Update(innerHash);
    assert [] + opad + innerHash == opad + innerHash;
    out := outer.Final();
  }

  method PadKey(key: seq<Byte>) returns (kpad: seq<Byte>)
    ensures kpad == KeyBlock(key)
  {
    hide Digest;
    if |key| > BLOCK {
      var c := new Context();
      c.Update(key);
      assert [] + key == key;
      var digest := c.Final();
      kpad := digest + Zeros(BLOCK - |digest|);
    } else {
      kpad := key + Zeros(BLOCK - |key|);
    }
  }

  /** The loop that fills the inner and the outer pad. */
  method MakePads(kpad: seq<Byte>) returns (ipad: seq<Byte>, opad: seq<Byte>)
    requires |kpad| == BLOCK
    ensures ipad == XorWith(kpad, 0x36) && opad == XorWith(kpad, 0x5c)
  {
    var a, b := new Byte[BLOCK], new Byte[BLOCK];
    var i := 0;
    while i < BLOCK
      invariant 0 <= i <= BLOCK
      invariant forall k :: 0 <= k < i ==> a[k] == kpad[k] ^ 0x36 && b[k] == kpad[k] ^ 0x5c
    {
      a[i] := kpad[i] ^ 0x36;
      b[i] := kpad[i] ^ 0x5c;
      i := i + 1;
    }
    ipad, opad := a[..], b[..];
  }
}
