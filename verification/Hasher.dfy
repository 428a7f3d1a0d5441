/** The object gts::sha1 of gts/sha1.cpp: buffering, counting, bulk input and padding. */
module Hasher {
  import opened Sha1Standard
  import Sha1

  /** One call of an append overload: a single byte or character, or a buffer or string. */
  datatype Piece = One(x: byte) | Many(data: seq<byte>)

  /** The message that a run of append calls spells. */
  function Spell(pieces: seq<Piece>): seq<byte> {
    if |pieces| == 0 then []
    else Spell(pieces[..|pieces| - 1]) +
         match pieces[|pieces| - 1] { case One(x) => [x] case Many(data) => data }
  }

  /** h is the chaining value of the whole blocks of fed, and pending is the rest of fed. */
  ghost predicate Stands(fed: seq<byte>, h: Regs, pending: seq<byte>)
  {
    && |pending| == |fed| % 64
    && h == Chain(fed[..|fed| - |pending|])
    && pending == fed[|fed| - |pending|..]
  }

  lemma StandsAfterByte(fed: seq<byte>, h: Regs, pending: seq<byte>, x: byte)
    requires Stands(fed, h, pending)
    ensures |pending| < 63 ==> Stands(fed + [x], h, pending + [x])
    ensures |pending| == 63 ==> Stands(fed + [x], HashBlock(h, pending + [x]), [])
    ensures if |pending| < 63 then |fed + [x]| % 64 == |pending| + 1 else |fed + [x]| % 64 == 0
  {
    hide HashBlock, Chain;
    var k := |fed| - |pending|;
    assert (fed + [x])[..k] == fed[..k];
    assert (fed + [x])[k..] == pending + [x];
    assert (fed + [x])[..|fed| + 1] == fed + [x];
    if |pending| == 63 {
      ChainMore(fed[..k], pending + [x]);
      assert fed[..k] + (pending + [x]) == fed + [x];
    }
  }

  lemma ChainMore(whole: seq<byte>, block: seq<byte>)
    requires |whole| % 64 == 0 && |block| == 64
    ensures Chain(whole + block) == HashBlock(Chain(whole), block)
  {
    hide HashBlock;
    assert (whole + block)[..|whole|] == whole && (whole + block)[|whole|..] == block;
  }

  lemma StandsAfterBlock(fed: seq<byte>, h: Regs, block: seq<byte>)
    requires Stands(fed, h, []) && |block| == 64
    ensures Stands(fed + block, HashBlock(h, block), [])
  {
    hide HashBlock, Chain;
    ChainMore(fed, block);
    assert fed[..|fed|] == fed && (fed + block)[..|fed| + 64] == fed + block;
  }

  lemma CountMore(n: nat, k: nat)
    ensures (BitCount(n) + 8 * k) % TWO_TO_THE_64 == BitCount(n + k)
  {}

  lemma ZerosMore(k: nat)
    ensures Zeros(k) + [0] == Zeros(k + 1)
  {}

  lemma OneCloser(n: nat)
    requires n % 64 != 56
    ensures (56 - n) % 64 == (56 - (n + 1)) % 64 + 1
  {}

  /** n >> 8 * j */
  function ShiftOctets(n: nat, j: nat): nat { if j == 0 then n else ShiftOctets(n / 256, j - 1) }

  /** The cast of n >> (j << 3) to a byte. */
  function Octet(n: nat, j: nat): byte { (ShiftOctets(n, j) % 256) as byte }

  lemma {:induction false} OctetOfBigEndian(n: nat, count: nat, j: nat)
    requires j < count
    ensures BigEndian(n, count)[count - 1 - j] == Octet(n, j)
  {
    if j > 0 {
      OctetOfBigEndian(n / 256, count - 1, j - 1);
    }
  }

  method InitialState() returns (state: array<word>)
    ensures fresh(state) && state.Length == 5 && Sha1.Value(state[..]) == INITIAL
  {
    state := new word[] [0x67452301, 0xEFCDAB89, 0x98BADCFE, 0x10325476, 0xC3D2E1F0];
  }

  method ZeroBuffer() returns (buf: array<byte>)
    ensures fresh(buf) && buf.Length == 64
  {
    buf := new byte[64] (_ => 0);
  }

  class Hasher {
    const state: array<word>
    const buf: array<byte>
    var i: nat
    var nBits: nat
    // Every byte that has gone through the buffer or the bulk path so far.
    ghost var fed: seq<byte>

    /** The object stands for fed. Of the buffer only buf[..i] means anything. */
    ghost predicate Absorbing()
      reads this, state, buf
    {
      && state.Length == 5 && buf.Length == 64
      && i < 64
      && Stands(fed, Sha1.Value(state[..]), buf[..i])
    }

    /** As long as no padding was added, the 64-bit counter counts fed. */
    ghost predicate Valid()
      reads this, state, buf
    {
      Absorbing() && nBits == BitCount(|fed|)
    }

    constructor ()
      ensures Valid() && fresh(state) && fresh(buf) && fed == []
    {
      hide INITIAL;
      var st := InitialState();
      var zeros := ZeroBuffer();
      state, buf := st, zeros;
      i, nBits, fed := 0, 0, [];
    }

    /** add_byte_dont_count_bits */
    method AddByte(x: byte)
      requires Absorbing()
      modifies this`i, this`fed, state, buf
      ensures Absorbing() && fed == old(fed) + [x] && i == |fed| % 64
    {
      hide HashBlock, Chain, Stands;
      StandsAfterByte(fed, Sha1.Value(state[..]), buf[..i], x);
      buf[i] := x;
      assert buf[..i + 1] == old(buf[..i]) + [x];
      i := i + 1;
      fed := fed + [x];
      if i >= 64 {
        i := 0;
        assert buf[..64] == buf[..] && buf[..i] == [];
        Sha1.ProcessBlock(state, buf[..]);
      }
    }

    /** append(uint8_t) and append(char) */
    method AppendByte(x: byte)
      requires Valid()
      modifies this, state, buf
      ensures Valid() && fed == old(fed) + [x]
    {
      hide Chain, BitCount;
      CountMore(|fed|, 1);
      AddByte(x);
      nBits := (nBits + 8) % TWO_TO_THE_64;
    }

    /**
     * append(const void *, size_t) and append(const string &): bytes until the buffer is empty,
     * then whole blocks that never touch the buffer, then the rest.
     */
    method Append(data: seq<byte>)
      requires Valid()
      modifies this, state, buf
      ensures Valid() && fed == old(fed) + data
    {
      hide Absorbing, HashBlock, Chain, BitCount;
      var ptr, size := 0, |data|;
      while size > 0 && i % 64 != 0
        invariant 0 <= size == |data| - ptr
        invariant Valid() && fed == old(fed) + data[..ptr]
      {
        AppendByte(data[ptr]);
        ptr, size := ptr + 1, size - 1;
      }
      while size >= 64
        invariant 0 <= size == |data| - ptr
        invariant size > 0 ==> i % 64 == 0
        invariant Valid() && fed == old(fed) + data[..ptr]
      {
        BulkBlock(data[ptr..ptr + 64]);
        ptr, size := ptr + 64, size - 64;
      }
      while size > 0
        invariant 0 <= size == |data| - ptr
        invariant Valid() && fed == old(fed) + data[..ptr]
      {
        AppendByte(data[ptr]);
        ptr, size := ptr + 1, size - 1;
      }
    }

    // One turn of the bulk loop of append.
    method BulkBlock(block: seq<byte>)
      requires Valid() && i % 64 == 0 && |block| == 64
      modifies this`fed, this`nBits, state
      ensures Valid() && fed == old(fed) + block
    {
      hide HashBlock, Chain, BitCount;
      StandsAfterBlock(fed, Sha1.Value(state[..]), block);
      CountMore(|fed|, 64);
      Sha1.ProcessBlock(state, block);
      nBits := (nBits + 512) % TWO_TO_THE_64;
      fed := fed + block;
    }

    // The zero-byte loop of finalize.
    method FillZeros(ghost head: seq<byte>)
      requires Absorbing() && fed == head && i == |head| % 64
      modifies this`i, this`fed, state, buf
      ensures Absorbing() && i == 56 && fed == head + Zeros((56 - |head|) % 64)
    {
      hide Absorbing, Zeros;
      ghost var k := 0;
      while i % 64 != 56
        invariant Absorbing() && fed == head + Zeros(k) && i == |fed| % 64
        invariant k + (56 - |fed|) % 64 == (56 - |head|) % 64
        decreases (56 - |fed|) % 64
      {
        ZerosMore(k);
        OneCloser(|fed|);
        AddByte(0x00);
        k := k + 1;
      }
    }

    // The length loop of finalize.
    method AddLength()
      requires Absorbing()
      modifies this`i, this`fed, state, buf
      ensures Absorbing() && fed == old(fed) + BigEndian(nBits, 8)
    {
      hide Absorbing, Octet, BigEndian;
      ghost var field := BigEndian(nBits, 8);
      for j := 8 downto 0
        invariant Absorbing() && fed == old(fed) + field[..8 - j]
      {
        OctetOfBigEndian(nBits, 8, j);
        AddByte(Octet(nBits, j));
      }
    }

    /** finalize: the padded message has been hashed and the buffer is empty. */
    method Finalize()
      requires Valid()
      modifies this`i, this`fed, state, buf
      ensures fed == Pad(old(fed)) && i == 0
      ensures Sha1.Value(state[..]) == Sha1Hash(old(fed))
    {
      hide Chain, BitCount, BigEndian;
      ghost var msg := fed;
      AddByte(0x80);
      FillZeros(msg + [0x80]);
      AddLength();
      assert fed == Pad(msg);
      assert fed[..|fed|] == fed;
    }
  }

  /** The message alone decides everything the object uses, however it was cut into pieces. */
  lemma ChunkingInvariant(g: Hasher, h: Hasher)
    requires g.Valid() && h.Valid() && g.fed == h.fed
    ensures Sha1.Value(g.state[..]) == Sha1.Value(h.state[..])
    ensures g.i == h.i && g.nBits == h.nBits && g.buf[..g.i] == h.buf[..h.i]
  {
    hide Chain, BitCount;
  }

  /** Any way of cutting a message into append calls gives the textbook hash of the message. */
  method HashOf(pieces: seq<Piece>) returns (digest: Regs)
    ensures digest == Sha1Hash(Spell(pieces))
  {
    hide Sha1Hash, Chain;
    var h := new Hasher();
    for n := 0 to |pieces|
      invariant h.Valid() && fresh(h) && fresh(h.state) && fresh(h.buf)
      invariant h.fed == Spell(pieces[..n])
    {
      assert pieces[..n + 1][..n] == pieces[..n];
      match pieces[n] {
        case One(x) => h.AppendByte(x);
        case Many(data) => h.Append(data);
      }
    }
    assert pieces[..|pieces|] == pieces;
    h.Finalize();
    digest := Sha1.Value(h.state[..]);
  }
}
