/** The streaming SHA-1 object of gts/sha1.cpp. */
module Sha1 {
  import opened Sha1Standard

  function Value(state: seq<word>): Regs
    requires |state| == 5
  {
    Regs(state[0], state[1], state[2], state[3], state[4])
  }

  /** w[k & 15] holds the schedule word W_k for each of the sixteen k before n. */
  ghost predicate Window(w: seq<word>, block: seq<byte>, n: nat)
    requires |block| == 64 && 16 <= n <= 80
  {
    |w| == 16 && forall k: nat :: n - 16 <= k < n ==> w[k % 16] == W(block, k)
  }

  lemma ExtendWindow(w: seq<word>, block: seq<byte>, i: nat, x: word)
    requires |block| == 64 && 16 <= i < 80
    requires Window(w, block, i) && x == W(block, i)
    ensures Window(w[i % 16 := x], block, i + 1)
  {
    hide W;
    forall k: nat | i + 1 - 16 <= k < i + 1
      ensures w[i % 16 := x][k % 16] == W(block, k)
    {
      assert k < i ==> k % 16 != i % 16;
    }
  }

  /** The macro SHA1_LOAD. */
  method Load(w: array<word>, i: nat, ghost block: seq<byte>)
    requires |block| == 64 && 16 <= i < 80
    requires Window(w[..], block, i)
    modifies w
    ensures Window(w[..], block, i + 1)
  {
    hide Rotl1;
    assert w[..][(i + 13) % 16] == W(block, i - 3) by { assert (i + 13) % 16 == (i - 3) % 16; }
    assert w[..][(i + 8) % 16] == W(block, i - 8) by { assert (i + 8) % 16 == (i - 8) % 16; }
    assert w[..][(i + 2) % 16] == W(block, i - 14) by { assert (i + 2) % 16 == (i - 14) % 16; }
    assert w[..][i % 16] == W(block, i - 16) by { assert i % 16 == (i - 16) % 16; }
    var x := Rotl1(w[(i + 13) % 16] ^ w[(i + 8) % 16] ^ w[(i + 2) % 16] ^ w[i % 16]);
    ExtendWindow(w[..], block, i, x);
    w[i % 16] := x;
  }

  lemma ChooseForm(u: word, x: word, y: word)
    ensures (u & (x ^ y)) ^ y == Ch(u, x, y)
  {}

  lemma MajorityForm(u: word, x: word, y: word)
    ensures ((u | x) & y) | (u & x) == Maj(u, x, y)
  {}

  // The three mixing expressions of the round macros.
  method Choose(u: word, x: word, y: word) returns (f: word)
    ensures f == Ch(u, x, y)
  {
    hide *;
    ChooseForm(u, x, y);
    f := (u & (x ^ y)) ^ y;
  }

  method Exclusive(u: word, x: word, y: word) returns (f: word)
    ensures f == Parity(u, x, y)
  {
    f := u ^ x ^ y;
  }

  method Majority(u: word, x: word, y: word) returns (f: word)
    ensures f == Maj(u, x, y)
  {
    hide *;
    MajorityForm(u, x, y);
    f := ((u | x) & y) | (u & x);
  }

  method Accumulate(z: word, f: word, w: word, c: word, v: word) returns (z': word)
    ensures z' == Sum(Rotl5(v), f, z, c, w)
  {
    hide Rotl5;
    z' := z + (f + w + c + Rotl5(v));
  }

  /**
   * The macros SHA1_ROUND_n. The caller's registers do not move: v, u, x, y, z are the registers
   * that play the roles a, b, c, d, e in round i; the round overwrites z and u only, and afterwards
   * z, v, u, x, y play the roles a, b, c, d, e.
   */
  method Round0(v: word, u: word, x: word, y: word, z: word, w: array<word>, i: nat,
                ghost h: Regs, ghost block: seq<byte>) returns (z': word, u': word)
    requires |block| == 64 && i < 16
    requires Window(w[..], block, 16)
    requires Regs(v, u, x, y, z) == Rounds(h, block, i)
    ensures Regs(z', v, u', x, y) == Rounds(h, block, i + 1)
  {
    hide Rotl5, Rotl30, Ch, Parity, Maj, Sum;
    assert w[..][i % 16] == W(block, i);
    var f := Choose(u, x, y);
    z' := Accumulate(z, f, w[i % 16], 0x5A827999, v);
    u' := Rotl30(u);
  }

  method Round1(v: word, u: word, x: word, y: word, z: word, w: array<word>, i: nat,
                ghost h: Regs, ghost block: seq<byte>) returns (z': word, u': word)
    requires |block| == 64 && 16 <= i < 20
    requires Window(w[..], block, i)
    requires Regs(v, u, x, y, z) == Rounds(h, block, i)
    modifies w
    ensures Window(w[..], block, i + 1)
    ensures Regs(z', v, u', x, y) == Rounds(h, block, i + 1)
  {
    hide Rotl1, Rotl5, Rotl30, Ch, Parity, Maj, Sum;
    Load(w, i, block);
    assert w[..][i % 16] == W(block, i);
    var f := Choose(u, x, y);
    z' := Accumulate(z, f, w[i % 16], 0x5A827999, v);
    u' := Rotl30(u);
  }

  method Round2(v: word, u: word, x: word, y: word, z: word, w: array<word>, i: nat,
                ghost h: Regs, ghost block: seq<byte>) returns (z': word, u': word)
    requires |block| == 64 && 20 <= i < 40
    requires Window(w[..], block, i)
    requires Regs(v, u, x, y, z) == Rounds(h, block, i)
    modifies w
    ensures Window(w[..], block, i + 1)
    ensures Regs(z', v, u', x, y) == Rounds(h, block, i + 1)
  {
    hide Rotl1, Rotl5, Rotl30, Ch, Parity, Maj, Sum;
    Load(w, i, block);
    assert w[..][i % 16] == W(block, i);
    var f := Exclusive(u, x, y);
    z' := Accumulate(z, f, w[i % 16], 0x6ED9EBA1, v);
    u' := Rotl30(u);
  }

  method Round3(v: word, u: word, x: word, y: word, z: word, w: array<word>, i: nat,
                ghost h: Regs, ghost block: seq<byte>) returns (z': word, u': word)
    requires |block| == 64 && 40 <= i < 60
    requires Window(w[..], block, i)
    requires Regs(v, u, x, y, z) == Rounds(h, block, i)
    modifies w
    ensures Window(w[..], block, i + 1)
    ensures Regs(z', v, u', x, y) == Rounds(h, block, i + 1)
  {
    hide Rotl1, Rotl5, Rotl30, Ch, Parity, Maj, Sum;
    Load(w, i, block);
    assert w[..][i % 16] == W(block, i);
    var f := Majority(u, x, y);
    z' := Accumulate(z, f, w[i % 16], 0x8F1BBCDC, v);
    u' := Rotl30(u);
  }

  method Round4(v: word, u: word, x: word, y: word, z: word, w: array<word>, i: nat,
                ghost h: Regs, ghost block: seq<byte>) returns (z': word, u': word)
    requires |block| == 64 && 60 <= i < 80
    requires Window(w[..], block, i)
    requires Regs(v, u, x, y, z) == Rounds(h, block, i)
    modifies w
    ensures Window(w[..], block, i + 1)
    ensures Regs(z', v, u', x, y) == Rounds(h, block, i + 1)
  {
    hide Rotl1, Rotl5, Rotl30, Ch, Parity, Maj, Sum;
    Load(w, i, block);
    assert w[..][i % 16] == W(block, i);
    var f := Exclusive(u, x, y);
    z' := Accumulate(z, f, w[i % 16], 0xCA62C1D6, v);
    u' := Rotl30(u);
  }

  // The four runs of twenty macro calls in process_block.
  method Rounds00(a0: word, b0: word, c0: word, d0: word, e0: word, w: array<word>, ghost h: Regs, ghost block: seq<byte>)
    returns (a: word, b: word, c: word, d: word, e: word)
    requires |block| == 64 && Window(w[..], block, 16)
    requires Regs(a0, b0, c0, d0, e0) == Rounds(h, block, 0)
    modifies w
    ensures Window(w[..], block, 20)
    ensures Regs(a, b, c, d, e) == Rounds(h, block, 20)
  {
    hide *;
    a, b, c, d, e := a0, b0, c0, d0, e0;
    e, b := Round0(a, b, c, d, e, w, 0, h, block);
    d, a := Round0(e, a, b, c, d, w, 1, h, block);
    c, e := Round0(d, e, a, b, c, w, 2, h, block);
    b, d := Round0(c, d, e, a, b, w, 3, h, block);
    a, c := Round0(b, c, d, e, a, w, 4, h, block);
    e, b := Round0(a, b, c, d, e, w, 5, h, block);
    d, a := Round0(e, a, b, c, d, w, 6, h, block);
    c, e := Round0(d, e, a, b, c, w, 7, h, block);
    b, d := Round0(c, d, e, a, b, w, 8, h, block);
    a, c := Round0(b, c, d, e, a, w, 9, h, block);
    e, b := Round0(a, b, c, d, e, w, 10, h, block);
    d, a := Round0(e, a, b, c, d, w, 11, h, block);
    c, e := Round0(d, e, a, b, c, w, 12, h, block);
    b, d := Round0(c, d, e, a, b, w, 13, h, block);
    a, c := Round0(b, c, d, e, a, w, 14, h, block);
    e, b := Round0(a, b, c, d, e, w, 15, h, block);
    d, a := Round1(e, a, b, c, d, w, 16, h, block);
    c, e := Round1(d, e, a, b, c, w, 17, h, block);
    b, d := Round1(c, d, e, a, b, w, 18, h, block);
    a, c := Round1(b, c, d, e, a, w, 19, h, block);
  }

  method Rounds20(a0: word, b0: word, c0: word, d0: word, e0: word, w: array<word>, ghost h: Regs, ghost block: seq<byte>)
    returns (a: word, b: word, c: word, d: word, e: word)
    requires |block| == 64 && Window(w[..], block, 20)
    requires Regs(a0, b0, c0, d0, e0) == Rounds(h, block, 20)
    modifies w
    ensures Window(w[..], block, 40)
    ensures Regs(a, b, c, d, e) == Rounds(h, block, 40)
  {
    hide *;
    a, b, c, d, e := a0, b0, c0, d0, e0;
    e, b := Round2(a, b, c, d, e, w, 20, h, block);
    d, a := Round2(e, a, b, c, d, w, 21, h, block);
    c, e := Round2(d, e, a, b, c, w, 22, h, block);
    b, d := Round2(c, d, e, a, b, w, 23, h, block);
    a, c := Round2(b, c, d, e, a, w, 24, h, block);
    e, b := Round2(a, b, c, d, e, w, 25, h, block);
    d, a := Round2(e, a, b, c, d, w, 26, h, block);
    c, e := Round2(d, e, a, b, c, w, 27, h, block);
    b, d := Round2(c, d, e, a, b, w, 28, h, block);
    a, c := Round2(b, c, d, e, a, w, 29, h, block);
    e, b := Round2(a, b, c, d, e, w, 30, h, block);
    d, a := Round2(e, a, b, c, d, w, 31, h, block);
    c, e := Round2(d, e, a, b, c, w, 32, h, block);
    b, d := Round2(c, d, e, a, b, w, 33, h, block);
    a, c := Round2(b, c, d, e, a, w, 34, h, block);
    e, b := Round2(a, b, c, d, e, w, 35, h, block);
    d, a := Round2(e, a, b, c, d, w, 36, h, block);
    c, e := Round2(d, e, a, b, c, w, 37, h, block);
    b, d := Round2(c, d, e, a, b, w, 38, h, block);
    a, c := Round2(b, c, d, e, a, w, 39, h, block);
  }

  method Rounds40(a0: word, b0: word, c0: word, d0: word, e0: word, w: array<word>, ghost h: Regs, ghost block: seq<byte>)
    returns (a: word, b: word, c: word, d: word, e: word)
    requires |block| == 64 && Window(w[..], block, 40)
    requires Regs(a0, b0, c0, d0, e0) == Rounds(h, block, 40)
    modifies w
    ensures Window(w[..], block, 60)
    ensures Regs(a, b, c, d, e) == Rounds(h, block, 60)
  {
    hide *;
    a, b, c, d, e := a0, b0, c0, d0, e0;
    e, b := Round3(a, b, c, d, e, w, 40, h, block);
    d, a := Round3(e, a, b, c, d, w, 41, h, block);
    c, e := Round3(d, e, a, b, c, w, 42, h, block);
    b, d := Round3(c, d, e, a, b, w, 43, h, block);
    a, c := Round3(b, c, d, e, a, w, 44, h, block);
    e, b := Round3(a, b, c, d, e, w, 45, h, block);
    d, a := Round3(e, a, b, c, d, w, 46, h, block);
    c, e := Round3(d, e, a, b, c, w, 47, h, block);
    b, d := Round3(c, d, e, a, b, w, 48, h, block);
    a, c := Round3(b, c, d, e, a, w, 49, h, block);
    e, b := Round3(a, b, c, d, e, w, 50, h, block);
    d, a := Round3(e, a, b, c, d, w, 51, h, block);
    c, e := Round3(d, e, a, b, c, w, 52, h, block);
    b, d := Round3(c, d, e, a, b, w, 53, h, block);
    a, c := Round3(b, c, d, e, a, w, 54, h, block);
    e, b := Round3(a, b, c, d, e, w, 55, h, block);
    d, a := Round3(e, a, b, c, d, w, 56, h, block);
    c, e := Round3(d, e, a, b, c, w, 57, h, block);
    b, d := Round3(c, d, e, a, b, w, 58, h, block);
    a, c := Round3(b, c, d, e, a, w, 59, h, block);
  }

  method Rounds60(a0: word, b0: word, c0: word, d0: word, e0: word, w: array<word>, ghost h: Regs, ghost block: seq<byte>)
    returns (a: word, b: word, c: word, d: word, e: word)
    requires |block| == 64 && Window(w[..], block, 60)
    requires Regs(a0, b0, c0, d0, e0) == Rounds(h, block, 60)
    modifies w
    ensures Window(w[..], block, 80)
    ensures Regs(a, b, c, d, e) == Rounds(h, block, 80)
  {
    hide *;
    a, b, c, d, e := a0, b0, c0, d0, e0;
    e, b := Round4(a, b, c, d, e, w, 60, h, block);
    d, a := Round4(e, a, b, c, d, w, 61, h, block);
    c, e := Round4(d, e, a, b, c, w, 62, h, block);
    b, d := Round4(c, d, e, a, b, w, 63, h, block);
    a, c := Round4(b, c, d, e, a, w, 64, h, block);
    e, b := Round4(a, b, c, d, e, w, 65, h, block);
    d, a := Round4(e, a, b, c, d, w, 66, h, block);
    c, e := Round4(d, e, a, b, c, w, 67, h, block);
    b, d := Round4(c, d, e, a, b, w, 68, h, block);
    a, c := Round4(b, c, d, e, a, w, 69, h, block);
    e, b := Round4(a, b, c, d, e, w, 70, h, block);
    d, a := Round4(e, a, b, c, d, w, 71, h, block);
    c, e := Round4(d, e, a, b, c, w, 72, h, block);
    b, d := Round4(c, d, e, a, b, w, 73, h, block);
    a, c := Round4(b, c, d, e, a, w, 74, h, block);
    e, b := Round4(a, b, c, d, e, w, 75, h, block);
    d, a := Round4(e, a, b, c, d, w, 76, h, block);
    c, e := Round4(d, e, a, b, c, w, 77, h, block);
    b, d := Round4(c, d, e, a, b, w, 78, h, block);
    a, c := Round4(b, c, d, e, a, w, 79, h, block);
  }

  lemma FirstWords(block: seq<byte>, i: nat)
    requires |block| == 64 && i < 16
    ensures W(block, i) == BigEndianWord(block[4 * i..4 * i + 4])
  {
    hide BigEndianWord;
  }

  method LoadBlock(block: seq<byte>) returns (w: array<word>)
    requires |block| == 64
    ensures fresh(w) && w.Length == 16 && Window(w[..], block, 16)
  {
    hide W, BigEndianWord;
    w := new word[16];
    for i := 0 to 16
      invariant forall k: nat :: k < i ==> w[k] == W(block, k)
    {
      FirstWords(block, i);
      w[i] := BigEndianWord(block[4 * i..4 * i + 4]);
    }
  }

  method AddTo(state: array<word>, r: Regs)
    requires state.Length == 5
    modifies state
    ensures Value(state[..]) == Add(Value(old(state[..])), r)
  {
    hide Plus;
    state[0] := Plus(state[0], r.a);
    state[1] := Plus(state[1], r.b);
    state[2] := Plus(state[2], r.c);
    state[3] := Plus(state[3], r.d);
    state[4] := Plus(state[4], r.e);
  }

  /** process_block: the new chaining value is the textbook one. */
  method ProcessBlock(state: array<word>, block: seq<byte>)
    requires state.Length == 5 && |block| == 64
    modifies state
    ensures Value(state[..]) == HashBlock(Value(old(state[..])), block)
  {
    hide Add, W, BigEndianWord, Step, Window;
    ghost var h := Value(state[..]);
    var a, b, c, d, e := state[0], state[1], state[2], state[3], state[4];
    var w := LoadBlock(block);
    a, b, c, d, e := Rounds00(a, b, c, d, e, w, h, block);
    a, b, c, d, e := Rounds20(a, b, c, d, e, w, h, block);
    a, b, c, d, e := Rounds40(a, b, c, d, e, w, h, block);
    a, b, c, d, e := Rounds60(a, b, c, d, e, w, h, block);
    AddTo(state, Regs(a, b, c, d, e));
  }
}
