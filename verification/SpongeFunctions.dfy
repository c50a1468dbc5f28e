/** The sponge construction of FIPS 202, sections 4 and 5.1, over an abstract permutation of 200 bytes. */
module SpongeFunctions {
  import opened Division

  function Zeros(n: nat): (s: seq<bv8>)
    ensures |s| == n
  {
    seq(n, i => 0)
  }

  type State = s: seq<bv8> | |s| == 200 witness Zeros(200)

  const ZERO: State := Zeros(200)

  function Xor(a: State, block: seq<bv8>): State
    requires |block| <= 200
  {
    seq(200, i requires 0 <= i < 200 => if i < |block| then a[i] ^ block[i] else a[i])
  }

  /** Absorbs the complete blocks of msg. */
  ghost function Absorb(f: State -> State, rate: nat, a: State, msg: seq<bv8>): State
    requires 0 < rate <= 200
    decreases |msg|
  {
    if |msg| < rate then a else Absorb(f, rate, f(Xor(a, msg[..rate])), msg[rate..])
  }

  lemma {:induction false} AbsorbSplit(f: State -> State, rate: nat, a: State, x: seq<bv8>, y: seq<bv8>)
    requires 0 < rate <= 200 && |x| % rate == 0
    ensures Absorb(f, rate, a, x + y) == Absorb(f, rate, Absorb(f, rate, a, x), y)
    decreases |x|
  {
    if |x| < rate {
      DivisionIs(|x|, rate, 0, |x|);
      assert x + y == y;
    } else {
      AddMultiple(|x| - rate, rate, 1);
      assert (x + y)[..rate] == x[..rate] && (x + y)[rate..] == x[rate..] + y;
      AbsorbSplit(f, rate, f(Xor(a, x[..rate])), x[rate..], y);
    }
  }

  /** One more block at the end. */
  lemma AbsorbBlock(f: State -> State, rate: nat, a: State, x: seq<bv8>, block: seq<bv8>)
    requires 0 < rate <= 200 && |x| % rate == 0 && |block| == rate
    ensures Absorb(f, rate, a, x + block) == f(Xor(Absorb(f, rate, a, x), block)) && |x + block| % rate == 0
  {
    AbsorbSplit(f, rate, a, x, block);
    AddMultiple(|x|, rate, 1);
    assert block[..rate] == block && |block[rate..]| == 0;
  }

  /** The last block: what is left of the message, the domain bits, zeros, and the final bit of the padding in the last
      byte, which may be the byte of the domain bits. */
  ghost function LastBlock(rest: seq<bv8>, ds: bv8, rate: nat): (block: seq<bv8>)
    requires |rest| < rate
    ensures |block| == rate
  {
    var unfinished := rest + [ds] + Zeros(rate - 1 - |rest|);
    unfinished[rate - 1 := unfinished[rate - 1] ^ 0x80]
  }

  /** The padded message. */
  ghost function Padded(msg: seq<bv8>, ds: bv8, rate: nat): seq<bv8>
    requires rate > 0
  {
    var k := |msg| - |msg| % rate;
    msg[..k] + LastBlock(msg[k..], ds, rate)
  }

  ghost function Iterate(f: State -> State, n: nat, a: State): State {
    if n == 0 then a else f(Iterate(f, n - 1, a))
  }

  /** In which block of output byte p is, and where in the block. */
  function BlockOf(p: nat, rate: nat): nat
    requires rate > 0
  {
    p / rate
  }

  function OffsetOf(p: nat, rate: nat): (i: nat)
    requires rate > 0
    ensures i < rate
  {
    p % rate
  }

  /** Byte p of the output stream that starts in state a. */
  ghost function OutputByte(f: State -> State, rate: nat, a: State, p: nat): bv8
    requires 0 < rate <= 200
  {
    Iterate(f, BlockOf(p, rate), a)[OffsetOf(p, rate)]
  }

  /** n bytes of output from byte p on. */
  ghost function Output(f: State -> State, rate: nat, a: State, p: nat, n: nat): seq<bv8>
    requires 0 < rate <= 200
  {
    seq(n, i requires 0 <= i < n => OutputByte(f, rate, a, p + i))
  }

  /** The sponge of a whole message: n bytes of output. */
  ghost function Sponge(f: State -> State, rate: nat, ds: bv8, msg: seq<bv8>, n: nat): seq<bv8>
    requires 0 < rate <= 200
  {
    Output(f, rate, Absorb(f, rate, ZERO, Padded(msg, ds, rate)), 0, n)
  }

  /** Consecutive pieces of output make up one. */
  lemma OutputSplit(f: State -> State, rate: nat, a: State, p: nat, m: nat, n: nat)
    requires 0 < rate <= 200
    ensures Output(f, rate, a, p, m + n) == Output(f, rate, a, p, m) + Output(f, rate, a, p + m, n)
  {
  }

  /** How a message is cut into its complete blocks and the rest is unique. */
  lemma CutUnique(msg: seq<bv8>, full: seq<bv8>, rest: seq<bv8>, rate: nat)
    requires rate > 0 && msg == full + rest && |full| % rate == 0 && |rest| < rate
    ensures |msg| % rate == |rest| && full == msg[..|msg| - |msg| % rate] && rest == msg[|msg| - |msg| % rate..]
  {
    Euclid(|full|, rate);
    DivisionIs(|msg|, rate, |full| / rate, |rest|);
  }
}
