/** state: absorbs a message written in any pieces and squeezes output read in any pieces. */
module Sponges {
  import opened Wrappers
  import opened Division
  import opened SpongeFunctions

  const MAX_RATE := 168

  /** How many bytes xorIn combines for a buffer of n bytes: whole words in steps made for the rates in use. */
  function XorLength(n: nat): nat {
    if n >= 168 then 168 else if n >= 144 then 144 else if n >= 136 then 136 else if n >= 104 then 104
    else if n >= 72 then 72 else 0
  }

  predicate Rate(n: nat) {
    n in {72, 104, 136, 144, 168}
  }

  function XorIn(a: State, buf: seq<bv8>): (r: State)
    requires |buf| <= 200
    ensures Rate(|buf|) ==> r == Xor(a, buf)
  {
    Xor(a, buf[..XorLength(|buf|)])
  }

  class Sponge {
    const f: State -> State
    const rate: nat
    const dsbyte: bv8
    const outputLen: nat
    const storage: array<bv8>
    /** The state, as bytes. */
    var a: State
    /** The buffer is a part of the storage. */
    var lo: nat
    var hi: nat
    var squeezing: bool
    /** What has been written, and how much has been read. */
    ghost var msg: seq<bv8>
    ghost var pos: nat

    ghost predicate Valid()
      reads this, storage
    {
      && storage.Length == MAX_RATE && Rate(rate) && lo <= hi <= rate
      && (if squeezing then Squeezed(f, rate, dsbyte, msg, pos, a, lo) && hi == rate && storage[..rate] == a[..rate]
        else lo == 0 && pos == 0 && Absorbed(f, rate, msg, a, storage[..hi]))
    }

    constructor (f: State -> State, rate: nat, dsbyte: bv8, outputLen: nat)
      requires Rate(rate)
      ensures Valid() && !squeezing && msg == [] && pos == 0 && fresh(storage)
      ensures this.f == f && this.rate == rate && this.dsbyte == dsbyte && this.outputLen == outputLen
    {
      hide Absorbed;
      NothingAbsorbed(f, rate);
      this.f, this.rate, this.dsbyte, this.outputLen := f, rate, dsbyte, outputLen;
      storage := new bv8[MAX_RATE](i => 0);
      a, lo, hi, squeezing, msg, pos := ZERO, 0, 0, false, [], 0;
    }

    method Reset()
      requires storage.Length == MAX_RATE && Rate(rate)
      modifies this
      ensures Valid() && !squeezing && msg == []
    {
      hide Absorbed;
      NothingAbsorbed(f, rate);
      a, squeezing, lo, hi, msg, pos := ZERO, false, 0, 0, [], 0;
      assert storage[..hi] == [];
    }

    /** How far a copy made while squeezing falls back. */
    function Behind(): nat
      reads this
      requires Rate(rate)
    {
      if squeezing then MAX_RATE - rate else 0
    }

    /** A copy with its own storage; None where the source panics. The buffer of a squeezing sponge is looked up by its
        capacity, from the end of the storage, so that the copy goes on where the original was before it read the last
        MAX_RATE - rate bytes: at the same byte only when the rate is the whole storage. */
    method Clone() returns (dup: Option<Sponge>)
      requires Valid()
      ensures dup.None? <==> OffsetOf(pos, rate) < Behind()
      ensures dup.Some? ==> var s := dup.value;
        && fresh(s) && fresh(s.storage) && s.f == f && s.rate == rate && s.dsbyte == dsbyte && s.outputLen == outputLen
        && s.Valid() && s.squeezing == squeezing && s.msg == msg && s.pos == pos - Behind()
    {
      hide Absorbed, Squeezed;
      PositionZero(rate);
      PositionIsOffset(this);
      var s := new Sponge(f, rate, dsbyte, outputLen);
      CopyStorage(s);
      s.a, s.squeezing := a, squeezing;
      s.msg, s.pos := msg, pos;
      if squeezing {
        var capacity := MAX_RATE - lo;
        if rate < capacity {
          return None;
        }
        SqueezedBefore(f, rate, dsbyte, msg, pos, a, lo, MAX_RATE - rate);
        s.lo, s.hi, s.pos := rate - capacity, rate, pos - (MAX_RATE - rate);
        assert s.storage[..rate] == s.storage[..][..rate] == storage[..rate];
      } else {
        s.lo, s.hi := 0, hi - lo;
        assert s.storage[..s.hi] == s.storage[..][..hi] == storage[..hi];
      }
      return Some(s);
    }

    method CopyStorage(s: Sponge)
      requires storage.Length == s.storage.Length && s.storage != storage
      modifies s.storage
      ensures s.storage[..] == storage[..]
    {
      forall i | 0 <= i < storage.Length {
        s.storage[i] := storage[i];
      }
    }

    /** Writing after reading has started is a panic in the source. */
    method Write(p: seq<bv8>)
      requires Valid() && !squeezing
      modifies this`a, this`hi, this`msg, storage
      ensures Valid() && msg == old(msg) + p
    {
      hide Absorbed, Squeezed, Xor;
      var rest := p;
      while rest != []
        invariant Valid() && !squeezing && msg + rest == old(msg) + p
        decreases |rest|
      {
        if hi - lo == 0 && |rest| >= rate {
          Cut(msg, rest, rate);
          WriteBlock(rest[..rate]);
          rest := rest[rate..];
        } else {
          BufferShort(f, rate, msg, a, storage[..hi]);
          var todo := rate - (hi - lo);
          if todo > |rest| {
            todo := |rest|;
          }
          Cut(msg, rest, todo);
          WritePart(rest[..todo]);
          rest := rest[todo..];
        }
      }
    }

    /** The fast path: a whole block that need not be buffered. */
    method WriteBlock(block: seq<bv8>)
      requires Valid() && !squeezing && lo == hi && |block| == rate
      modifies this`a, this`msg
      ensures Valid() && msg == old(msg) + block
    {
      hide Absorbed, Squeezed, Xor;
      AbsorbedBlock(f, rate, msg, a, storage[..hi], block);
      a := XorIn(a, block);
      a := f(a);
      msg := msg + block;
      assert storage[..hi] == [];
    }

    /** The slow path: data that fits in the buffer; a full buffer is absorbed. */
    method WritePart(data: seq<bv8>)
      requires Valid() && !squeezing && hi - lo + |data| <= rate
      modifies this`a, this`hi, this`msg, storage
      ensures Valid() && msg == old(msg) + data
    {
      hide Absorbed, Squeezed, Xor;
      ghost var buf := storage[..hi];
      Append(data);
      assert storage[..hi][|buf|..] == data;
      if hi - lo == rate {
        AbsorbedBuffer(f, rate, msg, a, buf, storage[..hi]);
        AbsorbBuffer();
        assert storage[..hi] == [];
      } else {
        AbsorbedMore(f, rate, msg, a, buf, storage[..hi]);
      }
      msg := msg + data;
    }

    /** append to the buffer, in place. */
    method Append(data: seq<bv8>)
      requires storage.Length == MAX_RATE && lo <= hi && hi + |data| <= MAX_RATE
      modifies this`hi, storage
      ensures hi == old(hi) + |data| && storage[..hi] == old(storage[..hi]) + data
    {
      forall i | 0 <= i < |data| {
        storage[hi + i] := data[i];
      }
      hi := hi + |data|;
    }

    /** Pads the message, absorbs the last block and makes the first block of output. */
    method PadAndPermute()
      requires Valid() && !squeezing
      modifies this, storage
      ensures Valid() && squeezing && msg == old(msg) && pos == 0
    {
      hide Absorbed, Squeezed, Xor, LastBlock;
      ghost var buf := storage[..hi];
      BufferShort(f, rate, msg, a, buf);
      FinishBlock();
      SqueezeStarts(f, rate, dsbyte, msg, a, buf);
      AbsorbBuffer();
      squeezing, pos := true, 0;
      CopyOut();
    }

    method FinishBlock()
      requires storage.Length == MAX_RATE && Rate(rate) && lo == 0 && hi < rate
      modifies this`hi, storage
      ensures hi == rate && storage[..rate] == LastBlock(old(storage[..hi]), dsbyte, rate)
    {
      Append([dsbyte]);
      FillZeros();
      storage[rate - 1] := storage[rate - 1] ^ 0x80;
    }

    method FillZeros()
      requires storage.Length == MAX_RATE && hi <= rate <= MAX_RATE
      modifies this`hi, storage
      ensures hi == rate && storage[..rate] == old(storage[..hi]) + Zeros(rate - old(hi))
    {
      var zerosStart := hi;
      AllZeros(rate - zerosStart);
      hi := rate;
      forall i | zerosStart <= i < rate {
        storage[i] := 0;
      }
      assert storage[..zerosStart] == old(storage[..hi]);
      assert storage[zerosStart..rate] == Zeros(rate - zerosStart);
      assert storage[..rate] == storage[..zerosStart] + storage[zerosStart..rate];
    }

    /** The first rate bytes of the state become the buffer. */
    method CopyOut()
      requires storage.Length == MAX_RATE && Rate(rate)
      modifies this`lo, this`hi, storage
      ensures lo == 0 && hi == rate && storage[..rate] == a[..rate]
    {
      lo, hi := 0, rate;
      forall i | 0 <= i < rate {
        storage[i] := a[i];
      }
    }

    /** Any sequence of reads yields consecutive pieces of the output of the whole message. */
    method Read(out: array<bv8>)
      requires Valid() && out != storage
      modifies this, storage, out
      ensures Valid() && squeezing && msg == old(msg) && pos == old(pos) + out.Length
      ensures out[..] == Output(f, rate, Start(), old(pos), out.Length)
    {
      hide Absorbed, Squeezed, Iterate, OutputByte;
      if !squeezing {
        PadAndPermute();
      }
      var done := 0;
      ghost var from := pos;
      while done < out.Length
        invariant Valid() && squeezing && msg == old(msg) && done <= out.Length && pos == from + done
        invariant out[..done] == Output(f, rate, Start(), from, done)
        decreases out.Length - done
      {
        var n := ReadPart(out, done);
        assert out[..done + n] == out[..done] + out[done..done + n];
        OutputSplit(f, rate, Start(), from, done, n);
        done := done + n;
      }
      assert out[..] == out[..done];
    }

    /** The state from which output is squeezed. */
    ghost function Start(): State
      reads this
      requires Rate(rate)
    {
      Absorb(f, rate, ZERO, Padded(msg, dsbyte, rate))
    }

    /** As much as the buffer holds; an empty buffer is filled again. */
    method ReadPart(out: array<bv8>, done: nat) returns (n: nat)
      requires Valid() && squeezing && out != storage && done < out.Length
      modifies this`a, this`lo, this`hi, this`pos, storage, out
      ensures Valid() && 0 < n <= out.Length - done && pos == old(pos) + n && out[..done] == old(out[..done])
      ensures out[done..done + n] == Output(f, rate, Start(), old(pos), n)
    {
      hide Squeezed, Absorb, Padded, Output;
      n := if hi - lo <= out.Length - done then hi - lo else out.Length - done;
      BufferLeft(f, rate, dsbyte, msg, pos, a, lo, n);
      SubSlices(storage[..], a, lo, hi, n);
      CopyBuffer(out, done, n);
      lo := lo + n;
      pos := pos + n;
      if hi - lo == 0 {
        a := f(a);
        CopyOut();
      }
    }

    /** The sponge of everything written so far, behind the bytes of prefix; the sponge itself goes on absorbing.
        Squeezing, the output from where a copy falls back to; None where the source panics. */
    method Sum(prefix: seq<bv8>) returns (sum: Option<seq<bv8>>)
      requires Valid()
      ensures sum.None? <==> OffsetOf(pos, rate) < Behind()
      ensures !squeezing ==> sum == Some(prefix + SpongeFunctions.Sponge(f, rate, dsbyte, msg, outputLen))
      ensures squeezing && sum.Some? ==> sum == Some(prefix + Output(f, rate, Start(), pos - Behind(), outputLen))
    {
      hide Output, Absorb, Padded, Absorbed, Squeezed;
      var clone := Clone();
      if clone.None? {
        return None;
      }
      var dup := clone.value;
      var hash := new bv8[dup.outputLen];
      dup.Read(hash);
      return Some(prefix + hash[..]);
    }

    method CopyBuffer(out: array<bv8>, done: nat, n: nat)
      requires out != storage && done + n <= out.Length && lo + n <= storage.Length
      modifies out
      ensures out[done..done + n] == storage[lo..lo + n] && out[..done] == old(out[..done])
    {
      forall i | 0 <= i < n {
        out[done + i] := storage[lo + i];
      }
      ghost var x, y := out[done..done + n], storage[lo..lo + n];
      forall i | 0 <= i < n ensures x[i] == y[i] {
        assert x[i] == out[done + i] && y[i] == storage[lo + i];
      }
    }

    /** permute while absorbing. */
    method AbsorbBuffer()
      requires storage.Length == MAX_RATE && Rate(rate) && lo == 0 && hi == rate
      modifies this`a, this`hi
      ensures a == f(Xor(old(a), storage[..rate])) && hi == 0
    {
      a := XorIn(a, storage[lo..hi]);
      assert storage[0..rate] == storage[..rate];
      hi := 0;
      a := f(a);
    }
  }

  /** After writing msg the state has absorbed all its complete blocks and the buffer holds the rest. */
  ghost predicate Absorbed(f: State -> State, rate: nat, msg: seq<bv8>, a: State, buf: seq<bv8>) {
    && 0 < rate <= 200 && |buf| < rate && |buf| <= |msg| && msg[|msg| - |buf|..] == buf
    && (|msg| - |buf|) % rate == 0 && a == Absorb(f, rate, ZERO, msg[..|msg| - |buf|])
  }

  /** After reading pos bytes of the output. */
  ghost predicate Squeezed(f: State -> State, rate: nat, ds: bv8, msg: seq<bv8>, pos: nat, a: State, lo: nat) {
    && 0 < rate <= 200 && lo == OffsetOf(pos, rate)
    && a == Iterate(f, BlockOf(pos, rate), Absorb(f, rate, ZERO, Padded(msg, ds, rate)))
  }

  lemma NothingAbsorbed(f: State -> State, rate: nat)
    requires Rate(rate)
    ensures Absorbed(f, rate, [], ZERO, [])
  {
    DivisionIs(0, rate, 0, 0);
  }

  lemma BufferShort(f: State -> State, rate: nat, msg: seq<bv8>, a: State, buf: seq<bv8>)
    requires Absorbed(f, rate, msg, a, buf)
    ensures |buf| < rate
  {
  }

  lemma AbsorbedMore(f: State -> State, rate: nat, msg: seq<bv8>, a: State, buf: seq<bv8>, buf': seq<bv8>)
    requires Absorbed(f, rate, msg, a, buf) && buf <= buf' && |buf'| < rate
    ensures Absorbed(f, rate, msg + buf'[|buf|..], a, buf')
  {
    var all, full := msg + buf'[|buf|..], msg[..|msg| - |buf|];
    assert msg == full + buf;
    assert all == full + buf';
    assert all[..|all| - |buf'|] == full;
  }

  lemma AbsorbedBuffer(f: State -> State, rate: nat, msg: seq<bv8>, a: State, buf: seq<bv8>, buf': seq<bv8>)
    requires Absorbed(f, rate, msg, a, buf) && buf <= buf' && |buf'| == rate
    ensures Absorbed(f, rate, msg + buf'[|buf|..], f(Xor(a, buf')), [])
  {
    var all, full := msg + buf'[|buf|..], msg[..|msg| - |buf|];
    assert msg == full + buf;
    assert all == full + buf';
    AbsorbBlock(f, rate, ZERO, full, buf');
    assert all[..|all|] == all;
  }

  lemma AbsorbedBlock(f: State -> State, rate: nat, msg: seq<bv8>, a: State, buf: seq<bv8>, block: seq<bv8>)
    requires Absorbed(f, rate, msg, a, buf) && buf == [] && |block| == rate
    ensures Absorbed(f, rate, msg + block, f(Xor(a, block)), [])
  {
    AbsorbedBuffer(f, rate, msg, a, buf, block);
    assert block[0..] == block;
  }

  lemma Cut(msg: seq<bv8>, rest: seq<bv8>, n: nat)
    requires n <= |rest|
    ensures (msg + rest[..n]) + rest[n..] == msg + rest
  {
  }

  lemma AllZeros(n: nat)
    ensures forall i :: 0 <= i < n ==> Zeros(n)[i] == 0
  {
  }

  lemma SubSlices(s: seq<bv8>, t: seq<bv8>, lo: nat, hi: nat, n: nat)
    requires lo + n <= hi <= |s| && hi <= |t| && s[..hi] == t[..hi]
    ensures s[lo..lo + n] == t[lo..lo + n]
  {
    assert s[lo..lo + n] == s[..hi][lo..lo + n] && t[lo..lo + n] == t[..hi][lo..lo + n];
  }

  lemma PositionZero(rate: nat)
    requires Rate(rate)
    ensures OffsetOf(0, rate) == 0
  {
  }

  lemma PositionIsOffset(s: Sponge)
    requires s.Valid()
    ensures s.squeezing ==> OffsetOf(s.pos, s.rate) == s.lo
  {
  }

  /** A position in the same block. */
  lemma SqueezedBefore(f: State -> State, rate: nat, ds: bv8, msg: seq<bv8>, pos: nat, a: State, lo: nat, n: nat)
    requires Squeezed(f, rate, ds, msg, pos, a, lo) && n <= lo
    ensures n <= pos && Squeezed(f, rate, ds, msg, pos - n, a, lo - n)
  {
    Euclid(pos, rate);
    DivisionIs(pos - n, rate, pos / rate, pos % rate - n);
  }

  lemma SqueezeStarts(f: State -> State, rate: nat, ds: bv8, msg: seq<bv8>, a: State, buf: seq<bv8>)
    requires Absorbed(f, rate, msg, a, buf)
    ensures Squeezed(f, rate, ds, msg, 0, f(Xor(a, LastBlock(buf, ds, rate))), 0)
  {
    var full := msg[..|msg| - |buf|];
    assert msg == full + buf;
    CutUnique(msg, full, buf, rate);
    AbsorbBlock(f, rate, ZERO, full, LastBlock(buf, ds, rate));
    DivisionIs(0, rate, 0, 0);
  }

  /** The next n bytes of the buffer are the next n bytes of the output. */
  lemma BufferLeft(f: State -> State, rate: nat, ds: bv8, msg: seq<bv8>, pos: nat, a: State, lo: nat, n: nat)
    requires Squeezed(f, rate, ds, msg, pos, a, lo) && lo + n <= rate
    ensures lo < rate && a[lo..lo + n] == Output(f, rate, Absorb(f, rate, ZERO, Padded(msg, ds, rate)), pos, n)
    ensures lo + n < rate ==> Squeezed(f, rate, ds, msg, pos + n, a, lo + n)
    ensures lo + n == rate ==> Squeezed(f, rate, ds, msg, pos + n, f(a), 0)
  {
    hide Absorb, Padded, Iterate, BlockOf, OffsetOf;
    var start := Absorb(f, rate, ZERO, Padded(msg, ds, rate));
    NextBytes(f, rate, start, pos, a, lo, n);
    if lo + n < rate {
      SameBlock(pos, rate, n);
    } else {
      IterateOnce(f, BlockOf(pos, rate), start);
      NextBlock(pos, rate, n);
    }
  }

  lemma NextBytes(f: State -> State, rate: nat, start: State, pos: nat, a: State, lo: nat, n: nat)
    requires 0 < rate <= 200 && lo == OffsetOf(pos, rate) && a == Iterate(f, BlockOf(pos, rate), start)
      && lo + n <= rate
    ensures a[lo..lo + n] == Output(f, rate, start, pos, n)
  {
    hide Iterate, BlockOf, OffsetOf;
    var block := a[lo..lo + n];
    forall i | 0 <= i < n ensures block[i] == OutputByte(f, rate, start, pos + i) {
      SameBlock(pos, rate, i);
    }
  }

  lemma IterateOnce(f: State -> State, k: nat, a: State)
    ensures Iterate(f, k + 1, a) == f(Iterate(f, k, a))
  {
  }

  lemma SameBlock(pos: nat, rate: nat, i: nat)
    requires rate > 0 && OffsetOf(pos, rate) + i < rate
    ensures BlockOf(pos + i, rate) == BlockOf(pos, rate) && OffsetOf(pos + i, rate) == OffsetOf(pos, rate) + i
  {
    Euclid(pos, rate);
    DivisionIs(pos + i, rate, pos / rate, pos % rate + i);
  }

  lemma NextBlock(pos: nat, rate: nat, n: nat)
    requires rate > 0 && OffsetOf(pos, rate) + n == rate
    ensures BlockOf(pos + n, rate) == BlockOf(pos, rate) + 1 && OffsetOf(pos + n, rate) == 0
  {
    Euclid(pos, rate);
    Distribute(rate, pos / rate, -1);
    DivisionIs(pos + n, rate, pos / rate + 1, 0);
  }

  /** A permutation of the model that makes byte i of its state i. */
  function Ramp(): State {
    seq(200, i requires 0 <= i < 200 => i as bv8)
  }

  lemma RampOutput(f: State -> State, ds: bv8, p: nat)
    requires p < 136 && forall a: State :: f(a) == Ramp()
    ensures Output(f, 136, Absorb(f, 136, ZERO, Padded([], ds, 136)), p, 1) == [p as bv8]
  {
    hide Absorb, Xor, Ramp;
    var block := LastBlock([], ds, 136);
    assert Padded([], ds, 136) == [] + block;
    AbsorbBlock(f, 136, ZERO, [], block);
    DivisionIs(p, 136, 0, p);
    RampByte(f, p);
  }

  lemma RampByte(f: State -> State, p: nat)
    requires p < 136 && BlockOf(p, 136) == 0 && OffsetOf(p, 136) == p
    ensures OutputByte(f, 136, Ramp(), p) == p as bv8
  {
  }

  /** At rate 136, after 40 bytes of output, a copy repeats bytes 8 to 39 instead of going on with byte 40. */
  method CloneRepeats() returns (original: bv8, copied: bv8)
    ensures original == 40 && copied == 8
  {
    hide Absorb, Padded, Absorbed, Squeezed, Output, Ramp, Sponge.Valid;
    var s := new Sponge(_ => Ramp(), 136, 0x06, 32);
    var out := new bv8[40];
    s.Read(out);
    DivisionIs(40, 136, 0, 40);
    var clone := s.Clone();
    var one := new bv8[1];
    s.Read(one);
    var two := new bv8[1];
    clone.value.Read(two);
    RampOutput(s.f, s.dsbyte, 40);
    RampOutput(s.f, s.dsbyte, 8);
    assert one[..][0] == 40 && two[..][0] == 8;
    return one[0], two[0];
  }
}
