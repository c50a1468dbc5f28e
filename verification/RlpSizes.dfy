/** The sizes and headers the encoder computes. */
module RlpSizes {
  import opened Bytes
  import opened RlpFormat

  /** The digits putint stores. */
  function PutInt(i: nat): (b: seq<byte>)
    requires i < TWO_64
  {
    if i < 0x100 then [Octet(i)]
    else if i < 0x1_0000 then [Octet(i / 0x100), Octet(i)]
    else if i < 0x100_0000 then [Octet(i / 0x1_0000), Octet(i / 0x100), Octet(i)]
    else if i < 0x1_0000_0000 then [Octet(i / 0x100_0000), Octet(i / 0x1_0000), Octet(i / 0x100), Octet(i)]
    else
      var low := [Octet(i / 0x100_0000), Octet(i / 0x1_0000), Octet(i / 0x100), Octet(i)];
      if i < 0x100_0000_0000 then [Octet(i / 0x1_0000_0000)] + low
      else if i < 0x1_0000_0000_0000 then [Octet(i / 0x100_0000_0000), Octet(i / 0x1_0000_0000)] + low
      else if i < 0x100_0000_0000_0000 then
        [Octet(i / 0x1_0000_0000_0000), Octet(i / 0x100_0000_0000), Octet(i / 0x1_0000_0000)] + low
      else
        [Octet(i / 0x100_0000_0000_0000), Octet(i / 0x1_0000_0000_0000), Octet(i / 0x100_0000_0000),
          Octet(i / 0x1_0000_0000)] + low
  }

  /** One digit of ToBytes. */
  lemma Digit(i: nat)
    requires i > 0
    ensures ToBytes(i) == ToBytes(i / 0x100) + [Octet(i)]
  {
  }

  lemma FourDigits(i: nat)
    requires i >= 0x1_0000_0000
    ensures ToBytes(i) == ToBytes(i / 0x1_0000_0000)
      + [Octet(i / 0x100_0000), Octet(i / 0x1_0000), Octet(i / 0x100), Octet(i)]
  {
    Digit(i);
    Digit(i / 0x100);
    Digit(i / 0x1_0000);
    Digit(i / 0x100_0000);
    assert i / 0x100 / 0x100 == i / 0x1_0000 && i / 0x1_0000 / 0x100 == i / 0x100_0000;
    assert i / 0x100_0000 / 0x100 == i / 0x1_0000_0000;
    hide ToBytes;
  }

  lemma FewDigits(i: nat)
    requires 0 < i < 0x1_0000_0000
    ensures PutInt(i) == ToBytes(i)
  {
    Digit(i);
    assert i / 0x100 / 0x100 == i / 0x1_0000 && i / 0x1_0000 / 0x100 == i / 0x100_0000;
    if i >= 0x100 {
      Digit(i / 0x100);
    }
    if i >= 0x1_0000 {
      Digit(i / 0x1_0000);
    }
    if i >= 0x100_0000 {
      Digit(i / 0x100_0000);
    }
    assert ToBytes(0) == [];
    hide ToBytes;
  }

  /** putint stores the shortest big-endian form; for zero it stores one byte. */
  lemma PutIntIsShortest(i: nat)
    requires 0 < i < TWO_64
    ensures PutInt(i) == ToBytes(i)
  {
    if i < 0x1_0000_0000 {
      FewDigits(i);
    } else {
      var h := i / 0x1_0000_0000;
      FourDigits(i);
      FewDigits(h);
      assert h / 0x100 == i / 0x100_0000_0000 && h / 0x1_0000 == i / 0x1_0000_0000_0000;
      assert h / 0x100_0000 == i / 0x100_0000_0000_0000;
      hide ToBytes;
    }
  }

  /** How many bytes it takes to store i. */
  method IntSize(i: nat) returns (size: nat)
    ensures size == if i == 0 then 1 else |ToBytes(i)|
  {
    size := 1;
    var n := i;
    while true
      invariant size + |ToBytes(n)| == if i == 0 then 1 else |ToBytes(i)| + 1
      invariant n == 0 ==> i == 0
      decreases n
    {
      n := n / 256;
      if n == 0 {
        return;
      }
      size := size + 1;
    }
  }

  method HeadSize(size: nat) returns (n: nat)
    ensures n == |ListHead(size)| == |StrHead(size)|
  {
    if size < 56 {
      return 1;
    }
    n := IntSize(size);
    n := 1 + n;
  }

  /** puthead */
  function PutHead(smallTag: byte, largeTag: byte, size: nat): (b: seq<byte>)
    requires smallTag + 55 < 256 && largeTag + 8 < 256 && size < TWO_64
    ensures b == Head(smallTag, largeTag, size)
  {
    if size < 56 then [Octet(smallTag + size)]
    else
      PutIntIsShortest(size);
      [Octet(largeTag + |PutInt(size)|)] + PutInt(size)
  }
}
