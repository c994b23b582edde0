/** Big-endian integers, byte by byte. */
module BigEndian {
  import opened Words

  lemma TwoBytes(x: nat)
    requires x < 0x1_0000
    ensures ToBe(x, 2) == [x / 256, x % 256]
  {
    assert ToBe(x / 256 / 256, 0) == [];
    assert ToBe(x / 256, 1) == [x / 256];
  }

  lemma FourBytes(x: u32)
    ensures ToBe(x, 4) == [x / 0x100_0000, x / 0x1_0000 % 256, x / 256 % 256, x % 256]
  {
    DivDiv(x, 256, 256);
    DivDiv(x, 0x1_0000, 256);
    var a, b, c := x / 256, x / 256 / 256, x / 256 / 256 / 256;
    assert ToBe(c / 256, 0) == [];
    assert ToBe(c, 1) == [c];
    assert ToBe(b, 2) == ToBe(c, 1) + [b % 256];
    assert ToBe(a, 3) == ToBe(b, 2) + [a % 256];
  }

  method AppendBe64(buf: seq<byte>, x: u64) returns (out: seq<byte>)
    ensures out == buf + ToBe(x, 8)
  {
    EightBytes(x);
    out := buf + [x / 0x100_0000_0000_0000 % 256];
    out := out + [x / 0x1_0000_0000_0000 % 256];
    out := out + [x / 0x100_0000_0000 % 256];
    out := out + [x / 0x1_0000_0000 % 256];
    out := out + [x / 0x100_0000 % 256];
    out := out + [x / 0x1_0000 % 256];
    out := out + [x / 0x100 % 256];
    out := out + [x % 256];
  }

  lemma EightBytes(x: nat)
    ensures ToBe(x, 8) ==
      [x / 0x100_0000_0000_0000 % 256, x / 0x1_0000_0000_0000 % 256, x / 0x100_0000_0000 % 256, x / 0x1_0000_0000 % 256,
       x / 0x100_0000 % 256, x / 0x1_0000 % 256, x / 0x100 % 256, x % 256]
  {
    FourAtEnd(x, 4);
    FourAtEnd(x / 0x1_0000_0000, 0);
    DivDiv(x, 0x1_0000_0000, 0x100);
    DivDiv(x, 0x1_0000_0000, 0x1_0000);
    DivDiv(x, 0x1_0000_0000, 0x100_0000);
    assert ToBe(x / 0x1_0000_0000 / 0x1_0000_0000, 0) == [];
  }

  lemma FourAtEnd(x: nat, n: nat)
    ensures ToBe(x, n + 4)
      == ToBe(x / 0x1_0000_0000, n) + [x / 0x100_0000 % 256, x / 0x1_0000 % 256, x / 0x100 % 256, x % 256]
  {
    DivDiv(x, 256, 256);
    DivDiv(x, 0x1_0000, 256);
    DivDiv(x, 0x100_0000, 256);
    var a, b, c := x / 256, x / 0x1_0000, x / 0x100_0000;
    var d := x / 0x1_0000_0000;
    assert ToBe(c, n + 1) == ToBe(d, n) + [c % 256];
    assert ToBe(b, n + 2) == ToBe(c, n + 1) + [b % 256];
    assert ToBe(a, n + 3) == ToBe(b, n + 2) + [a % 256];
  }

  method AppendBe32(buf: seq<byte>, x: u32) returns (out: seq<byte>)
    ensures out == buf + ToBe(x, 4)
  {
    FourBytes(x);
    out := buf + [x / 0x100_0000];
    out := out + [x / 0x1_0000 % 256];
    out := out + [x / 0x100 % 256];
    out := out + [x % 256];
  }
}
