/** Big-endian integers, as encoding/binary writes and reads them. */
module BigEndian {
  import opened Prelude
  import opened Bits

  function Pow256(width: nat): (p: nat)
    ensures p >= 1
  {
    if width == 0 then 1 else 256 * Pow256(width - 1)
  }

  function ToBytes(n: nat, width: nat): (s: seq<uint8>)
    ensures |s| == width
  {
    if width == 0 then [] else ToBytes(n / 256, width - 1) + [n % 256]
  }

  function FromBytes(s: seq<uint8>): nat {
    if s == [] then 0 else 256 * FromBytes(s[..|s| - 1]) + s[|s| - 1]
  }

  /** Reading back what was written gives the number modulo the width written. */
  lemma {:induction false} ReadWritten(n: nat, width: nat)
    requires n < Pow256(width)
    ensures FromBytes(ToBytes(n, width)) == n
  {
    if width == 0 {
    } else {
      ReadWritten(n / 256, width - 1);
      var s := ToBytes(n, width);
      assert s[..width - 1] == ToBytes(n / 256, width - 1);
    }
  }

  /** Writing back what was read gives the bytes again. */
  lemma {:induction false} WriteRead(s: seq<uint8>)
    ensures FromBytes(s) < Pow256(|s|)
    ensures ToBytes(FromBytes(s), |s|) == s
  {
    if s == [] {
    } else {
      var init, last := s[..|s| - 1], s[|s| - 1];
      WriteRead(init);
      assert FromBytes(s) / 256 == FromBytes(init) && FromBytes(s) % 256 == last;
      assert s == init + [last];
    }
  }

  /** The most significant byte comes first. */
  lemma {:induction false} ByteAt(n: nat, width: nat, i: nat)
    requires i < width
    ensures ToBytes(n, width)[i] == n / Pow256(width - 1 - i) % 256
    decreases width
  {
    if i < width - 1 {
      var m := Pow256(width - 2 - i);
      ByteAt(n / 256, width - 1, i);
      QuotientOfQuotient(n, m);
    }
  }

  lemma QuotientOfQuotient(n: nat, m: nat)
    requires m >= 1
    ensures n / 256 / m == n / (256 * m)
  {
    var q, r := n / 256 / m, n / 256 % m;
    assert n / 256 == q * m + r;
    assert n == (256 * m) * q + (256 * r + n % 256) by {
      assert 256 * (q * m) == (256 * m) * q;
    }
    DivisionUnique(n, 256 * m, q, 256 * r + n % 256);
  }

  /** Four bytes weigh 2^24, 2^16, 2^8 and 1, two bytes 2^8 and 1. */
  lemma ByteWeights(a: uint8, b: uint8, c: uint8, d: uint8)
    ensures FromBytes([a, b, c, d]) == 0x100_0000 * a + 0x1_0000 * b + 0x100 * c + d
    ensures FromBytes([a, b]) == 0x100 * a + b
  {
    assert [a, b, c, d][..3] == [a, b, c] && [a, b, c][..2] == [a, b] && [a, b][..1] == [a] && [a][..0] == [];
    assert FromBytes([a]) == a;
    assert FromBytes([a, b]) == 0x100 * a + b;
    assert FromBytes([a, b, c]) == 0x1_0000 * a + 0x100 * b + c;
  }

  lemma Widths()
    ensures Pow256(2) == 0x1_0000 && Pow256(4) == TWO_TO_THE_32 && Pow256(8) == TWO_TO_THE_64
  {
    assert Pow256(6) == 0x1_0000_0000_0000;
  }

  /** Writes n into width bytes of the buffer from position at, the lowest-order byte last. */
  method PutUint(buf: array<uint8>, at: nat, width: nat, n: nat)
    requires at + width <= buf.Length
    modifies buf
    ensures buf[..] == old(buf[..at]) + ToBytes(n, width) + old(buf[at + width..])
  {
    var rest := n;
    for left := width downto 0
      invariant buf[..at + left] == old(buf[..at + left])
      invariant ToBytes(n, width) == ToBytes(rest, left) + buf[at + left..at + width]
      invariant buf[at + width..] == old(buf[at + width..])
    {
      assert ToBytes(rest, left + 1) == ToBytes(rest / 256, left) + [rest % 256];
      buf[at + left] := rest % 256;
      rest := rest / 256;
    }
    assert buf[..] == buf[..at] + buf[at..at + width] + buf[at + width..];
  }
}
