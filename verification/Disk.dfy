/**
  The disk as the reader sees it: a sector of 512 bytes for every block
  address, of which the controller takes the low 28 bits.
 */
module Disk {
  import opened Bits
  import opened Bytes

  const SECTOR := 512
  const LBA_LIMIT := 0x1000_0000

  function Zeros(n: nat): seq<Byte> { seq(n, _ => 0) }

  type Sector = s: seq<Byte> | |s| == SECTOR witness Zeros(SECTOR)
  type Disk = nat -> Sector

  function SectorAt(disk: Disk, lba: nat): Sector {
    disk(lba % LBA_LIMIT)
  }

  /** The controller gets the address in three bytes and four bits of a fourth; these are what it reads. */
  lemma RegistersHoldAddress(disk: Disk, lba: nat)
    ensures var low, mid, high, head := lba % 256, lba / 0x100 % 256, lba / 0x1_0000 % 256, lba / 0x100_0000 % 16;
      SectorAt(disk, lba) == disk(low + 0x100 * mid + 0x1_0000 * high + 0x100_0000 * head)
  {
    FourBytes(lba);
    Peel(lba, 0x10_0000);
    Peel(lba / 0x100, 0x1000);
    Peel(lba / 0x100 / 0x100, 16);
  }

  lemma Peel(n: nat, m: nat)
    requires m > 0
    ensures n % (0x100 * m) == n % 0x100 + 0x100 * (n / 0x100 % m)
  {
    var q, r := n / 0x100 / m, n / 0x100 % m;
    assert n / 0x100 == m * q + r;
    assert n == 0x100 * (m * q + r) + n % 0x100;
    assert 0x100 * (m * q) == (0x100 * m) * q;
    DivUnique(n, 0x100 * m, q, 0x100 * r + n % 0x100);
  }

  /** Copies one sector to memory. */
  method ReadSector(disk: Disk, lba: nat, a: array<Byte>, at: nat)
    requires at + SECTOR <= a.Length
    modifies a
    ensures a[..] == old(a[..at]) + SectorAt(disk, lba) + old(a[at + SECTOR..])
  {
    var i := 0;
    while i < SECTOR
      invariant 0 <= i <= SECTOR && i % 2 == 0
      invariant forall j | 0 <= j < a.Length ::
                  a[j] == if at <= j < at + i then SectorAt(disk, lba)[j - at] else old(a[j])
    {
      a[at + i] := SectorAt(disk, lba)[i];
      a[at + i + 1] := SectorAt(disk, lba)[i + 1];
      i := i + 2;
    }
  }

  /** Little-endian numbers in a byte string. */
  function Word16(s: seq<Byte>, at: nat): nat
    requires at + 2 <= |s|
  {
    s[at] + 0x100 * (s[at + 1] as nat)
  }

  function Word32(s: seq<Byte>, at: nat): nat
    requires at + 4 <= |s|
  {
    Word16(s, at) + 0x1_0000 * Word16(s, at + 2)
  }

  // ---------- Numbers written as bytes ----------

  function Encode16(n: nat): (s: seq<Byte>)
    requires n < 0x1_0000
    ensures |s| == 2
  {
    [n % 256, n / 256]
  }

  function Encode32(n: nat): (s: seq<Byte>)
    requires n < 0x1_0000_0000
    ensures |s| == 4
  {
    [n % 256, n / 0x100 % 256, n / 0x1_0000 % 256, n / 0x100_0000]
  }

  /** Where a number has been written it is read back. */
  lemma Written16(s: seq<Byte>, at: nat, n: nat)
    requires at + 2 <= |s| && n < 0x1_0000 && s[at..at + 2] == Encode16(n)
    ensures Word16(s, at) == n
  {
    assert s[at..at + 2][0] == s[at] && s[at..at + 2][1] == s[at + 1];
  }

  lemma Written32(s: seq<Byte>, at: nat, n: nat)
    requires at + 4 <= |s| && n < 0x1_0000_0000 && s[at..at + 4] == Encode32(n)
    ensures Word32(s, at) == n
  {
    var t := s[at..at + 4];
    assert t[0] == s[at] && t[1] == s[at + 1] && t[2] == s[at + 2] && t[3] == s[at + 3];
    assert n / 0x100 / 256 == n / 0x1_0000 && n / 0x1_0000 / 256 == n / 0x100_0000;
  }

  /** And the bytes of a number that is read are the ones that write it. */
  lemma Read16(s: seq<Byte>, at: nat)
    requires at + 2 <= |s|
    ensures Word16(s, at) < 0x1_0000 && Encode16(Word16(s, at)) == s[at..at + 2]
  {
  }

  lemma Read32(s: seq<Byte>, at: nat)
    requires at + 4 <= |s|
    ensures Word32(s, at) < 0x1_0000_0000 && Encode32(Word32(s, at)) == s[at..at + 4]
  {
    var a: nat, b: nat, c: nat, d: nat := s[at], s[at + 1], s[at + 2], s[at + 3];
    var high: nat := b + 0x100 * (c + 0x100 * d);
    LowByte(a, high);
    LowByte(b, c + 0x100 * d);
    LowByte(c, d);
    FourBytes(Word32(s, at));
  }

  lemma LowByte(b: Byte, m: nat)
    ensures (b + 0x100 * m) % 256 == b && (b + 0x100 * m) / 0x100 == m
  {
  }

  lemma FourBytes(n: nat)
    ensures n / 0x1_0000 == n / 0x100 / 0x100 && n / 0x100_0000 == n / 0x100 / 0x100 / 0x100
  {
  }
}
