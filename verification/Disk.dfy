/** A disk as the driver and the file system see it: 512-byte sectors by logical block address. */
module Disk {
  import opened Ints

  const SECTOR := 512

  type Sector = s: seq<Byte> | |s| == SECTOR witness seq(SECTOR, _ => 0)

  type Image = nat -> Sector

  /** The bytes of sectors lba, lba + 1, ..., lba + n - 1. */
  function Sectors(disk: Image, lba: nat, n: nat): (bytes: seq<Byte>)
    ensures |bytes| == n * SECTOR
  {
    if n == 0 then [] else Sectors(disk, lba, n - 1) + disk(lba + n - 1)
  }

  function Zeros(n: nat): (bytes: seq<Byte>)
    ensures |bytes| == n && forall i :: 0 <= i < n ==> bytes[i] == 0
  {
    seq(n, _ => 0)
  }

  /** Sector `k` of a run of sectors lies at its multiple of the sector size. */
  lemma {:induction false} SectorAt(disk: Image, lba: nat, n: nat, k: nat)
    requires k < n
    ensures k * SECTOR + SECTOR <= n * SECTOR
    ensures Sectors(disk, lba, n)[k * SECTOR..k * SECTOR + SECTOR] == disk(lba + k)
  {
    var last := Sectors(disk, lba, n - 1);
    if k < n - 1 {
      SectorAt(disk, lba, n - 1, k);
      assert (last + disk(lba + n - 1))[k * SECTOR..k * SECTOR + SECTOR] == last[k * SECTOR..k * SECTOR + SECTOR];
    } else {
      assert (last + disk(lba + n - 1))[k * SECTOR..k * SECTOR + SECTOR] == disk(lba + k);
    }
  }
}
