/** A blank image as a file system: both copies of the allocation table agree, and whether they reach to the last
    cluster. */
module BlankImageLaws {
  import opened Utils
  import opened Floppy
  import opened BlankImage

  /** The number in two bytes, the lower one first. */
  function Number(b: Image, at: nat): nat
    requires at + 2 <= |b|
  {
    b[at] as int + 256 * b[at + 1] as int
  }

  /** What the boot sector of a blank image says, apart from its geometry. */
  lemma Fields(b: Image, d: Disk, serial: nat, serial3: Byte)
    requires BootSector(b, d, serial, serial3)
    ensures b[13] == (if d.tracks == 40 && d.sides == 1 then 1 else 2) && Number(b, 11) == 512
    ensures Number(b, 17) == 112 * (if d.sectors >= 18 then 2 else 1) || (b[13] == 1 && Number(b, 17) == 64)
    ensures b[13] == 1 ==> Number(b, 17) == 64
    ensures b[21] == if d.sectors >= 18 then 0xF0
                     else 0xF8 + (if d.tracks <= 42 then 4 else 0) + (if d.sides == 2 then 1 else 0)
  {
  }

  /** The allocation table, 12 bits for each cluster and two entries more, reaches to the last cluster of `total`
      sectors. All numbers are those of the boot sector. */
  predicate TableReaches(b: Image, total: nat)
    requires |b| >= NUMBYTESPERSECTOR && b[13] > 0
  {
    var first := Number(b, 14) + b[16] * Number(b, 22) + 32 * Number(b, 17) / 512;
    var clusters := if total < first then 0 else (total - first) / b[13] as int;
    12 * (clusters + 2) <= 8 * (512 * Number(b, 22))
  }

  /** It does for all disks of fewer than 80 tracks with at most 1373 sectors in all, for others up to 3427 sectors, and
      with high density up to 6174 sectors. */
  lemma TableReachesIff(b: Image, d: Disk, serial: nat, serial3: Byte)
    requires BootSector(b, d, serial, serial3) && (d.sectors >= 18 ==> d.sides == 2)
    ensures TableReaches(b, d.tracks * d.sectors * d.sides)
      <==> d.tracks * d.sectors * d.sides <= if d.sectors >= 18 then 6174 else if d.tracks >= 80 then 3427 else 1373
  {
    hide Total;
    Fields(b, d, serial, serial3);
    var total := d.tracks * d.sectors * d.sides;
    var first := Number(b, 14) + b[16] * Number(b, 22) + 32 * Number(b, 17) / 512;
    if d.sectors >= 18 {
      assert first == 33 && Number(b, 22) == 9;
    } else if d.tracks >= 80 {
      assert first == 18 && Number(b, 22) == 5;
    } else if b[13] == 1 {
      assert first == 9 && Number(b, 22) == 2 && total == 40 * d.sectors;
    } else {
      assert first == 12 && Number(b, 22) == 2;
    }
  }

  /** Byte `i` of both copies of the table. */
  lemma SameTables(d: Disk, name: Option<seq<Byte>>, i: nat)
    requires i < 512 * FatSize(d)
    ensures DataByte(d, name, 512 + i) == DataByte(d, name, 512 * (1 + FatSize(d)) + i)
    ensures DataByte(d, name, 512 + i) == if i == 0 then MediaByte(d) else if i < 3 then 0xFF else 0
  {
  }

  /** The entry behind both tables: a label of eleven characters, filled up with spaces or cut, and its attribute. */
  lemma LabelEntry(d: Disk, name: seq<Byte>, k: nat)
    requires k < 32
    ensures DataByte(d, Some(name), 512 * (1 + FatSize(d) + FatSize(d)) + k)
         == if k < 11 then (if k < |name| then name[k] else ' ' as int) else if k == 11 then 8 else 0
  {
  }
}
