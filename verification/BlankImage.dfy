/** Blank floppy images, src/createBlankImage.c. */
module BlankImage {
  import opened Utils
  import opened Floppy

  const VOLUME_LABEL := 0x08
  const LABEL := 11

  datatype Disk = Disk(tracks: nat, sectors: nat, sides: nat)

  /** Disks of high density always have two sides. */
  function Asked(tracks: nat, sectors: nat, sides: nat): Disk {
    Disk(tracks, sectors, if sectors >= 18 then 2 else sides)
  }

  function Total(d: Disk): nat {
    d.tracks * d.sectors * d.sides
  }

  function ClusterSize(d: Disk): nat {
    if d.tracks == 40 && d.sides == 1 then 1 else 2
  }

  function DirEntries(d: Disk): nat {
    if ClusterSize(d) == 1 then 64 else if d.sectors < 18 then 112 else 224
  }

  function MediaByte(d: Disk): Byte {
    if d.sectors >= 18 then 0xF0
    else if d.tracks <= 42 then (if d.sides == 2 then 0xFD else 0xFC)
    else if d.sides == 2 then 0xF9 else 0xF8
  }

  function FatSize(d: Disk): (n: nat)
    ensures 2 <= n <= 9
  {
    if d.sectors >= 18 then 9 else if d.tracks >= 80 then 5 else 2
  }

  ghost predicate Opening(b: Image, serial: nat, serial3: Byte) {
    && |b| >= NUMBYTESPERSECTOR && b[0] == 0xE9 && b[1] == 0 && (forall i | 2 <= i < 8 :: b[i] == 0x4E)
    && Le16(b, 8) == serial % UINT16 && b[10] == serial3
  }

  ghost predicate Layout(b: Image, d: Disk) {
    && |b| >= NUMBYTESPERSECTOR && Le16(b, 11) == NUMBYTESPERSECTOR
    && b[13] == ClusterSize(d) && Le16(b, 14) == 1 && b[16] == 2 && Le16(b, 17) == DirEntries(d)
  }

  ghost predicate Shape(b: Image, d: Disk) {
    && |b| >= NUMBYTESPERSECTOR
    && Le16(b, 19) == Total(d) % UINT16 && b[21] == MediaByte(d) && Le16(b, 22) == FatSize(d)
    && Le16(b, 24) == d.sectors % UINT16 && Le16(b, 26) == d.sides % UINT16 && Le16(b, 28) == 0
  }

  /** The boot sector, field by field; the rest of it is zero. */
  ghost predicate BootSector(b: Image, d: Disk, serial: nat, serial3: Byte) {
    Opening(b, serial, serial3) && Layout(b, d) && Shape(b, d) && forall i | 30 <= i < NUMBYTESPERSECTOR :: b[i] == 0
  }

  /** Byte `i` of the rest of the image: the first entries of both FATs, and the label in the directory. */
  function DataByte(d: Disk, name: Option<seq<Byte>>, i: nat): Byte {
    var fat2 := NUMBYTESPERSECTOR * (1 + FatSize(d));
    var dir := NUMBYTESPERSECTOR * (1 + 2 * FatSize(d));
    if i == NUMBYTESPERSECTOR || i == fat2 then MediaByte(d)
    else if NUMBYTESPERSECTOR < i < NUMBYTESPERSECTOR + 3 || fat2 < i < fat2 + 3 then 0xFF
    else if name.Some? && dir <= i < dir + LABEL then (if i - dir < |name.value| then name.value[i - dir] else 0x20)
    else if name.Some? && i == dir + LABEL then VOLUME_LABEL
    else 0
  }

  method WriteShortLE(b: array<Byte>, at: nat, v: nat)
    requires at + 2 <= b.Length
    modifies b
    ensures Le16(b[..], at) == v % UINT16
    ensures forall i | 0 <= i < b.Length && i != at && i != at + 1 :: b[i] == old(b[i])
  {
    TwoDigits(v);
    b[at] := v % 256;
    b[at + 1] := v / 256 % 256;
  }

  lemma TwoDigits(v: nat)
    ensures v % 256 + 256 * (v / 256 % 256) == v % UINT16
  {
    assert v / 256 / 256 == v / UINT16;
  }

  method FillOpening(b: array<Byte>, serial: nat, serial3: Byte)
    requires b.Length >= NUMBYTESPERSECTOR && forall i | 0 <= i < NUMBYTESPERSECTOR :: b[i] == 0
    modifies b
    ensures Opening(b[..], serial, serial3)
    ensures forall i | 11 <= i < b.Length :: b[i] == old(b[i])
  {
    hide Short;
    b[0] := 0xE9;
    forall i | 2 <= i < 8 { b[i] := 0x4E; }
    WriteShortLE(b, 8, serial);
    b[10] := serial3;
  }

  method FillLayout(b: array<Byte>, d: Disk)
    requires b.Length >= NUMBYTESPERSECTOR
    modifies b
    ensures Layout(b[..], d)
    ensures forall i | 0 <= i < 11 || 19 <= i < b.Length :: b[i] == old(b[i])
  {
    hide Short;
    WriteShortLE(b, 11, NUMBYTESPERSECTOR);
    b[13] := ClusterSize(d);
    WriteShortLE(b, 14, 1);
    b[16] := 2;
    WriteShortLE(b, 17, DirEntries(d));
  }

  method FillShape(b: array<Byte>, d: Disk)
    requires b.Length >= NUMBYTESPERSECTOR
    modifies b
    ensures Shape(b[..], d)
    ensures forall i | 0 <= i < 19 || 30 <= i < b.Length :: b[i] == old(b[i])
  {
    hide Short;
    hide Total;
    hide MediaByte;
    hide FatSize;
    WriteShortLE(b, 19, Total(d));
    b[21] := MediaByte(d);
    WriteShortLE(b, 22, FatSize(d));
    WriteShortLE(b, 24, d.sectors);
    WriteShortLE(b, 26, d.sides);
    WriteShortLE(b, 28, 0);
  }

  lemma OpeningStays(b: Image, c: Image, serial: nat, serial3: Byte)
    requires Opening(b, serial, serial3) && |c| == |b| && forall i | 0 <= i < 11 :: c[i] == b[i]
    ensures Opening(c, serial, serial3)
  {
    assert c[8] == b[8] && c[9] == b[9];
  }

  lemma LayoutStays(b: Image, c: Image, d: Disk)
    requires Layout(b, d) && |c| == |b| && forall i | 11 <= i < 19 :: c[i] == b[i]
    ensures Layout(c, d)
  {
    assert c[11] == b[11] && c[12] == b[12] && c[14] == b[14] && c[15] == b[15] && c[17] == b[17] && c[18] == b[18];
  }

  method FillBootSector(b: array<Byte>, d: Disk, serial: nat, serial3: Byte)
    requires b.Length >= NUMBYTESPERSECTOR && forall i | 0 <= i < NUMBYTESPERSECTOR :: b[i] == 0
    modifies b
    ensures BootSector(b[..], d, serial, serial3)
    ensures forall i | NUMBYTESPERSECTOR <= i < b.Length :: b[i] == old(b[i])
  {
    hide Opening;
    hide Layout;
    hide Shape;
    FillOpening(b, serial, serial3);
    ghost var b1 := b[..];
    FillLayout(b, d);
    ghost var b2 := b[..];
    FillShape(b, d);
    assert forall i | 0 <= i < 11 :: b[..][i] == b[i];
    OpeningStays(b1, b[..], serial, serial3);
    LayoutStays(b2, b[..], d);
  }

  method FillFats(b: array<Byte>, d: Disk)
    requires b.Length >= NUMBYTESPERSECTOR * (2 + FatSize(d))
    requires forall i | NUMBYTESPERSECTOR <= i < b.Length :: b[i] == 0
    modifies b
    ensures forall i | 0 <= i < NUMBYTESPERSECTOR :: b[i] == old(b[i])
    ensures forall i | NUMBYTESPERSECTOR <= i < b.Length :: b[i] == DataByte(d, None, i)
  {
    hide MediaByte;
    hide FatSize;
    var media := MediaByte(d);
    var fat2 := NUMBYTESPERSECTOR + FatSize(d) * NUMBYTESPERSECTOR;
    b[NUMBYTESPERSECTOR] := media;
    b[NUMBYTESPERSECTOR + 1], b[NUMBYTESPERSECTOR + 2] := 0xFF, 0xFF;
    b[fat2] := media;
    b[fat2 + 1], b[fat2 + 2] := 0xFF, 0xFF;
  }

  /** The first entry of the directory; a long label is cut. */
  method FillLabel(b: array<Byte>, d: Disk, name: seq<Byte>)
    requires b.Length >= NUMBYTESPERSECTOR * (2 + 2 * FatSize(d))
    requires forall i | NUMBYTESPERSECTOR <= i < b.Length :: b[i] == DataByte(d, None, i)
    modifies b
    ensures forall i | 0 <= i < NUMBYTESPERSECTOR :: b[i] == old(b[i])
    ensures forall i | NUMBYTESPERSECTOR <= i < b.Length :: b[i] == DataByte(d, Some(name), i)
  {
    hide MediaByte;
    hide FatSize;
    var dir := NUMBYTESPERSECTOR * (1 + 2 * FatSize(d));
    forall k | 0 <= k < LABEL { b[dir + k] := 0x20; }
    var size := if |name| <= LABEL then |name| else LABEL;
    forall k | 0 <= k < size { b[dir + k] := name[k]; }
    b[dir + LABEL] := VOLUME_LABEL;
  }

  /** The image as it goes to the file. */
  method CreateImage(tracks: nat, sectors: nat, sides: nat, serial: nat, serial3: Byte, name: Option<seq<Byte>>)
    returns (b: array<Byte>)
    requires var d := Asked(tracks, sectors, sides);
      Total(d) >= 2 + FatSize(d) && (name.Some? ==> Total(d) >= 2 + 2 * FatSize(d))
    ensures fresh(b) && b.Length == 512 * (tracks * sectors * if sectors >= 18 then 2 else sides)
    ensures var d := Asked(tracks, sectors, sides);
      b.Length == NUMBYTESPERSECTOR * Total(d) && BootSector(b[..], d, serial, serial3)
      && forall i | NUMBYTESPERSECTOR <= i < b.Length :: b[i] == DataByte(d, name, i)
  {
    hide FatSize;
    hide BootSector;
    hide DataByte;
    var d := Disk(tracks, sectors, if sectors >= 18 then 2 else sides);
    b := new Byte[NUMBYTESPERSECTOR * Total(d)](_ => 0);
    FillBootSector(b, d, serial, serial3);
    ghost var boot := b[..];
    FillFats(b, d);
    if name.Some? {
      FillLabel(b, d, name.value);
    }
    BootSectorStays(boot, b[..], d, serial, serial3);
  }

  lemma BootSectorStays(b: Image, c: Image, d: Disk, serial: nat, serial3: Byte)
    requires BootSector(b, d, serial, serial3) && |c| == |b| && forall i | 0 <= i < NUMBYTESPERSECTOR :: c[i] == b[i]
    ensures BootSector(c, d, serial, serial3)
  {
    OpeningStays(b, c, serial, serial3);
    LayoutStays(b, c, d);
    ShapeStays(b, c, d);
  }

  lemma ShapeStays(b: Image, c: Image, d: Disk)
    requires Shape(b, d) && |c| == |b| && forall i | 19 <= i < 30 :: c[i] == b[i]
    ensures Shape(c, d)
  {
    hide Total;
    assert forall i | 19 <= i < 29 :: Le16(c, i) == Le16(b, i);
  }

  // ------------------------------------------------------------------ the image in a drive

  /** A drive finds the geometry the image was made with exactly when its sectors can be counted in 16 bits, or
      it has two sides, which is what a drive guesses for an image that large. */
  lemma BlankGeometry(b: Image, d: Disk, serial: nat, serial3: Byte)
    requires BootSector(b, d, serial, serial3) && |b| == NUMBYTESPERSECTOR * Total(d)
    requires 0 < d.sectors < UINT16 && 0 < d.sides < UINT16
    ensures Details(b) == Geometry(d.sectors, d.sides) <==> Total(d) < UINT16 || d.sides == 2
    ensures Details(b) == Geometry(d.sectors, d.sides) ==> Tracks(|b|, Details(b)) == d.tracks
  {
    hide Total;
    hide Opening;
    hide Layout;
    hide Details;
    hide Le16;
    hide Tracks;
    assert Le16(b, 24) == d.sectors % UINT16 == d.sectors && Le16(b, 26) == d.sides % UINT16 == d.sides;
    Counted(b, Total(d));
    TracksOf(d);
  }

  lemma Counted(b: Image, total: nat)
    requires |b| == NUMBYTESPERSECTOR * total && total > 0 && Le16(b, 19) == total % UINT16
    ensures Details(b) == if total < UINT16 then Geometry(Le16(b, 24), Le16(b, 26)) else Geometry(Le16(b, 24), 2)
  {
    hide CheckedFormat;
    hide Le16;
    assert |b| / NUMBYTESPERSECTOR == total;
    if total >= UINT16 {
      NotUsual(|b|, Le16(b, 24));
    }
  }

  lemma NotUsual(size: nat, spt: nat)
    requires size >= NUMBYTESPERSECTOR * UINT16
    ensures CheckedFormat(size, spt) == Geometry(spt, 2)
  {
    if p :| Usual(size / NUMBYTESPERSECTOR, 2, p) {
      UsualRange(size / NUMBYTESPERSECTOR, 2, p);
      assert false;
    }
  }

  lemma TracksOf(d: Disk)
    requires d.sectors > 0 && d.sides > 0
    ensures Tracks(NUMBYTESPERSECTOR * Total(d), Geometry(d.sectors, d.sides)) == d.tracks
  {
    var t := d.tracks * d.sides;
    Associate(d.tracks, d.sectors, d.sides);
    Digits(t, 0, d.sectors);
    Digits(d.tracks, 0, d.sides);
    assert Total(d) == t * d.sectors;
  }
}
