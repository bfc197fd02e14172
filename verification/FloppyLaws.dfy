/** The addressing of floppy images in plain numbers: what the bytes of the boot sector say, which formats are known by
    their size, where a sector lies, and how many sectors are written. */
module FloppyLaws {
  import opened Utils
  import opened Floppy

  /** An image of `size` bytes can have `tracks` tracks of `spt` sectors on each of `sides` sides, as disks have. */
  predicate Made(size: nat, tracks: nat, spt: nat, sides: nat) {
    80 <= tracks <= 84 && 9 <= spt <= 12 && size / 512 == tracks * spt * sides
  }

  /** An image from 500 KB on has two sides. The length of its tracks is the one it can have been made with, and what
      the boot sector says only if there is none. */
  lemma FormatFromSize(size: nat, said: nat)
    ensures var g := CheckedFormat(size, said);
            && g.sides == (if size < 512000 then 1 else 2)
            && (forall tracks, spt | Made(size, tracks, spt, g.sides) :: g.spt == spt)
            && ((forall tracks: nat, spt: nat :: !Made(size, tracks, spt, g.sides)) ==> g.spt == said)
  {
    hide Usual;
    var g := CheckedFormat(size, said);
    forall tracks, spt | Made(size, tracks, spt, g.sides) ensures g.spt == spt {
      MadeIsUsual(size, tracks, spt, g.sides);
      FormatKnown(tracks, size, g.sides, spt, said);
    }
    if forall tracks: nat, spt: nat :: !Made(size, tracks, spt, g.sides) {
      if p: nat :| Usual(size / NUMBYTESPERSECTOR, g.sides, p) {
        UsualIsMade(size, p, g.sides);
        assert false;
      }
    }
  }

  lemma MadeIsUsual(size: nat, tracks: nat, spt: nat, sides: nat)
    requires Made(size, tracks, spt, sides)
    ensures UsualTracks(tracks, size / NUMBYTESPERSECTOR, sides, spt)
  {
  }

  lemma UsualIsMade(size: nat, spt: nat, sides: nat)
    requires Usual(size / NUMBYTESPERSECTOR, sides, spt)
    ensures exists tracks: nat :: Made(size, tracks, spt, sides)
  {
    var tracks: nat :| UsualTracks(tracks, size / NUMBYTESPERSECTOR, sides, spt);
    assert Made(size, tracks, spt, sides);
  }

  /** The boot sector is believed exactly if bytes 19 and 20 say how many sectors there are; then bytes 24 to 27 give
      the geometry, the lower byte of each number first. */
  lemma GeometryFromBytes(image: Image)
    requires |image| >= 28
    ensures var sectors := image[19] as int + 256 * image[20] as int;
            var said := image[24] as int + 256 * image[25] as int;
            Details(image) == if sectors == |image| / 512 then Geometry(said, image[26] as int + 256 * image[27] as int)
                              else CheckedFormat(|image|, said)
  {
    hide CheckedFormat;
  }

  /** An image has as many tracks as fit into it whole. */
  lemma TracksFit(size: nat, g: Geometry)
    requires g.spt > 0 && g.sides > 0
    ensures var n := Tracks(size, g);
            512 * (n * (g.sides * g.spt)) <= size < 512 * ((n + 1) * (g.sides * g.spt))
  {
    var total := size / NUMBYTESPERSECTOR;
    var t := Quotient(total, g.spt);
    var n := Quotient(t, g.sides);
    assert t + 1 <= (n + 1) * g.sides by {
      Distribute(n, 1, g.sides);
    }
    Monotone(g.spt, n * g.sides, t);
    Monotone(g.spt, t + 1, (n + 1) * g.sides);
    Distribute(t, 1, g.spt);
    Grouped(n, g.sides, g.spt);
    Grouped(n + 1, g.sides, g.spt);
  }

  lemma Grouped(a: nat, b: nat, c: nat)
    ensures a * b * c == a * (b * c)
  {
  }

  /** The tracks of all sides follow each other, each of them with its length modulo 128 sectors. */
  lemma OffsetInSectors(g: Geometry, a: Address)
    requires a.sector > 0
    ensures Offset(g, a) == 512 * ((g.spt % 128) * (a.track * g.sides + a.side) + a.sector - 1)
  {
    hide BytesPerTrack;
    OffsetIs(g, a);
    TrackLength(g.spt);
    Grouped(512, g.spt % 128, a.track * g.sides + a.side);
  }

  /** A count that is not negative is the number of sectors written. Any other stands for a whole track, whose length is
      then taken as a number of 16 bits with a sign. */
  lemma TransferIs(count: int, spt: nat)
    requires spt < 0x1_0000
    ensures var n := Transfer(count, spt);
            if count >= 0 then n == count else -0x8000 <= n < 0x8000 && (n - spt) % 0x1_0000 == 0
  {
  }
}
