/** Sector access to floppy images, src/floppy.c: the geometry that is read from the boot sector, or guessed,
    and the addressing of sectors by it. */
module Floppy {
  import opened Utils

  type Image = seq<Byte>

  const NUMBYTESPERSECTOR := 512
  const UINT16 := 0x1_0000

  datatype Geometry = Geometry(spt: nat, sides: nat)

  // ------------------------------------------------------------------ geometry

  function Short(lo: int, hi: int): int {
    lo + 256 * hi
  }

  function Le16(image: Image, at: nat): (v: nat)
    requires at + 2 <= |image|
    ensures v < UINT16
  {
    Short(image[at], image[at + 1])
  }

  predicate UsualTracks(tracks: nat, total: nat, sides: nat, spt: nat) {
    80 <= tracks <= 84 && total == tracks * spt * sides
  }

  /** An image of `total` sectors is one of the common formats with `spt` sectors in a track. */
  ghost predicate Usual(total: nat, sides: nat, spt: nat) {
    9 <= spt <= 12 && exists tracks :: UsualTracks(tracks, total, sides, spt)
  }

  lemma OneUsualFormat(total: nat, sides: nat, p: nat, q: nat)
    requires 1 <= sides <= 2 && Usual(total, sides, p) && Usual(total, sides, q)
    ensures p == q
  {
    hide Usual;
    UsualRange(total, sides, p);
    UsualRange(total, sides, q);
  }

  lemma UsualRange(total: nat, sides: nat, p: nat)
    requires 1 <= sides <= 2 && Usual(total, sides, p)
    ensures 80 * p <= total / sides <= 84 * p && 9 <= p <= 12
  {
    var t :| UsualTracks(t, total, sides, p);
    assert p == 9 || p == 10 || p == 11 || p == 12;
  }

  function GuessedSides(size: nat): nat {
    if size < 500 * 1024 then 1 else 2
  }

  /** The number of sides is always guessed from the size; the length of a track only if the size is a common one. */
  ghost function CheckedFormat(size: nat, spt: nat): Geometry {
    var sides := GuessedSides(size);
    if exists p :: Usual(size / NUMBYTESPERSECTOR, sides, p) then
      var p :| Usual(size / NUMBYTESPERSECTOR, sides, p);
      Geometry(p, sides)
    else Geometry(spt, sides)
  }

  /** The geometry that is used for an image. */
  ghost function Details(image: Image): (g: Geometry)
    requires |image| >= 28
  {
    BootGeometry(|image|, image)
  }

  /** The geometry of an image of `size` bytes that begins with `boot`. */
  ghost function BootGeometry(size: nat, boot: seq<Byte>): Geometry
    requires |boot| >= 28
  {
    if Le16(boot, 19) != size / NUMBYTESPERSECTOR then CheckedFormat(size, Le16(boot, 24))
    else Geometry(Le16(boot, 24), Le16(boot, 26))
  }

  /** One of the five common track numbers. */
  predicate Common(total: nat, sides: nat, spt: nat)
    ensures Common(total, sides, spt) <==> exists tracks :: UsualTracks(tracks, total, sides, spt)
  {
    var r := total == 80 * spt * sides || total == 81 * spt * sides || total == 82 * spt * sides
          || total == 83 * spt * sides || total == 84 * spt * sides;
    assert r ==> (UsualTracks(80, total, sides, spt) || UsualTracks(81, total, sides, spt)
                  || UsualTracks(82, total, sides, spt) || UsualTracks(83, total, sides, spt)
                  || UsualTracks(84, total, sides, spt));
    r
  }

  /** Corrects what the boot sector says. */
  method DoubleCheckFormat(size: nat, sides0: nat, spt0: nat) returns (sides: nat, spt: nat)
    ensures Geometry(spt, sides) == CheckedFormat(size, spt0)
  {
    hide Common;
    var guess := if size < 500 * 1024 then 1 else 2;
    var total := size / NUMBYTESPERSECTOR;
    var fixed := spt0;
    if Common(total, guess, 9) { fixed := 9; }
    else if Common(total, guess, 10) { fixed := 10; }
    else if Common(total, guess, 11) { fixed := 11; }
    else if Common(total, guess, 12) { fixed := 12; }
    FormatFound(size, spt0, guess, fixed);
    sides, spt := sides0, spt0;
    if sides != guess || spt != fixed {
      sides, spt := guess, fixed;
    }
  }

  lemma FormatFound(size: nat, spt0: nat, guess: nat, fixed: nat)
    requires guess == GuessedSides(size)
    requires var total := size / NUMBYTESPERSECTOR;
             if Common(total, guess, 9) then fixed == 9 else if Common(total, guess, 10) then fixed == 10
             else if Common(total, guess, 11) then fixed == 11 else if Common(total, guess, 12) then fixed == 12
             else fixed == spt0
    ensures CheckedFormat(size, spt0) == Geometry(fixed, guess)
  {
    hide Common;
    hide UsualTracks;
    var total := size / NUMBYTESPERSECTOR;
    assert forall k | 9 <= k <= 12 && Common(total, guess, k) :: Usual(total, guess, k);
    if p :| Usual(total, guess, p) {
      assert Common(total, guess, p);
      assert Usual(total, guess, fixed);
      var q :| Usual(total, guess, q) && CheckedFormat(size, spt0) == Geometry(q, guess);
      OneUsualFormat(total, guess, q, fixed);
    }
  }

  /** The check leaves what the boot sector says alone exactly if the number of sides is the one guessed from the size,
      and the track length the common one, or there is none. */
  lemma LeftAlone(size: nat, sides: nat, spt: nat)
    ensures var total, guess := size / NUMBYTESPERSECTOR, GuessedSides(size);
            CheckedFormat(size, spt) == Geometry(spt, sides)
            <==> sides == guess && (Usual(total, guess, spt) || forall p: nat :: !Usual(total, guess, p))
  {
    hide Usual;
    var total, guess := size / NUMBYTESPERSECTOR, GuessedSides(size);
    if p: nat :| Usual(total, guess, p) {
      var q: nat :| Usual(total, guess, q) && CheckedFormat(size, spt) == Geometry(q, guess);
      if Usual(total, guess, spt) {
        OneUsualFormat(total, guess, q, spt);
      }
    }
  }

  /** Of the 40 common formats, all but one are found from the size of the image alone: a single sided image of
      84 tracks with 12 sectors is larger than 500 KB and taken for a double sided one. */
  lemma GuessFindsFormat(tracks: nat, spt: nat, sides: nat, said: nat)
    requires 80 <= tracks <= 84 && 9 <= spt <= 12 && 1 <= sides <= 2
    ensures CheckedFormat(NUMBYTESPERSECTOR * (tracks * spt * sides), said) == Geometry(spt, sides)
            <==> !(tracks == 84 && spt == 12 && sides == 1)
  {
    var total := tracks * spt * sides;
    var size := NUMBYTESPERSECTOR * total;
    assert spt == 9 || spt == 10 || spt == 11 || spt == 12;
    assert sides == 1 || sides == 2;
    assert sides == GuessedSides(size) <==> !(tracks == 84 && spt == 12 && sides == 1);
    if sides == GuessedSides(size) {
      FormatKnown(tracks, size, sides, spt, said);
    }
  }

  lemma FormatKnown(tracks: nat, size: nat, sides: nat, spt: nat, said: nat)
    requires UsualTracks(tracks, size / NUMBYTESPERSECTOR, sides, spt) && 9 <= spt <= 12 && sides == GuessedSides(size)
    ensures CheckedFormat(size, said) == Geometry(spt, sides)
  {
    var total := size / NUMBYTESPERSECTOR;
    assert Usual(total, sides, spt);
    var p :| Usual(total, sides, p) && CheckedFormat(size, said) == Geometry(p, sides);
    OneUsualFormat(total, sides, p, spt);
  }

  method FindDiskDetails(buffer: array<Byte>) returns (spt: nat, sides: nat)
    requires buffer.Length >= 28
    ensures Geometry(spt, sides) == Details(buffer[..])
  {
    spt := Short(buffer[24], buffer[25]);
    sides := Short(buffer[26], buffer[27]);
    var sectors := Short(buffer[19], buffer[20]);
    if sectors != buffer.Length / NUMBYTESPERSECTOR {
      sides, spt := DoubleCheckFormat(buffer.Length, sides, spt);
    }
  }

  // ------------------------------------------------------------------ addresses

  datatype Address = Address(sector: nat, track: nat, side: nat)

  function Tracks(image: nat, g: Geometry): nat
    requires g.spt > 0 && g.sides > 0
  {
    Quotient(Quotient(image / NUMBYTESPERSECTOR, g.spt), g.sides)
  }

  predicate Addressable(g: Geometry, tracks: nat, a: Address) {
    a.side < g.sides && a.track < tracks && 0 < a.sector <= g.spt
  }

  /** The length of a track, as the 16 bits it is kept in. */
  function BytesPerTrack(spt: nat): nat {
    NUMBYTESPERSECTOR * spt % UINT16
  }

  /** Which track of the image: the sides alternate. */
  function TrackIndex(g: Geometry, a: Address): nat {
    a.track * g.sides + a.side
  }

  function Offset(g: Geometry, a: Address): nat
    requires a.sector > 0
  {
    BytesPerTrack(g.spt) * a.side + BytesPerTrack(g.spt) * g.sides * a.track + NUMBYTESPERSECTOR * (a.sector - 1)
  }

  /** The sectors of the image counted from its start. */
  function Lba(g: Geometry, a: Address): nat
    requires a.sector > 0
  {
    TrackIndex(g, a) * g.spt + (a.sector - 1)
  }

  lemma OffsetIs(g: Geometry, a: Address)
    requires a.sector > 0
    ensures Offset(g, a) == BytesPerTrack(g.spt) * TrackIndex(g, a) + NUMBYTESPERSECTOR * (a.sector - 1)
    ensures g.spt < 128 ==> Offset(g, a) == NUMBYTESPERSECTOR * Lba(g, a)
    ensures Offset(g, a) <= NUMBYTESPERSECTOR * Lba(g, a)
  {
    var w, t := BytesPerTrack(g.spt), TrackIndex(g, a);
    assert w * g.sides * a.track == w * (a.track * g.sides) by {
      Associate(w, a.track, g.sides);
    }
    Distribute(a.track * g.sides, a.side, w);
    assert w <= NUMBYTESPERSECTOR * g.spt;
    Monotone(t, w, NUMBYTESPERSECTOR * g.spt);
    Associate(t, NUMBYTESPERSECTOR, g.spt);
  }

  lemma Associate(a: nat, b: nat, c: nat)
    ensures a * c * b == a * (b * c) && a * (b * c) == b * (a * c)
  {
  }

  /** Two digits: how often `m`, and the rest. */
  lemma Digits(q: nat, r: nat, m: nat)
    requires r < m
    ensures (q * m + r) / m == q && (q * m + r) % m == r
  {
    var n := q * m + r;
    var q', r' := n / m, n % m;
    assert n == q' * m + r';
    Below(q', r', m, q);
    Below(q, r, m, q');
  }

  lemma Below(q: nat, r: nat, m: nat, n: nat)
    requires r < m
    ensures q < n <==> q * m + r < n * m
  {
    if q < n {
      Monotone(m, q + 1, n);
      Distribute(q, 1, m);
    } else {
      Monotone(m, n, q);
    }
  }

  function AddressOf(g: Geometry, lba: nat): Address
    requires g.spt > 0 && g.sides > 0
  {
    var t := Quotient(lba, g.spt);
    Address(lba % g.spt + 1, Quotient(t, g.sides), t % g.sides)
  }

  /** Addresses and the sectors that are covered by whole tracks correspond one to one. */
  lemma AddressToSector(g: Geometry, tracks: nat, a: Address)
    requires g.spt > 0 && g.sides > 0 && a.sector > 0 && a.side < g.sides && a.sector <= g.spt
    ensures Addressable(g, tracks, a) <==> Lba(g, a) < tracks * g.sides * g.spt
    ensures AddressOf(g, Lba(g, a)) == a
  {
    Digits(TrackIndex(g, a), a.sector - 1, g.spt);
    Digits(a.track, a.side, g.sides);
    Below(TrackIndex(g, a), a.sector - 1, g.spt, tracks * g.sides);
    Below(a.track, a.side, g.sides, tracks);
  }

  lemma SectorToAddress(g: Geometry, tracks: nat, lba: nat)
    requires g.spt > 0 && g.sides > 0
    ensures Addressable(g, tracks, AddressOf(g, lba)) <==> lba < tracks * g.sides * g.spt
    ensures Lba(g, AddressOf(g, lba)) == lba
  {
    var a := AddressOf(g, lba);
    var t := lba / g.spt;
    assert t == g.sides * (t / g.sides) + t % g.sides;
    assert lba == g.spt * t + lba % g.spt;
    Below(t, lba % g.spt, g.spt, tracks * g.sides);
    Below(t / g.sides, t % g.sides, g.sides, tracks);
  }

  /** The covered sectors lie in the image. */
  lemma CoveredFits(size: nat, g: Geometry)
    requires g.spt > 0 && g.sides > 0
    ensures NUMBYTESPERSECTOR * (Tracks(size, g) * g.sides * g.spt) <= size
  {
    var total := size / NUMBYTESPERSECTOR;
    var t := Quotient(total, g.spt);
    Monotone(g.spt, Quotient(t, g.sides) * g.sides, t);
  }

  /** Every sector that can be addressed lies in the image, even where the length of a track wraps. */
  lemma SectorFits(size: nat, g: Geometry, a: Address)
    requires g.spt > 0 && g.sides > 0 && Addressable(g, Tracks(size, g), a)
    ensures Offset(g, a) + NUMBYTESPERSECTOR <= size
  {
    AddressToSector(g, Tracks(size, g), a);
    CoveredFits(size, g);
    OffsetIs(g, a);
  }

  ghost predicate Distinct(g: Geometry, tracks: nat) {
    forall a, b | Addressable(g, tracks, a) && Addressable(g, tracks, b) && Offset(g, a) == Offset(g, b) :: a == b
  }

  lemma ShortTracks(g: Geometry, tracks: nat, a: Address, b: Address)
    requires 0 < g.spt < 128 && g.sides > 0 && Addressable(g, tracks, a) && Addressable(g, tracks, b)
    requires Offset(g, a) == Offset(g, b)
    ensures a == b
  {
    OffsetIs(g, a);
    OffsetIs(g, b);
    AddressToSector(g, tracks, a);
    AddressToSector(g, tracks, b);
  }

  lemma SameTrack(g: Geometry, tracks: nat, a: Address, b: Address)
    requires g.spt > 0 && g.sides > 0 && tracks * g.sides <= 1
    requires Addressable(g, tracks, a) && Addressable(g, tracks, b) && Offset(g, a) == Offset(g, b)
    ensures a == b
  {
    OneTrack(g, tracks, a);
    OneTrack(g, tracks, b);
    OffsetIs(g, a);
    OffsetIs(g, b);
  }

  /** Two addresses for one place: the start of the second track, and a sector inside the first. */
  lemma LongTracks(g: Geometry, tracks: nat) returns (a: Address, b: Address)
    requires g.spt >= 128 && g.sides > 0 && tracks * g.sides > 1
    ensures Addressable(g, tracks, a) && Addressable(g, tracks, b) && a != b && Offset(g, a) == Offset(g, b)
  {
    a := Address(g.spt % 128 + 1, 0, 0);
    b := if g.sides > 1 then Address(1, 0, 1) else Address(1, 1, 0);
    MoreThanOne(tracks, g.sides);
    SecondTrack(g, b);
    OffsetIs(g, a);
  }

  lemma MoreThanOne(a: nat, b: nat)
    ensures a * b > 1 ==> a > 0 && (a > 1 || b > 1)
  {
  }

  lemma TrackLength(spt: nat)
    ensures BytesPerTrack(spt) == NUMBYTESPERSECTOR * (spt % 128)
  {
    assert NUMBYTESPERSECTOR * spt == UINT16 * (spt / 128) + NUMBYTESPERSECTOR * (spt % 128);
  }

  lemma SecondTrack(g: Geometry, b: Address)
    requires g.sides > 0 && b == if g.sides > 1 then Address(1, 0, 1) else Address(1, 1, 0)
    ensures Offset(g, b) == BytesPerTrack(g.spt) == NUMBYTESPERSECTOR * (g.spt % 128)
  {
    hide BytesPerTrack;
    TrackLength(g.spt);
    assert TrackIndex(g, b) == 1;
    OffsetIs(g, b);
  }

  /** Different addresses mean different places in the image exactly when a track has fewer than 128 sectors,
      or when there is just one track: from 128 sectors on the length of a track does not fit into 16 bits. */
  lemma DistinctIff(g: Geometry, tracks: nat)
    requires g.spt > 0 && g.sides > 0
    ensures Distinct(g, tracks) <==> g.spt < 128 || tracks * g.sides <= 1
  {
    hide Offset;
    if g.spt < 128 {
      forall a, b | Addressable(g, tracks, a) && Addressable(g, tracks, b) && Offset(g, a) == Offset(g, b)
        ensures a == b
      {
        ShortTracks(g, tracks, a, b);
      }
    } else if tracks * g.sides <= 1 {
      forall a, b | Addressable(g, tracks, a) && Addressable(g, tracks, b) && Offset(g, a) == Offset(g, b)
        ensures a == b
      {
        SameTrack(g, tracks, a, b);
      }
    } else {
      var a, b := LongTracks(g, tracks);
    }
  }

  lemma OneTrack(g: Geometry, tracks: nat, a: Address)
    requires g.sides > 0 && Addressable(g, tracks, a) && tracks * g.sides <= 1
    ensures a.track == 0 && a.side == 0
  {
    Below(a.track, a.side, g.sides, tracks);
  }

  // ------------------------------------------------------------------ reading and writing

  /** An image whose geometry can be computed with. */
  ghost predicate Proper(image: Image) {
    |image| >= 28 && Details(image).spt > 0 && Details(image).sides > 0
  }

  ghost predicate Accepted(image: Image, a: Address)
    requires Proper(image)
  {
    Addressable(Details(image), Tracks(|image|, Details(image)), a)
  }

  ghost function Sector(image: Image, a: Address): (r: Image)
    requires Proper(image) && Accepted(image, a)
    ensures |r| == NUMBYTESPERSECTOR
  {
    SectorFits(|image|, Details(image), a);
    var at := Offset(Details(image), a);
    image[at..at + NUMBYTESPERSECTOR]
  }

  /** How many sectors a count in 16 signed bits stands for: a negative one means the whole track. */
  function Transfer(count: int, spt: nat): int {
    if count >= 0 then count else if spt < 0x8000 then spt else spt - UINT16
  }

  class Drive {
    var buffer: array<Byte>
    var inserted: bool
    var writeProtected: bool
    var contentsChanged: bool

    constructor (image: array<Byte>, protected: bool)
      ensures buffer == image && inserted && writeProtected == protected && !contentsChanged
    {
      buffer, inserted, writeProtected, contentsChanged := image, true, protected, false;
    }

    /** Where a sector is in the buffer. Without a disk the numbers the caller holds stay as they are. */
    method ReadSectors(a: Address, spt0: int, size0: int) returns (ok: bool, offset: nat, spt: int, size: int)
      requires inserted ==> Proper(buffer[..])
      ensures ok <==> inserted && Accepted(buffer[..], a)
      ensures ok ==> offset + NUMBYTESPERSECTOR <= buffer.Length
                     && buffer[offset..offset + NUMBYTESPERSECTOR] == Sector(buffer[..], a)
      ensures if inserted then spt == Details(buffer[..]).spt && size == NUMBYTESPERSECTOR
              else spt == spt0 && size == size0
    {
      ok, offset, spt, size := false, 0, spt0, size0;
      if inserted {
        var spt', sides := FindDiskDetails(buffer);
        ghost var g := Details(buffer[..]);
        var tracks := Quotient(Quotient(buffer.Length / NUMBYTESPERSECTOR, spt'), sides);
        spt, size := spt', NUMBYTESPERSECTOR;
        if a.side >= sides || a.track >= tracks || a.sector <= 0 || a.sector > spt' {
          return;
        }
        SectorFits(buffer.Length, g, a);
        var bytesPerTrack := NUMBYTESPERSECTOR * spt' % UINT16;
        offset := bytesPerTrack * a.side + bytesPerTrack * sides * a.track + NUMBYTESPERSECTOR * (a.sector - 1);
        assert offset == Offset(g, a);
        assert buffer[..][offset..offset + NUMBYTESPERSECTOR] == buffer[offset..offset + NUMBYTESPERSECTOR];
        ok := true;
      }
    }

    /** Writes `count` sectors, or a whole track of them, from a sector on. The caller sees to it that they
        lie in the image. */
    method WriteSectors(data: array<Byte>, a: Address, count: int) returns (ok: bool)
      requires inserted && !writeProtected ==> Proper(buffer[..])
      requires data != buffer && -0x8000 <= count < 0x8000
      requires inserted && !writeProtected && Accepted(buffer[..], a) ==>
        var g := Details(buffer[..]); var n := Transfer(count, g.spt);
        0 <= n * NUMBYTESPERSECTOR <= data.Length && Offset(g, a) + n * NUMBYTESPERSECTOR <= buffer.Length
      modifies this`contentsChanged, buffer
      ensures ok <==> inserted && !writeProtected && old(Accepted(buffer[..], a))
      ensures ok ==>
        var g := old(Details(buffer[..]));
        buffer[..] == Overwrite(old(buffer[..]), Offset(g, a), data[..Transfer(count, g.spt) * NUMBYTESPERSECTOR])
        && contentsChanged
      ensures !ok ==> buffer[..] == old(buffer[..]) && contentsChanged == old(contentsChanged)
    {
      ok := false;
      if inserted && !writeProtected {
        var spt, sides := FindDiskDetails(buffer);
        ghost var g := Details(buffer[..]);
        var tracks := Quotient(Quotient(buffer.Length / NUMBYTESPERSECTOR, spt), sides);
        if a.side >= sides || a.track >= tracks || a.sector <= 0 || a.sector > spt {
          return;
        }
        var n := Transfer(count, spt);
        var bytesPerTrack := NUMBYTESPERSECTOR * spt % UINT16;
        var offset := bytesPerTrack * a.side + bytesPerTrack * sides * a.track + NUMBYTESPERSECTOR * (a.sector - 1);
        assert offset == Offset(g, a);
        MemCopy(buffer, offset, data, n * NUMBYTESPERSECTOR);
        contentsChanged := true;
        ok := true;
      }
    }
  }

  method MemCopy(to: array<Byte>, at: nat, from: array<Byte>, n: nat)
    requires to != from && n <= from.Length && at + n <= to.Length
    modifies to
    ensures to[..] == Overwrite(old(to[..]), at, from[..n])
  {
    forall k | 0 <= k < n {
      to[at + k] := from[k];
    }
    assert forall k | 0 <= k < at :: to[k] == old(to[k]);
    assert forall k | at <= k < at + n :: to[k] == from[k - at];
  }

  // ------------------------------------------------------------------ what a disk remembers

  const BOOT := Address(1, 0, 0)

  lemma BootIsFirst(g: Geometry, a: Address)
    requires g.spt > 0 && g.sides > 0 && a.sector > 0 && a != BOOT && a.side < g.sides && a.sector <= g.spt
    ensures Lba(g, a) >= 1
  {
    AddressToSector(g, a.track + 1, a);
    AddressToSector(g, 1, BOOT);
  }

  lemma SameBoot(size: nat, boot: seq<Byte>, boot': seq<Byte>)
    requires |boot| >= 28 && |boot'| >= 28 && boot'[..28] == boot[..28]
    ensures BootGeometry(size, boot') == BootGeometry(size, boot)
  {
    assert forall k | 0 <= k < 28 :: boot'[k] == boot'[..28][k] == boot[..28][k] == boot[k];
  }

  /** All sectors of the image lie in different places. */
  ghost predicate Plain(image: Image) {
    Proper(image) && Distinct(Details(image), Tracks(|image|, Details(image)))
  }

  lemma PlainOffset(image: Image, a: Address)
    requires Plain(image) && Accepted(image, a)
    ensures Offset(Details(image), a) == NUMBYTESPERSECTOR * Lba(Details(image), a)
  {
    hide Details;
    var g := Details(image);
    DistinctIff(g, Tracks(|image|, g));
    OffsetIs(g, a);
    if g.spt >= 128 {
      OneTrack(g, Tracks(|image|, g), a);
      assert TrackIndex(g, a) == 0;
    }
  }

  lemma Kept(image: Image, at: nat, data: seq<Byte>, i: nat, j: nat)
    requires at + |data| <= |image| && i <= j <= |image| && (j <= at || at + |data| <= i)
    ensures Overwrite(image, at, data)[i..j] == image[i..j]
  {
    var r := Overwrite(image, at, data);
    forall k | i <= k < j ensures r[k] == image[k] {
      if at + |data| <= i {
        assert image[at + |data|..][k - at - |data|] == image[k];
      }
    }
  }

  lemma Replaced(image: Image, at: nat, data: seq<Byte>, i: nat, j: nat)
    requires at + |data| <= |image| && i <= j <= |data|
    ensures Overwrite(image, at, data)[at + i..at + j] == data[i..j]
  {
  }

  /** A write keeps the geometry exactly unless it puts a boot sector with another geometry into the image. */
  lemma GeometrySurvives(image: Image, a: Address, data: seq<Byte>, n: nat)
    requires Plain(image) && Accepted(image, a)
    requires |data| == NUMBYTESPERSECTOR * n && Offset(Details(image), a) + |data| <= |image|
    ensures Details(Overwrite(image, Offset(Details(image), a), data)) == Details(image)
       <==> a != BOOT || n == 0 || BootGeometry(|image|, data) == Details(image)
  {
    hide BootGeometry;
    hide Offset;
    hide Lba;
    hide Overwrite;
    var g := Details(image);
    var at := Offset(g, a);
    var r := Overwrite(image, at, data);
    PlainOffset(image, a);
    if a != BOOT || n == 0 {
      if a != BOOT {
        BootIsFirst(g, a);
      }
      Kept(image, at, data, 0, 28);
      SameBoot(|image|, image, r);
    } else {
      FirstOffset(g);
      Replaced(image, at, data, 0, 28);
      SameBoot(|image|, data, r);
    }
  }

  lemma FirstOffset(g: Geometry)
    ensures Offset(g, BOOT) == 0
  {
  }

  /** After `n` sectors have been written from one on, reading gives the new data in those sectors and the old data
      everywhere else, if the geometry is still the same. */
  lemma WrittenSectors(image: Image, a: Address, data: seq<Byte>, n: nat, b: Address)
    requires Plain(image) && Accepted(image, a) && Accepted(image, b)
    requires |data| == NUMBYTESPERSECTOR * n && Offset(Details(image), a) + |data| <= |image|
    requires Details(Overwrite(image, Offset(Details(image), a), data)) == Details(image)
    ensures var g := Details(image); var r := Overwrite(image, Offset(g, a), data);
            var k := NUMBYTESPERSECTOR * (Lba(g, b) - Lba(g, a));
            Plain(r) && Accepted(r, b)
            && Sector(r, b) == if Lba(g, a) <= Lba(g, b) < Lba(g, a) + n then data[k..k + NUMBYTESPERSECTOR]
                               else Sector(image, b)
  {
    hide Details;
    hide Lba;
    hide Offset;
    hide Overwrite;
    hide Distinct;
    var g := Details(image);
    PlainOffset(image, a);
    PlainOffset(image, b);
    SectorFits(|image|, g, b);
    var at, from := Offset(g, a), Offset(g, b);
    if Lba(g, a) <= Lba(g, b) < Lba(g, a) + n {
      Replaced(image, at, data, from - at, from - at + NUMBYTESPERSECTOR);
    } else {
      Kept(image, at, data, from, from + NUMBYTESPERSECTOR);
    }
  }

  datatype Write = Write(at: Address, data: seq<Byte>)

  /** Whole sectors are written, and a boot sector only if it describes the same geometry. */
  ghost predicate Sound(size: nat, g: Geometry, w: Write) {
    |w.data| == NUMBYTESPERSECTOR && (w.at == BOOT ==> BootGeometry(size, w.data) == g)
  }

  ghost predicate Writable(image: Image, ws: seq<Write>) {
    Plain(image) && forall k | 0 <= k < |ws| :: Sound(|image|, Details(image), ws[k])
  }

  ghost function WriteOne(image: Image, w: Write): (r: Image)
    requires Proper(image) && |w.data| == NUMBYTESPERSECTOR
    ensures |r| == |image|
  {
    if Accepted(image, w.at) then
      SectorFits(|image|, Details(image), w.at);
      Overwrite(image, Offset(Details(image), w.at), w.data)
    else image
  }

  /** One write after the other, each by the geometry of the image it meets. */
  ghost function WriteAll(image: Image, ws: seq<Write>): (r: Image)
    requires Writable(image, ws)
    ensures |r| == |image| && Details(r) == Details(image)
    decreases |ws|
  {
    if ws == [] then image else
      var r := WriteAll(image, ws[..|ws| - 1]);
      WriteKeepsGeometry(r, ws[|ws| - 1]);
      WriteOne(r, ws[|ws| - 1])
  }

  lemma WriteKeepsGeometry(image: Image, w: Write)
    requires Plain(image) && Sound(|image|, Details(image), w)
    ensures Details(WriteOne(image, w)) == Details(image)
  {
    hide Details;
    hide Distinct;
    if Accepted(image, w.at) {
      SectorFits(|image|, Details(image), w.at);
      GeometrySurvives(image, w.at, w.data, 1);
    }
  }

  /** The data last written to `b`, or else what the image had there. */
  ghost function Latest(image: Image, ws: seq<Write>, b: Address): Image
    requires Proper(image) && Accepted(image, b)
    decreases |ws|
  {
    if ws == [] then Sector(image, b)
    else if ws[|ws| - 1].at == b then ws[|ws| - 1].data
    else Latest(image, ws[..|ws| - 1], b)
  }

  /** After any sequence of writes every sector reads as the data that was last written to its address. */
  lemma {:induction false} DiskRemembers(image: Image, ws: seq<Write>, b: Address)
    requires Writable(image, ws) && Accepted(image, b)
    ensures var r := WriteAll(image, ws);
            Proper(r) && Accepted(r, b) && Sector(r, b) == Latest(image, ws, b)
    decreases |ws|
  {
    hide Details;
    if ws != [] {
      var n := |ws| - 1;
      var r := WriteAll(image, ws[..n]);
      DiskRemembers(image, ws[..n], b);
      OneWrite(r, ws[n], b);
    }
  }

  lemma OneWrite(image: Image, w: Write, b: Address)
    requires Plain(image) && Sound(|image|, Details(image), w) && Accepted(image, b)
    ensures var r := WriteOne(image, w);
            Proper(r) && Accepted(r, b) && Sector(r, b) == (if w.at == b then w.data else Sector(image, b))
  {
    hide Details;
    hide Sector;
    hide Distinct;
    if Accepted(image, w.at) {
      var g := Details(image);
      SectorFits(|image|, g, w.at);
      GeometrySurvives(image, w.at, w.data, 1);
      WrittenSectors(image, w.at, w.data, 1, b);
      AddressToSector(g, Tracks(|image|, g), w.at);
      AddressToSector(g, Tracks(|image|, g), b);
    }
  }

  /** Where sectors share their places no disk can do that: two addresses always read the same. */
  lemma SharedSectors(size: nat, g: Geometry) returns (a: Address, b: Address)
    requires g.spt > 0 && g.sides > 0 && !Distinct(g, Tracks(size, g))
    ensures a != b
    ensures forall image: Image | |image| == size >= 28 && Details(image) == g ::
              Accepted(image, a) && Accepted(image, b) && Sector(image, a) == Sector(image, b)
  {
    hide Details;
    hide Distinct;
    DistinctIff(g, Tracks(size, g));
    a, b := LongTracks(g, Tracks(size, g));
  }
}
