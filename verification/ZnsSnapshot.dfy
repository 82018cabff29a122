/**
 Saving and loading a zoned namespace: a header, the zone descriptors, the resource counts and buffer
 levels, then one chunk of data per zone that has any, up to an end marker.
 */
module ZnsSnapshot {
  import opened DumpFile
  import opened Geometry
  import opened Zones
  import Zns

  const DUMP_MAGIC: int := 0x5A4E5346
  const ZONE_SENTINEL: int := 0xFFFF_FFFF
  const TWO31: nat := 0x8000_0000
  const TWO32: nat := 0x1_0000_0000

  datatype Resource = Resource(acquired: int, total: int)

  /** What is saved, and the data of each zone. */
  datatype Image = Image(
    zones: seq<Zone>,
    res: seq<Resource>,
    zrwaLevels: seq<int>,
    wbLevels: seq<int>,
    data: seq<seq<int>>)

  datatype Params = Params(nrZones: nat, zoneSize: nat, nchs: int, luns: int, zrwaEn: bool, wbEn: bool)

  function StateCode(s: ZoneState): int
  {
    match s
    case Empty => 0x1
    case OpenedImpl => 0x2
    case OpenedExpl => 0x3
    case Closed => 0x4
    case ReadOnly => 0xD
    case Full => 0xE
    case Offline => 0xF
  }

  function StateOf(c: int): ZoneState
  {
    match c
    case 0x1 => Empty
    case 0x2 => OpenedImpl
    case 0x3 => OpenedExpl
    case 0x4 => Closed
    case 0xD => ReadOnly
    case 0xE => Full
    case _ => Offline
  }

  // ----- The layout of the file -----

  function Header(p: Params): seq<int>
  {
    [DUMP_MAGIC, p.nrZones, p.zoneSize, p.nchs, p.luns, if p.zrwaEn then 1 else 0, if p.wbEn then 1 else 0]
  }

  function ZoneCells(z: Zone): (r: seq<int>)
    ensures |r| == 4
  {
    [StateCode(z.state), z.cap, z.zslba, z.wp]
  }

  function AllZoneCells(zs: seq<Zone>): seq<int>
  {
    if zs == [] then [] else ZoneCells(zs[0]) + AllZoneCells(zs[1..])
  }

  function ResCells(rs: seq<Resource>): seq<int>
  {
    if rs == [] then [] else [rs[0].acquired, rs[0].total] + ResCells(rs[1..])
  }

  /** Bytes of a zone below its write pointer. */
  function Bytes(z: Zone): nat { if z.wp >= z.zslba then (z.wp - z.zslba) * SECSZ else 0 }

  /** Bytes really copied: the length is compared as a 32-bit signed number. */
  function Copied(len: nat): nat { if len < TWO31 then len else 0 }

  predicate Skipped(z: Zone) { z.state == Empty || z.state == Offline || Bytes(z) == 0 }

  /** The chunks of the zones from `i` on. */
  function Chunks(im: Image, i: nat): seq<int>
    requires |im.data| == |im.zones| && forall k :: 0 <= k < |im.zones| ==> Copied(Bytes(im.zones[k])) <= |im.data[k]|
    decreases |im.zones| - i
  {
    if i >= |im.zones| then []
    else if Skipped(im.zones[i]) then Chunks(im, i + 1)
    else Chunk(im.zones[i], im.data[i], i) + Chunks(im, i + 1)
  }

  function Chunk(z: Zone, data: seq<int>, i: nat): seq<int>
    requires Copied(Bytes(z)) <= |data|
  {
    [i, Bytes(z)] + data[..Copied(Bytes(z))]
  }

  ghost predicate Fits(im: Image, p: Params)
  {
    && |im.zones| == |im.data| == p.nrZones < TWO32 && |im.res| == 3
    && |im.zrwaLevels| == (if p.zrwaEn then p.nrZones else 0)
    && |im.wbLevels| == (if p.wbEn then p.nrZones else 0)
    && (forall i :: 0 <= i < |im.zones| ==> |im.data[i]| == p.zoneSize && Bytes(im.zones[i]) <= p.zoneSize)
  }

  function Layout(im: Image, p: Params): seq<int>
    requires Fits(im, p)
  {
    Header(p) + AllZoneCells(im.zones) + ResCells(im.res) + im.zrwaLevels + im.wbLevels + Chunks(im, 0) +
        [ZONE_SENTINEL]
  }

  // ----- Writing -----

  method Save(im: Image, p: Params) returns (f: File)
    requires Fits(im, p)
    ensures fresh(f) && f.cells == Layout(im, p) && f.pos == 0
  {
    hide AllZoneCells, ResCells, Chunks, Header;
    f := new File();
    f.PutAll(Header(p));
    SaveZones(im.zones, f);
    SaveResources(im.res, f);
    f.PutAll(im.zrwaLevels);
    f.PutAll(im.wbLevels);
    SaveChunks(im, f, p);
    f.Put(ZONE_SENTINEL);
    assert f.cells == Layout(im, p);
  }

  method SaveZones(zs: seq<Zone>, f: File)
    modifies f`cells
    ensures f.cells == old(f.cells) + AllZoneCells(zs)
  {
    hide ZoneCells;
    assert zs[0..] == zs;
    for i := 0 to |zs|
      invariant f.cells + AllZoneCells(zs[i..]) == old(f.cells) + AllZoneCells(zs)
    {
      assert zs[i..][1..] == zs[i + 1..];
      f.PutAll(ZoneCells(zs[i]));
    }
  }

  method SaveResources(rs: seq<Resource>, f: File)
    modifies f`cells
    ensures f.cells == old(f.cells) + ResCells(rs)
  {
    assert rs[0..] == rs;
    for i := 0 to |rs|
      invariant f.cells + ResCells(rs[i..]) == old(f.cells) + ResCells(rs)
    {
      assert rs[i..][1..] == rs[i + 1..];
      f.PutAll([rs[i].acquired, rs[i].total]);
    }
  }

  method SaveChunks(im: Image, f: File, ghost p: Params)
    requires Fits(im, p)
    modifies f`cells
    ensures f.cells == old(f.cells) + Chunks(im, 0)
  {
    for i := 0 to |im.zones|
      invariant f.cells + Chunks(im, i) == old(f.cells) + Chunks(im, 0)
    {
      var z := im.zones[i];
      if !Skipped(z) {
        f.Put(i);
        f.Put(Bytes(z));
        f.PutAll(im.data[i][..Copied(Bytes(z))]);
      }
    }
  }

  // ----- Reading -----

  method LoadZones(n: nat, f: File, ghost zs: seq<Zone>) returns (r: seq<Zone>)
    requires n == |zs| && At(f.cells, f.pos, AllZoneCells(zs))
    modifies f`pos
    ensures r == zs && f.pos == old(f.pos) + |AllZoneCells(zs)|
  {
    r := [];
    ghost var end := f.pos + |AllZoneCells(zs)|;
    assert zs[0..] == zs;
    for i := 0 to n
      invariant r == zs[..i] && At(f.cells, f.pos, AllZoneCells(zs[i..])) && f.pos + |AllZoneCells(zs[i..])| == end
    {
      assert zs[i..][1..] == zs[i + 1..];
      AtSplit(f.cells, f.pos, ZoneCells(zs[i]), AllZoneCells(zs[i + 1..]));
      var t := f.GetMany(4, ZoneCells(zs[i]));
      r := r + [Zone(StateOf(t[0]), t[2], t[3], t[1])];
    }
  }

  method LoadResources(n: nat, f: File, ghost rs: seq<Resource>) returns (r: seq<Resource>)
    requires n == |rs| && At(f.cells, f.pos, ResCells(rs))
    modifies f`pos
    ensures r == rs && f.pos == old(f.pos) + |ResCells(rs)|
  {
    r := [];
    ghost var end := f.pos + |ResCells(rs)|;
    assert rs[0..] == rs;
    for i := 0 to n
      invariant r == rs[..i] && At(f.cells, f.pos, ResCells(rs[i..])) && f.pos + |ResCells(rs[i..])| == end
    {
      ghost var c := [rs[i].acquired, rs[i].total];
      assert rs[i..][1..] == rs[i + 1..];
      AtSplit(f.cells, f.pos, c, ResCells(rs[i + 1..]));
      var t := f.GetMany(2, c);
      r := r + [Resource(t[0], t[1])];
    }
  }

  /** The data of a zone after a load: what is below the write pointer, and zeros. */
  function Restored(z: Zone, data: seq<int>): seq<int>
    requires Copied(Bytes(z)) <= |data|
  {
    if Skipped(z) then Zeros(|data|) else data[..Copied(Bytes(z))] + Zeros(|data| - Copied(Bytes(z)))
  }

  function Zeros(n: nat): seq<int> { seq(n, _ => 0) }

  /** Where the parts of a chunk are. */
  lemma ChunkAt(cells: seq<int>, pos: nat, im: Image, p: Params, i: nat)
    requires Fits(im, p) && i < p.nrZones && !Skipped(im.zones[i])
    requires At(cells, pos, Chunks(im, i) + [ZONE_SENTINEL])
    ensures var len := Bytes(im.zones[i]); var d := im.data[i][..Copied(len)];
            && At(cells, pos, [i]) && At(cells, pos + 1, [len]) && At(cells, pos + 2, d)
            && At(cells, pos + 2 + |d|, Chunks(im, i + 1) + [ZONE_SENTINEL])
            && |Chunks(im, i)| == 2 + |d| + |Chunks(im, i + 1)|
  {
    var len := Bytes(im.zones[i]);
    var d := im.data[i][..Copied(len)];
    var rest := Chunks(im, i + 1) + [ZONE_SENTINEL];
    hide Bytes, Fits;
    assert Chunks(im, i) == Chunk(im.zones[i], im.data[i], i) + Chunks(im, i + 1);
    assert Chunks(im, i) + [ZONE_SENTINEL] == [i] + ([len] + (d + rest));
    hide Chunks, Chunk, At;
    AtSplit(cells, pos, [i], [len] + (d + rest));
    AtSplit(cells, pos + 1, [len], d + rest);
    AtSplit(cells, pos + 2, d, rest);
  }

  /**
   Reads chunks up to the end marker. The marker is no zone number, so the reader stops exactly there.
   */
  method LoadChunks(n: nat, size: nat, f: File, ghost im: Image, ghost p: Params) returns (data: seq<seq<int>>)
    requires Fits(im, p) && n == p.nrZones && size == p.zoneSize && At(f.cells, f.pos, Chunks(im, 0) + [ZONE_SENTINEL])
    modifies f`pos
    ensures |data| == n && f.pos == old(f.pos) + |Chunks(im, 0)| + 1
    ensures forall k :: 0 <= k < n ==> data[k] == Restored(im.zones[k], im.data[k])
  {
    hide At, Chunks, Bytes, Zeros;
    data := seq(n, _ => Zeros(size));
    ghost var end := f.pos + |Chunks(im, 0)| + 1;
    ghost var i := 0;
    while true
      invariant i <= n == |data| && At(f.cells, f.pos, Chunks(im, i) + [ZONE_SENTINEL])
      invariant f.pos + |Chunks(im, i)| + 1 == end
      invariant forall k :: 0 <= k < i ==> data[k] == Restored(im.zones[k], im.data[k])
      invariant forall k :: i <= k < n ==> data[k] == Zeros(size)
      decreases n - i
    {
      i := SkipEmpty(im, p, i);
      if i == n {
        EndAt(f.cells, f.pos, im, p);
      } else {
        ChunkAt(f.cells, f.pos, im, p, i);
      }
      var zid := f.Get(if i == n then ZONE_SENTINEL else i);
      if zid == ZONE_SENTINEL {
        break;
      }
      var len := f.Get(Bytes(im.zones[i]));
      var d := f.GetMany(Copied(len), im.data[i][..Copied(Bytes(im.zones[i]))]);
      data := data[zid := d + Zeros(size - |d|)];
      i := i + 1;
    }
  }

  lemma EndAt(cells: seq<int>, pos: nat, im: Image, p: Params)
    requires Fits(im, p) && At(cells, pos, Chunks(im, p.nrZones) + [ZONE_SENTINEL])
    ensures At(cells, pos, [ZONE_SENTINEL]) && Chunks(im, p.nrZones) == []
  {
    assert Chunks(im, p.nrZones) + [ZONE_SENTINEL] == [ZONE_SENTINEL];
  }

  /** The next zone that has a chunk. */
  ghost function SkipEmpty(im: Image, p: Params, i: nat): (j: nat)
    requires Fits(im, p) && i <= p.nrZones
    ensures i <= j <= p.nrZones && Chunks(im, j) == Chunks(im, i)
    ensures forall k :: i <= k < j ==> Skipped(im.zones[k])
    ensures j < p.nrZones ==> !Skipped(im.zones[j])
    decreases p.nrZones - i
  {
    if i == p.nrZones || !Skipped(im.zones[i]) then i else SkipEmpty(im, p, i + 1)
  }

  // ----- The round trip -----

  /** Where the sections of the file are. */
  lemma LayoutAt(cells: seq<int>, pos: nat, im: Image, p: Params)
    requires Fits(im, p) && pos == 0 && cells == Layout(im, p)
    ensures At(cells, pos, Header(p))
    ensures At(cells, pos + 7, AllZoneCells(im.zones))
    ensures var q := pos + 7 + |AllZoneCells(im.zones)|; At(cells, q, ResCells(im.res))
    ensures var q := pos + 7 + |AllZoneCells(im.zones)| + |ResCells(im.res)|;
            && At(cells, q, im.zrwaLevels) && At(cells, q + |im.zrwaLevels|, im.wbLevels)
            && At(cells, q + |im.zrwaLevels| + |im.wbLevels|, Chunks(im, 0) + [ZONE_SENTINEL])
            && pos + |Layout(im, p)| == q + |im.zrwaLevels| + |im.wbLevels| + |Chunks(im, 0)| + 1
  {
    hide AllZoneCells, ResCells, Chunks;
    Sections(cells, Header(p), AllZoneCells(im.zones), ResCells(im.res), im.zrwaLevels, im.wbLevels, Chunks(im, 0),
        [ZONE_SENTINEL]);
  }

  lemma Sections(cells: seq<int>, h: seq<int>, z: seq<int>, r: seq<int>, a: seq<int>, b: seq<int>, c: seq<int>,
      e: seq<int>)
    requires cells == h + z + r + a + b + c + e
    ensures At(cells, 0, h) && At(cells, |h|, z) && At(cells, |h| + |z|, r) && At(cells, |h| + |z| + |r|, a)
    ensures At(cells, |h| + |z| + |r| + |a|, b) && At(cells, |h| + |z| + |r| + |a| + |b|, c + e)
    ensures |cells| == |h| + |z| + |r| + |a| + |b| + |c| + |e|
  {
    assert cells == h + z + r + a + b + (c + e);
    assert At(cells, 0, h + z + r + a + b + (c + e));
    AtSplit(cells, 0, h + z + r + a + b, c + e);
    AtSplit(cells, 0, h + z + r + a, b);
    AtSplit(cells, 0, h + z + r, a);
    AtSplit(cells, 0, h + z, r);
    AtSplit(cells, 0, h, z);
  }

  method CheckHeader(f: File, p: Params, ghost q: Params) returns (ok: bool, zrwaEn: bool, wbEn: bool)
    requires At(f.cells, f.pos, Header(q))
    modifies f`pos
    ensures f.pos == old(f.pos) + 7
    ensures ok <==> p.nrZones == q.nrZones && p.zoneSize == q.zoneSize
    ensures zrwaEn == q.zrwaEn && wbEn == q.wbEn
  {
    hide At;
    var h := f.GetMany(7, Header(q));
    ok := h[0] == DUMP_MAGIC && h[1] == p.nrZones && h[2] == p.zoneSize;
    zrwaEn, wbEn := h[5] != 0, h[6] != 0;
  }

  /**
   Loads a file written for a device with parameters `q` into one with parameters `p`. It is refused
   exactly when the number or the size of the zones differ; else descriptors, counts and levels
   come back as they were, and so does the data that was copied, with zeros elsewhere.
   */
  method Load(f: File, p: Params, ghost im: Image, ghost q: Params) returns (ok: bool, r: Image)
    requires Fits(im, q) && f.pos == 0 && f.cells == Layout(im, q)
    modifies f`pos
    ensures ok <==> p.nrZones == q.nrZones && p.zoneSize == q.zoneSize
    ensures ok ==> r.(data := im.data) == im && |r.data| == |im.data|
    ensures ok ==> forall k :: 0 <= k < p.nrZones ==> r.data[k] == Restored(im.zones[k], im.data[k])
    ensures ok ==> f.pos == |f.cells|
  {
    hide At, AllZoneCells, ResCells, Chunks, Layout, Restored, Header, Bytes, ZoneCells;
    r := Image([], [], [], [], []);
    LayoutAt(f.cells, f.pos, im, q);
    var zrwaEn, wbEn;
    ok, zrwaEn, wbEn := CheckHeader(f, p, q);
    if !ok {
      return;
    }
    var zones := LoadZones(p.nrZones, f, im.zones);
    var res := LoadResources(3, f, im.res);
    var zrwa := f.GetMany(if zrwaEn then p.nrZones else 0, im.zrwaLevels);
    var wb := f.GetMany(if wbEn then p.nrZones else 0, im.wbLevels);
    var data := LoadChunks(p.nrZones, p.zoneSize, f, im, q);
    r := Image(zones, res, zrwa, wb, data);
  }

  /**
   What comes back of the data below the write pointer: all of it exactly when the zone is not offline
   and holds less than 2 GiB, since longer chunks are written and read without their data.
   */
  lemma DataBack(z: Zone, i: nat, lbas: nat, data: seq<int>)
    requires ZoneOk(z, i, lbas) && Bytes(z) <= |data|
    ensures |Restored(z, data)| == |data|
    ensures Restored(z, data)[..Bytes(z)] == data[..Bytes(z)] <==>
            (z.state != Offline && Bytes(z) < TWO31) || data[..Bytes(z)] == Zeros(Bytes(z))
    ensures forall k :: Bytes(z) <= k < |data| ==> Restored(z, data)[k] == 0
  {
    var n := Bytes(z);
    assert z.state == Empty ==> n == 0;
    hide Bytes;
    assert n == 0 ==> Restored(z, data)[..n] == Zeros(n) == data[..n];
    if !Skipped(z) && n < TWO31 {
      assert Restored(z, data)[..n] == data[..n];
    } else {
      assert n > 0 ==> Restored(z, data)[..n] == Zeros(n);
    }
  }

  /** A full zone of 2 GiB comes back empty. */
  lemma LargeZoneExample(data: seq<int>)
    requires |data| == TWO31 && forall k :: 0 <= k < TWO31 ==> data[k] == 1
    ensures var z := Zone(Full, 0, TWO31 / SECSZ, TWO31 / SECSZ);
            Bytes(z) == TWO31 && Restored(z, data) == Zeros(TWO31) && Restored(z, data) != data
  {
    var z := Zone(Full, 0, TWO31 / SECSZ, TWO31 / SECSZ);
    assert Restored(z, data) == Zeros(TWO31);
    assert Zeros(TWO31)[0] == 0;
  }

  /** Saving a device and loading the file into a device of the same shape. */
  method SaveAndLoad(im: Image, p: Params, lbas: nat) returns (r: Image)
    requires Fits(im, p) && forall i :: 0 <= i < p.nrZones ==> ZoneOk(im.zones[i], i, lbas)
    ensures r.(data := im.data) == im && |r.data| == p.nrZones
    ensures forall i :: 0 <= i < p.nrZones && im.zones[i].state != Offline && Bytes(im.zones[i]) < TWO31 ==>
              |r.data[i]| == p.zoneSize && r.data[i][..Bytes(im.zones[i])] == im.data[i][..Bytes(im.zones[i])]
    ensures forall i, k :: 0 <= i < p.nrZones && Bytes(im.zones[i]) <= k < p.zoneSize ==>
              |r.data[i]| == p.zoneSize && r.data[i][k] == 0
  {
    hide Layout, Restored, Bytes, ZoneOk;
    var f := Save(im, p);
    var ok;
    ok, r := Load(f, p, im, p);
    forall i | 0 <= i < p.nrZones
      ensures |r.data[i]| == p.zoneSize
      ensures im.zones[i].state != Offline && Bytes(im.zones[i]) < TWO31 ==>
          r.data[i][..Bytes(im.zones[i])] == im.data[i][..Bytes(im.zones[i])]
      ensures forall k :: Bytes(im.zones[i]) <= k < p.zoneSize ==> r.data[i][k] == 0
    {
      DataBack(im.zones[i], i, lbas, im.data[i]);
    }
  }

  // ----- The image of a device -----

  /** What is saved of a device, whose zones hold `data`. No random write areas are in use. */
  function ImageOf(f: Zns.ZnsFtl, data: seq<seq<int>>): Image
    reads f
  {
    Image(f.zones, [Resource(f.active, f.maxActive), Resource(f.open, f.maxOpen), Resource(0, |f.zones|)], [],
        f.level, data)
  }

  function ParamsOf(f: Zns.ZnsFtl, nchs: int, luns: int): Params
    reads f
  {
    Params(|f.zones|, f.lbas * SECSZ, nchs, luns, false, true)
  }

  /** A device whose invariant holds can be saved, and its zones are in order. */
  lemma ValidFits(f: Zns.ZnsFtl, data: seq<seq<int>>, nchs: int, luns: int)
    requires f.Valid() && |f.zones| < TWO32
    requires |data| == |f.zones| && forall i :: 0 <= i < |data| ==> |data[i]| == f.lbas * SECSZ
    ensures Fits(ImageOf(f, data), ParamsOf(f, nchs, luns))
    ensures forall i :: 0 <= i < |f.zones| ==> ZoneOk(f.zones[i], i, f.lbas)
  {
    hide Kept;
    forall i | 0 <= i < |f.zones|
      ensures Bytes(f.zones[i]) <= f.lbas * SECSZ
    {
      assert ZoneOk(f.zones[i], i, f.lbas);
    }
  }

  /** Any device that a run of commands can lead to comes back from its dump. */
  method SaveAndLoadDevice(f: Zns.ZnsFtl, data: seq<seq<int>>, nchs: int, luns: int) returns (r: Image)
    requires f.Valid() && |f.zones| < TWO32
    requires |data| == |f.zones| && forall i :: 0 <= i < |data| ==> |data[i]| == f.lbas * SECSZ
    ensures r.zones == f.zones && r.wbLevels == f.level && |r.data| == |data|
    ensures r.res == [Resource(f.active, f.maxActive), Resource(f.open, f.maxOpen), Resource(0, |f.zones|)]
    ensures forall i :: 0 <= i < |data| && f.zones[i].state != Offline && Bytes(f.zones[i]) < TWO31 ==>
              Bytes(f.zones[i]) <= |data[i]| == |r.data[i]|
              && r.data[i][..Bytes(f.zones[i])] == data[i][..Bytes(f.zones[i])]
  {
    hide Zns.ZnsFtl.Valid, Bytes, ZoneOk;
    ValidFits(f, data, nchs, luns);
    r := SaveAndLoad(ImageOf(f, data), ParamsOf(f, nchs, luns), f.lbas);
  }
}
