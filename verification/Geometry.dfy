/**
 The shape of one partition of the device and the addresses of its physical pages.

 A line (super block) is made of the blocks with one number, one from every die.
 One plane per die, as everywhere in the flash translation layer.
 */
module Geometry {
  import opened Arithmetic
  /** Bytes of a sector, sectors of a page, and bytes of a page. */
  const SECSZ: nat := 512
  const SECS_PER_PG: nat := 8
  const PGSZ: nat := 4096

  datatype Geo = Geo(
    nchs: nat,              // channels
    luns: nat,              // dies per channel
    pgsPerFlashpg: nat,     // pages per flash page, the sensing unit
    flashpgsPerOneshot: nat,
    oneshotsPerBlk: nat,
    lines: nat,             // lines, that is blocks per die
    // calculated values
    pgsPerOneshot: nat,     // pages per one-shot page, the programming unit
    flashpgsPerBlk: nat,
    pgsPerBlk: nat,
    pgsPerLine: nat,
    ttPgs: nat
  ) {
    /** The calculated values are the products they stand for. */
    ghost predicate Derived()
    {
      && pgsPerOneshot == pgsPerFlashpg * flashpgsPerOneshot
      && flashpgsPerBlk == flashpgsPerOneshot * oneshotsPerBlk
      && pgsPerBlk == pgsPerOneshot * oneshotsPerBlk
      && pgsPerLine == nchs * luns * pgsPerBlk
      && ttPgs == pgsPerBlk * lines * luns * nchs
    }

    ghost predicate Ok()
    {
      && nchs > 0 && luns > 0 && pgsPerFlashpg > 0 && flashpgsPerOneshot > 0 && oneshotsPerBlk > 0
      && lines >= 2
      && pgsPerOneshot > 0 && flashpgsPerBlk > 0 && pgsPerBlk > 0 && pgsPerLine > 0
      && Derived()
    }
  }

  /** The calculation of the derived values from the configured ones. */
  function InitParams(nchs: nat, luns: nat, pgsPerFlashpg: nat, flashpgsPerOneshot: nat, oneshotsPerBlk: nat,
                      lines: nat): (g: Geo)
    requires nchs > 0 && luns > 0 && pgsPerFlashpg > 0 && flashpgsPerOneshot > 0 && oneshotsPerBlk > 0 && lines >= 2
    ensures g.Ok()
  {
    var pgsPerOneshot := pgsPerFlashpg * flashpgsPerOneshot;
    var pgsPerBlk := pgsPerOneshot * oneshotsPerBlk;
    Positive(pgsPerFlashpg, flashpgsPerOneshot); Positive(pgsPerOneshot, oneshotsPerBlk);
    Positive(flashpgsPerOneshot, oneshotsPerBlk); Positive(nchs, luns); Positive(nchs * luns, pgsPerBlk);
    Geo(nchs, luns, pgsPerFlashpg, flashpgsPerOneshot, oneshotsPerBlk, lines,
        pgsPerOneshot, flashpgsPerOneshot * oneshotsPerBlk, pgsPerBlk, nchs * luns * pgsPerBlk,
        pgsPerBlk * lines * luns * nchs)
  }

  /** The configured values; sizes are in bytes. Either the blocks of a die or the size of a block is given. */
  datatype Config = Config(nchs: nat, luns: nat, flashpgSize: nat, oneshotSize: nat, blksPerPln: nat, blkSize: nat)
  {
    /** What the source asserts of them: whole pages in a flash page, whole flash pages in a one-shot page. */
    predicate Sensible()
    {
      && nchs > 0 && luns > 0 && flashpgSize > 0 && oneshotSize > 0
      && flashpgSize % PGSZ == 0 && oneshotSize % flashpgSize == 0 && (blksPerPln == 0 ==> blkSize > 0)
    }
  }

  /** Blocks of a die and bytes of a block for a partition of `capacity` bytes. */
  function Sizes(c: Config, capacity: nat): (nat, nat)
    requires c.Sensible()
  {
    var dies := c.luns * c.nchs;
    Positive(c.luns, c.nchs);
    if c.blksPerPln > 0 then
      Positive(c.blksPerPln, dies);
      (c.blksPerPln, CeilDiv(capacity, c.blksPerPln * dies))
    else
      Positive(c.blkSize, dies);
      (CeilDiv(capacity, c.blkSize * dies), c.blkSize)
  }

  /** The geometry of a partition of `capacity` bytes. */
  function FromCapacity(c: Config, capacity: nat): (g: Geo)
    requires c.Sensible() && Sizes(c, capacity).0 >= 2 && Sizes(c, capacity).1 > 0
    ensures g.Ok()
  {
    var (blks, size) := Sizes(c, capacity);
    CeilCovers(size, c.oneshotSize);
    WholeUnits(c.flashpgSize, PGSZ);
    WholeUnits(c.oneshotSize, c.flashpgSize);
    InitParams(c.nchs, c.luns, c.flashpgSize / PGSZ, c.oneshotSize / c.flashpgSize, CeilDiv(size, c.oneshotSize), blks)
  }

  lemma WholeUnits(a: nat, b: nat)
    requires a > 0 && b > 0 && a % b == 0
    ensures a / b > 0 && a / b * b == a
  {
  }

  /** All rounding is upwards: the pages of a partition hold at least its capacity. */
  lemma CapacityHeld(c: Config, capacity: nat)
    requires c.Sensible() && Sizes(c, capacity).0 >= 2 && Sizes(c, capacity).1 > 0
    ensures FromCapacity(c, capacity).ttPgs * PGSZ >= capacity
  {
    var (g, dies) := (FromCapacity(c, capacity), c.luns * c.nchs);
    var (blks, size) := Sizes(c, capacity);
    var os := CeilDiv(size, c.oneshotSize);
    Positive(c.luns, c.nchs);
    CeilCovers(size, c.oneshotSize);
    WholeUnits(c.flashpgSize, PGSZ);
    WholeUnits(c.oneshotSize, c.flashpgSize);
    BlockBytes(c.flashpgSize / PGSZ, c.oneshotSize / c.flashpgSize, c.flashpgSize, c.oneshotSize, os);
    assert g.pgsPerBlk * PGSZ >= size;
    TotalBytes(g.pgsPerBlk, blks, c.luns, c.nchs, size);
    if c.blksPerPln > 0 {
      Positive(blks, dies);
      CeilCovers(capacity, blks * dies);
    } else {
      Positive(size, dies);
      CeilCovers(capacity, size * dies);
      assert blks * (size * dies) == size * (blks * dies);
    }
  }

  lemma BlockBytes(a: nat, b: nat, flash: nat, oneshot: nat, os: nat)
    requires a * PGSZ == flash && b * flash == oneshot
    ensures a * b * os * PGSZ == os * oneshot
  {
    assert a * b * os * PGSZ == os * (b * (a * PGSZ));
  }

  lemma TotalBytes(pgs: nat, blks: nat, luns: nat, chs: nat, size: nat)
    requires pgs * PGSZ >= size
    ensures pgs * blks * luns * chs * PGSZ >= size * (blks * (luns * chs))
  {
    var n := blks * (luns * chs);
    assert pgs * blks * luns * chs * PGSZ == (pgs * PGSZ) * n;
    MulLe(size, pgs * PGSZ, n);
  }

  lemma Positive(a: nat, b: nat)
    requires a > 0 && b > 0
    ensures a * b > 0
  {
  }

  datatype Die = Die(ch: nat, lun: nat)
  datatype Blk = Blk(die: Die, line: nat)
  datatype Ppa = Ppa(blk: Blk, pg: nat)

  predicate ValidDie(g: Geo, d: Die) { d.ch < g.nchs && d.lun < g.luns }
  predicate ValidBlk(g: Geo, b: Blk) { ValidDie(g, b.die) && b.line < g.lines }
  predicate ValidPpa(g: Geo, p: Ppa) { ValidBlk(g, p.blk) && p.pg < g.pgsPerBlk }

  /** The index of a die in the table of page counters. */
  function DieIdx(g: Geo, d: Die): nat { d.ch * g.luns + d.lun }

  /** The index of a page in the reverse map. */
  function PgIdx(g: Geo, p: Ppa): nat
  {
    p.blk.die.ch * (g.pgsPerBlk * g.lines * g.luns) + p.blk.die.lun * (g.pgsPerBlk * g.lines)
    + p.blk.line * g.pgsPerBlk + p.pg
  }

  // ----- Mixed-radix numbers -----

  /** Different dies have different counters, all inside the table. */
  lemma DieIdxInjective(g: Geo, d: Die, e: Die)
    requires ValidDie(g, d) && ValidDie(g, e)
    ensures DieIdx(g, d) < g.nchs * g.luns
    ensures DieIdx(g, d) == DieIdx(g, e) ==> d == e
  {
    Radix(d.ch, e.ch, g.nchs, g.luns, d.lun, e.lun);
  }

  /** Different pages have different reverse-map entries, all inside the table. */
  lemma PgIdxInjective(g: Geo, p: Ppa, q: Ppa)
    requires g.Derived() && ValidPpa(g, p) && ValidPpa(g, q)
    ensures PgIdx(g, p) < g.ttPgs
    ensures PgIdx(g, p) == PgIdx(g, q) ==> p == q
  {
    Radix3(p.blk.die.ch, q.blk.die.ch, g.nchs, p.blk.die.lun, q.blk.die.lun, g.luns,
           p.blk.line, q.blk.line, g.lines, p.pg, q.pg, g.pgsPerBlk);
    assert g.nchs * (g.pgsPerBlk * g.lines * g.luns) == g.ttPgs;
  }

  lemma Radix3(a: nat, a': nat, na: nat, b: nat, b': nat, nb: nat, c: nat, c': nat, nc: nat, e: nat, e': nat, ne: nat)
    requires a < na && a' < na && b < nb && b' < nb && c < nc && c' < nc && e < ne && e' < ne
    ensures a * (ne * nc * nb) + b * (ne * nc) + c * ne + e < na * (ne * nc * nb)
    ensures a * (ne * nc * nb) + b * (ne * nc) + c * ne + e == a' * (ne * nc * nb) + b' * (ne * nc) + c' * ne + e' ==>
              a == a' && b == b' && c == c' && e == e'
  {
    Digits(a, a', na, b, b', nb, c, c', nc, e, e', ne, ne * nc, ne * nc * nb);
  }

  /** The same with the weights of the digits named. */
  lemma Digits(a: nat, a': nat, na: nat, b: nat, b': nat, nb: nat, c: nat, c': nat, nc: nat, e: nat, e': nat, ne: nat,
               w: nat, ww: nat)
    requires a < na && a' < na && b < nb && b' < nb && c < nc && c' < nc && e < ne && e' < ne
    requires w == nc * ne && ww == nb * w
    ensures a * ww + b * w + c * ne + e < na * ww
    ensures a * ww + b * w + c * ne + e == a' * ww + b' * w + c' * ne + e' ==> a == a' && b == b' && c == c' && e == e'
  {
    Radix(c, c', nc, ne, e, e');
    Radix(c', c, nc, ne, e', e);
    Digits2(a, a', na, ww, b, b', nb, w, c * ne + e, c' * ne + e');
  }

  lemma Digits2(a: nat, a': nat, na: nat, ww: nat, b: nat, b': nat, nb: nat, w: nat, lo: nat, lo': nat)
    requires a < na && a' < na && b < nb && b' < nb && lo < w && lo' < w && ww == nb * w
    ensures a * ww + b * w + lo < na * ww
    ensures a * ww + b * w + lo == a' * ww + b' * w + lo' ==> a == a' && b == b' && lo == lo'
  {
    Radix(b, b', nb, w, lo, lo');
    Radix(b', b, nb, w, lo', lo);
    Radix(a, a', na, ww, b * w + lo, b' * w + lo');
  }

  // ----- The pages of a block and of a line -----

  ghost function BlkPages(g: Geo, b: Blk): (s: set<Ppa>)
    ensures forall p :: p in s <==> p.blk == b && p.pg < g.pgsPerBlk
  {
    set i: nat | 0 <= i < g.pgsPerBlk :: Ppa(b, i)
  }

  ghost function LinePages(g: Geo, l: nat): (s: set<Ppa>)
    ensures forall p :: p in s <==> ValidDie(g, p.blk.die) && p.blk.line == l && p.pg < g.pgsPerBlk
  {
    set c: nat, u: nat, i: nat | 0 <= c < g.nchs && 0 <= u < g.luns && 0 <= i < g.pgsPerBlk :: Ppa(Blk(Die(c, u), l), i)
  }

  lemma {:induction false} BlkPageCount(b: Blk, n: nat)
    ensures |(set i: nat | 0 <= i < n :: Ppa(b, i))| == n
  {
    if n > 0 {
      BlkPageCount(b, n - 1);
      assert (set i: nat | 0 <= i < n :: Ppa(b, i)) == (set i: nat | 0 <= i < n - 1 :: Ppa(b, i)) + {Ppa(b, n - 1)};
    }
  }

  /** The pages of line `l` in the dies of a set. */
  ghost function PagesIn(g: Geo, ds: set<Die>, l: nat): (s: set<Ppa>)
    ensures forall p :: p in s <==> p.blk.die in ds && p.blk.line == l && p.pg < g.pgsPerBlk
  {
    set d, i: nat | d in ds && 0 <= i < g.pgsPerBlk :: Ppa(Blk(d, l), i)
  }

  lemma {:induction false} PagesInCount(g: Geo, ds: set<Die>, l: nat)
    ensures |PagesIn(g, ds, l)| == |ds| * g.pgsPerBlk
  {
    if ds == {} {
      assert PagesIn(g, ds, l) == {};
    } else {
      var d :| d in ds;
      var rest := ds - {d};
      PagesInCount(g, rest, l);
      BlkPageCount(Blk(d, l), g.pgsPerBlk);
      SplitDie(g, ds, d, l);
      assert |ds| == |rest| + 1;
      MulStep(|ds|, g.pgsPerBlk);
    }
  }

  lemma SplitDie(g: Geo, ds: set<Die>, d: Die, l: nat)
    requires d in ds
    ensures |PagesIn(g, ds, l)| == |PagesIn(g, ds - {d}, l)| + |BlkPages(g, Blk(d, l))|
  {
    assert PagesIn(g, ds, l) == PagesIn(g, ds - {d}, l) + BlkPages(g, Blk(d, l));
    assert PagesIn(g, ds - {d}, l) !! BlkPages(g, Blk(d, l));
  }

  /** The dies of the first `n` channels. */
  ghost function DiesBelow(n: nat, luns: nat): (s: set<Die>)
    ensures forall d :: d in s <==> d.ch < n && d.lun < luns
  {
    set c: nat, l: nat | 0 <= c < n && 0 <= l < luns :: Die(c, l)
  }

  ghost function DieRow(c: nat, luns: nat): (s: set<Die>)
    ensures forall d :: d in s <==> d.ch == c && d.lun < luns
  {
    set l: nat | 0 <= l < luns :: Die(c, l)
  }

  lemma {:induction false} DieRowCount(c: nat, luns: nat)
    ensures |DieRow(c, luns)| == luns
  {
    if luns > 0 {
      DieRowCount(c, luns - 1);
      assert DieRow(c, luns) == DieRow(c, luns - 1) + {Die(c, luns - 1)};
    }
  }

  lemma SplitRow(n: nat, luns: nat)
    requires n > 0
    ensures |DiesBelow(n, luns)| == |DiesBelow(n - 1, luns)| + |DieRow(n - 1, luns)|
  {
    assert DiesBelow(n, luns) == DiesBelow(n - 1, luns) + DieRow(n - 1, luns);
    assert DiesBelow(n - 1, luns) !! DieRow(n - 1, luns);
  }

  lemma {:induction false} DieCount(n: nat, luns: nat)
    ensures |DiesBelow(n, luns)| == n * luns
  {
    if n > 0 {
      DieCount(n - 1, luns);
      DieRowCount(n - 1, luns);
      SplitRow(n, luns);
      MulStep(n, luns);
    } else {
      assert DiesBelow(n, luns) == {};
    }
  }

  /** A line has as many pages as the derived geometry says. */
  lemma LinePageCount(g: Geo, l: nat)
    requires g.Derived()
    ensures |LinePages(g, l)| == g.pgsPerLine
  {
    DieCount(g.nchs, g.luns);
    PagesInCount(g, DiesBelow(g.nchs, g.luns), l);
    assert LinePages(g, l) == PagesIn(g, DiesBelow(g.nchs, g.luns), l);
  }

  /** Pages of one flash page: the numbers `f * n .. f * n + n - 1`, all inside the block. */
  lemma FlashPageInBlock(g: Geo, f: nat)
    requires g.Derived() && f < g.flashpgsPerBlk
    ensures f * g.pgsPerFlashpg + g.pgsPerFlashpg <= g.pgsPerBlk
  {
    MulMono(f, g.flashpgsPerBlk, g.pgsPerFlashpg);
    assert g.flashpgsPerBlk * g.pgsPerFlashpg == g.pgsPerBlk;
  }
}
