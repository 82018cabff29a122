/**
 The partitions of a conventional namespace: logical page `l` of the namespace is page `l / n` of
 partition `l % n`. The partitions share nothing.
 */
module Partitions {
  import opened Geometry
  import opened WritePointers
  import opened LineLists
  import ConvFtl
  import VictimQueue

  /** The local numbers of the pages of a set that belong to partition `i`. */
  ghost function Locals(s: set<nat>, parts: nat, i: nat): set<nat>
    requires parts > 0
  {
    set l | l in s && l % parts == i :: l / parts
  }

  lemma LocalsAdd(s: set<nat>, parts: nat, l: nat, i: nat)
    requires parts > 0
    ensures i == l % parts ==> Locals(s + {l}, parts, i) == Locals(s, parts, i) + {l / parts}
    ensures i != l % parts ==> Locals(s + {l}, parts, i) == Locals(s, parts, i)
  {
  }

  lemma LocalsMono(s: set<nat>, t: set<nat>, parts: nat, i: nat)
    requires parts > 0 && s <= t
    ensures Locals(s, parts, i) <= Locals(t, parts, i)
  {
  }

  lemma LocalsEmpty(parts: nat, i: nat)
    requires parts > 0
    ensures Locals({}, parts, i) == {}
  {
  }

  ghost predicate Separate(parts: seq<ConvFtl.Ftl>)
  {
    forall i, j :: 0 <= i < j < |parts| ==>
      parts[i] != parts[j] && parts[i].vq != parts[j].vq && parts[i].vq.d != parts[j].vq.d
  }

  ghost function Queues(parts: seq<ConvFtl.Ftl>): set<VictimQueue.Queue> { set f | f in parts :: f.vq }
  ghost function Buffers(parts: seq<ConvFtl.Ftl>): set<array<nat>> { set f | f in parts :: f.vq.d }

  /** Every partition is consistent, and together they map exactly the given pages. */
  ghost predicate Hold(parts: seq<ConvFtl.Ftl>, pages: set<nat>)
    reads parts, Queues(parts), Buffers(parts)
  {
    hide ConvFtl.Ftl.Consistent;
    && |parts| > 0 && Separate(parts)
    && forall i :: 0 <= i < |parts| ==> parts[i].Consistent() && parts[i].maptbl.Keys == Locals(pages, |parts|, i)
  }

  lemma RoomMono(f: ConvFtl.Ftl, s: set<nat>, t: set<nat>)
    requires f.Room(t) && s <= t
    ensures f.Room(s)
  {
    SubsetCard(s, t);
  }

  /** Nothing is written yet. */
  ghost predicate IsNew(f: ConvFtl.Ftl, geo: Geo)
    reads f
  {
    && f.g == geo && f.maptbl == map[] && f.wpPg == 0
    && f.wpDie == Die(0, 0) && f.pageCounter == ZeroCounters(geo)
  }

  /** New partitions, which share nothing. */
  method NewPartitions(geo: Geo, n: nat) returns (fs: seq<ConvFtl.Ftl>)
    requires geo.Ok() && geo.lines >= 5
    ensures |fs| == n && fresh(fs) && fresh(set f | f in fs :: f.vq) && fresh(set f | f in fs :: f.vq.d)
    ensures forall i :: 0 <= i < n ==> fs[i].Consistent() && IsNew(fs[i], geo)
    ensures Separate(fs) && (n > 0 ==> Hold(fs, {}))
  {
    hide ConvFtl.Ftl.Consistent, ConvFtl.Ftl.Ready, ConvFtl.Ftl.Snap;
    fs := [];
    for k := 0 to n
      invariant |fs| == k
      invariant forall i :: 0 <= i < k ==> fresh(fs[i]) && fresh(fs[i].vq) && fresh(fs[i].vq.d)
      invariant forall i :: 0 <= i < k ==> fs[i].Consistent() && IsNew(fs[i], geo)
      invariant forall i, j :: 0 <= i < j < k ==> fs[i] != fs[j] && fs[i].vq != fs[j].vq && fs[i].vq.d != fs[j].vq.d
    {
      var f := new ConvFtl.Ftl(geo);
      f.NewIsConsistent();
      fs := fs + [f];
    }
    forall i | 0 <= i < n
      ensures Locals({}, n, i) == {}
    {
      LocalsEmpty(n, i);
    }
  }
}
