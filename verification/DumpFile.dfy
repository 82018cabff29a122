/**
 A dump file: numbers written one after the other and read back from the start. Structures are
 written field by field, arrays element by element.
 */
module DumpFile {
  /** The cells from `pos` on are those of `s`. */
  ghost predicate At(cells: seq<int>, pos: nat, s: seq<int>)
  {
    pos + |s| <= |cells| && cells[pos..pos + |s|] == s
  }

  lemma AtSplit(cells: seq<int>, pos: nat, a: seq<int>, b: seq<int>)
    ensures At(cells, pos, a + b) <==> At(cells, pos, a) && At(cells, pos + |a|, b)
  {
    if At(cells, pos, a + b) {
      assert cells[pos..pos + |a|] == (a + b)[..|a|] == a;
      assert cells[pos + |a|..pos + |a| + |b|] == (a + b)[|a|..] == b;
    }
    if At(cells, pos, a) && At(cells, pos + |a|, b) {
      assert cells[pos..pos + |a + b|] == cells[pos..pos + |a|] + cells[pos + |a|..pos + |a| + |b|];
    }
  }

  class File {
    var cells: seq<int>
    var pos: nat

    constructor ()
      ensures cells == [] && pos == 0
    {
      cells, pos := [], 0;
    }

    method Put(x: int)
      modifies this`cells
      ensures cells == old(cells) + [x]
    {
      cells := cells + [x];
    }

    method PutAll(s: seq<int>)
      modifies this`cells
      ensures cells == old(cells) + s
    {
      cells := cells + s;
    }

    /** Writes the next section of `target`, of which `rest` is left. */
    method PutNext(s: seq<int>, ghost rest: seq<int>, ghost target: seq<int>)
      requires cells + (s + rest) == target
      modifies this`cells
      ensures cells + rest == target
    {
      assert cells + (s + rest) == (cells + s) + rest;
      cells := cells + s;
    }

    /** Reads the next section, of which the file holds `rest` after it. */
    method GetNext(n: nat, ghost s: seq<int>, ghost rest: seq<int>) returns (t: seq<int>)
      requires n == |s| && At(cells, pos, s + rest)
      modifies this`pos
      ensures t == s && At(cells, pos, rest) && pos == old(pos) + |s|
    {
      AtSplit(cells, pos, s, rest);
      t := GetMany(n, s);
    }

    method Get(ghost x: int) returns (y: int)
      requires At(cells, pos, [x])
      modifies this`pos
      ensures y == x && pos == old(pos) + 1
    {
      assert cells[pos..pos + 1] == [x];
      y := cells[pos];
      pos := pos + 1;
    }

    method GetMany(n: nat, ghost s: seq<int>) returns (t: seq<int>)
      requires n == |s| && At(cells, pos, s)
      modifies this`pos
      ensures t == s && pos == old(pos) + |s|
    {
      t := cells[pos..pos + n];
      pos := pos + n;
    }
  }
}
