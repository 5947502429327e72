/** `util.Set`: a map used as a set, whose members come out sorted. */
module Sets {
  import opened Ordering

  ghost function UnionOf(vals: seq<seq<string>>): set<string> {
    set i, x | 0 <= i < |vals| && x in vals[i] :: x
  }

  lemma UnionOfAppend(vals: seq<seq<string>>, inner: seq<string>)
    ensures UnionOf(vals + [inner]) == UnionOf(vals) + Elements(inner)
  {
    var all := vals + [inner];
    forall x | x in UnionOf(vals) ensures x in UnionOf(all) {
      var i :| 0 <= i < |vals| && x in vals[i];
      assert x in all[i];
    }
    forall x | x in Elements(inner) ensures x in UnionOf(all) {
      assert x in all[|vals|];
    }
  }

  class Set {
    var elems: set<string>

    constructor FromSlices(vals: seq<seq<string>>)
      ensures elems == UnionOf(vals)
    {
      elems := {};
      new;
      for i := 0 to |vals|
        invariant elems == UnionOf(vals[..i])
      {
        assert vals[..i + 1] == vals[..i] + [vals[i]];
        UnionOfAppend(vals[..i], vals[i]);
        Add(vals[i]);
      }
      assert vals[..|vals|] == vals;
    }

    method Add(vals: seq<string>)
      modifies this
      ensures elems == old(elems) + Elements(vals)
    {
      for i := 0 to |vals|
        invariant elems == old(elems) + Elements(vals[..i])
      {
        assert vals[..i + 1] == vals[..i] + [vals[i]];
        elems := elems + {vals[i]};
      }
      assert vals[..|vals|] == vals;
    }

    /** Sorted and duplicate-free, whatever order the underlying map is walked in. */
    method Members() returns (r: seq<string>)
      ensures r == SortedStrings(elems)
    {
      StringLessIsStrictOrder(elems);
      r := SortedKeys(StringLess, elems);
    }

    predicate Has(val: string)
      reads this
    {
      val in elems
    }
  }
}
