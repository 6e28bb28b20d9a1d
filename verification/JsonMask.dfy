/** The mask that decides what is printed as JSON: printJSON first adds everything below and around
    the selected fields. */
module JsonMask {
  import opened Fields
  import opened BitSets
  import opened Compress
  import opened CompressLaws
  import opened MapperTables

  /** Field `k` lies inside a selected field, or around one. */
  ghost predicate Related(f: Field, m: set<nat>, parents: bool, k: nat)
    requires k < Size(f)
  {
    exists a | a in m && a < Size(f) :: Within(f, a, k) || (parents && Within(f, k, a))
  }

  /** The same, for the selected fields before offset `n`; selected fields are always there. */
  ghost predicate RelatedBefore(f: Field, m: set<nat>, parents: bool, k: nat, n: nat)
    requires k < Size(f)
  {
    k in m || exists a | a in m && a < n && a < Size(f) :: Within(f, a, k) || (parents && Within(f, k, a))
  }

  ghost predicate ExpandedTo(s: set<nat>, f: Field, m: set<nat>, parents: bool, n: nat) {
    && (forall k: nat | k < Size(f) :: k in s <==> RelatedBefore(f, m, parents, k, n))
    && (forall k: nat | k >= Size(f) :: k in s <==> k in m)
  }

  lemma ExpandedStart(f: Field, m: set<nat>, parents: bool)
    ensures ExpandedTo(m, f, m, parents, 0)
  {}

  lemma ExpandedEnd(s: set<nat>, f: Field, m: set<nat>, parents: bool)
    requires ExpandedTo(s, f, m, parents, Size(f))
    ensures forall k: nat | k < Size(f) :: k in s <==> Related(f, m, parents, k)
    ensures forall k: nat | k >= Size(f) :: k in s <==> k in m
  {
    forall k: nat | k < Size(f)
      ensures k in s <==> Related(f, m, parents, k)
    {
      WithinSelf(f, k);
    }
  }

  lemma SelectedStay(s: set<nat>, f: Field, m: set<nat>, parents: bool, i: nat)
    requires ExpandedTo(s, f, m, parents, i)
    ensures m <= s
  {
    forall k: nat
      ensures k in m ==> k in s
    {
      if k < Size(f) { assert k in s <==> RelatedBefore(f, m, parents, k, i); }
    }
  }

  /** No bit in [i, j). */
  lemma ExpandedSkip(s: set<nat>, f: Field, m: set<nat>, parents: bool, i: nat, j: nat)
    requires i <= j && ExpandedTo(s, f, m, parents, i) && forall k | i <= k < j && k < Size(f) :: k !in s
    ensures ExpandedTo(s, f, m, parents, j)
  {
    hide Within, Size;
    SelectedStay(s, f, m, parents, i);
    forall k: nat | k < Size(f)
      ensures RelatedBefore(f, m, parents, k, j) <==> RelatedBefore(f, m, parents, k, i)
    {
    }
  }

  /** One field whose bit is set: everything inside it and, if wanted, everything around it is
      added. */
  lemma ExpandedStep(s: set<nat>, t: set<nat>, f: Field, m: set<nat>, parents: bool, i: nat)
    requires WellNamed(f) && i < Size(f) && i in s && ExpandedTo(s, f, m, parents, i)
    requires forall k: nat :: k in t <==> k in s || (k < Size(f) && (Within(f, i, k) || (parents && Within(f, k, i))))
    ensures ExpandedTo(t, f, m, parents, i + 1)
  {
    hide Within, Size, RelatedBefore;
    if i !in m { Inherited(s, f, m, parents, i); }
    forall k: nat | k < Size(f)
      ensures k in t <==> RelatedBefore(f, m, parents, k, i + 1)
    {
      RelatedStep(f, m, parents, k, i);
    }
  }

  lemma RelatedStep(f: Field, m: set<nat>, parents: bool, k: nat, i: nat)
    requires k < Size(f) && i < Size(f)
    ensures RelatedBefore(f, m, parents, k, i + 1) <==>
      RelatedBefore(f, m, parents, k, i) || (i in m && (Within(f, i, k) || (parents && Within(f, k, i))))
  {
    hide Within, Size;
  }

  /** A field whose bit was added before is inside a selected field, so nothing new is added. */
  lemma Inherited(s: set<nat>, f: Field, m: set<nat>, parents: bool, i: nat)
    requires WellNamed(f) && i < Size(f) && i in s && i !in m && ExpandedTo(s, f, m, parents, i)
    ensures forall k: nat | k < Size(f) && (Within(f, i, k) || (parents && Within(f, k, i))) :: k in s
  {
    hide Within, Size;
    var a: nat :| a in m && a < i && a < Size(f) && (Within(f, a, i) || (parents && Within(f, i, a)));
    WithinOrder(f, i, a);
    forall k: nat | k < Size(f) && (Within(f, i, k) || (parents && Within(f, k, i)))
      ensures k in s
    {
      if Within(f, i, k) {
        WithinTransitive(f, a, i, k);
      } else {
        WithinOrder(f, k, i);
        Comparable(f, a, k, i);
      }
      assert RelatedBefore(f, m, parents, k, i);
    }
  }

  /** Two structures around the same field lie inside each other. */
  lemma Comparable(f: Field, a: nat, b: nat, k: nat)
    requires a < Size(f) && b < Size(f) && Within(f, a, k) && Within(f, b, k)
    ensures if a <= b then Within(f, a, b) else Within(f, b, a)
  {}

  /** expandBS. */
  method ExpandBS(top: Field, mask: BitSet, parents: bool)
    requires top.Structure? && WellNamed(top) && mask.Valid()
    modifies mask
    ensures mask.Valid()
    ensures forall k: nat | k < Size(top) :: k in mask.Bits() <==> Related(top, old(mask.Bits()), parents, k)
    ensures forall k: nat | k >= Size(top) :: k in mask.Bits() <==> k in old(mask.Bits())
  {
    hide Size, Within, BitSet.Bits, BitSet.Valid, Parent;
    ghost var m := mask.Bits();
    var n := Size(top);
    var whole := mask.Get(0);
    if whole {
      for idx := 1 to n
        invariant mask.Valid() && mask.Bits() == m + Span(1, idx)
      {
        mask.Set(idx);
      }
      AllRelated(top, m, parents);
      return;
    }
    var i := mask.NextSetBit(0);
    ghost var b: nat := if 0 <= i < n then i else n;
    ExpandedStart(top, m, parents);
    ExpandedSkip(m, top, m, parents, 0, b);
    while 0 <= i < n
      invariant mask.Valid() && b == if 0 <= i < n then i else n
      invariant 0 <= i ==> (i as nat) in mask.Bits()
      invariant ExpandedTo(mask.Bits(), top, m, parents, b)
      decreases n - b
    {
      ghost var s := mask.Bits();
      MarkInside(top, mask, i);
      if parents {
        MarkAround(top, mask, i);
      }
      ExpandedStep(s, mask.Bits(), top, m, parents, i);
      i := mask.NextSetBit(i + 1);
      ghost var b1 := b + 1;
      b := if 0 <= i < n then i else n;
      ExpandedSkip(mask.Bits(), top, m, parents, b1, b);
    }
    ExpandedEnd(mask.Bits(), top, m, parents);
  }

  lemma AllRelated(f: Field, m: set<nat>, parents: bool)
    requires 0 in m
    ensures forall k: nat | k < Size(f) :: Related(f, m, parents, k)
  {
    forall k: nat | k < Size(f)
      ensures Related(f, m, parents, k)
    {
      assert Within(f, 0, k);
    }
  }

  /** Marks all fields inside field `idx`. */
  method MarkInside(top: Field, mask: BitSet, idx: nat)
    requires mask.Valid() && idx < Size(top) && idx in mask.Bits()
    modifies mask
    ensures mask.Valid()
    ensures forall k: nat :: k in mask.Bits() <==> k in old(mask.Bits()) || (k < Size(top) && Within(top, idx, k))
  {
    NextBound(top, idx);
    for i := idx + 1 to Next(top, idx)
      invariant mask.Valid() && mask.Bits() == old(mask.Bits()) + Span(idx + 1, i)
    {
      mask.Set(i);
    }
  }

  /** Marks all structures around field `idx`. */
  method MarkAround(top: Field, mask: BitSet, idx: nat)
    requires WellNamed(top) && mask.Valid() && idx < Size(top) && idx in mask.Bits()
    modifies mask
    ensures mask.Valid()
    ensures forall k: nat :: k in mask.Bits() <==> k in old(mask.Bits()) || (k < Size(top) && Within(top, k, idx))
  {
    hide Parent, Within, Size, BitSet.Bits, BitSet.Valid;
    WithinSelf(top, idx);
    ghost var m := mask.Bits();
    var p := idx;
    forall k: nat | k < Size(top) && Within(top, k, idx)
      ensures k <= idx
    {
      WithinOrder(top, k, idx);
    }
    while p != 0
      invariant mask.Valid() && 0 <= p <= idx && Within(top, p, idx)
      invariant forall k: nat :: k in mask.Bits() <==> k in m || (p <= k < Size(top) && Within(top, k, idx))
    {
      var q := Parent(top, p);
      ParentAround(top, p, 0);
      WithinTransitive(top, q, p, idx);
      forall k: nat | q < k < p
        ensures !Within(top, k, idx)
      {
        ParentAround(top, p, k);
        if Within(top, k, idx) { WithinNested(top, k, p, idx); }
      }
      mask.Set(q);
      p := q;
    }
  }

  /** With parents, a leaf is in the expanded mask exactly if the mask stands for it, and a
      structure exactly if it is inside or around a selected field. */
  lemma LeafRelated(f: Field, m: set<nat>, l: nat)
    requires l < Size(f) && Size(NodeAt(f, l)) == 1
    ensures Related(f, m, true, l) <==> StandsFor(f, m, l)
  {
    forall a: nat | a < Size(f) && Within(f, l, a)
      ensures a == l && Within(f, a, l)
    {
      assert Next(f, l) == l + 1;
    }
    if Related(f, m, true, l) {
      var a: nat :| a in m && a < Size(f) && (Within(f, a, l) || Within(f, l, a));
      assert Within(f, a, l);
    }
  }
}
