/** BitSetUtil::compress rewrites a change mask to a shorter one that stands for the same
    fields.  A set bit of a structure stands for the whole structure. */
module Compress {
  import opened Fields
  import opened BitSets

  /** Set `b` is `c` inside [lo, hi) and `m` outside. */
  ghost predicate Merged(b: set<nat>, m: set<nat>, lo: nat, hi: nat, c: set<nat>) {
    forall k: nat :: k in b <==> if lo <= k < hi then k in c else k in m
  }

  // ----- what a mask stands for -----

  /** Offsets of the fields without subfields, in a tree numbered from `o`. */
  function Leaves(f: Field, o: nat): set<nat>
    decreases f, 0
  {
    if Size(f) == 1 then {o} else LeavesAll(f.members, o + 1)
  }

  function LeavesAll(ms: seq<Member>, o: nat): set<nat>
    decreases ms, 0
  {
    if ms == [] then {} else Leaves(ms[0].field, o) + LeavesAll(ms[1..], o + Size(ms[0].field))
  }

  /** The leaves that mask `m` stands for: those that are set, or inside a structure that is. */
  function Cover(f: Field, o: nat, m: set<nat>): set<nat>
    decreases f, 0
  {
    if o in m then Leaves(f, o)
    else if Size(f) == 1 then {}
    else CoverAll(f.members, o + 1, m)
  }

  function CoverAll(ms: seq<Member>, o: nat, m: set<nat>): set<nat>
    decreases ms, 0
  {
    if ms == [] then {} else Cover(ms[0].field, o, m) + CoverAll(ms[1..], o + Size(ms[0].field), m)
  }

  // ----- what compress computes -----

  function Canon(f: Field, o: nat, m: set<nat>): set<nat>
    decreases f, 0
  {
    if o in m then {o}
    else if Size(f) == 1 then {}
    else if FullAll(f.members, o + 1, m) then {o}
    else CanonAll(f.members, o + 1, m)
  }

  function CanonAll(ms: seq<Member>, o: nat, m: set<nat>): set<nat>
    decreases ms, 0
  {
    if ms == [] then {} else Canon(ms[0].field, o, m) + CanonAll(ms[1..], o + Size(ms[0].field), m)
  }

  /** The bit of every member is set after the members have been compressed. */
  predicate FullAll(ms: seq<Member>, o: nat, m: set<nat>)
    decreases ms, 0
  {
    ms == [] || (o in Canon(ms[0].field, o, m) && FullAll(ms[1..], o + Size(ms[0].field), m))
  }

  // ----- bounds and locality -----

  lemma {:induction false} Bounds(f: Field, o: nat, m: set<nat>)
    ensures forall k | k in Canon(f, o, m) :: o <= k < o + Size(f)
    ensures forall k | k in Leaves(f, o) :: o <= k < o + Size(f)
    ensures Leaves(f, o) != {}
    ensures Cover(f, o, m) <= Leaves(f, o)
    decreases f, 0
  {
    if Size(f) > 1 { BoundsAll(f.members, o + 1, m); }
  }

  lemma {:induction false} BoundsAll(ms: seq<Member>, o: nat, m: set<nat>)
    ensures forall k | k in CanonAll(ms, o, m) :: o <= k < o + SizeAll(ms)
    ensures forall k | k in LeavesAll(ms, o) :: o <= k < o + SizeAll(ms)
    ensures SizeAll(ms) > 0 ==> LeavesAll(ms, o) != {}
    ensures CoverAll(ms, o, m) <= LeavesAll(ms, o)
    decreases ms, 0
  {
    if ms != [] {
      Bounds(ms[0].field, o, m);
      BoundsAll(ms[1..], o + Size(ms[0].field), m);
    }
  }

  ghost predicate Agree(m: set<nat>, q: set<nat>, lo: nat, hi: nat) {
    forall k | lo <= k < hi :: k in m <==> k in q
  }

  /** Only the bits inside the tree matter. */
  lemma {:induction false} Local(f: Field, o: nat, m: set<nat>, q: set<nat>)
    requires Agree(m, q, o, o + Size(f))
    ensures Canon(f, o, m) == Canon(f, o, q) && Cover(f, o, m) == Cover(f, o, q)
    decreases f, 0
  {
    if Size(f) > 1 { LocalAll(f.members, o + 1, m, q); }
  }

  lemma {:induction false} LocalAll(ms: seq<Member>, o: nat, m: set<nat>, q: set<nat>)
    requires Agree(m, q, o, o + SizeAll(ms))
    ensures CanonAll(ms, o, m) == CanonAll(ms, o, q) && CoverAll(ms, o, m) == CoverAll(ms, o, q)
    ensures FullAll(ms, o, m) == FullAll(ms, o, q)
    decreases ms, 0
  {
    if ms != [] {
      Local(ms[0].field, o, m, q);
      LocalAll(ms[1..], o + Size(ms[0].field), m, q);
    }
  }

  lemma {:induction false} EmptyCanon(f: Field, o: nat, m: set<nat>)
    requires Agree(m, {}, o, o + Size(f))
    ensures Canon(f, o, m) == {}
    decreases f, 0
  {
    if Size(f) > 1 { EmptyCanonAll(f.members, o + 1, m); }
  }

  lemma {:induction false} EmptyCanonAll(ms: seq<Member>, o: nat, m: set<nat>)
    requires Agree(m, {}, o, o + SizeAll(ms))
    ensures CanonAll(ms, o, m) == {}
    ensures ms != [] ==> !FullAll(ms, o, m)
    decreases ms, 0
  {
    if ms != [] {
      EmptyCanon(ms[0].field, o, m);
      EmptyCanonAll(ms[1..], o + Size(ms[0].field), m);
    }
  }

  // ----- the algorithm -----

  /** One member further in the walk over the members of a structure. */
  lemma Step(f: Field, o: nat, i: nat, m: set<nat>)
    requires f.Structure? && i < |f.members|
    ensures var ms := f.members;
      var offset := o + 1 + SizeAll(ms[..i]);
      && SizeAll(ms[..i]) + 1 < Size(f)
      && NodeAt(f, SizeAll(ms[..i]) + 1) == ms[i].field
      && SizeAll(ms[..i + 1]) == SizeAll(ms[..i]) + Size(ms[i].field)
      && offset + Size(ms[i].field) <= o + Size(f)
      && CanonAll(ms[i..], offset, m) ==
         Canon(ms[i].field, offset, m) + CanonAll(ms[i + 1..], offset + Size(ms[i].field), m)
      && (FullAll(ms[i..], offset, m) <==>
          offset in Canon(ms[i].field, offset, m) && FullAll(ms[i + 1..], offset + Size(ms[i].field), m))
  {
    MemberStart(f.members, i);
    PrefixSize(f.members, i);
    NodeSizeIn(f.members, SizeAll(f.members[..i]));
    assert f.members[i..][1..] == f.members[i + 1..];
  }

  lemma Ends(f: Field, o: nat, m: set<nat>)
    requires f.Structure?
    ensures var ms := f.members;
      && Size(f) == 1 + SizeAll(ms[..|ms|])
      && SizeAll(ms[..0]) == 0 && ms[0..] == ms
      && CanonAll(ms[|ms|..], o, m) == {} && FullAll(ms[|ms|..], o, m)
  {
    assert f.members[..|f.members|] == f.members;
  }

  /** The value of Canon in each branch of the algorithm. */
  lemma Branches(f: Field, o: nat, m: set<nat>)
    ensures Size(f) == 1 ==> Canon(f, o, m) == if o in m then {o} else {}
    ensures Size(f) > 1 ==> f.Structure? && f.members != []
    ensures o in m ==> Canon(f, o, m) == {o}
    ensures Size(f) > 1 && o !in m ==>
      Canon(f, o, m) == if FullAll(f.members, o + 1, m) then {o} else CanonAll(f.members, o + 1, m)
    ensures Size(f) > 1 && FullAll(f.members, o + 1, m) ==> CanonAll(f.members, o + 1, m) != {}
  {
    assert Size(f) > 1 ==> SizeAll(f.members) > 0;
    if Size(f) > 1 && FullAll(f.members, o + 1, m) {
      assert o + 1 in Canon(f.members[0].field, o + 1, m);
    }
  }

  method ClearRange(bitSet: BitSet, lo: nat, hi: nat)
    requires bitSet.Valid() && lo <= hi
    modifies bitSet
    ensures bitSet.Valid() && Merged(bitSet.Bits(), old(bitSet.Bits()), lo, hi, {})
  {
    for i := lo to hi
      invariant bitSet.Valid() && Merged(bitSet.Bits(), old(bitSet.Bits()), lo, i, {})
    {
      bitSet.Clear(i);
    }
  }

  /** Compresses the bits of the subtree `f`, which is numbered from `initialOffset`.
      The result tells whether any bit of the subtree is set. */
  method CheckBitSetPVField(f: Field, bitSet: BitSet, initialOffset: nat) returns (r: bool)
    requires bitSet.Valid()
    modifies bitSet
    ensures bitSet.Valid()
    ensures Merged(bitSet.Bits(), old(bitSet.Bits()), initialOffset, initialOffset + Size(f),
                   Canon(f, initialOffset, old(bitSet.Bits())))
    ensures r <==> Canon(f, initialOffset, old(bitSet.Bits())) != {}
    decreases f, 0
  {
    hide BitSet.Bits, BitSet.Valid, Canon, CanonAll, FullAll, Size, SizeAll, NodeAt;
    ghost var m := bitSet.Bits();
    Branches(f, initialOffset, m);
    Bounds(f, initialOffset, m);
    var offset := initialOffset;
    var nbits := Size(f);
    if nbits == 1 {
      r := bitSet.Get(offset);
      return;
    }
    var nextSetBit := bitSet.NextSetBit(offset);
    if nextSetBit >= offset + nbits || nextSetBit < 0 {
      EmptyCanon(f, offset, m);
      return false;
    }
    var own := bitSet.Get(offset);
    if own {
      ClearRange(bitSet, offset + 1, offset + nbits);
      return true;
    }

    var atLeastOneBitSet := false;
    var allBitsSet := true;
    offset := initialOffset + 1;
    ghost var ms := f.members;
    ghost var i := 0;
    ghost var done: set<nat> := {};
    Ends(f, initialOffset + nbits, m);
    while offset < initialOffset + nbits
      invariant bitSet.Valid()
      invariant 0 <= i <= |ms| && offset == initialOffset + 1 + SizeAll(ms[..i])
      invariant forall k | k in done :: initialOffset < k < offset
      invariant Merged(bitSet.Bits(), m, initialOffset + 1, offset, done)
      invariant done + CanonAll(ms[i..], offset, m) == CanonAll(ms, initialOffset + 1, m)
      invariant atLeastOneBitSet <==> done != {}
      invariant FullAll(ms, initialOffset + 1, m) <==> allBitsSet && FullAll(ms[i..], offset, m)
      decreases initialOffset + nbits - offset
    {
      Step(f, initialOffset, i, m);
      var sub := NodeAt(f, offset - initialOffset);
      var nbitsNow := Size(sub);
      ghost var before := bitSet.Bits();
      Local(sub, offset, before, m);
      Bounds(sub, offset, m);
      Branches(sub, offset, m);
      var result, b := CheckMember(sub, bitSet, offset);
      if result {
        atLeastOneBitSet := true;
      }
      if !b {
        allBitsSet := false;
      }
      done := done + Canon(sub, offset, m);
      offset := offset + nbitsNow;
      i := i + 1;
    }
    if i < |ms| { Step(f, initialOffset, i, m); }
    if allBitsSet {
      ClearRange(bitSet, initialOffset + 1, initialOffset + nbits);
      bitSet.Set(initialOffset);
    }
    return atLeastOneBitSet;
  }

  /** What the loop does with one subfield: whether any of its bits is set afterwards, and
      whether its own bit is. */
  method CheckMember(sub: Field, bitSet: BitSet, offset: nat) returns (result: bool, b: bool)
    requires bitSet.Valid()
    modifies bitSet
    ensures bitSet.Valid()
    ensures Merged(bitSet.Bits(), old(bitSet.Bits()), offset, offset + Size(sub), Canon(sub, offset, old(bitSet.Bits())))
    ensures result <==> Canon(sub, offset, old(bitSet.Bits())) != {}
    ensures b <==> offset in Canon(sub, offset, old(bitSet.Bits()))
    decreases sub, 1
  {
    hide BitSet.Bits, BitSet.Valid, Canon, Size;
    Branches(sub, offset, bitSet.Bits());
    if Size(sub) == 1 {
      b := bitSet.Get(offset);
      result := b;
    } else {
      result := CheckBitSetPVField(sub, bitSet, offset);
      b := false;
      if result {
        b := bitSet.Get(offset);
      }
    }
  }
}
