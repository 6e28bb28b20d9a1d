/** The mapper is a lens between a base structure and its selected fields. */
module MapperLaws {
  import opened Fields
  import opened Values
  import opened BitSets
  import opened Selection
  import opened MapperTables
  import opened MapperCopy
  import opened RequestMapper
  import opened Limits

  lemma TransferLeaf(x: Field, y: Field, reached: set<nat>, src: seq<Value>, dst: seq<Value>, j: nat, k: nat)
    requires |src| == Size(x) && |dst| == Size(y) && j < Size(y) && k < Size(x) && Find(x, PathAt(y, j)) == Some(k)
    ensures Transfer(x, y, reached, src, dst)[j] == if !NodeAt(y, j).Structure? && k in reached then src[k] else dst[j]
  {}

  lemma PartnerInRequest(base: Field, req: Field, mask: set<nat>, r: nat)
    requires Matches(base, req, mask) && r < Size(req)
    ensures var b := Partner(req, base, r);
      && b < Size(base) && Find(base, PathAt(req, r)) == Some(b)
      && Find(req, PathAt(base, b)) == Some(r) && Partner(base, req, b) == r
      && NodeAt(req, r).Structure? == NodeAt(base, b).Structure?
      && (r in Requested(base, req, mask) <==> b in mask)
  {
    assert Linked(base, req, r);
    PartnerOfRequested(base, req, mask, r);
    FindPath(req, r);
    FindPath(base, Partner(req, base, r));
  }

  // ----- which leaves are written -----

  /** A leaf of the request is written exactly when it is selected and its own bit, or that of a
      structure around it, is in the base mask; it gets the value of the field with its name. */
  lemma GetWrites(base: Field, req: Field, mask: set<nat>, m: set<nat>, basev: seq<Value>, reqv: seq<Value>, r: nat)
    requires Matches(base, req, mask) && |basev| == Size(base) && |reqv| == Size(req) && r < Size(req)
    ensures var b := Partner(req, base, r);
      && b < Size(base) && PathAt(base, b) == PathAt(req, r)
      && Get(base, req, mask, m, basev, reqv)[r] ==
         if !NodeAt(req, r).Structure? && b in mask && Touched(base, m, b) then basev[b] else reqv[r]
  {
    hide Touched, Transfer;
    PartnerInRequest(base, req, mask, r);
    PartnerOfRequested(base, req, mask, r);
    TransferLeaf(base, req, Reached(base, mask, m, Size(base)), basev, reqv, r, Partner(req, base, r));
  }

  /** A leaf of the base is written exactly when it is selected and its own bit, or that of a
      structure around it, is in the request mask. */
  lemma PutWrites(base: Field, req: Field, mask: set<nat>, m: set<nat>, reqv: seq<Value>, basev: seq<Value>, b: nat)
    requires Matches(base, req, mask) && |basev| == Size(base) && |reqv| == Size(req) && b in mask
    ensures var r := Partner(base, req, b);
      && r < Size(req) && PathAt(base, b) == PathAt(req, r)
      && Put(base, req, mask, m, reqv, basev)[b] ==
         if !NodeAt(base, b).Structure? && Touched(req, m, r) then reqv[r] else basev[b]
  {
    hide Touched, Transfer;
    var r := Partner(base, req, b);
    PartnerOfBase(base, req, mask, b);
    PartnerInRequest(base, req, mask, r);
    TransferLeaf(req, base, Reached(req, Requested(base, req, mask), m, Size(req)), reqv, basev, b, r);
  }

  /** Fields of the base that are not selected never change, whatever the request mask. */
  lemma PutKeepsUnselected(base: Field, req: Field, mask: set<nat>, m: set<nat>, reqv: seq<Value>, basev: seq<Value>, b: nat)
    requires Matches(base, req, mask) && |basev| == Size(base) && |reqv| == Size(req) && b < Size(base) && b !in mask
    ensures Put(base, req, mask, m, reqv, basev)[b] == basev[b]
  {
    hide Touched;
    var found := Find(req, PathAt(base, b));
    if found.Some? {
      PathFind(req, PathAt(base, b));
      FindPath(base, b);
      assert Partner(req, base, found.value) == b;
    }
  }

  // ----- lens laws -----

  lemma TopTouches(x: Field, k: nat)
    requires k < Size(x)
    ensures Touched(x, {0}, k)
  {
    assert 0 in {0} && Within(x, 0, k);
  }

  /** Put with everything, then get with everything: every selected leaf of the request comes back, into
      any instance. */
  lemma PutGetWhole(base: Field, req: Field, mask: set<nat>, reqv: seq<Value>, basev: seq<Value>, other: seq<Value>, r: nat)
    requires Matches(base, req, mask) && |basev| == Size(base) && |reqv| == |other| == Size(req)
    requires r in Requested(base, req, mask) && !NodeAt(req, r).Structure?
    ensures Get(base, req, mask, {0}, Put(base, req, mask, {0}, reqv, basev), other)[r] == reqv[r]
  {
    hide Touched, Get, Put, Find, PathAt, NodeAt;
    var b := Partner(req, base, r);
    PartnerInRequest(base, req, mask, r);
    GetWrites(base, req, mask, {0}, Put(base, req, mask, {0}, reqv, basev), other, r);
    PutWrites(base, req, mask, {0}, reqv, basev, b);
    TopTouches(base, b);
    TopTouches(req, r);
  }

  /** The base mask that stands for what request mask `m` selects. */
  lemma TranslatedBackTouches(base: Field, req: Field, mask: set<nat>, m: set<nat>, b: nat)
    requires Matches(base, req, mask) && b in mask
    ensures Partner(base, req, b) < Size(req)
    ensures Touched(base, TranslatedBack(base, req, mask, m), b) <==> Touched(req, m, Partner(base, req, b))
  {
    hide Find, PathAt, NodeAt, Partner, Within, Size;
    var r, t := Partner(base, req, b), TranslatedBack(base, req, mask, m);
    PartnerOfBase(base, req, mask, b);
    if Touched(req, m, r) {
      assert r in Reached(req, Requested(base, req, mask), m, Size(req));
      assert b in t;
      WithinSelf(base, b);
    }
    if Touched(base, t, b) {
      var a :| 0 <= a <= b && a in t && Within(base, a, b);
      var q :| q in Reached(req, Requested(base, req, mask), m, Size(req)) && Partner(req, base, q) == a;
      PartnersNest(base, req, mask, q, r);
      var c :| 0 <= c <= q && c in m && Within(req, c, q);
      WithinTransitive(req, c, q, r);
      WithinOrder(req, c, r);
    }
  }

  /** Put under any request mask, then get under the mask translated back: the leaves that the request mask
      stands for come back, into any instance, and the other ones are not written. */
  lemma PutGet(base: Field, req: Field, mask: set<nat>, m: set<nat>, reqv: seq<Value>, basev: seq<Value>, other: seq<Value>, r: nat)
    requires Matches(base, req, mask) && |basev| == Size(base) && |reqv| == |other| == Size(req) && r < Size(req)
    ensures Get(base, req, mask, TranslatedBack(base, req, mask, m), Put(base, req, mask, m, reqv, basev), other)[r] ==
      if r in Requested(base, req, mask) && !NodeAt(req, r).Structure? && Touched(req, m, r) then reqv[r] else other[r]
  {
    hide Touched, Get, Put, Find, PathAt, NodeAt, TranslatedBack;
    var b, t := Partner(req, base, r), TranslatedBack(base, req, mask, m);
    PartnerInRequest(base, req, mask, r);
    GetWrites(base, req, mask, t, Put(base, req, mask, m, reqv, basev), other, r);
    if b in mask {
      PutWrites(base, req, mask, m, reqv, basev, b);
      TranslatedBackTouches(base, req, mask, m, b);
    }
  }

  /** The request mask that stands for what base mask `m` selects. */
  lemma TranslatedTouches(base: Field, req: Field, mask: set<nat>, m: set<nat>, r: nat)
    requires Matches(base, req, mask) && r in Requested(base, req, mask)
    ensures Partner(req, base, r) < Size(base)
    ensures Touched(req, Translated(base, req, mask, m), r) <==> Touched(base, m, Partner(req, base, r))
    ensures r in Translated(base, req, mask, m) <==> Touched(base, m, Partner(req, base, r))
  {
    hide Find, PathAt, NodeAt, Partner, Within, Size;
    var b := Partner(req, base, r);
    var t := Translated(base, req, mask, m);
    PartnerInRequest(base, req, mask, r);
    if Touched(base, m, b) {
      assert b in Reached(base, mask, m, Size(base));
      assert r in t;
      WithinSelf(req, r);
    }
    if r in t {
      var a :| a in Reached(base, mask, m, Size(base)) && Partner(base, req, a) == r;
      PartnerOfBase(base, req, mask, a);
    }
    if Touched(req, t, r) {
      var q :| 0 <= q <= r && q in t && Within(req, q, r);
      var a :| a in Reached(base, mask, m, Size(base)) && Partner(base, req, a) == q;
      PartnerOfBase(base, req, mask, a);
      PartnersNest(base, req, mask, q, r);
      var c :| 0 <= c <= a && c in m && Within(base, c, a);
      WithinTransitive(base, c, a, b);
      WithinOrder(base, c, b);
    }
  }

  /** Get, then put under the translated mask: the base does not change.  With mask {0} this is
      the second lens law. */
  lemma GetPut(base: Field, req: Field, mask: set<nat>, m: set<nat>, basev: seq<Value>, reqv: seq<Value>)
    requires Matches(base, req, mask) && |basev| == Size(base) && |reqv| == Size(req)
    ensures Put(base, req, mask, Translated(base, req, mask, m), Get(base, req, mask, m, basev, reqv), basev) == basev
  {
    hide Touched, Get, Put, Find, PathAt, NodeAt, Translated, Requested;
    var got, t := Get(base, req, mask, m, basev, reqv), Translated(base, req, mask, m);
    forall b | 0 <= b < Size(base)
      ensures Put(base, req, mask, t, got, basev)[b] == basev[b]
    {
      if b in mask {
        PutWrites(base, req, mask, t, got, basev, b);
        var r := Partner(base, req, b);
        PartnerOfBase(base, req, mask, b);
        PartnerInRequest(base, req, mask, r);
        GetWrites(base, req, mask, m, basev, reqv, r);
        TranslatedTouches(base, req, mask, m, r);
      } else {
        PutKeepsUnselected(base, req, mask, t, got, basev, b);
      }
    }
  }

  /** What was put can be got: the get under the mask translated back is refused exactly if the put was. */
  lemma PutGetAccepted(base: Field, req: Field, mask: set<nat>, m: set<nat>, reqv: seq<Value>, basev: seq<Value>)
    requires Matches(base, req, mask) && |basev| == Size(base) && |reqv| == Size(req)
    ensures PutAccepted(base, req, mask, m, reqv) <==>
      GetAccepted(base, req, mask, TranslatedBack(base, req, mask, m), Put(base, req, mask, m, reqv, basev))
  {
    hide Touched, Put, Find, PathAt, NodeAt, Partner, Fits, LeafFits, TranslatedBack;
    var all, t, put := Requested(base, req, mask), TranslatedBack(base, req, mask, m), Put(base, req, mask, m, reqv, basev);
    forall r | r in all
      ensures Partner(req, base, r) in mask && (Touched(base, t, Partner(req, base, r)) <==> Touched(req, m, r))
      ensures Touched(req, m, r) ==> (LeafFits(req, reqv, r) <==> LeafFits(base, put, Partner(req, base, r)))
    {
      PutLeaf(base, req, mask, m, reqv, basev, r);
    }
    forall b | b in mask
      ensures Partner(base, req, b) in all && (Touched(base, t, b) <==> Touched(req, m, Partner(base, req, b)))
      ensures Touched(req, m, Partner(base, req, b)) ==> (LeafFits(req, reqv, Partner(base, req, b)) <==> LeafFits(base, put, b))
    {
      PartnerOfBase(base, req, mask, b);
      PutLeaf(base, req, mask, m, reqv, basev, Partner(base, req, b));
    }
  }

  lemma PutLeaf(base: Field, req: Field, mask: set<nat>, m: set<nat>, reqv: seq<Value>, basev: seq<Value>, r: nat)
    requires Matches(base, req, mask) && |basev| == Size(base) && |reqv| == Size(req) && r in Requested(base, req, mask)
    ensures var b := Partner(req, base, r);
      && b in mask && (Touched(base, TranslatedBack(base, req, mask, m), b) <==> Touched(req, m, r))
      && (Touched(req, m, r) ==> (LeafFits(req, reqv, r) <==> LeafFits(base, Put(base, req, mask, m, reqv, basev), b)))
  {
    hide Touched, Put, Find, PathAt, Partner, Fits, TranslatedBack;
    var b := Partner(req, base, r);
    PartnerInRequest(base, req, mask, r);
    PutWrites(base, req, mask, m, reqv, basev, b);
    TranslatedBackTouches(base, req, mask, m, b);
    PartnerOfRequested(base, req, mask, r);
  }

  /** The same with everything. */
  lemma PutGetWholeAccepted(base: Field, req: Field, mask: set<nat>, reqv: seq<Value>, basev: seq<Value>)
    requires Matches(base, req, mask) && |basev| == Size(base) && |reqv| == Size(req)
    ensures PutAccepted(base, req, mask, {0}, reqv) <==> GetAccepted(base, req, mask, {0}, Put(base, req, mask, {0}, reqv, basev))
  {
    hide Touched, Put, Find, PathAt, NodeAt, Partner, Fits, LeafFits, TranslatedBack;
    PutGetAccepted(base, req, mask, {0}, reqv, basev);
    forall b | b in mask
      ensures Touched(base, {0}, b) && Touched(base, TranslatedBack(base, req, mask, {0}), b)
    {
      PartnerOfBase(base, req, mask, b);
      TranslatedBackTouches(base, req, mask, {0}, b);
      TopTouches(base, b);
      TopTouches(req, Partner(base, req, b));
    }
  }

  /** What was got can be put back: the put under the translated mask is refused exactly if the get was. */
  lemma GetPutAccepted(base: Field, req: Field, mask: set<nat>, m: set<nat>, basev: seq<Value>, reqv: seq<Value>)
    requires Matches(base, req, mask) && |basev| == Size(base) && |reqv| == Size(req)
    ensures GetAccepted(base, req, mask, m, basev) <==>
      PutAccepted(base, req, mask, Translated(base, req, mask, m), Get(base, req, mask, m, basev, reqv))
  {
    hide Touched, Get, Find, PathAt, NodeAt, Partner, Fits, LeafFits, Translated;
    var all, t, got := Requested(base, req, mask), Translated(base, req, mask, m), Get(base, req, mask, m, basev, reqv);
    forall r | r in all
      ensures Partner(req, base, r) in mask && (Touched(req, t, r) <==> Touched(base, m, Partner(req, base, r)))
      ensures Touched(req, t, r) ==> (LeafFits(req, got, r) <==> LeafFits(base, basev, Partner(req, base, r)))
    {
      GotLeaf(base, req, mask, m, basev, reqv, r);
    }
    forall b | b in mask
      ensures Partner(base, req, b) in all && (Touched(req, t, Partner(base, req, b)) <==> Touched(base, m, b))
      ensures Touched(base, m, b) ==> (LeafFits(req, got, Partner(base, req, b)) <==> LeafFits(base, basev, b))
    {
      PartnerOfBase(base, req, mask, b);
      GotLeaf(base, req, mask, m, basev, reqv, Partner(base, req, b));
    }
  }

  lemma GotLeaf(base: Field, req: Field, mask: set<nat>, m: set<nat>, basev: seq<Value>, reqv: seq<Value>, r: nat)
    requires Matches(base, req, mask) && |basev| == Size(base) && |reqv| == Size(req) && r in Requested(base, req, mask)
    ensures var b := Partner(req, base, r);
      && b in mask && (Touched(req, Translated(base, req, mask, m), r) <==> Touched(base, m, b))
      && (Touched(base, m, b) ==> (LeafFits(req, Get(base, req, mask, m, basev, reqv), r) <==> LeafFits(base, basev, b)))
  {
    hide Touched, Get, Find, PathAt, Partner, Fits, Translated;
    PartnerInRequest(base, req, mask, r);
    TranslatedTouches(base, req, mask, m, r);
    GetWrites(base, req, mask, m, basev, reqv, r);
    PartnerOfRequested(base, req, mask, r);
  }

  /** The translation of the mask {0} is the set of all selected fields, and it copies what {0}
      copies. */
  lemma TopMask(base: Field, req: Field, mask: set<nat>, reqv: seq<Value>, basev: seq<Value>)
    requires Matches(base, req, mask) && |basev| == Size(base) && |reqv| == Size(req)
    ensures Translated(base, req, mask, {0}) == Requested(base, req, mask)
    ensures Put(base, req, mask, Requested(base, req, mask), reqv, basev) == Put(base, req, mask, {0}, reqv, basev)
  {
    hide Touched, Find, PathAt, NodeAt, Partner;
    var all := Requested(base, req, mask);
    forall r | r in all
      ensures r in Translated(base, req, mask, {0})
      ensures Touched(req, all, r) && Touched(req, {0}, r)
    {
      PartnerInRequest(base, req, mask, r);
      TopTouches(base, Partner(req, base, r));
      TranslatedTouches(base, req, mask, {0}, r);
      TopTouches(req, r);
      OwnBit(req, all, r);
    }
    forall r | r in Translated(base, req, mask, {0})
      ensures r in all
    {
      var b :| b in Reached(base, mask, {0}, Size(base)) && Partner(base, req, b) == r;
      PartnerOfBase(base, req, mask, b);
    }
    assert Reached(req, all, all, Size(req)) == Reached(req, all, {0}, Size(req));
  }

  lemma OwnBit(x: Field, m: set<nat>, k: nat)
    requires k < Size(x) && k in m
    ensures Touched(x, m, k)
  {
    assert Within(x, k, k);
  }

  /** The last put wins. */
  lemma PutPut(base: Field, req: Field, mask: set<nat>, m: set<nat>, first: seq<Value>, second: seq<Value>, basev: seq<Value>)
    requires Matches(base, req, mask) && |basev| == Size(base) && |first| == |second| == Size(req)
    ensures Put(base, req, mask, m, second, Put(base, req, mask, m, first, basev)) == Put(base, req, mask, m, second, basev)
  {}

  // ----- masks -----

  /** Translating a mask to the request and back gives the selected fields that it reaches. */
  lemma MaskRoundTrip(base: Field, req: Field, mask: set<nat>, m: set<nat>)
    requires Matches(base, req, mask)
    ensures TranslatedBack(base, req, mask, Translated(base, req, mask, m)) == Reached(base, mask, m, Size(base))
  {
    hide Touched, Find, PathAt, NodeAt, Partner;
    var t := Translated(base, req, mask, m);
    var back := Reached(req, Requested(base, req, mask), t, Size(req));
    forall b | b in Reached(base, mask, m, Size(base))
      ensures b in Partners(req, base, back)
    {
      PartnerOfBase(base, req, mask, b);
      TranslatedTouches(base, req, mask, m, Partner(base, req, b));
      assert Partner(base, req, b) in back;
    }
    forall b | b in Partners(req, base, back)
      ensures b in Reached(base, mask, m, Size(base))
    {
      var r :| r in back && Partner(req, base, r) == b;
      PartnerInRequest(base, req, mask, r);
      TranslatedTouches(base, req, mask, m, r);
    }
  }

  /** A copy to the request does nothing, and sets no bit, exactly when the base mask has no bit
      in common with the requested mask. */
  lemma NoOpIffDisjoint(base: Field, req: Field, mask: set<nat>, m: set<nat>, basev: seq<Value>, reqv: seq<Value>)
    requires Matches(base, req, mask) && |basev| == Size(base) && |reqv| == Size(req)
    ensures Translated(base, req, mask, m) == {} <==> m * mask == {}
    ensures m * mask == {} ==> GetAccepted(base, req, mask, m, basev) && Get(base, req, mask, m, basev, reqv) == reqv
  {
    var reached := Reached(base, mask, m, Size(base));
    if m * mask == {} {
      forall k | k in mask
        ensures !Touched(base, m, k)
      {
        assert forall a | 0 <= a <= k && a in m && Within(base, a, k) :: a in mask && a in m * mask;
      }
      assert reached == {};
    } else {
      var k :| k in m * mask;
      OwnBit(base, m, k);
      assert k in reached;
      assert Partner(base, req, k) in Partners(base, req, reached);
    }
  }

  // ----- the two modes -----

  /** In Mask mode the partner of a field is the field itself, so masks translate by
      restriction to the selected fields. */
  lemma MaskModePartner(base: Field, mask: set<nat>, k: nat)
    requires Matches(base, base, mask) && k < Size(base)
    ensures Partner(base, base, k) == k
  {
    FindPath(base, k);
  }

  lemma MaskModeRequested(base: Field, mask: set<nat>)
    requires Matches(base, base, mask)
    ensures Requested(base, base, mask) == mask
  {
    forall k: nat | k < Size(base)
      ensures Partner(base, base, k) == k
    {
      MaskModePartner(base, mask, k);
    }
  }

  /** In Slice mode every field of the request has a partner that is selected, even though the
      fields of the request come in the order of the pvRequest. */
  lemma SliceModeRequested(base: Field, rs: seq<Member>, keepids: bool)
    requires base.Structure? && WellNamed(base) && WellNamedAll(rs)
    ensures var req := RequestedType(base, rs, keepids, SliceMode);
      Requested(base, req, SelectedMask(base, rs)) == Span(0, Size(req))
  {
    var req := RequestedType(base, rs, keepids, SliceMode);
    forall r: nat | r < Size(req)
      ensures Partner(req, base, r) in SelectedMask(base, rs)
    {
      SliceIsTotal(base, rs, keepids, r);
    }
  }
}
