/** Linking raise sites to the innermost subprogram body around them. */
module RaiseLinking {
  import opened Common

  datatype Span = Span(startByte: nat, endByte: nat)

  datatype Subprogram = Subprogram(body: Option<Span>, raises: seq<nat>)

  datatype RaiseSite = RaiseSite(id: nat, span: Span)

  predicate Contains(span: Span, byte: nat) {
    span.startByte <= byte < span.endByte
  }

  predicate BodyContains(s: Subprogram, byte: nat) {
    s.body.Some? && Contains(s.body.value, byte)
  }

  /** `end.saturating_sub(start)`. */
  function Length(span: Span): nat {
    if span.endByte > span.startByte then span.endByte - span.startByte else 0
  }

  /** The first of the shortest bodies around the byte, among the first `n` subprograms. */
  function Innermost(subs: seq<Subprogram>, byte: nat, n: nat): (r: Option<nat>)
    requires n <= |subs|
    ensures r.Some? ==> r.value < n && BodyContains(subs[r.value], byte)
  {
    if n == 0 then None
    else
      var best := Innermost(subs, byte, n - 1);
      var s := subs[n - 1];
      if !BodyContains(s, byte) then best
      else if best.Some? && Length(subs[best.value].body.value) <= Length(s.body.value) then best
      else Some(n - 1)
  }

  function OwnerOf(subs: seq<Subprogram>, r: RaiseSite): Option<nat> {
    Innermost(subs, r.span.startByte, |subs|)
  }

  /** The ids of the raises that belong to subprogram `i`, in order. */
  function Owned(subs: seq<Subprogram>, raises: seq<RaiseSite>, i: nat): seq<nat> {
    if raises == [] then []
    else
      var r := raises[|raises| - 1];
      Owned(subs, raises[..|raises| - 1], i) + if OwnerOf(subs, r) == Some(i) then [r.id] else []
  }

  /** Same bodies, whatever raises are linked. */
  ghost predicate SameBodies(xs: seq<Subprogram>, ys: seq<Subprogram>) {
    |xs| == |ys| && forall i | 0 <= i < |xs| :: xs[i].body == ys[i].body
  }

  lemma {:induction false} BodiesDecideOwner(xs: seq<Subprogram>, ys: seq<Subprogram>, byte: nat, n: nat)
    requires SameBodies(xs, ys) && n <= |xs|
    ensures Innermost(xs, byte, n) == Innermost(ys, byte, n)
  {
    if n > 0 {
      BodiesDecideOwner(xs, ys, byte, n - 1);
    }
  }

  /** What one more raise adds to what subprogram `i` owns. */
  lemma OwnedMore(subs: seq<Subprogram>, raises: seq<RaiseSite>, k: nat, i: nat)
    requires k < |raises|
    ensures Owned(subs, raises[..k + 1], i)
         == Owned(subs, raises[..k], i) + if OwnerOf(subs, raises[k]) == Some(i) then [raises[k].id] else []
  {
    assert raises[..k + 1][..k] == raises[..k];
  }

  method LinkSubprogramRaises(subprograms: array<Subprogram>, raises: seq<RaiseSite>)
    modifies subprograms
    ensures forall i | 0 <= i < subprograms.Length ::
              subprograms[i] == old(subprograms[i]).(raises := old(subprograms[i]).raises + Owned(old(subprograms[..]), raises, i))
  {
    ghost var subs := subprograms[..];
    for k := 0 to |raises|
      invariant forall i | 0 <= i < subprograms.Length ::
                  subprograms[i] == subs[i].(raises := subs[i].raises + Owned(subs, raises[..k], i))
    {
      BodiesDecideOwner(subs, subprograms[..], raises[k].span.startByte, |subs|);
      forall i | 0 <= i < subprograms.Length
        ensures Owned(subs, raises[..k + 1], i)
             == Owned(subs, raises[..k], i) + if OwnerOf(subs, raises[k]) == Some(i) then [raises[k].id] else []
      {
        OwnedMore(subs, raises, k, i);
      }
      var owner := OwnerOf(subprograms[..], raises[k]);
      if owner.Some? {
        var s := subprograms[owner.value];
        subprograms[owner.value] := s.(raises := s.raises + [raises[k].id]);
      }
    }
    assert raises[..|raises|] == raises;
  }

  // --------------------------------------------------------------- properties

  /** There is an owner exactly when some body contains the byte; no body around the byte is shorter. */
  lemma {:induction false} InnermostIsShortest(subs: seq<Subprogram>, byte: nat, n: nat, j: nat)
    requires n <= |subs| && j < n && BodyContains(subs[j], byte)
    ensures Innermost(subs, byte, n).Some?
    ensures var i := Innermost(subs, byte, n).value;
            Length(subs[i].body.value) <= Length(subs[j].body.value)
    ensures Length(subs[Innermost(subs, byte, n).value].body.value) == Length(subs[j].body.value)
            ==> Innermost(subs, byte, n).value <= j
  {
    if j < n - 1 {
      InnermostIsShortest(subs, byte, n - 1, j);
    }
  }

  predicate Inside(x: Span, y: Span) {
    y.startByte <= x.startByte && x.endByte <= y.endByte
  }

  predicate Apart(x: Span, y: Span) {
    x.endByte <= y.startByte || y.endByte <= x.startByte
  }

  /** Bodies are nested or disjoint, as those of parsed source are. */
  ghost predicate WellNested(subs: seq<Subprogram>) {
    forall i, j | 0 <= i < |subs| && 0 <= j < |subs| && subs[i].body.Some? && subs[j].body.Some? ::
      var x, y := subs[i].body.value, subs[j].body.value;
      Inside(x, y) || Inside(y, x) || Apart(x, y)
  }

  /** The owner's body lies inside every other body around the raise. */
  lemma OwnerIsInnermost(subs: seq<Subprogram>, r: RaiseSite, j: nat)
    requires WellNested(subs) && j < |subs| && BodyContains(subs[j], r.span.startByte)
    ensures OwnerOf(subs, r).Some?
    ensures Inside(subs[OwnerOf(subs, r).value].body.value, subs[j].body.value)
  {
    InnermostIsShortest(subs, r.span.startByte, |subs|, j);
  }

  /** The first byte of the raise is in the body, its end left out. */
  predicate Around(s: Subprogram, r: RaiseSite) {
    match s.body
    case None => false
    case Some(body) => body.startByte <= r.span.startByte && r.span.startByte < body.endByte
  }

  /** Of two bodies around a raise the shorter one comes first, and of equally short ones the earlier one. */
  predicate Precedes(subs: seq<Subprogram>, i: nat, j: nat)
    requires i < |subs| && j < |subs| && subs[i].body.Some? && subs[j].body.Some?
  {
    var x, y := subs[i].body.value, subs[j].body.value;
    x.endByte + y.startByte < y.endByte + x.startByte || (x.endByte + y.startByte == y.endByte + x.startByte && i <= j)
  }

  /** The owner is exactly the body around the raise that precedes every other body around it. */
  lemma OwnerIsFirstOfShortest(subs: seq<Subprogram>, r: RaiseSite, i: nat)
    requires i < |subs|
    ensures OwnerOf(subs, r) == Some(i) <==>
              Around(subs[i], r) && forall j | 0 <= j < |subs| && Around(subs[j], r) :: Precedes(subs, i, j)
  {
    if Around(subs[i], r) {
      InnermostIsShortest(subs, r.span.startByte, |subs|, i);
      if OwnerOf(subs, r) == Some(i) {
        forall j | 0 <= j < |subs| && Around(subs[j], r)
          ensures Precedes(subs, i, j)
        {
          InnermostIsShortest(subs, r.span.startByte, |subs|, j);
        }
      } else {
        assert Around(subs[OwnerOf(subs, r).value], r);
      }
    }
  }

  predicate IsCovered(subs: seq<Subprogram>, r: RaiseSite) {
    exists j :: 0 <= j < |subs| && Around(subs[j], r)
  }

  function CountCovered(subs: seq<Subprogram>, raises: seq<RaiseSite>): nat {
    if raises == [] then 0
    else CountCovered(subs, raises[..|raises| - 1]) + if IsCovered(subs, raises[|raises| - 1]) then 1 else 0
  }

  /** How many links the first `n` subprograms gain. */
  function TotalOwned(subs: seq<Subprogram>, raises: seq<RaiseSite>, n: nat): nat {
    if n == 0 then 0 else TotalOwned(subs, raises, n - 1) + |Owned(subs, raises, n - 1)|
  }

  lemma OwnerExistsIfCovered(subs: seq<Subprogram>, r: RaiseSite)
    ensures OwnerOf(subs, r).Some? <==> IsCovered(subs, r)
  {
    if OwnerOf(subs, r).Some? {
      assert Around(subs[OwnerOf(subs, r).value], r);
    }
    if IsCovered(subs, r) {
      var j :| 0 <= j < |subs| && Around(subs[j], r);
      InnermostIsShortest(subs, r.span.startByte, |subs|, j);
    }
  }

  /** One more raise adds one link if its owner is among the first `n`, and none if not. */
  lemma {:induction false} OneMoreRaise(subs: seq<Subprogram>, raises: seq<RaiseSite>, n: nat)
    requires raises != []
    ensures var owner := OwnerOf(subs, raises[|raises| - 1]);
            TotalOwned(subs, raises, n) == TotalOwned(subs, raises[..|raises| - 1], n)
                                         + if owner.Some? && owner.value < n then 1 else 0
  {
    if n > 0 {
      var k := |raises| - 1;
      OneMoreRaise(subs, raises, n - 1);
      OwnedMore(subs, raises, k, n - 1);
      assert raises[..k + 1] == raises;
    }
  }

  /** Every covered raise is linked once, and no other is. */
  lemma {:induction false} LinksAreConserved(subs: seq<Subprogram>, raises: seq<RaiseSite>)
    ensures TotalOwned(subs, raises, |subs|) == CountCovered(subs, raises)
  {
    if raises == [] {
      NothingOwned(subs, |subs|);
    } else {
      LinksAreConserved(subs, raises[..|raises| - 1]);
      OneMoreRaise(subs, raises, |subs|);
      OwnerExistsIfCovered(subs, raises[|raises| - 1]);
    }
  }

  lemma {:induction false} NothingOwned(subs: seq<Subprogram>, n: nat)
    ensures TotalOwned(subs, [], n) == 0
  {
    if n > 0 {
      NothingOwned(subs, n - 1);
    }
  }
}
