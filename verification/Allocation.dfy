/**
 * When a put gives up.  It asks for an active segment, retires that one if it turns out to be
 * filled to the end, and asks only once more.
 */
module Allocation {
  import opened Base
  import opened Offset
  import opened Segment
  import opened Store
  import opened Manager
  import Bitmap

  /** The choices of a put that gives up: a filled segment first, and then no better one. */
  ghost predicate GivesUp(c: Classes, mems: Mems, c1: Classes, first: SegId, c2: Classes, second: Option<SegId>) {
    Partition(c1, mems.Keys) && Picked(c, c1, mems, Some(first)) && AtEnd(mems, first) &&
    Picked(MarkedFull(c1, first), c2, mems, second) && (second.Some? ==> AtEnd(mems, second.value))
  }

  ghost predicate CanGiveUp(c: Classes, mems: Mems) {
    exists c1, first, c2, second :: GivesUp(c, mems, c1, first, c2, second)
  }

  ghost predicate AtEnd(mems: Mems, id: SegId) {
    id in mems && mems[id].cursor == mems[id].total
  }

  /** Some segment that a put may use has a slot left. */
  ghost predicate SomeRoom(c: Classes, mems: Mems) {
    exists x :: x in c.idle + c.appending && x in mems && mems[x].cursor < mems[x].total
  }

  /** An appending segment that a put is offered. */
  ghost predicate Offered(c: Classes, mems: Mems, id: SegId) {
    id in c.appending && id in mems && FreeSlots(mems[id]) > 0
  }

  /**
   * Two filled segments come first: both appending, or the only one offered and an idle one,
   * or, with none offered, two idle ones.
   */
  ghost predicate TwoFilled(c: Classes, mems: Mems) {
    exists x, y :: x != y && AtEnd(mems, x) && AtEnd(mems, y) && FilledFirst(c, mems, x, y)
  }

  ghost predicate FilledFirst(c: Classes, mems: Mems, x: SegId, y: SegId) {
    (Offered(c, mems, x) && Offered(c, mems, y)) ||
    (Offered(c, mems, x) && y in c.idle && forall z :: Offered(c, mems, z) ==> z == x) ||
    (x in c.idle && y in c.idle && forall z :: !Offered(c, mems, z))
  }

  /**
   * While some segment has room, a put can still give up exactly when two filled segments
   * come first: it retires one and tries again only once.
   */
  lemma GivesUpIffTwoFilled(c: Classes, mems: Mems)
    requires Partition(c, mems.Keys) && SomeRoom(c, mems)
    requires forall id :: id in mems ==> Consistent(mems[id])
    ensures CanGiveUp(c, mems) <==> TwoFilled(c, mems)
  {
    hide Consistent, Partition, Picked, MarkedFull;
    if TwoFilled(c, mems) {
      var x, y :| x != y && AtEnd(mems, x) && AtEnd(mems, y) && FilledFirst(c, mems, x, y);
      FilledGivesUp(c, mems, x, y);
    }
    if CanGiveUp(c, mems) {
      var c1, first, c2, second :| GivesUp(c, mems, c1, first, c2, second);
      GivenUpIsFilled(c, mems, c1, first, c2, second);
    }
  }

  lemma FilledGivesUp(c: Classes, mems: Mems, x: SegId, y: SegId)
    requires Partition(c, mems.Keys) && x != y && AtEnd(mems, x) && AtEnd(mems, y) && FilledFirst(c, mems, x, y)
    ensures CanGiveUp(c, mems)
  {
    hide Consistent;
    assert forall z :: z in c.appending ==> z in mems.Keys;
    if Offered(c, mems, x) && Offered(c, mems, y) {
      MarkedFullKeeps(c, mems.Keys, x);
      assert GivesUp(c, mems, c, x, MarkedFull(c, x), Some(y));
    } else if Offered(c, mems, x) {
      MarkedFullKeeps(c, mems.Keys, x);
      var d := MarkedFull(c, x);
      forall z | z in d.appending
        ensures z in mems && FreeSlots(mems[z]) <= 0
      {
        assert !Offered(c, mems, z);
      }
      var d' := d.(idle := d.idle - {y}, appending := {y}, full := d.full + d.appending);
      assert Picked(d, d', mems, Some(y));
      assert GivesUp(c, mems, c, x, d', Some(y));
    } else {
      var c1 := Classes(c.idle - {x}, {x}, c.full + c.appending, c.order + Listing(c.appending));
      AllRetired(c, mems.Keys, x);
      forall z | z in c.appending
        ensures z in mems && FreeSlots(mems[z]) <= 0
      {
        assert !Offered(c, mems, z);
      }
      assert Picked(c, c1, mems, Some(x));
      var d := MarkedFull(c1, x);
      var d' := d.(idle := d.idle - {y}, appending := {y});
      assert Picked(d, d', mems, Some(y));
      assert GivesUp(c, mems, c1, x, d', Some(y));
    }
  }

  /** Some enumeration of a set of segments. */
  ghost function Listing(ids: set<SegId>): (r: seq<SegId>)
    ensures Elems(r) == ids
  {
    if ids == {} then []
    else
      var x :| x in ids;
      var rest := Listing(ids - {x});
      assert Elems([x] + rest) == {x} + Elems(rest);
      [x] + rest
  }

  lemma AllRetired(c: Classes, ids: set<SegId>, x: SegId)
    requires Partition(c, ids) && x in c.idle
    ensures Partition(Classes(c.idle - {x}, {x}, c.full + c.appending, c.order + Listing(c.appending)), ids)
  {
    var more := Listing(c.appending);
    assert Elems(c.order + more) == Elems(c.order) + Elems(more);
  }

  lemma GivenUpIsFilled(c: Classes, mems: Mems, c1: Classes, first: SegId, c2: Classes, second: Option<SegId>)
    requires Partition(c, mems.Keys) && SomeRoom(c, mems) && GivesUp(c, mems, c1, first, c2, second)
    requires forall id :: id in mems ==> Consistent(mems[id])
    ensures TwoFilled(c, mems)
  {
    RoomIsOffered(c, mems);
    hide Consistent;
    PartitionCovers(c1, mems.Keys, first);
    PartitionCovers(c, mems.Keys, first);
    var y := second.value;
    assert FilledFirst(c, mems, first, y);
  }

  /** A segment with room is idle, or it is offered. */
  lemma RoomIsOffered(c: Classes, mems: Mems)
    requires SomeRoom(c, mems) && forall id :: id in mems ==> Consistent(mems[id])
    ensures exists x :: x in mems && mems[x].cursor < mems[x].total && (x in c.idle || Offered(c, mems, x))
  {
    hide Bitmap.IsSet, Bitmap.Count;
    var x :| x in c.idle + c.appending && x in mems && mems[x].cursor < mems[x].total;
    assert x in c.idle || Offered(c, mems, x);
  }

  /** A put that found no segment, or two filled ones, had no room or met two filled segments first. */
  lemma GaveUp(c: Classes, mems: Mems)
    requires Partition(c, mems.Keys) && (NoneFound(c, mems) || CanGiveUp(c, mems))
    requires forall id :: id in mems ==> Consistent(mems[id])
    ensures SomeRoom(c, mems) ==> TwoFilled(c, mems)
  {
    hide Partition, TwoFilled, CanGiveUp;
    if SomeRoom(c, mems) {
      RoomIsOffered(c, mems);
      hide Consistent;
      if CanGiveUp(c, mems) {
        GivesUpIffTwoFilled(c, mems);
      }
    }
  }
}
