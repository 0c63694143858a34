/** The animation repository: the animations table and the frames table of
    one database session, and the operations that query and change them.
    Every operation commits before it returns, so each method is one atomic
    change of the two tables. */
module Crud {
  import opened Schemas
  import opened Sequences
  import opened Tables

  class Repository {
    var animations: AnimationTable
    var frames: FrameTable

    /** Rows are stored under their own ids, and every stored animation has a
        valid `fps` (creation and update payloads are validated). */
    ghost predicate Valid()
      reads this
    {
      && AnimationsKeyed(animations)
      && FramesKeyed(frames)
      && forall k :: k in animations ==> FpsInRange(animations[k].fps)
    }

    /** A session over empty tables. */
    constructor ()
      ensures Valid()
      ensures animations == map[] && frames == map[]
    {
      animations := map[];
      frames := map[];
    }

    // ------------------------------------------------------------ animations

    /** The animation whose id is `id`, if any. */
    function GetAnimation(id: Id): (r: Option<Animation>)
      requires Valid()
      reads this
      ensures r.Some? <==> id in animations
      ensures r.Some? ==> r.value.id == id && r.value == animations[id]
    {
      if id in animations then Some(animations[id]) else None
    }

    /** All animations, newest first (ties in any order), then OFFSET `skip` LIMIT `limit`. */
    method GetAnimations(skip: nat := 0, limit: nat := 100) returns (r: seq<Animation>)
      requires Valid()
      ensures exists all :: ListsAnimations(animations, all) && SortedBy(all, NewestFirst) && r == Page(all, skip, limit)
    {
      var all: seq<Animation> := [];
      var rest := animations.Keys;
      while rest != {}
        invariant rest <= animations.Keys
        invariant Distinct(all) && SortedBy(all, NewestFirst)
        invariant forall x :: x in all ==> x.id in animations && animations[x.id] == x && x.id !in rest
        invariant forall k :: k in animations && k !in rest ==> animations[k] in all
        decreases rest
      {
        var k :| k in rest;
        InsertDistinct(all, animations[k], NewestFirst);
        all := Insert(all, animations[k], NewestFirst);
        rest := rest - {k};
      }
      r := Page(all, skip, limit);
    }

    /** The animations based on sprite `b`, in no particular order. */
    method GetAnimationsByBaseSprite(b: Id) returns (r: seq<Animation>)
      requires Valid()
      ensures ListsAnimationsOfSprite(animations, b, r)
    {
      r := [];
      var rest := animations.Keys;
      while rest != {}
        invariant rest <= animations.Keys
        invariant Distinct(r)
        invariant forall x :: x in r ==> x.id in animations && animations[x.id] == x && x.baseSpriteId == b && x.id !in rest
        invariant forall k :: k in animations && k !in rest && animations[k].baseSpriteId == b ==> animations[k] in r
        decreases rest
      {
        var k :| k in rest;
        if animations[k].baseSpriteId == b {
          r := r + [animations[k]];
        }
        rest := rest - {k};
      }
    }

    /** Stores a new animation under the fresh id `id`. The clock is read
        twice, once for each timestamp. */
    method CreateAnimation(req: AnimationCreate, id: Id, createdAt: Time, updatedAt: Time) returns (a: Animation)
      requires Valid() && ValidAnimationCreate(req)
      requires id !in animations
      modifies this
      ensures Valid()
      ensures a == NewAnimation(id, req, createdAt, updatedAt)
      ensures animations == old(animations)[id := a]
      ensures frames == old(frames)
    {
      a := NewAnimation(id, req, createdAt, updatedAt);
      animations := animations[id := a];
    }

    /** Applies the fields set in `u` and stamps `updated_at`; `None` when there
        is no animation `id`. */
    method UpdateAnimation(id: Id, u: AnimationUpdate, now: Time) returns (r: Option<Animation>)
      requires Valid() && ValidAnimationUpdate(u)
      modifies this
      ensures Valid()
      ensures r.Some? <==> id in old(animations)
      ensures r.None? ==> animations == old(animations)
      ensures r.Some? ==> r.value == PatchAnimation(old(animations)[id], u, now)
                          && animations == old(animations)[id := r.value]
      ensures frames == old(frames)
    {
      var found := GetAnimation(id);
      if found.None? {
        return None;
      }
      var data := AnimationUpdateData(u, now);
      var rec := found.value;
      for i := 0 to |data|
        invariant rec == FoldLeft(found.value, data[..i], SetAnimationAttr)
      {
        assert data[..i + 1][..i] == data[..i];
        rec := SetAnimationAttr(rec, data[i]);
      }
      assert data[..|data|] == data;
      AnimationUpdateDataIsPatch(found.value, u, now);
      animations := animations[id := rec];
      r := Some(rec);
    }

    /** Removes animation `id` and, first, every frame that belongs to it;
        `false` and no change when there is no such animation. */
    method DeleteAnimation(id: Id) returns (ok: bool)
      requires Valid()
      modifies this
      ensures Valid()
      ensures ok <==> id in old(animations)
      ensures ok ==> animations == old(animations) - {id} && frames == WithoutFramesOf(old(frames), id)
      ensures !ok ==> animations == old(animations) && frames == old(frames)
    {
      var found := GetAnimation(id);
      if found.None? {
        return false;
      }
      frames := WithoutFramesOf(frames, id);
      animations := animations - {id};
      return true;
    }

    // ------------------------------------------------------------ frames

    /** The frame whose id is `id`, if any. */
    function GetFrame(id: Id): (r: Option<Frame>)
      requires Valid()
      reads this
      ensures r.Some? <==> id in frames
      ensures r.Some? ==> r.value.id == id && r.value == frames[id]
    {
      if id in frames then Some(frames[id]) else None
    }

    /** The frames of animation `a`, ascending by `order` (ties in any order). */
    method GetFramesByAnimation(a: Id) returns (r: seq<Frame>)
      requires Valid()
      ensures ListsFramesOf(frames, a, r)
      ensures SortedBy(r, FrameOrder)
    {
      r := [];
      var rest := frames.Keys;
      while rest != {}
        invariant rest <= frames.Keys
        invariant Distinct(r) && SortedBy(r, FrameOrder)
        invariant forall f :: f in r ==> f.id in frames && frames[f.id] == f && f.animationId == a && f.id !in rest
        invariant forall k :: k in frames && k !in rest && frames[k].animationId == a ==> frames[k] in r
        decreases rest
      {
        var k :| k in rest;
        if frames[k].animationId == a {
          InsertDistinct(r, frames[k], FrameOrder);
          r := Insert(r, frames[k], FrameOrder);
        }
        rest := rest - {k};
      }
    }

    /** Stores one new frame under the fresh id `id`, with `url`, `prompt` and
        `order` copied from `fc`. Whether animation `a` exists is not checked. */
    method CreateFrame(fc: FrameCreate, a: Id, id: Id, now: Time) returns (f: Frame)
      requires Valid()
      requires id !in frames
      modifies this
      ensures Valid()
      ensures f == NewFrame(id, a, fc, now)
      ensures frames == old(frames)[id := f]
      ensures |frames| == |old(frames)| + 1
      ensures forall k :: k in old(frames) ==> frames[k] == old(frames)[k]
      ensures animations == old(animations)
    {
      f := NewFrame(id, a, fc, now);
      frames := frames[id := f];
    }

    /** Stores one new frame per payload, in input order, each under its own
        fresh id and with its own clock reading; returns them in input order. */
    method CreateFramesBatch(fcs: seq<FrameCreate>, a: Id, ids: seq<Id>, times: seq<Time>) returns (created: seq<Frame>)
      requires Valid()
      requires |ids| == |fcs| && |times| == |fcs|
      requires forall i, j :: 0 <= i < j < |ids| ==> ids[i] != ids[j]
      requires forall i :: 0 <= i < |ids| ==> ids[i] !in frames
      modifies this
      ensures Valid()
      ensures |created| == |fcs|
      ensures forall i :: 0 <= i < |fcs| ==> created[i] == NewFrame(ids[i], a, fcs[i], times[i])
      ensures frames == AddFrames(old(frames), created)
      ensures frames.Keys == old(frames).Keys + IdsOf(created)
      ensures forall i :: 0 <= i < |created| ==> frames[created[i].id] == created[i]
      ensures forall k :: k in old(frames) ==> frames[k] == old(frames)[k]
      ensures animations == old(animations)
    {
      created := [];
      for i := 0 to |fcs|
        invariant Valid()
        invariant |created| == i
        invariant forall j :: 0 <= j < i ==> created[j] == NewFrame(ids[j], a, fcs[j], times[j])
        invariant frames == AddFrames(old(frames), created)
        invariant animations == old(animations)
      {
        var f := NewFrame(ids[i], a, fcs[i], times[i]);
        assert (created + [f])[..i] == created;
        frames := frames[f.id := f];
        created := created + [f];
      }
      AddFramesContents(old(frames), created);
    }

    /** Applies the fields set in `u`; `None` when there is no frame `id`. */
    method UpdateFrame(id: Id, u: FrameUpdate) returns (r: Option<Frame>)
      requires Valid()
      modifies this
      ensures Valid()
      ensures r.Some? <==> id in old(frames)
      ensures r.None? ==> frames == old(frames)
      ensures r.Some? ==> r.value == PatchFrame(old(frames)[id], u) && frames == old(frames)[id := r.value]
      ensures animations == old(animations)
    {
      var found := GetFrame(id);
      if found.None? {
        return None;
      }
      var data := FrameUpdateData(u);
      var rec := found.value;
      for i := 0 to |data|
        invariant rec == FoldLeft(found.value, data[..i], SetFrameAttr)
      {
        assert data[..i + 1][..i] == data[..i];
        rec := SetFrameAttr(rec, data[i]);
      }
      assert data[..|data|] == data;
      FrameUpdateDataIsPatch(found.value, u);
      frames := frames[id := rec];
      r := Some(rec);
    }

    /** Sets the order of each named frame of animation `a`, entry by entry;
        entries that do not apply are skipped, and the result is always `true`. */
    method UpdateFrameOrders(a: Id, items: seq<OrderItem>) returns (ok: bool)
      requires Valid()
      modifies this
      ensures Valid()
      ensures ok
      ensures frames == ApplyOrders(old(frames), a, items)
      ensures frames.Keys == old(frames).Keys
      ensures forall k :: k in old(frames) ==> frames[k] == old(frames)[k].(order := frames[k].order)
      ensures forall k :: k in old(frames) && old(frames)[k].animationId != a ==> frames[k] == old(frames)[k]
      ensures animations == old(animations)
    {
      for i := 0 to |items|
        invariant Valid()
        invariant frames == ApplyOrders(old(frames), a, items[..i])
        invariant animations == old(animations)
      {
        assert items[..i + 1][..i] == items[..i];
        var item := items[i];
        if item.frameId.Some? && item.frameId.value != "" && item.order.Some? {
          var found := GetFrame(item.frameId.value);
          if found.Some? && found.value.animationId == a {
            frames := frames[found.value.id := found.value.(order := item.order.value)];
          }
        }
      }
      assert items[..|items|] == items;
      return true;
    }

    /** Removes frame `id` alone; the other frames keep their orders.
        `false` and no change when there is no such frame. */
    method DeleteFrame(id: Id) returns (ok: bool)
      requires Valid()
      modifies this
      ensures Valid()
      ensures ok <==> id in old(frames)
      ensures frames == old(frames) - {id}
      ensures forall k :: k in frames ==> frames[k] == old(frames)[k]
      ensures animations == old(animations)
    {
      var found := GetFrame(id);
      if found.None? {
        return false;
      }
      frames := frames - {id};
      return true;
    }

    /** Removes every frame of animation `a` (the animation itself stays) and
        returns how many rows were removed. */
    method DeleteFramesByAnimation(a: Id) returns (n: nat)
      requires Valid()
      modifies this
      ensures Valid()
      ensures frames == WithoutFramesOf(old(frames), a)
      ensures n == |FramesOf(old(frames), a)| && n == |old(frames)| - |frames|
      ensures animations == old(animations)
    {
      CascadeRemovesExactly(frames, a);
      n := |FramesOf(frames, a)|;
      frames := WithoutFramesOf(frames, a);
    }
  }
}
