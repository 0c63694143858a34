/** What each repository operation does to the two tables, as functions of
    the tables before the call, and the properties those functions have. */
module Tables {
  import opened Schemas
  import opened Sequences

  type AnimationTable = map<Id, Animation>
  type FrameTable = map<Id, Frame>

  /** Every row is stored under its own primary key. */
  predicate AnimationsKeyed(t: AnimationTable) { forall k :: k in t ==> t[k].id == k }

  predicate FramesKeyed(t: FrameTable) { forall k :: k in t ==> t[k].id == k }

  // ---------------------------------------------------------------- creation

  /** The row `create_animation` stores: the fresh id, the payload's fields
      and the two clock readings. */
  function NewAnimation(id: Id, req: AnimationCreate, createdAt: Time, updatedAt: Time): (a: Animation)
    ensures a.id == id && a.createdAt == createdAt && a.updatedAt == updatedAt
    ensures AnimationCreate(a.name, a.baseSpriteId, a.animationType, a.fps) == req
    ensures ValidAnimationCreate(req) ==> FpsInRange(a.fps)
  {
    Animation(id, req.name, req.baseSpriteId, req.animationType, req.fps, createdAt, updatedAt)
  }

  /** The row `create_frame` stores: the fresh id, the animation id it was
      given, the payload's fields and the clock reading. */
  function NewFrame(id: Id, animationId: Id, fc: FrameCreate, createdAt: Time): (f: Frame)
    ensures f.id == id && f.animationId == animationId && f.createdAt == createdAt
    ensures FrameCreate(f.url, f.prompt, f.order) == fc
  {
    Frame(id, animationId, fc.url, fc.prompt, fc.order, createdAt)
  }

  function IdsOf(fs: seq<Frame>): set<Id> { set f | f in fs :: f.id }

  /** The table after adding the frames of `fs` one after the other: their ids
      join the key set, the last frame added under an id is the one stored,
      and rows with other ids stay as they were. */
  function AddFrames(t: FrameTable, fs: seq<Frame>): (r: FrameTable)
    ensures r.Keys == t.Keys + IdsOf(fs)
    ensures fs != [] ==> r[fs[|fs| - 1].id] == fs[|fs| - 1]
    ensures forall k :: k in t && k !in IdsOf(fs) ==> r[k] == t[k]
    decreases |fs|
  {
    if fs == [] then t
    else
      var prefix, last := fs[..|fs| - 1], fs[|fs| - 1];
      assert fs == prefix + [last];
      AddFrames(t, prefix)[last.id := last]
  }

  /** Adding frames with pairwise distinct ids stores every one of them under its id. */
  lemma {:induction false} AddFramesContents(t: FrameTable, fs: seq<Frame>)
    requires forall i, j :: 0 <= i < j < |fs| ==> fs[i].id != fs[j].id
    ensures forall i :: 0 <= i < |fs| ==> AddFrames(t, fs)[fs[i].id] == fs[i]
    decreases |fs|
  {
    if fs != [] {
      var n := |fs| - 1;
      var prefix, last := fs[..n], fs[n];
      AddFramesContents(t, prefix);
      forall i | 0 <= i < n ensures prefix[i] == fs[i] && fs[i].id != last.id { }
    }
  }

  // ---------------------------------------------------------------- updates

  /** One `setattr` performed by the update loop on an animation. */
  datatype AnimationAttr = NameAttr(name: string) | AnimationTypeAttr(animationType: Option<string>)
                         | FpsAttr(fps: int) | UpdatedAtAttr(at: Time)

  /** `attr` writes a value the update gives, or stamps `updated_at` with `now`. */
  predicate AnimationAttrGiven(u: AnimationUpdate, now: Time, attr: AnimationAttr)
  {
    match attr
    case NameAttr(n) => u.name == Set(n)
    case AnimationTypeAttr(t) => u.animationType == Set(t)
    case FpsAttr(f) => u.fps == Set(f)
    case UpdatedAtAttr(at) => at == now
  }

  /** Every field the update gives is written by some `setattr` of `attrs`. */
  predicate WritesEveryGivenAnimationAttr(u: AnimationUpdate, attrs: seq<AnimationAttr>)
  {
    && (u.name.Set? ==> NameAttr(u.name.value) in attrs)
    && (u.animationType.Set? ==> AnimationTypeAttr(u.animationType.value) in attrs)
    && (u.fps.Set? ==> FpsAttr(u.fps.value) in attrs)
  }

  /** The fields an animation update sets: those given in the request, in
      declaration order, then `updated_at` with the current time. */
  function AnimationUpdateData(u: AnimationUpdate, now: Time): (r: seq<AnimationAttr>)
    ensures |r| >= 1 && r[|r| - 1] == UpdatedAtAttr(now)
    ensures |r| == 1 <==> u == AnimationUpdate()
    ensures WritesEveryGivenAnimationAttr(u, r)
    ensures forall x :: x in r ==> AnimationAttrGiven(u, now, x)
  {
    (if u.name.Set? then [NameAttr(u.name.value)] else [])
    + (if u.animationType.Set? then [AnimationTypeAttr(u.animationType.value)] else [])
    + (if u.fps.Set? then [FpsAttr(u.fps.value)] else [])
    + [UpdatedAtAttr(now)]
  }

  /** One `setattr`: it can reach neither the key, the base sprite nor the creation time. */
  function SetAnimationAttr(a: Animation, attr: AnimationAttr): (r: Animation)
    ensures r.id == a.id && r.baseSpriteId == a.baseSpriteId && r.createdAt == a.createdAt
  {
    match attr
    case NameAttr(n) => a.(name := n)
    case AnimationTypeAttr(t) => a.(animationType := t)
    case FpsAttr(f) => a.(fps := f)
    case UpdatedAtAttr(at) => a.(updatedAt := at)
  }

  /** What an update means: a given field replaces the stored one, the clock
      reading replaces `updated_at`, and no other field changes. So an update
      never touches the id, the base sprite or the creation time; an empty
      update only stamps `updated_at`; and a valid update keeps `fps` within 1..60. */
  function PatchAnimation(a: Animation, u: AnimationUpdate, now: Time): (r: Animation)
    ensures r.id == a.id && r.baseSpriteId == a.baseSpriteId && r.createdAt == a.createdAt
    ensures r.updatedAt == now
    ensures u == AnimationUpdate() ==> r == a.(updatedAt := now)
    ensures FpsInRange(a.fps) && ValidAnimationUpdate(u) ==> FpsInRange(r.fps)
  {
    a.(name := if u.name.Set? then u.name.value else a.name,
       animationType := if u.animationType.Set? then u.animationType.value else a.animationType,
       fps := if u.fps.Set? then u.fps.value else a.fps,
       updatedAt := now)
  }

  /** Running the `setattr` loop over the update's data yields the patched record. */
  lemma AnimationUpdateDataIsPatch(a: Animation, u: AnimationUpdate, now: Time)
    ensures FoldLeft(a, AnimationUpdateData(u, now), SetAnimationAttr) == PatchAnimation(a, u, now)
  {
    var n: seq<AnimationAttr> := if u.name.Set? then [NameAttr(u.name.value)] else [];
    var t: seq<AnimationAttr> := if u.animationType.Set? then [AnimationTypeAttr(u.animationType.value)] else [];
    var f: seq<AnimationAttr> := if u.fps.Set? then [FpsAttr(u.fps.value)] else [];
    var s := SetAnimationAttr;
    FoldLeftAppend(a, n, t, s);
    FoldLeftAppend(a, n + t, f, s);
    FoldLeftAppend(a, n + t + f, [UpdatedAtAttr(now)], s);
    assert [UpdatedAtAttr(now)][..0] == [];
    if u.name.Set? { assert n[..0] == []; }
    if u.animationType.Set? { assert t[..0] == []; }
    if u.fps.Set? { assert f[..0] == []; }
  }

  /** One `setattr` performed by the update loop on a frame. */
  datatype FrameAttr = UrlAttr(url: string) | PromptAttr(prompt: Option<string>) | OrderAttr(order: int)

  /** `attr` writes a value the update gives. */
  predicate FrameAttrGiven(u: FrameUpdate, attr: FrameAttr)
  {
    match attr
    case UrlAttr(url) => u.url == Set(url)
    case PromptAttr(p) => u.prompt == Set(p)
    case OrderAttr(o) => u.order == Set(o)
  }

  /** Every field the update gives is written by some `setattr` of `attrs`. */
  predicate WritesEveryGivenFrameAttr(u: FrameUpdate, attrs: seq<FrameAttr>)
  {
    && (u.url.Set? ==> UrlAttr(u.url.value) in attrs)
    && (u.prompt.Set? ==> PromptAttr(u.prompt.value) in attrs)
    && (u.order.Set? ==> OrderAttr(u.order.value) in attrs)
  }

  /** The fields a frame update sets: those given in the request, in declaration order. */
  function FrameUpdateData(u: FrameUpdate): (r: seq<FrameAttr>)
    ensures r == [] <==> u == FrameUpdate()
    ensures WritesEveryGivenFrameAttr(u, r)
    ensures forall x :: x in r ==> FrameAttrGiven(u, x)
  {
    (if u.url.Set? then [UrlAttr(u.url.value)] else [])
    + (if u.prompt.Set? then [PromptAttr(u.prompt.value)] else [])
    + (if u.order.Set? then [OrderAttr(u.order.value)] else [])
  }

  /** One `setattr`: it can reach neither the key, the owning animation nor the creation time. */
  function SetFrameAttr(f: Frame, attr: FrameAttr): (r: Frame)
    ensures r.id == f.id && r.animationId == f.animationId && r.createdAt == f.createdAt
  {
    match attr
    case UrlAttr(url) => f.(url := url)
    case PromptAttr(p) => f.(prompt := p)
    case OrderAttr(o) => f.(order := o)
  }

  /** What a frame update means: a given field replaces the stored one and no
      other field changes (frames carry no `updated_at`). So the id, the owning
      animation and the creation time are kept, and an empty update changes nothing. */
  function PatchFrame(f: Frame, u: FrameUpdate): (r: Frame)
    ensures r.id == f.id && r.animationId == f.animationId && r.createdAt == f.createdAt
    ensures u == FrameUpdate() ==> r == f
  {
    f.(url := if u.url.Set? then u.url.value else f.url,
       prompt := if u.prompt.Set? then u.prompt.value else f.prompt,
       order := if u.order.Set? then u.order.value else f.order)
  }

  lemma FrameUpdateDataIsPatch(f: Frame, u: FrameUpdate)
    ensures FoldLeft(f, FrameUpdateData(u), SetFrameAttr) == PatchFrame(f, u)
  {
    var a: seq<FrameAttr> := if u.url.Set? then [UrlAttr(u.url.value)] else [];
    var p: seq<FrameAttr> := if u.prompt.Set? then [PromptAttr(u.prompt.value)] else [];
    var o: seq<FrameAttr> := if u.order.Set? then [OrderAttr(u.order.value)] else [];
    var s := SetFrameAttr;
    FoldLeftAppend(f, a, p, s);
    FoldLeftAppend(f, a + p, o, s);
    if u.url.Set? { assert a[..0] == []; }
    if u.prompt.Set? { assert p[..0] == []; }
    if u.order.Set? { assert o[..0] == []; }
  }

  /** Applying a frame update twice is applying it once. */
  lemma PatchFrameIdempotent(f: Frame, u: FrameUpdate)
    ensures PatchFrame(PatchFrame(f, u), u) == PatchFrame(f, u)
  {
  }

  // ---------------------------------------------------------------- reordering

  /** An entry is acted on only when it names a frame by a non-empty id, gives
      an order (zero included), and that frame exists and belongs to `a`. */
  predicate Applies(t: FrameTable, a: Id, item: OrderItem)
    ensures Applies(t, a, item) ==> item.order.Some? && item.frameId.Some? && item.frameId.value in FramesOf(t, a)
    ensures item.frameId == Some("") ==> !Applies(t, a, item)
  {
    && item.frameId.Some? && item.frameId.value != "" && item.order.Some?
    && item.frameId.value in t && t[item.frameId.value].animationId == a
  }

  /** The entry is acted on, and it names frame `k`. */
  predicate Targets(t: FrameTable, a: Id, item: OrderItem, k: Id)
  {
    Applies(t, a, item) && item.frameId.value == k
  }

  /** One pass of the reorder loop: an entry that applies sets the named
      frame's order and nothing else; any other entry changes nothing. */
  function ApplyOrderEntry(t: FrameTable, a: Id, item: OrderItem): (r: FrameTable)
    ensures r.Keys == t.Keys
    ensures forall k :: k in t ==> r[k] == t[k].(order := r[k].order)
    ensures forall k :: k in t && t[k].animationId != a ==> r[k] == t[k]
    ensures !Applies(t, a, item) ==> r == t
    ensures Applies(t, a, item) ==> r[item.frameId.value].order == item.order.value
  {
    if Applies(t, a, item) then
      var k := item.frameId.value;
      t[k := t[k].(order := item.order.value)]
    else t
  }

  /** The frame table after the reorder loop has processed every entry in
      turn. Only the `order` field changes, and only on frames that belong to
      `a`: the key set, every other field and every frame of another
      animation stay as they were. */
  function ApplyOrders(t: FrameTable, a: Id, items: seq<OrderItem>): (r: FrameTable)
    ensures r.Keys == t.Keys
    ensures forall k :: k in t ==> r[k] == t[k].(order := r[k].order)
    ensures forall k :: k in t && t[k].animationId != a ==> r[k] == t[k]
    decreases |items|
  {
    if items == [] then t
    else ApplyOrderEntry(ApplyOrders(t, a, items[..|items| - 1]), a, items[|items| - 1])
  }

  /** Whether an entry is acted on does not depend on earlier entries. */
  lemma AppliesStable(t: FrameTable, a: Id, prefix: seq<OrderItem>, item: OrderItem)
    ensures Applies(ApplyOrders(t, a, prefix), a, item) == Applies(t, a, item)
  {
  }

  /** The order a frame ends with is the one given by the LAST entry acted on
      for it, whatever earlier entries said. */
  lemma {:induction false} ApplyOrdersLastWins(t: FrameTable, a: Id, items: seq<OrderItem>, k: Id, j: nat)
    requires j < |items| && Targets(t, a, items[j], k)
    requires forall i :: j < i < |items| ==> !Targets(t, a, items[i], k)
    ensures k in ApplyOrders(t, a, items)
    ensures ApplyOrders(t, a, items)[k] == t[k].(order := items[j].order.value)
    decreases |items|
  {
    var n := |items| - 1;
    var prefix := items[..n];
    var p := ApplyOrders(t, a, prefix);
    AppliesStable(t, a, prefix, items[n]);
    if j < n {
      ApplyOrdersLastWins(t, a, prefix, k, j);
      assert !Targets(t, a, items[n], k);
    }
  }

  /** A frame that no acted-on entry names keeps its record unchanged. */
  lemma {:induction false} ApplyOrdersUntargeted(t: FrameTable, a: Id, items: seq<OrderItem>, k: Id)
    requires k in t
    requires forall i :: 0 <= i < |items| ==> !Targets(t, a, items[i], k)
    ensures k in ApplyOrders(t, a, items)
    ensures ApplyOrders(t, a, items)[k] == t[k]
    decreases |items|
  {
    if items != [] {
      var n := |items| - 1;
      var prefix := items[..n];
          AppliesStable(t, a, prefix, items[n]);
      ApplyOrdersUntargeted(t, a, prefix, k);
      assert !Targets(t, a, items[n], k);
    }
  }

  /** Entries without a frame id, with an empty one, or without an order are
      skipped: a request made only of such entries changes nothing. */
  lemma SkippedEntriesChangeNothing(t: FrameTable, a: Id, items: seq<OrderItem>)
    requires forall i :: 0 <= i < |items| ==>
               items[i].frameId.None? || items[i].frameId == Some("") || items[i].order.None?
    ensures ApplyOrders(t, a, items) == t
  {
    var r := ApplyOrders(t, a, items);
    forall k | k in t ensures r[k] == t[k] {
      ApplyOrdersUntargeted(t, a, items, k);
    }
  }

  /** An order of zero is a given order, and is applied. */
  lemma ZeroOrderApplied(t: FrameTable, a: Id, k: Id)
    requires k in FramesOf(t, a) && k != ""
    ensures k in ApplyOrders(t, a, [OrderItem(Some(k), Some(0))])
    ensures ApplyOrders(t, a, [OrderItem(Some(k), Some(0))])[k] == t[k].(order := 0)
  {
    ApplyOrdersLastWins(t, a, [OrderItem(Some(k), Some(0))], k, 0);
  }

  // ---------------------------------------------------------------- density

  /** The ids of the frames of animation `a`. */
  function FramesOf(t: FrameTable, a: Id): set<Id>
  {
    set k | k in t && t[k].animationId == a
  }

  /** The orders of `a`'s frames are pairwise distinct and lie in 0..n-1,
      where n is the number of its frames; by counting, they are then exactly
      0, 1, ..., n-1. */
  predicate DenseOrders(t: FrameTable, a: Id)
  {
    && (forall j, k :: j in FramesOf(t, a) && k in FramesOf(t, a) && j != k ==> t[j].order != t[k].order)
    && (forall k :: k in FramesOf(t, a) ==> 0 <= t[k].order < |FramesOf(t, a)|)
  }

  /** The reorder operation accepts a request that gives two frames of the
      same animation the same order: the result is no longer dense. */
  lemma DuplicateOrdersAccepted(t: FrameTable, a: Id, j: Id, k: Id, o: int)
    requires j in FramesOf(t, a) && k in FramesOf(t, a) && j != k && j != "" && k != ""
    ensures j in ApplyOrders(t, a, [OrderItem(Some(j), Some(o)), OrderItem(Some(k), Some(o))])
    ensures k in ApplyOrders(t, a, [OrderItem(Some(j), Some(o)), OrderItem(Some(k), Some(o))])
    ensures ApplyOrders(t, a, [OrderItem(Some(j), Some(o)), OrderItem(Some(k), Some(o))])[j].order == o
    ensures ApplyOrders(t, a, [OrderItem(Some(j), Some(o)), OrderItem(Some(k), Some(o))])[k].order == o
    ensures !DenseOrders(ApplyOrders(t, a, [OrderItem(Some(j), Some(o)), OrderItem(Some(k), Some(o))]), a)
  {
    var items := [OrderItem(Some(j), Some(o)), OrderItem(Some(k), Some(o))];
    var r := ApplyOrders(t, a, items);
    ApplyOrdersLastWins(t, a, items, j, 0);
    ApplyOrdersLastWins(t, a, items, k, 1);
    assert j in FramesOf(r, a) && k in FramesOf(r, a);
  }

  /** Deleting a frame does not renumber the others: when a frame other than
      the one holding the highest order n-1 is deleted, that order survives
      among n-1 frames, so the orders are no longer dense. */
  lemma DeleteFrameLeavesGap(t: FrameTable, a: Id, f: Id, g: Id)
    requires f in FramesOf(t, a) && g in FramesOf(t, a) && f != g
    requires t[g].order == |FramesOf(t, a)| - 1
    ensures !DenseOrders(t - {f}, a)
  {
    var r := t - {f};
    assert FramesOf(r, a) == FramesOf(t, a) - {f};
    assert g in FramesOf(r, a);
  }

  /** One animation with four frames at orders 0, 1, 2 and 3. */
  function FourFrames(): FrameTable
  {
    map["f0" := Frame("f0", "anim", "u0", None, 0, 0), "f1" := Frame("f1", "anim", "u1", None, 1, 0),
        "f2" := Frame("f2", "anim", "u2", None, 2, 0), "f3" := Frame("f3", "anim", "u3", None, 3, 0)]
  }

  lemma FourFramesIds()
    ensures FramesOf(FourFrames(), "anim") == {"f0", "f1", "f2", "f3"}
    ensures |FramesOf(FourFrames(), "anim")| == 4
  {
    var t := FourFrames();
    assert t.Keys == {"f0", "f1", "f2", "f3"};
    assert FramesOf(t, "anim") == t.Keys;
    assert "f0" !in {"f1", "f2", "f3"} && "f1" !in {"f2", "f3"} && "f2" != "f3";
  }

  lemma FourFramesDense()
    ensures DenseOrders(FourFrames(), "anim")
  {
    var t := FourFrames();
    FourFramesIds();
    var ids := FramesOf(t, "anim");
    var idAt := (o: int) => if o == 0 then "f0" else if o == 1 then "f1" else if o == 2 then "f2" else "f3";
    forall k | k in ids ensures idAt(t[k].order) == k && 0 <= t[k].order < 4 {
      assert k == "f0" || k == "f1" || k == "f2" || k == "f3";
    }
    forall j, k | j in ids && k in ids && j != k ensures t[j].order != t[k].order {
      assert idAt(t[j].order) == j && idAt(t[k].order) == k;
    }
  }

  /** Deleting the frame at order 1 out of orders 0, 1, 2, 3 leaves orders
      0, 2, 3: a gap, not the renumbered 0, 1, 2. */
  lemma DeleteFrameDoesNotRenumber()
    ensures DenseOrders(FourFrames(), "anim")
    ensures (FourFrames() - {"f1"})["f2"].order == 2 && (FourFrames() - {"f1"})["f3"].order == 3
    ensures !DenseOrders(FourFrames() - {"f1"}, "anim")
  {
    FourFramesIds();
    FourFramesDense();
    DeleteFrameLeavesGap(FourFrames(), "anim", "f1", "f3");
  }

  // ---------------------------------------------------------------- cascade

  /** The frame table with every frame of animation `a` removed. */
  function WithoutFramesOf(t: FrameTable, a: Id): (r: FrameTable)
    ensures r.Keys == t.Keys - FramesOf(t, a)
    ensures forall k :: k in r ==> r[k] == t[k]
  {
    map k | k in t && t[k].animationId != a :: t[k]
  }

  /** After the cascade `a` has no frames, every other animation keeps its
      frames, as many rows are removed as `a` had frames, and repeating the
      cascade removes nothing more. */
  lemma CascadeRemovesExactly(t: FrameTable, a: Id)
    ensures FramesOf(WithoutFramesOf(t, a), a) == {}
    ensures forall b :: b != a ==> FramesOf(WithoutFramesOf(t, a), b) == FramesOf(t, b)
    ensures |WithoutFramesOf(t, a)| == |t| - |FramesOf(t, a)|
    ensures WithoutFramesOf(WithoutFramesOf(t, a), a) == WithoutFramesOf(t, a)
  {
    var r := WithoutFramesOf(t, a);
    assert FramesOf(t, a) <= t.Keys;
    assert |r.Keys| == |t.Keys| - |FramesOf(t, a)|;
  }

  // ---------------------------------------------------------------- queries

  function FrameOrder(f: Frame): int { f.order }

  /** Sorting key for "newest first". */
  function NewestFirst(x: Animation): int { -x.createdAt }

  /** `s` lists, once each, exactly the frames of `t` that belong to `a`. */
  ghost predicate ListsFramesOf(t: FrameTable, a: Id, s: seq<Frame>)
  {
    Distinct(s) && forall f :: f in s <==> f.id in t && t[f.id] == f && f.animationId == a
  }

  /** `s` lists, once each, exactly the animations of `t`. */
  ghost predicate ListsAnimations(t: AnimationTable, s: seq<Animation>)
  {
    Distinct(s) && forall x :: x in s <==> x.id in t && t[x.id] == x
  }

  /** `s` lists, once each, exactly the animations of `t` based on sprite `b`. */
  ghost predicate ListsAnimationsOfSprite(t: AnimationTable, b: Id, s: seq<Animation>)
  {
    Distinct(s) && forall x :: x in s <==> x.id in t && t[x.id] == x && x.baseSpriteId == b
  }

  /** OFFSET `skip` LIMIT `limit`: at most `limit` consecutive rows of `s`, starting at row `skip`. */
  function Page<T>(s: seq<T>, skip: nat, limit: nat): (r: seq<T>)
    ensures |r| == if skip >= |s| then 0 else if limit < |s| - skip then limit else |s| - skip
    ensures forall i :: 0 <= i < |r| ==> r[i] == s[skip + i]
  {
    if skip >= |s| then [] else s[skip..if limit < |s| - skip then skip + limit else |s|]
  }
}
