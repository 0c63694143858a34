/** Request and record shapes of the animation API, with the bounds and
    defaults that validation applies to them before the repository sees them. */
module Schemas {

  /** Primary keys are opaque strings (freshly generated UUIDs). */
  type Id = string

  /** A clock reading; only its order matters to the model. */
  type Time = int

  datatype Option<T> = None | Some(value: T)

  /** A field of a partial update: left out of the request (`Unset`) or given. */
  datatype Patch<T> = Unset | Set(value: T)

  /** Outcome of validating a request: the record, or the name of the field
      whose constraint failed. */
  datatype Result<T> = Ok(value: T) | Invalid(field: string)

  const DefaultFps: int := 12
  const MinFps: int := 1
  const MaxFps: int := 60
  const DefaultNumFrames: int := 1
  const MinNumFrames: int := 1
  const MaxNumFrames: int := 24

  predicate FpsInRange(fps: int) { MinFps <= fps <= MaxFps }

  predicate NumFramesInRange(n: int) { MinNumFrames <= n <= MaxNumFrames }

  /** Payload for creating a frame; `order` has no bound, so negative values are accepted. */
  datatype FrameCreate = FrameCreate(url: string, prompt: Option<string> := None, order: int)

  /** Partial update of a frame: every field may be left unset. */
  datatype FrameUpdate = FrameUpdate(url: Patch<string> := Unset, prompt: Patch<Option<string>> := Unset,
                                     order: Patch<int> := Unset)

  /** A stored frame. */
  datatype Frame = Frame(id: Id, animationId: Id, url: string, prompt: Option<string>, order: int, createdAt: Time)

  datatype AnimationCreate = AnimationCreate(name: string, baseSpriteId: Id, animationType: Option<string> := None,
                                             fps: int := DefaultFps)

  /** Partial update of an animation; `base_sprite_id` is not among its fields. */
  datatype AnimationUpdate = AnimationUpdate(name: Patch<string> := Unset, animationType: Patch<Option<string>> := Unset,
                                             fps: Patch<int> := Unset)

  /** A stored animation. */
  datatype Animation = Animation(id: Id, name: string, baseSpriteId: Id, animationType: Option<string>,
                                 fps: int, createdAt: Time, updatedAt: Time)

  /** `startingOrder == None` is documented as "append after the last frame". */
  datatype FrameGenerateRequest = FrameGenerateRequest(animationId: Id, prompt: string, numFrames: int := DefaultNumFrames,
                                                       startingOrder: Option<int> := None)

  /** One entry of a reorder request. The entries are untyped dictionaries:
      `None` stands for a key that is missing or holds null. */
  datatype OrderItem = OrderItem(frameId: Option<string>, order: Option<int>)

  datatype FrameReorderRequest = FrameReorderRequest(animationId: Id, frameOrders: seq<OrderItem>)

  /** `columnCount == None` is documented as "use a square layout". */
  datatype SpriteSheetRequest = SpriteSheetRequest(animationId: Id, columnCount: Option<int> := None)

  predicate ValidAnimationCreate(a: AnimationCreate) { FpsInRange(a.fps) }

  predicate ValidAnimationUpdate(u: AnimationUpdate) { u.fps.Set? ==> FpsInRange(u.fps.value) }

  predicate ValidFrameGenerateRequest(r: FrameGenerateRequest) { NumFramesInRange(r.numFrames) }

  /** Validation of an animation-creation payload: an omitted `fps` takes the
      default, a given one must lie in the allowed range. */
  function ParseAnimationCreate(name: string, baseSpriteId: Id, animationType: Option<string>, fps: Patch<int>)
    : (r: Result<AnimationCreate>)
    ensures r.Ok? <==> (fps.Unset? || FpsInRange(fps.value))
    ensures r.Ok? ==> ValidAnimationCreate(r.value) && r.value.fps == (if fps.Set? then fps.value else 12)
    ensures r.Ok? ==> r.value.name == name && r.value.baseSpriteId == baseSpriteId
                      && r.value.animationType == animationType
    ensures r.Invalid? ==> r.field == "fps"
  {
    var a := if fps.Set? then AnimationCreate(name, baseSpriteId, animationType, fps.value)
             else AnimationCreate(name, baseSpriteId, animationType);
    if FpsInRange(a.fps) then Ok(a) else Invalid("fps")
  }

  /** Validation of an animation update: the range constraint applies only to a given `fps`. */
  function ParseAnimationUpdate(name: Patch<string>, animationType: Patch<Option<string>>, fps: Patch<int>)
    : (r: Result<AnimationUpdate>)
    ensures r.Ok? <==> (fps.Unset? || FpsInRange(fps.value))
    ensures r.Ok? ==> ValidAnimationUpdate(r.value) && r.value.fps == fps
                      && r.value.name == name && r.value.animationType == animationType
  {
    if fps.Set? && !FpsInRange(fps.value) then Invalid("fps") else Ok(AnimationUpdate(name, animationType, fps))
  }

  /** Validation of a frame-generation request: `num_frames` defaults to one
      and must lie in 1..24; `starting_order` is optional and unbounded. */
  function ParseFrameGenerateRequest(animationId: Id, prompt: string, numFrames: Patch<int>, startingOrder: Option<int>)
    : (r: Result<FrameGenerateRequest>)
    ensures r.Ok? <==> (numFrames.Unset? || NumFramesInRange(numFrames.value))
    ensures r.Ok? ==> ValidFrameGenerateRequest(r.value) && r.value.numFrames == (if numFrames.Set? then numFrames.value else 1)
    ensures r.Ok? ==> r.value.startingOrder == startingOrder
                      && r.value.animationId == animationId && r.value.prompt == prompt
    ensures r.Invalid? ==> r.field == "num_frames"
  {
    var r := if numFrames.Set? then FrameGenerateRequest(animationId, prompt, numFrames.value, startingOrder)
             else FrameGenerateRequest(animationId, prompt, startingOrder := startingOrder);
    if NumFramesInRange(r.numFrames) then Ok(r) else Invalid("num_frames")
  }

  /** An omitted `fps` yields 12; an omitted `num_frames` yields 1. */
  lemma Defaults(name: string, baseSpriteId: Id, animationType: Option<string>, animationId: Id, prompt: string)
    ensures ParseAnimationCreate(name, baseSpriteId, animationType, Unset)
            == Ok(AnimationCreate(name, baseSpriteId, animationType, 12))
    ensures ParseFrameGenerateRequest(animationId, prompt, Unset, None)
            == Ok(FrameGenerateRequest(animationId, prompt, 1, None))
  {
  }

  /** The accepted range of `fps` is exactly 1..60, both ends included. */
  lemma FpsBounds(name: string, baseSpriteId: Id)
    ensures ParseAnimationCreate(name, baseSpriteId, None, Set(1)).Ok?
    ensures ParseAnimationCreate(name, baseSpriteId, None, Set(60)).Ok?
    ensures ParseAnimationCreate(name, baseSpriteId, None, Set(0)) == Invalid("fps")
    ensures ParseAnimationCreate(name, baseSpriteId, None, Set(61)) == Invalid("fps")
    ensures ParseAnimationUpdate(Unset, Unset, Set(0)) == Invalid("fps")
    ensures ParseAnimationUpdate(Unset, Unset, Unset) == Ok(AnimationUpdate())
  {
  }

  /** Every valid creation payload is what validation produces from its own fields. */
  lemma ParseAnimationCreateAcceptsValid(a: AnimationCreate)
    requires ValidAnimationCreate(a)
    ensures ParseAnimationCreate(a.name, a.baseSpriteId, a.animationType, Set(a.fps)) == Ok(a)
  {
  }
}
