# Animation and frame repository

A Dafny model of the data layer behind animations of 2D sprites. An
*animation* (name, base sprite, optional type, frames per second, creation
and update times) owns a collection of *frames* (image URL, optional prompt,
an integer `order`, creation time). The repository keeps two tables, one
for animations and one for frames, each a map from id to record. It offers
lookups by id, listings, creation, selective updates, a bulk reorder and
deletes, including the cascade from an animation to its frames.

The model has four modules:

- `Schemas` (`schemas.dfy`) holds the request and record shapes. Their
  defaults are written as constructor defaults. The validation bounds are
  predicates: `fps` must lie in 1..60 and defaults to 12; `num_frames` must
  lie in 1..24 and defaults to 1. Validation is modelled as functions that
  return the record or the failing field.
- `Sequences` (`sequences.dfy`) holds helpers. Sorted insertion builds the
  ordered query results, and a left fold applies a list of changes in turn.
- `Tables` (`tables.dfy`) gives each operation's meaning as a pure
  function of the tables before the call, with the properties proved about
  those functions.
- `Crud` (`crud.dfy`) holds the class `Repository`. It has one field per
  table, and its methods make the changes step by step as the source does:
  the `setattr` loops, the reorder loop and the batch append loop. Each
  method's `ensures` ties the new tables to a `Tables` function or a map
  expression of the old ones.

A frame sequencer is often expected to keep the orders of an animation's
frames dense (0..n-1, no gaps and no duplicates), to renumber on delete and
to reject incomplete reorders. This code does none of these things, and the
model proves that density is not kept:

- `Tables.DuplicateOrdersAccepted` shows a reorder can give two frames the
  same order.
- `Tables.DeleteFrameLeavesGap` and `Tables.DeleteFrameDoesNotRenumber`
  show a delete leaves a gap.

Two more facts about the code:

- The schema puts no lower bound on `order`, so negative orders are
  accepted.
- Creating a frame does not check that its animation exists.

## Model

| member | source | states |
|---|---|---|
| `Schemas.ParseAnimationCreate` | backend/app/schemas/animation.py:26-33 | validation succeeds exactly when `fps` is omitted or in 1..60; an omitted `fps` becomes 12; name, base sprite and type are kept; the only failing field is `fps` |
| `Schemas.ParseAnimationUpdate` | backend/app/schemas/animation.py:35-38 | every field may be omitted; validation fails exactly when a given `fps` lies outside 1..60; the fields are otherwise passed through unchanged |
| `Schemas.ParseFrameGenerateRequest` | backend/app/schemas/animation.py:49-53 | succeeds exactly when `num_frames` is omitted or in 1..24; an omitted one becomes 1; `starting_order` is optional and passed through |
| `Schemas.Defaults` | backend/app/schemas/animation.py:30-52 | an omitted `fps` yields 12 and an omitted `num_frames` yields 1 |
| `Schemas.FpsBounds` | backend/app/schemas/animation.py:30-38 | 1 and 60 are accepted and 0 and 61 rejected on creation; 0 is rejected on update; an empty update is valid |
| `Schemas.ParseAnimationCreateAcceptsValid` | backend/app/schemas/animation.py:26-33 | every creation payload within the bounds passes validation unchanged |
| `Tables.NewAnimation` | backend/app/crud/animation.py:23-31 | the new row carries the fresh id and the two clock readings; its other fields give back the creation payload exactly; a valid payload yields `fps` in 1..60 |
| `Tables.NewFrame` | backend/app/crud/animation.py:78-85 | the new frame carries the fresh id, the given animation id and the clock reading; its url, prompt and order give back the payload exactly |
| `Tables.AddFrames` | backend/app/crud/animation.py:94-104 | adding frames one after the other adds exactly their ids to the key set, stores the last one added under its id, and leaves every row with another id as it was |
| `Tables.AddFramesContents` | backend/app/crud/animation.py:92-110 | when the new frames have pairwise distinct ids, each of them is stored under its own id |
| `Tables.AnimationUpdateData` | backend/app/crud/animation.py:43-44 | `dict(exclude_unset=True)` plus `updated_at`: every given field is written, each write carries the value the update gives, `updated_at` is written last with the clock reading, and an empty update writes only `updated_at` |
| `Tables.SetAnimationAttr` | backend/app/crud/animation.py:46-47 | one `setattr` never changes the id, the base sprite or the creation time |
| `Tables.PatchAnimation` | backend/app/crud/animation.py:38-51 | an update never changes id, base sprite or creation time and always stamps `updated_at`; an empty update changes only `updated_at`; a valid update keeps `fps` in 1..60 |
| `Tables.AnimationUpdateDataIsPatch` | backend/app/crud/animation.py:43-47 | running `setattr` over the set fields plus `updated_at` gives the patched record: given fields replaced, `updated_at` stamped, nothing else changed |
| `Tables.FrameUpdateData` | backend/app/crud/animation.py:118 | `dict(exclude_unset=True)`: every given field is written, each write carries the value the update gives, and an empty update writes nothing |
| `Tables.SetFrameAttr` | backend/app/crud/animation.py:120-121 | one `setattr` never changes the id, the owning animation or the creation time |
| `Tables.PatchFrame` | backend/app/crud/animation.py:113-125 | a frame update keeps id, animation and creation time, and an empty update changes nothing |
| `Tables.FrameUpdateDataIsPatch` | backend/app/crud/animation.py:118-121 | running `setattr` over the set fields of a frame update gives the patched frame |
| `Tables.PatchFrameIdempotent` | backend/app/crud/animation.py:118-121 | applying the same frame update twice equals applying it once |
| `Tables.Applies` | backend/app/crud/animation.py:130-135 | an entry is acted on only when it gives an order and names a frame of the animation; an empty frame id is never acted on |
| `Tables.ApplyOrderEntry` | backend/app/crud/animation.py:129-136 | one pass of the loop keeps the key set and changes only `order`, only on a frame of that animation; an entry that does not apply changes nothing, and one that applies stores its order |
| `Tables.ApplyOrders` | backend/app/crud/animation.py:128-139 | a reorder keeps the key set, changes no field but `order`, and leaves every frame of another animation unchanged |
| `Tables.ApplyOrdersLastWins` | backend/app/crud/animation.py:129-136 | when a frame id is named by several applicable entries, the last entry's order is the one stored |
| `Tables.ApplyOrdersUntargeted` | backend/app/crud/animation.py:133-136 | a frame that no applicable entry names keeps its record unchanged |
| `Tables.SkippedEntriesChangeNothing` | backend/app/crud/animation.py:130-133 | entries with a missing, null or empty frame id, or a missing or null order, are skipped, so a request made only of them changes nothing |
| `Tables.ZeroOrderApplied` | backend/app/crud/animation.py:133-136 | an order of 0 is applied like any other order |
| `Tables.DuplicateOrdersAccepted` | backend/app/crud/animation.py:128-139 | a request that gives two frames of one animation the same order is carried out, and afterwards the orders are not dense |
| `Tables.DeleteFrameLeavesGap` | backend/app/crud/animation.py:142-149 | deleting a frame other than the one at the highest order n-1 leaves orders that are not dense, because nothing is renumbered |
| `Tables.DeleteFrameDoesNotRenumber` | backend/app/crud/animation.py:142-149 | from orders 0,1,2,3, deleting the frame at order 1 leaves 0,2,3 |
| `Tables.WithoutFramesOf` | backend/app/crud/animation.py:60 | the frames table minus exactly the frames of the animation, every remaining row as it was |
| `Tables.CascadeRemovesExactly` | backend/app/crud/animation.py:152-155 | after the cascade the animation has no frames left and every other animation keeps its frames; the number of rows removed equals that animation's frame count; a second cascade removes nothing more |
| `Tables.Page` | backend/app/crud/animation.py:14-15 | OFFSET/LIMIT: the result has at most `limit` rows, none when `skip` is past the end, and row i is row `skip + i` of the listing |
| `Crud.Repository.GetAnimation` | backend/app/crud/animation.py:10-11 | returns a record exactly when `id` is stored; the record is the stored one and carries that id |
| `Crud.Repository.GetAnimations` | backend/app/crud/animation.py:14-15 | the result is a page (default offset 0, limit 100) of a listing that holds every stored animation once, newest `created_at` first |
| `Crud.Repository.GetAnimationsByBaseSprite` | backend/app/crud/animation.py:18-19 | lists each stored animation with the given base sprite exactly once, and nothing else |
| `Crud.Repository.CreateAnimation` | backend/app/crud/animation.py:22-35 | stores one new animation under the fresh id, with the payload's fields and two clock readings; all other rows unchanged |
| `Crud.Repository.UpdateAnimation` | backend/app/crud/animation.py:38-51 | `None` and no change for an unknown id; otherwise the stored record becomes the patched one (only given fields and `updated_at` change) and is returned; frames unchanged |
| `Crud.Repository.DeleteAnimation` | backend/app/crud/animation.py:54-64 | `false` and no change for an unknown id; otherwise removes that animation and exactly its frames, every other row unchanged |
| `Crud.Repository.GetFrame` | backend/app/crud/animation.py:69-70 | returns a frame exactly when `id` is stored; it is the stored one and carries that id |
| `Crud.Repository.GetFramesByAnimation` | backend/app/crud/animation.py:73-74 | lists each stored frame of the animation exactly once and nothing else, in non-decreasing `order` |
| `Crud.Repository.CreateFrame` | backend/app/crud/animation.py:77-89 | adds exactly one frame under the fresh id, with the given animation id and url, prompt and order copied verbatim; every existing frame unchanged |
| `Crud.Repository.CreateFramesBatch` | backend/app/crud/animation.py:92-110 | returns one frame per payload, in input order, each with its payload's url, prompt and order, the same animation id, its own fresh id and time; exactly these are added and no existing frame changes |
| `Crud.Repository.UpdateFrame` | backend/app/crud/animation.py:113-125 | `None` and no change for an unknown id; otherwise the stored frame becomes the patched one and is returned |
| `Crud.Repository.UpdateFrameOrders` | backend/app/crud/animation.py:128-139 | always returns `true`; the frames table becomes the entry-by-entry application of the request; only `order` changes, only on frames of that animation; no order is checked for duplicates or gaps |
| `Crud.Repository.DeleteFrame` | backend/app/crud/animation.py:142-149 | `false` and no change for an unknown id; otherwise removes exactly that frame; every remaining frame keeps its record, its order included |
| `Crud.Repository.DeleteFramesByAnimation` | backend/app/crud/animation.py:152-155 | removes exactly the frames of the animation and returns how many rows it removed; animations unchanged |

## Left out

- Database session mechanics (`commit`, `refresh`, the identity map). Each method is one atomic change of the two tables. Failures at commit time are not modelled: constraint violations, a foreign key that is enforced, a lost connection.
- `uuid4()` becomes a fresh-id parameter that must not already be stored. `utcnow()` becomes a time parameter, and `Time` is an integer. `CreateAnimation` takes two readings and `CreateFramesBatch` one per frame, as the source reads the clock that many times.
- Schemas.ParseAnimationCreate, Schemas.ParseFrameGenerateRequest: the parameters are typed and present, so the model does not cover the checks and conversions the validation library does before the bounds. Those are: a missing `name`, `base_sprite_id`, `animation_id` or `prompt` is rejected; an explicit null `fps` on creation or null `num_frames` is rejected; a numeric string or a float is converted to an integer before the range check (`"12"` becomes 12, `60.7` becomes 60). "Succeeds exactly when" in their rows is meant over typed, present fields.
- An update that explicitly sends null for `name`, `fps`, `url` or `order` is not modelled. Validation lets it through, and `setattr` would write NULL into a column that creation always fills and the listing sorts on. In the model, a given field of these four always carries a value.
- Reorder entries are untyped dictionaries. The model covers a missing, null or empty `frame_id` and a missing or null `order`. It does not cover a `frame_id` that is not a string or an `order` that is not an integer.
- The order of rows with equal sort keys is whatever the database returns. The model picks an arbitrary order, and the contracts say nothing about it.
- `GetAnimations`: `skip` and `limit` are natural numbers. How the database treats a negative OFFSET or LIMIT is not modelled.
- The `frames` list on the animation response schema (backend/app/schemas/animation.py:44) is not filled in by any repository operation, so it is not modelled.
- `FrameGenerateRequest.starting_order` (append when absent) and `SpriteSheetRequest.column_count` (square layout when absent) are modelled as fields only. The behaviour their comments describe is not implemented in the repository.
- The ORM declarations in backend/app/models/animation.py disagree with the repository: they declare no `Frame` class and no `name`, `fps` or timestamp columns. The record shapes follow the schemas and the repository code instead.
- Sprite edit lineage, reference-image retrieval, transparency restoration and spritesheet compositing are not part of this model. None of them is implemented in the repository code.
- HTTP routing, the image-generation service calls, database configuration and the user interface are not part of this model.
