# CustomizedTrailRenderer in Dafny

A model of the trail bookkeeping of the Unity component `CustomizedTrailRenderer`.
The component draws a fading ribbon behind a moving object. It keeps four raw
**control points** (newest first) in `controlPoints`. It admits the object's
position as a new control point once the object has moved more than
`minControlPtnDistance` from the newest one. From the control points it
interpolates **display points** with a Catmull-Rom spline, three per
admission. These are timestamped and stored newest first in a 400-slot array
with a live count `displayCnt`. Display points older than `lifeTime` are
dropped, and every frame a camera-facing quad strip is rebuilt from the live
points.

Modules, one per file:

- `Vectors` (`vectors.dfy`): `Vector3` over the reals.
- `Spline` (`spline.dfy`): `CRSpline` in the source's Horner form, with the
  textbook blending-polynomial form as an independent reference.
- `ControlRing` (`control_ring.dfy`): the admission test and the shift of the
  4-slot ring. `Window` is a reference definition of the ring after a whole
  history of admissions.
- `DisplayStore` (`display_store.dfy`): `DisplayPoint`, the expiry pass, and
  `AddNewDisplayPoints`.
- `Ribbon` (`ribbon.dfy`): the triangle, UV, colour and vertex buffers of
  `RenderTrail`.
- `TrailRenderer` (`trail.dfy`): `Start`, `Update`, `OnDisable`, and a
  driver `Run` over a sequence of frames and disable events.

Conventions:

- A null `DisplayPoint` reference is the slot `Null`.
- `Time.time` is the parameter `now`, and `age` is `now - timeCreated`.
- The camera position is a parameter.
- `Vector3.Cross(pointDir, vectorToCamera).normalized` is the function
  parameter `perpendicular`.
- Arrays are sequences of fixed length. Each operation returns the new
  arrays and counts.

The central result is the invariant `TrailRenderer.Batched`. It holds after
`Start`, and `Update` and `OnDisable` keep it whenever the clock does not run
backwards. It says:

- the live display points form a prefix of whole batches of three;
- every slot in the prefix is non-null;
- creation times do not increase with the index;
- the three points of a batch share one creation time.

Three consequences follow:

- the expiry pass removes a suffix;
- `displayCnt` stays a multiple of three and at most 399;
- `RenderTrail` is never reached with exactly one live point. That case would
  read `displayPoints[-1]`.

Behaviour of the code that the model keeps as written:

- The expiry pass does not compact the array. It nulls expired slots in place
  and lowers the count. The live points stay a prefix only because ages grow
  with the index. `DisplayStore.MonotoneSurvivorsArePrefix` and
  `TrailRenderer.ExpiryKeepsBatched` prove this under that condition.
- The count is capped at 399, not 400. The shift loop also writes slot
  `displayCnt` itself, so slot 399 is written but never live.
- With exactly one live point, `RenderTrail` does not clear the mesh. It
  indexes `displayPoints[-1]`. The model makes `n == 0 || n >= 2` a
  precondition (`Ribbon.Renderable`) and proves that `Update` always meets it.
- The spline is called with the oldest control point as `p0`. So the newest
  display point of a batch is the previous newest control point, not the
  current one (`DisplayStore.AddNewDisplayPoints`, `TrailRenderer.Update`).
- Interpolation starts when `controlCnt` reaches 3. At that point only three
  real control points exist, so the first batch reads the default zero vector
  in slot 3 (`TrailRenderer.FirstBatchReadsDefaultSlot`, `TrailRenderer.FirstBatch`).

## Model

| member | source | states |
|---|---|---|
| `Spline.Cr` | Assets/CustomizedTrailRenderer.cs:196-207 | One coordinate of the spline: equals the second control value at t = 0 and the third at t = 1, and stays constant when all four values are equal |
| `Spline.CRSpline` | Assets/CustomizedTrailRenderer.cs:196-207 | `CRSpline(0, p0..p3) = p1`, `CRSpline(1, p0..p3) = p2`, and four equal points give that point for every t |
| `Spline.CrIsBlend` | Assets/CustomizedTrailRenderer.cs:202-206 | The Horner form of the source equals the standard Catmull-Rom blend of the four control values by the four basis polynomials, for every t |
| `Spline.CRSplineTranslate` | Assets/CustomizedTrailRenderer.cs:202-206 | Moving all four control points by a vector moves the interpolated point by that vector |
| `Spline.CRSplineReverse` | Assets/CustomizedTrailRenderer.cs:202-206 | Evaluating at t with the points in order gives the same point as evaluating at 1 - t with the points reversed |
| `ControlRing.Far` | Assets/CustomizedTrailRenderer.cs:55 | The admission test on the squared distance; an object standing exactly on the newest control point is admitted only when the threshold is negative |
| `ControlRing.FarIsMagnitudeTest` | Assets/CustomizedTrailRenderer.cs:55 | The square-root-free admission test holds exactly when the true distance exceeds `minControlPtnDistance`, negative thresholds included |
| `ControlRing.ShiftIn` | Assets/CustomizedTrailRenderer.cs:57-59 | After admission slot 0 is the new position and slot k is the old slot k-1 for k = 1..3; the old slot 3 is gone |
| `ControlRing.WindowIsNewestFirst` | Assets/CustomizedTrailRenderer.cs:55-60 | After any history of admissions, the ring holds the most recent positions newest first; slots the history has not reached keep their initial contents |
| `ControlRing.AdmissionExtendsWindow` | Assets/CustomizedTrailRenderer.cs:57-59 | One admission step turns the ring of a history into the ring of that history extended by the new position |
| `DisplayStore.Age` | Assets/CustomizedTrailRenderer.cs:215-218 | The age of a point is the clock minus its creation time: zero at the creation instant and never negative afterwards |
| `DisplayStore.Expired` | Assets/CustomizedTrailRenderer.cs:47 | The removal test: a null slot or a point older than `lifeTime`; a point created at the current clock survives any non-negative `lifeTime` |
| `DisplayStore.CountExpired` | Assets/CustomizedTrailRenderer.cs:44-52 | The number of removed slots never exceeds the number of visited slots |
| `DisplayStore.CountExpiredAll` | Assets/CustomizedTrailRenderer.cs:44-52 | Every visited slot is removed exactly when the count equals their number |
| `DisplayStore.CountExpiredNone` | Assets/CustomizedTrailRenderer.cs:44-52 | No visited slot is removed exactly when the count is zero |
| `DisplayStore.Expire` | Assets/CustomizedTrailRenderer.cs:44-52 | The expiry pass lowers `displayCnt` by exactly the number of null or too-old slots in `[0, displayCnt)`; those slots become null, the others and every slot beyond the count are untouched |
| `DisplayStore.OlderLaterMakesExpiryMonotone` | Assets/CustomizedTrailRenderer.cs:47 | When creation times do not increase with the index, a point that expires is followed only by points that expire |
| `DisplayStore.MonotoneSurvivorsArePrefix` | Assets/CustomizedTrailRenderer.cs:44-52 | With monotone expiry, the slots that survive are exactly the first `length - removed` ones |
| `DisplayStore.ExpiryKeepsPrefix` | Assets/CustomizedTrailRenderer.cs:44-52 | With monotone expiry, the survivors of the pass are exactly the untouched slots `[0, new displayCnt)`, and the slots from there up to the old count are null |
| `DisplayStore.Stamp` | Assets/CustomizedTrailRenderer.cs:222-226 | `new DisplayPoint(vec)`: a live slot at `vec` whose age at the current clock is zero |
| `DisplayStore.AddNewDisplayPoints` | Assets/CustomizedTrailRenderer.cs:83-110 | The count becomes `min(old + 3, 399)`. For 3 <= k <= new count, slot k holds the old slot k-3, and later slots are untouched. Slots 0, 1, 2 hold the spline at t = 1.0, 0.66, 0.33 through `(cp[3], cp[2], cp[1], cp[0])`, stamped `now`. Slot 0 lies on `cp[1]`, and every write is in range |
| `Ribbon.StripIndicesInRange` | Assets/CustomizedTrailRenderer.cs:168-179 | Every triangle index of a strip of n points lies in `[0, 2n)` |
| `Ribbon.StripUsesEveryVertex` | Assets/CustomizedTrailRenderer.cs:168-179 | For n >= 2, every one of the 2n vertices is used by some triangle |
| `Ribbon.StripWindingIsConsistent` | Assets/CustomizedTrailRenderer.cs:168-179 | Every triangle has three distinct corners; consecutive triangles share an edge that they traverse in opposite directions, so all faces have the same orientation |
| `Ribbon.RatioRunsFromZeroToOne` | Assets/CustomizedTrailRenderer.cs:132-137 | The u coordinate `i/(N-1)` is 0 at the first point and 1 at the last, strictly increasing in i, and always within `[0, 1]` |
| `Ribbon.EdgeVertices` | Assets/CustomizedTrailRenderer.cs:162-163 | The two vertices of a point are centred on it and `width` apart along the perpendicular |
| `Ribbon.PointEdges` | Assets/CustomizedTrailRenderer.cs:143-163 | The vertex pair of point i is centred on it and spans `width` along the perpendicular of the path direction to the next point (from the previous point at the last one) and the direction to the camera |
| `Ribbon.RenderTrail` | Assets/CustomizedTrailRenderer.cs:115-186 | With N == 0 the mesh is empty. Otherwise vertex, UV and colour buffers have length 2N and the triangle list has length 6(N-1). Entries `6(i-1)..6(i-1)+5` are `(2i-2, 2i-1, 2i, 2i, 2i-1, 2i+1)`, and every index is in `[0, 2N)`. The UVs are `(i/(N-1), 0)` and `(i/(N-1), 1)`, and every colour is `color`. Each vertex pair is centred on its point and spans `width` along the perpendicular of the path direction (the last point reuses the previous segment) and the camera direction |
| `TrailRenderer.Admits` | Assets/CustomizedTrailRenderer.cs:55 | The admission condition of a frame, read on the ring before the frame; a position equal to the newest control point is admitted only for a negative threshold |
| `TrailRenderer.Inserts` | Assets/CustomizedTrailRenderer.cs:55-66 | A frame inserts a batch exactly when it admits a point and the raised `controlCnt` is at least 3; with at most one counted control point no admission inserts |
| `TrailRenderer.Start` | Assets/CustomizedTrailRenderer.cs:25-39 | The fresh trail holds the object's position in control slot 0, zero vectors elsewhere, and one counted control point; it has no live display points and satisfies the invariant |
| `TrailRenderer.FirstBatchReadsDefaultSlot` | Assets/CustomizedTrailRenderer.cs:29-38 | After `Start` and two admissions, the ring is `[b, a, start, zero]`, so the first interpolated batch uses the default zero vector as its first control point |
| `TrailRenderer.FirstBatch` | Assets/CustomizedTrailRenderer.cs:25-71 | From `Start(start)`, a frame admitting `a` is skipped, and a frame admitting `b` at `t2` draws after inserting the first batch. The ring is then `[b, a, start, zero]` and the count is 3. Slot 0 is `a`, and slots 1 and 2 are the spline at 0.66 and 0.33 through `(zero, start, a, b)`, all stamped `t2` |
| `TrailRenderer.OnDisable` | Assets/CustomizedTrailRenderer.cs:73-78 | Both counts become 0, the mesh is empty, and the arrays keep their contents; the result satisfies the invariant |
| `TrailRenderer.BatchExpiresTogether` | Assets/CustomizedTrailRenderer.cs:44-52 | In a batched store, a point that expires takes the head of its batch with it |
| `TrailRenderer.ExpiryKeepsBatched` | Assets/CustomizedTrailRenderer.cs:44-52 | The expiry pass keeps the batched invariant and does not run the store ahead of the clock: survivors are the untouched prefix, and their count is still a multiple of 3 |
| `TrailRenderer.InsertionKeepsBatched` | Assets/CustomizedTrailRenderer.cs:85-109 | Inserting a batch stamped `now` in front of a store created no later than `now` keeps the batched invariant |
| `TrailRenderer.ExpiryStep` | Assets/CustomizedTrailRenderer.cs:43-52 | The expiry pass leaves the control ring alone, lowers `displayCnt` by the number of removed slots, nulls exactly the expired slots below the old count, and keeps the batched invariant |
| `TrailRenderer.AdmissionStep` | Assets/CustomizedTrailRenderer.cs:57-60 | Admission puts the position at the head of the ring, shifts the rest back, counts one more control point and leaves the display store alone |
| `TrailRenderer.InsertionStep` | Assets/CustomizedTrailRenderer.cs:66 | Batch insertion leaves the ring alone. It raises the count by three, capped at 399, and moves the survivors back three places; slots above the new count are untouched. Slot 0 holds `cp[1]`, where the spline ends at t = 1, and slots 1 and 2 hold the spline at t = 0.66 and 0.33, all stamped `now`. The batched invariant is kept |
| `TrailRenderer.Update` | Assets/CustomizedTrailRenderer.cs:41-71 | Admission happens exactly when the object is far from `cp[0]`; it shifts the ring and raises `controlCnt` by one. Without insertion, the display slots are those the expiry pass leaves. A batch is inserted exactly when `controlCnt` reaches at least 3; otherwise the frame is skipped before `RenderTrail`. The new count is the survivors (+3, capped at 399), and old survivors move back by three while the slots above the new count keep what the expiry pass left. The invariant is kept. A drawn mesh has buffers of length 2N and the strip shape for N live points, a multiple of 6 vertices and never exactly 2, every colour is `color`, and it is empty when no point is live |
| `TrailRenderer.Run` | Assets/CustomizedTrailRenderer.cs:25-78 | Over any run of frames with a non-decreasing clock and disable events, the invariant holds throughout. Every drawn ribbon has a multiple of 6 vertices and never exactly 2, so `displayPoints[-1]` is never read |

## Left out

- Unity plumbing is not modelled: the `GameObject`, `MeshFilter`, `MeshRenderer` and `Material` setup, `Camera.main`, and the assignment of buffers to the mesh. Each is a call into the engine that only wires objects together and decides nothing the trail bookkeeping depends on. The camera position is a parameter, and the mesh is returned as a value.
- Vertex geometry is abstract. The cross product and its `.normalized` (a square root) are the `perpendicular` parameter, so vertex positions are stated relative to it.
- The admission test's `.magnitude` is replaced by a squared-distance comparison over reals. `ControlRing.FarIsMagnitudeTest` shows that the two agree.
- Single-precision rounding is not modelled. Times, positions, spline values and `ratio` are reals, and `0.33f`/`0.66f` are read as the exact decimals.
- The clock `Time.time` is the explicit parameter `now`.
- The `try`/`catch` around the shift loop only logs. The model proves that the loop's indices are always within the 400 slots, so the handler can never run.
- The unused field `fadeAlpha` of `DisplayPoint` is not modelled.
- `controlCnt` is an unbounded integer. The C# `int` would wrap after 2^31 admissions, and that is not modelled.
- Assets/Oscillator.cs is not part of this model. It moves the tracked object along a sine and cosine path of the frame time. Its only logic is floating-point trigonometry, which the reals here cannot express.
- TrailRenderer.Update: for a drawn frame, it states the buffer lengths, the triangle list, the colours and the empty mesh when no point is live. It does not repeat the UV values or the vertex positions, which `Ribbon.RenderTrail` states for the call `Update` makes.
- TrailRenderer.Run: requires clock values that never decrease. The invariant that rules out a single live point depends on it, as `Time.time` does in the engine.
