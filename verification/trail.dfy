/** The per-frame life cycle of `CustomizedTrailRenderer`: `Start` seeds the
    control ring, `Update` expires old display points, admits the tracked
    position when it has moved far enough, inserts a spline batch once three
    control points have been counted and rebuilds the ribbon, and `OnDisable`
    resets both counts. The clock `Time.time`, the camera position and the
    normalised cross product are parameters. */
module TrailRenderer {
  import opened Vectors
  import opened Spline
  import opened ControlRing
  import opened DisplayStore
  import opened Ribbon

  /** The public fields of the component. */
  datatype Config = Config(lifeTime: real, width: real, color: Color, minControlPtnDistance: real)

  datatype Trail = Trail(controlPoints: seq<Vec3>, controlCnt: int,
                         displayPoints: seq<Slot>, displayCnt: int)

  /** What an event leaves in the mesh: nothing new, when `Update` returned
      before `RenderTrail`, or the rebuilt (or cleared) buffers. */
  datatype Frame = Skipped | Drawn(mesh: Mesh)

  /** The array sizes and the bound on the live count. */
  predicate WellFormed(s: Trail) {
    |s.controlPoints| == ControlRing.Capacity &&
    |s.displayPoints| == DisplayStore.Capacity &&
    0 <= s.displayCnt <= MaxCount &&
    0 <= s.controlCnt
  }

  /** The shape the live display points `dp[..cnt]` keep from frame to
      frame: whole batches of three, every slot live, creation times not
      increasing with the index and shared within each batch. */
  predicate StoreBatched(dp: seq<Slot>, cnt: int) {
    0 <= cnt <= |dp| &&
    cnt % 3 == 0 &&
    (forall i :: 0 <= i < cnt ==> dp[i].Live?) &&
    (forall i, j :: 0 <= i <= j < cnt ==> dp[j].point.timeCreated <= dp[i].point.timeCreated) &&
    (forall i, j :: 0 <= i <= j < cnt && i / 3 == j / 3 ==> dp[j].point.timeCreated == dp[i].point.timeCreated)
  }

  /** A well-formed trail whose display store is batched. */
  predicate Batched(s: Trail) {
    WellFormed(s) && StoreBatched(s.displayPoints, s.displayCnt)
  }

  /** No live display point of `dp[..cnt]` was created after `now`. */
  predicate NotAhead(dp: seq<Slot>, cnt: int, now: real)
    requires StoreBatched(dp, cnt)
  {
    forall i :: 0 <= i < cnt ==> dp[i].point.timeCreated <= now
  }

  /** A store not ahead of a clock value is not ahead of any later one. */
  lemma NotAheadLater(dp: seq<Slot>, cnt: int, earlier: real, later: real)
    requires StoreBatched(dp, cnt) && NotAhead(dp, cnt, earlier) && earlier <= later
    ensures NotAhead(dp, cnt, later)
  {
  }

  /** Whether the `Update` of a frame admits `position` into the ring. */
  predicate Admits(s: Trail, position: Vec3, cfg: Config)
    requires WellFormed(s)
    ensures s.controlPoints[0] == position ==> (Admits(s, position, cfg) <==> cfg.minControlPtnDistance < 0.0)
  {
    Far(s.controlPoints[0], position, cfg.minControlPtnDistance)
  }

  /** Whether that admission goes on to insert a spline batch. */
  predicate Inserts(s: Trail, position: Vec3, cfg: Config)
    requires WellFormed(s)
    ensures s.controlCnt <= 1 ==> !Inserts(s, position, cfg)
    ensures s.controlCnt >= 2 ==> (Inserts(s, position, cfg) <==> Admits(s, position, cfg))
  {
    Admits(s, position, cfg) && s.controlCnt + 1 >= 3
  }

  /** Slot `i` of `dp` as the expiry pass over `[0, cnt)` leaves it. */
  function AfterExpiry(dp: seq<Slot>, cnt: int, i: int, now: real, lifeTime: real): Slot
    requires 0 <= i < |dp|
  {
    if i < cnt && Expired(dp[i], now, lifeTime) then Null else dp[i]
  }

  /** `Start`: the fresh arrays, with the object's position in control slot
      0 and one control point counted. */
  function Start(position: Vec3): (s: Trail)
    ensures Batched(s) && s.displayCnt == 0
    ensures s.controlCnt == 1 && s.controlPoints[0] == position
    ensures forall k :: 1 <= k < ControlRing.Capacity ==> s.controlPoints[k] == Zero
  {
    Trail([position, Zero, Zero, Zero], 1, seq(DisplayStore.Capacity, _ => Null), 0)
  }

  /** Interpolation starts at the second admission after `Start`, while the
      ring still holds one default slot: the first batch is a spline whose
      first control point is the zero vector. */
  lemma FirstBatchReadsDefaultSlot(start: Vec3, a: Vec3, b: Vec3)
    ensures Window(Start(start).controlPoints, [a, b]) == [b, a, start, Zero]
  {
    var init := Start(start).controlPoints;
    WindowIsNewestFirst(init, [a, b]);
  }

  /** `OnDisable`: both counts drop to zero and the mesh is cleared; the
      arrays keep their contents. */
  function OnDisable(s: Trail): (r: (Trail, Mesh))
    ensures r.0.controlCnt == 0 && r.0.displayCnt == 0
    ensures r.0.controlPoints == s.controlPoints && r.0.displayPoints == s.displayPoints
    ensures r.1 == EmptyMesh
    ensures WellFormed(s) ==> Batched(r.0)
  {
    (s.(controlCnt := 0, displayCnt := 0), EmptyMesh)
  }

  /** The points of one batch expire together. */
  lemma BatchExpiresTogether(dp: seq<Slot>, cnt: int, now: real, lifeTime: real, i: int)
    requires StoreBatched(dp, cnt) && 0 <= i < cnt
    requires Expired(dp[i], now, lifeTime)
    ensures Expired(dp[i - i % 3], now, lifeTime)
  {
  }

  /** Survivors of the expiry pass over a batched store form a batched
      prefix again. */
  lemma ExpiryKeepsBatched(dp: seq<Slot>, cnt: int, now: real, lifeTime: real,
                           r: seq<Slot>, newCnt: int)
    requires StoreBatched(dp, cnt) && NotAhead(dp, cnt, now)
    requires |r| == |dp|
    requires newCnt == cnt - CountExpired(dp[..cnt], now, lifeTime)
    requires forall i :: 0 <= i < cnt ==>
               r[i] == if Expired(dp[i], now, lifeTime) then Null else dp[i]
    ensures StoreBatched(r, newCnt) && NotAhead(r, newCnt, now)
    ensures forall i :: 0 <= i < newCnt ==> r[i] == dp[i]
  {
    OlderLaterMakesExpiryMonotone(dp[..cnt], now, lifeTime);
    ExpiryKeepsPrefix(dp, cnt, now, lifeTime, r, newCnt);
    if newCnt < cnt && newCnt % 3 != 0 {
      // slot `newCnt` expired, so the head of its batch, which survived, did too
      BatchExpiresTogether(dp, cnt, now, lifeTime, newCnt);
      assert false;
    }
  }

  /** A batch stamped `now` in front of a batched store that is not ahead of
      `now` leaves a batched store. */
  lemma InsertionKeepsBatched(dp: seq<Slot>, cnt: int, now: real, r: seq<Slot>, newCnt: int)
    requires StoreBatched(dp, cnt) && NotAhead(dp, cnt, now)
    requires |dp| == DisplayStore.Capacity && |r| == DisplayStore.Capacity
    requires newCnt == if cnt + 3 > MaxCount then MaxCount else cnt + 3
    requires forall k :: 3 <= k <= newCnt ==> r[k] == dp[k - 3]
    requires forall k :: 0 <= k < 3 ==> r[k].Live? && r[k].point.timeCreated == now
    ensures StoreBatched(r, newCnt) && NotAhead(r, newCnt, now)
  {
    forall i | 0 <= i < newCnt
      ensures r[i].Live? && r[i].point.timeCreated <= now
    {
      if i >= 3 {
        assert r[i] == dp[i - 3];
      }
    }
    forall i, j | 0 <= i <= j < newCnt
      ensures r[j].point.timeCreated <= r[i].point.timeCreated
      ensures i / 3 == j / 3 ==> r[j].point.timeCreated == r[i].point.timeCreated
    {
      if i >= 3 {
        assert r[i] == dp[i - 3] && r[j] == dp[j - 3];
        assert i / 3 == j / 3 ==> (i - 3) / 3 == (j - 3) / 3;
      } else if j >= 3 {
        assert r[j] == dp[j - 3];
      }
    }
  }

  /** Two vertices for each point of whole batches of three make whole
      batches of six vertices, and never the two of a single point. */
  lemma WholeBatchesOfVertices(cnt: int)
    requires 0 <= cnt && cnt % 3 == 0
    ensures (2 * cnt) % 6 == 0 && 2 * cnt != 2
  {
  }

  /** The expiry pass as a step of `Update`: the control ring is untouched
      and the batched shape survives. */
  method ExpiryStep(s: Trail, now: real, lifeTime: real) returns (r: Trail)
    requires Batched(s) && NotAhead(s.displayPoints, s.displayCnt, now)
    ensures Batched(r) && NotAhead(r.displayPoints, r.displayCnt, now)
    ensures r.controlPoints == s.controlPoints && r.controlCnt == s.controlCnt
    ensures r.displayCnt == s.displayCnt - CountExpired(s.displayPoints[..s.displayCnt], now, lifeTime)
    ensures forall i :: 0 <= i < DisplayStore.Capacity ==>
              r.displayPoints[i] == AfterExpiry(s.displayPoints, s.displayCnt, i, now, lifeTime)
  {
    var dp, cnt := Expire(s.displayPoints, s.displayCnt, now, lifeTime);
    assert Visited(s.displayPoints, s.displayCnt) == s.displayPoints[..s.displayCnt];
    ExpiryKeepsBatched(s.displayPoints, s.displayCnt, now, lifeTime, dp, cnt);
    r := s.(displayPoints := dp, displayCnt := cnt);
  }

  /** Admission as a step of `Update`: the position enters the ring and is
      counted; the display store is untouched. */
  method AdmissionStep(s: Trail, position: Vec3) returns (r: Trail)
    requires Batched(s)
    ensures Batched(r)
    ensures r.displayPoints == s.displayPoints && r.displayCnt == s.displayCnt
    ensures r.controlCnt == s.controlCnt + 1
    ensures r.controlPoints[0] == position && r.controlPoints[1..] == s.controlPoints[..3]
  {
    var cp := ShiftIn(s.controlPoints, position);
    r := s.(controlPoints := cp, controlCnt := s.controlCnt + 1);
  }

  /** Batch insertion as a step of `Update`: three points stamped `now` in
      front, the rest three places older, the count capped at `MaxCount`. */
  method InsertionStep(s: Trail, now: real) returns (r: Trail)
    requires Batched(s) && NotAhead(s.displayPoints, s.displayCnt, now)
    ensures Batched(r) && NotAhead(r.displayPoints, r.displayCnt, now)
    ensures r.controlPoints == s.controlPoints && r.controlCnt == s.controlCnt
    ensures r.displayCnt == if s.displayCnt + 3 > MaxCount then MaxCount else s.displayCnt + 3
    ensures forall k :: 3 <= k <= r.displayCnt ==> r.displayPoints[k] == s.displayPoints[k - 3]
    ensures forall k :: r.displayCnt < k < DisplayStore.Capacity ==> r.displayPoints[k] == s.displayPoints[k]
    ensures var cp := s.controlPoints;
            r.displayPoints[0] == Stamp(cp[1], now) &&
            r.displayPoints[1] == Stamp(CRSpline(0.66, cp[3], cp[2], cp[1], cp[0]), now) &&
            r.displayPoints[2] == Stamp(CRSpline(0.33, cp[3], cp[2], cp[1], cp[0]), now)
  {
    var dp, cnt := AddNewDisplayPoints(s.displayPoints, s.displayCnt, s.controlPoints, now);
    InsertionKeepsBatched(s.displayPoints, s.displayCnt, now, dp, cnt);
    r := s.(displayPoints := dp, displayCnt := cnt);
  }

  /** `Update` for one frame at clock `now`. The returned trail holds the
      state after the frame; `frame` is `Skipped` exactly when the early
      `return` fires between admission and insertion, and a drawn ribbon is
      made of whole batches, never of a single point. */
  method Update(s: Trail, position: Vec3, now: real, cfg: Config, cameraPos: Vec3,
                perpendicular: (Vec3, Vec3) -> Vec3)
    returns (r: Trail, frame: Frame)
    requires Batched(s) && NotAhead(s.displayPoints, s.displayCnt, now)
    ensures Batched(r) && NotAhead(r.displayPoints, r.displayCnt, now)
    ensures r.controlCnt == s.controlCnt + (if Admits(s, position, cfg) then 1 else 0)
    ensures Admits(s, position, cfg) ==>
              r.controlPoints[0] == position && r.controlPoints[1..] == s.controlPoints[..3]
    ensures !Admits(s, position, cfg) ==> r.controlPoints == s.controlPoints
    ensures var survivors := s.displayCnt - CountExpired(s.displayPoints[..s.displayCnt], now, cfg.lifeTime);
            r.displayCnt == if !Inserts(s, position, cfg) then survivors
                            else if survivors + 3 > MaxCount then MaxCount
                            else survivors + 3
    ensures !Inserts(s, position, cfg) ==> forall i :: 0 <= i < DisplayStore.Capacity ==>
              r.displayPoints[i] == AfterExpiry(s.displayPoints, s.displayCnt, i, now, cfg.lifeTime)
    ensures Inserts(s, position, cfg) ==> forall k :: 3 <= k <= r.displayCnt ==>
              r.displayPoints[k] == AfterExpiry(s.displayPoints, s.displayCnt, k - 3, now, cfg.lifeTime)
    ensures Inserts(s, position, cfg) ==> forall k :: r.displayCnt < k < DisplayStore.Capacity ==>
              r.displayPoints[k] == AfterExpiry(s.displayPoints, s.displayCnt, k, now, cfg.lifeTime)
    ensures Inserts(s, position, cfg) ==>
              r.displayPoints[0] == Stamp(s.controlPoints[0], now) &&
              r.displayPoints[1] == Stamp(CRSpline(0.66, r.controlPoints[3], r.controlPoints[2],
                                                   r.controlPoints[1], r.controlPoints[0]), now) &&
              r.displayPoints[2] == Stamp(CRSpline(0.33, r.controlPoints[3], r.controlPoints[2],
                                                   r.controlPoints[1], r.controlPoints[0]), now)
    ensures frame.Skipped? <==> Admits(s, position, cfg) && s.controlCnt + 1 < 3
    ensures frame.Drawn? ==>
              |frame.mesh.vertices| == 2 * r.displayCnt &&
              |frame.mesh.vertices| % 6 == 0 && |frame.mesh.vertices| != 2 &&
              |frame.mesh.uvs| == 2 * r.displayCnt && |frame.mesh.colors| == 2 * r.displayCnt &&
              (r.displayCnt == 0 ==> frame.mesh == EmptyMesh) &&
              IsStrip(frame.mesh.triangles, r.displayCnt) &&
              forall k :: 0 <= k < |frame.mesh.colors| ==> frame.mesh.colors[k] == cfg.color
  {
    r := ExpiryStep(s, now, cfg.lifeTime);

    if Far(r.controlPoints[0], position, cfg.minControlPtnDistance) {
      r := AdmissionStep(r, position);

      if r.controlCnt < 3 {
        return r, Skipped;
      }

      r := InsertionStep(r, now);
    }

    WholeBatchesOfVertices(r.displayCnt);
    var mesh := RenderTrail(r.displayPoints, r.displayCnt, cameraPos, cfg.width, cfg.color, perpendicular);
    frame := Drawn(mesh);
  }

  /** The first batch of a trail: after `Start` at `start`, a frame at `t1`
      admits `a` and is skipped, and a frame at `t2` admits `b` and inserts a
      batch. The ring still holds the default zero vector, so the batch is a
      spline whose first control point is `Zero`; its newest point is `a`. */
  method FirstBatch(start: Vec3, a: Vec3, b: Vec3, t1: real, t2: real, cfg: Config,
                    cameraPos: Vec3, perpendicular: (Vec3, Vec3) -> Vec3)
    returns (s: Trail, first: Frame, second: Frame)
    requires Far(start, a, cfg.minControlPtnDistance) && Far(a, b, cfg.minControlPtnDistance)
    requires t1 <= t2
    ensures first == Skipped && second.Drawn?
    ensures s.controlPoints == [b, a, start, Zero] && s.controlCnt == 3
    ensures Batched(s) && s.displayCnt == 3
    ensures s.displayPoints[0] == Stamp(a, t2)
    ensures s.displayPoints[1] == Stamp(CRSpline(0.66, Zero, start, a, b), t2)
    ensures s.displayPoints[2] == Stamp(CRSpline(0.33, Zero, start, a, b), t2)
  {
    var s0 := Start(start);
    assert s0.displayPoints[..s0.displayCnt] == [];
    var s1;
    s1, first := Update(s0, a, t1, cfg, cameraPos, perpendicular);
    assert s1.displayPoints[..s1.displayCnt] == [];
    s, second := Update(s1, b, t2, cfg, cameraPos, perpendicular);
    assert s.controlPoints == [s.controlPoints[0]] + s.controlPoints[1..];
  }

  /** One event from the engine: a frame, or the component being disabled. */
  datatype Event = Tick(position: Vec3, now: real, cameraPos: Vec3) | Disable

  /** The clock values of the frames never decrease. */
  predicate ClockMonotone(events: seq<Event>) {
    forall i, j :: 0 <= i <= j < |events| && events[i].Tick? && events[j].Tick? ==>
      events[i].now <= events[j].now
  }

  /** A whole life of the component: `Start`, then the events in order. As
      long as the clock never runs backwards, every drawn ribbon is made of
      whole batches of three points, so `RenderTrail` is never reached with a
      single live point. */
  method Run(start: Vec3, events: seq<Event>, cfg: Config, perpendicular: (Vec3, Vec3) -> Vec3)
    returns (s: Trail, frames: seq<Frame>)
    requires ClockMonotone(events)
    ensures Batched(s)
    ensures |frames| == |events|
    ensures forall k :: 0 <= k < |frames| && frames[k].Drawn? ==>
              |frames[k].mesh.vertices| % 6 == 0 &&
              |frames[k].mesh.vertices| != 2
  {
    s := Start(start);
    frames := [];
    // the clock value of the latest frame, once one has stored a point
    ghost var clock := 0.0;
    var k := 0;
    while k < |events|
      invariant 0 <= k <= |events|
      invariant Batched(s)
      invariant |frames| == k
      invariant forall j :: 0 <= j < k && frames[j].Drawn? ==>
                  |frames[j].mesh.vertices| % 6 == 0 && |frames[j].mesh.vertices| != 2
      invariant s.displayCnt == 0 ||
                (NotAhead(s.displayPoints, s.displayCnt, clock) &&
                 forall j :: k <= j < |events| && events[j].Tick? ==> clock <= events[j].now)
    {
      match events[k] {
        case Tick(position, now, cameraPos) =>
          if s.displayCnt != 0 {
            NotAheadLater(s.displayPoints, s.displayCnt, clock, now);
          }
          var frame;
          s, frame := Update(s, position, now, cfg, cameraPos, perpendicular);
          clock := now;
          frames := frames + [frame];
        case Disable =>
          var cleared := OnDisable(s);
          s := cleared.0;
          frames := frames + [Drawn(cleared.1)];
      }
      k := k + 1;
    }
  }
}
