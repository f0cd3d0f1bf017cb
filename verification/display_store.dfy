/** The 400-slot store of interpolated, timestamped display points, kept
    newest first with a live count `displayCnt`: the expiry pass and the
    capacity-capped batch insertion of `AddNewDisplayPoints`. */
module DisplayStore {
  import opened Vectors
  import opened Spline

  /** Length of `displayPoints`. */
  const Capacity: nat := 400

  /** The largest count insertion ever sets, one short of `Capacity`. */
  const MaxCount: int := 399

  /** An interpolated point and the clock value at its creation. */
  datatype DisplayPoint = DisplayPoint(position: Vec3, timeCreated: real)

  /** One slot of `displayPoints`: a null reference or a point. */
  datatype Slot = Null | Live(point: DisplayPoint)

  /** `DisplayPoint.age`, with the clock passed in as `now`. */
  function Age(p: DisplayPoint, now: real): (a: real)
    ensures now == p.timeCreated ==> a == 0.0
    ensures now >= p.timeCreated ==> a >= 0.0
  {
    now - p.timeCreated
  }

  /** The test of the expiry pass: a null slot, or a point older than `lifeTime`. */
  predicate Expired(s: Slot, now: real, lifeTime: real)
    // a point stamped with the current clock survives any non-negative lifeTime
    ensures s.Live? && s.point.timeCreated == now && lifeTime >= 0.0 ==> !Expired(s, now, lifeTime)
  {
    s.Null? || Age(s.point, now) > lifeTime
  }

  /** The slots `[0, cnt)` the expiry pass visits (none when `cnt` is not positive). */
  function Visited(dp: seq<Slot>, cnt: int): (v: seq<Slot>)
    requires cnt <= |dp|
    ensures |v| == if cnt < 0 then 0 else cnt
  {
    if cnt <= 0 then [] else dp[..cnt]
  }

  /** How many slots of `s` the expiry pass removes. */
  function CountExpired(s: seq<Slot>, now: real, lifeTime: real): (n: nat)
    ensures n <= |s|
  {
    if |s| == 0 then 0
    else (if Expired(s[0], now, lifeTime) then 1 else 0) + CountExpired(s[1..], now, lifeTime)
  }

  /** The count is the whole length exactly when every slot has expired. */
  lemma {:induction false} CountExpiredAll(s: seq<Slot>, now: real, lifeTime: real)
    ensures CountExpired(s, now, lifeTime) == |s|
            <==> forall i :: 0 <= i < |s| ==> Expired(s[i], now, lifeTime)
  {
    if |s| > 0 {
      CountExpiredAll(s[1..], now, lifeTime);
      assert forall i :: 1 <= i < |s| ==> s[i] == s[1..][i - 1];
    }
  }

  /** The count is zero exactly when no slot has expired. */
  lemma {:induction false} CountExpiredNone(s: seq<Slot>, now: real, lifeTime: real)
    ensures CountExpired(s, now, lifeTime) == 0
            <==> forall i :: 0 <= i < |s| ==> !Expired(s[i], now, lifeTime)
  {
    if |s| > 0 {
      CountExpiredNone(s[1..], now, lifeTime);
      assert forall i :: 1 <= i < |s| ==> s[i] == s[1..][i - 1];
    }
  }

  /** The expiry pass of `Update`: walks `[0, cnt)` from the top, nulls every
      expired slot and lowers the count once for each. */
  method Expire(dp: seq<Slot>, cnt: int, now: real, lifeTime: real)
    returns (r: seq<Slot>, newCnt: int)
    requires cnt <= |dp|
    ensures |r| == |dp|
    ensures newCnt == cnt - CountExpired(Visited(dp, cnt), now, lifeTime)
    ensures forall i :: 0 <= i < cnt ==>
              r[i] == if Expired(dp[i], now, lifeTime) then Null else dp[i]
    ensures forall i :: 0 <= i < |dp| && cnt <= i ==> r[i] == dp[i]
  {
    r := dp;
    newCnt := cnt;
    var i := cnt - 1;
    while i >= 0
      invariant i < cnt
      invariant cnt > 0 ==> -1 <= i
      invariant |r| == |dp|
      invariant forall k :: 0 <= k <= i ==> r[k] == dp[k]
      invariant forall k :: 0 <= k && i < k < cnt ==>
                  r[k] == if Expired(dp[k], now, lifeTime) then Null else dp[k]
      invariant forall k :: 0 <= k < |dp| && cnt <= k ==> r[k] == dp[k]
      invariant cnt > 0 ==> newCnt == cnt - CountExpired(dp[i + 1..cnt], now, lifeTime)
      invariant cnt <= 0 ==> newCnt == cnt
    {
      assert dp[i..cnt][1..] == dp[i + 1..cnt];
      if Expired(r[i], now, lifeTime) {
        r := r[i := Null];
        newCnt := newCnt - 1;
      }
      i := i - 1;
    }
    if cnt > 0 {
      assert dp[0..cnt] == dp[..cnt];
    }
  }

  /** Expiry is monotone along `s`: once a slot expires, every later one does too. */
  predicate ExpiryIsMonotone(s: seq<Slot>, now: real, lifeTime: real) {
    forall i, j :: 0 <= i <= j < |s| && Expired(s[i], now, lifeTime) ==> Expired(s[j], now, lifeTime)
  }

  /** Live points whose creation times do not increase with the index have
      ages that do not decrease, so their expiry is monotone. */
  lemma OlderLaterMakesExpiryMonotone(s: seq<Slot>, now: real, lifeTime: real)
    requires forall i :: 0 <= i < |s| ==> s[i].Live?
    requires forall i, j :: 0 <= i <= j < |s| ==> s[j].point.timeCreated <= s[i].point.timeCreated
    ensures ExpiryIsMonotone(s, now, lifeTime)
  {
  }

  /** When expiry is monotone, the slots that survive are exactly the first
      `|s| - CountExpired(s)` ones. */
  lemma {:induction false} MonotoneSurvivorsArePrefix(s: seq<Slot>, now: real, lifeTime: real)
    requires ExpiryIsMonotone(s, now, lifeTime)
    ensures forall i :: 0 <= i < |s| ==>
              (i < |s| - CountExpired(s, now, lifeTime) <==> !Expired(s[i], now, lifeTime))
  {
    if |s| > 0 {
      var rest := s[1..];
      assert forall i :: 1 <= i < |s| ==> s[i] == rest[i - 1];
      if Expired(s[0], now, lifeTime) {
        assert forall i :: 0 <= i < |s| ==> Expired(s[i], now, lifeTime);
        CountExpiredAll(s, now, lifeTime);
      } else {
        assert ExpiryIsMonotone(rest, now, lifeTime);
        MonotoneSurvivorsArePrefix(rest, now, lifeTime);
        assert CountExpired(s, now, lifeTime) == CountExpired(rest, now, lifeTime);
      }
    }
  }

  /** Applied to the expiry pass: with monotone expiry over `[0, cnt)`, the
      points left are exactly the slots `[0, newCnt)`, untouched, and every
      slot of `[newCnt, cnt)` is null. */
  lemma ExpiryKeepsPrefix(dp: seq<Slot>, cnt: int, now: real, lifeTime: real,
                          r: seq<Slot>, newCnt: int)
    requires 0 <= cnt <= |dp| && |r| == |dp|
    requires newCnt == cnt - CountExpired(dp[..cnt], now, lifeTime)
    requires forall i :: 0 <= i < cnt ==>
               r[i] == if Expired(dp[i], now, lifeTime) then Null else dp[i]
    requires ExpiryIsMonotone(dp[..cnt], now, lifeTime)
    ensures 0 <= newCnt <= cnt
    ensures forall i :: 0 <= i < newCnt ==> r[i] == dp[i] && !Expired(dp[i], now, lifeTime)
    ensures forall i :: newCnt <= i < cnt ==> r[i] == Null && Expired(dp[i], now, lifeTime)
  {
    MonotoneSurvivorsArePrefix(dp[..cnt], now, lifeTime);
    assert forall i :: 0 <= i < cnt ==> dp[..cnt][i] == dp[i];
  }

  /** The point `new DisplayPoint(pos)` stamped with the current clock. */
  function Stamp(pos: Vec3, now: real): (s: Slot)
    ensures s.Live? && s.point.position == pos && Age(s.point, now) == 0.0
  {
    Live(DisplayPoint(pos, now))
  }

  /** `AddNewDisplayPoints`: raises the count by three, capped at `MaxCount`,
      moves every slot in `[3, newCnt]` three places older, and writes the
      spline through the control ring at t = 1.0, 0.66, 0.33 into slots 0, 1,
      2, oldest control point first. */
  method AddNewDisplayPoints(dp: seq<Slot>, cnt: int, cp: seq<Vec3>, now: real)
    returns (r: seq<Slot>, newCnt: int)
    requires |dp| == Capacity && |cp| == 4
    ensures newCnt <= MaxCount
    ensures newCnt == if cnt + 3 > MaxCount then MaxCount else cnt + 3
    ensures |r| == Capacity
    ensures forall k :: 3 <= k <= newCnt ==> r[k] == dp[k - 3]
    ensures forall k :: 3 <= k < Capacity && newCnt < k ==> r[k] == dp[k]
    ensures r[0] == Stamp(CRSpline(1.0, cp[3], cp[2], cp[1], cp[0]), now)
    ensures r[1] == Stamp(CRSpline(0.66, cp[3], cp[2], cp[1], cp[0]), now)
    ensures r[2] == Stamp(CRSpline(0.33, cp[3], cp[2], cp[1], cp[0]), now)
    ensures r[0].point.position == cp[1]
  {
    var j := cnt + 3;
    if cnt + 3 > MaxCount {
      j := MaxCount;
    }
    newCnt := j;
    r := dp;
    while j > 2
      invariant j <= newCnt || j <= 2
      invariant j <= MaxCount
      invariant |r| == Capacity
      invariant forall k :: 0 <= k < Capacity && (k <= j || newCnt < k) ==> r[k] == dp[k]
      invariant forall k :: j < k <= newCnt && 3 <= k ==> r[k] == dp[k - 3]
    {
      r := r[j := r[j - 3]];
      j := j - 1;
    }
    r := r[2 := Stamp(CRSpline(0.33, cp[3], cp[2], cp[1], cp[0]), now)];
    r := r[1 := Stamp(CRSpline(0.66, cp[3], cp[2], cp[1], cp[0]), now)];
    r := r[0 := Stamp(CRSpline(1.0, cp[3], cp[2], cp[1], cp[0]), now)];
  }
}
