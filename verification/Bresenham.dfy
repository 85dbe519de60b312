/** The clock's drawLine: Bresenham's algorithm with a guard of 512 iterations. */
module Bresenham {
  type i32 = x: int | -0x8000_0000 <= x < 0x8000_0000

  const GUARD: nat := 512
  /** Up to this extent no slope takes 2 * err out of the int range. */
  const MAX_EXTENT: nat := 715_827_882

  function Abs(x: int): nat { if x < 0 then -x else x }

  function Max(a: int, b: int): int { if a > b then a else b }

  /** Steps from c0 towards c1 that bring c0 to c. */
  function Steps(c0: int, c1: int, c: int): int { if c0 < c1 then c - c0 else c0 - c }

  /** p is the k-th point of the line: k steps along the longer axis and, along the other, the point within half a
      step of the true line. */
  ghost predicate OnLine(x0: int, y0: int, x1: int, y1: int, p: (int, int), k: nat) {
    var dx, dy := Abs(x1 - x0), Abs(y1 - y0);
    var a, b := Steps(x0, x1, p.0), Steps(y0, y1, p.1);
    && 0 <= a <= dx && 0 <= b <= dy
    && (dx >= dy ==> a == k) && (dy >= dx ==> b == k)
    && 2 * Abs(b * dx - a * dy) <= Max(dx, dy)
  }

  /** State of the loop after k iterations: a and b steps taken, e the signed distance b*dx - a*dy. */
  ghost predicate Inv(dx: nat, dy: nat, k: nat, a: nat, b: nat, e: int) {
    && e == b * dx - a * dy
    && a <= dx && b <= dy
    && (dx >= dy ==> a == k) && (dy >= dx ==> b == k)
    && 2 * Abs(e) <= Max(dx, dy)
  }

  lemma MulMono(a: int, b: int, m: int)
    requires a <= b && 0 <= m
    ensures a * m <= b * m
  {
  }

  lemma Distribute(a: int, d: int, m: int)
    ensures (a + d) * m == a * m + d * m
  {
  }

  /** Half a step off the line, the minor axis never overshoots, and where the major axis ends so does the minor. */
  lemma MinorBound(major: nat, minor: nat, a: nat, b: int)
    requires 0 < major && a <= major && 2 * Abs(b * major - a * minor) <= major
    ensures 0 <= b <= minor
    ensures a == major ==> b == minor
  {
    var p, q := b * major, a * minor;
    assert 2 * Abs(p - q) <= major;
    MulMono(0, a, minor);
    MulMono(a, major, minor);
    Distribute(minor, 1, major);
    Distribute(minor, -1, major);
    assert major * minor == minor * major;
    if b < 0 {
      MulMono(b, -1, major);
    } else if b > minor {
      MulMono(minor + 1, b, major);
    } else if a == major && b < minor {
      MulMono(b, minor - 1, major);
    }
  }

  /** The distance after one iteration. */
  function NextE(dx: nat, dy: nat, e: int): int {
    var e2 := 2 * (dx - dy + e);
    e - (if e2 > 0 - dy then dy else 0) + (if e2 < dx then dx else 0)
  }

  lemma NextDistance(dx: nat, dy: nat, a: nat, b: nat, e: int)
    requires e == b * dx - a * dy
    ensures var e2 := 2 * (dx - dy + e);
            NextE(dx, dy, e) == (if e2 < dx then b + 1 else b) * dx - (if e2 > 0 - dy then a + 1 else a) * dy
  {
    Distribute(b, 1, dx);
    Distribute(a, 1, dy);
  }

  /** One iteration that has not reached the end: the two tests move the major axis, and keep the distance halved. */
  lemma Advance(dx: nat, dy: nat, k: nat, a: nat, b: nat, e: int)
    requires Inv(dx, dy, k, a, b, e) && k < Max(dx, dy)
    ensures var e2 := 2 * (dx - dy + e);
            Inv(dx, dy, k + 1, if e2 > 0 - dy then a + 1 else a, if e2 < dx then b + 1 else b, NextE(dx, dy, e))
  {
    var e2 := 2 * (dx - dy + e);
    var a', b' := if e2 > 0 - dy then a + 1 else a, if e2 < dx then b + 1 else b;
    NextDistance(dx, dy, a, b, e);
    if dx == dy {
      assert b * dx - a * dy == 0;
    } else if dx > dy {
      MinorBound(dx, dy, a', b');
    } else {
      MinorBound(dy, dx, b', a');
    }
  }

  /** At the end of the longer axis the point is the endpoint, and not before. */
  lemma Arrived(dx: nat, dy: nat, k: nat, a: nat, b: nat, e: int)
    requires Inv(dx, dy, k, a, b, e)
    ensures a == dx && b == dy <==> k == Max(dx, dy)
  {
    if k == Max(dx, dy) {
      if dx > dy {
        MinorBound(dx, dy, a, b);
      } else if dy > dx {
        MinorBound(dy, dx, b, a);
      }
    }
  }

  /** Only the last point of the whole line is its endpoint. */
  lemma EndpointIndex(x0: int, y0: int, x1: int, y1: int, p: (int, int), k: nat)
    requires OnLine(x0, y0, x1, y1, p, k)
    ensures p == (x1, y1) <==> k == Max(Abs(x1 - x0), Abs(y1 - y0))
  {
    var a, b := Steps(x0, x1, p.0), Steps(y0, y1, p.1);
    Arrived(Abs(x1 - x0), Abs(y1 - y0), k, a, b, b * Abs(x1 - x0) - a * Abs(y1 - y0));
  }

  /** The loop variables stand for a point of the line, and no computation on them leaves the int range. */
  ghost predicate Tracks(x0: i32, y0: i32, x1: i32, y1: i32, x: int, y: int, err: int, k: nat) {
    var dx, dy := Abs(x1 - x0), Abs(y1 - y0);
    var a, b := Steps(x0, x1, x), Steps(y0, y1, y);
    a >= 0 && b >= 0 && Inv(dx, dy, k, a, b, err - dx + dy)
  }

  lemma TracksOnLine(x0: i32, y0: i32, x1: i32, y1: i32, x: int, y: int, err: int, k: nat)
    requires Tracks(x0, y0, x1, y1, x, y, err, k)
    ensures OnLine(x0, y0, x1, y1, (x, y), k)
    ensures 2 * Abs(err) <= 3 * Max(Abs(x1 - x0), Abs(y1 - y0))
  {
  }

  lemma TracksNext(x0: i32, y0: i32, x1: i32, y1: i32, x: int, y: int, err: int, k: nat)
    requires Tracks(x0, y0, x1, y1, x, y, err, k) && k < Max(Abs(x1 - x0), Abs(y1 - y0))
    ensures var dx, dy := Abs(x1 - x0), Abs(y1 - y0);
            var right, down := 2 * err > 0 - dy, 2 * err < dx;
            Tracks(x0, y0, x1, y1,
                   if right then (if x0 < x1 then x + 1 else x - 1) else x,
                   if down then (if y0 < y1 then y + 1 else y - 1) else y,
                   err - (if right then dy else 0) + (if down then dx else 0), k + 1)
  {
    var dx, dy := Abs(x1 - x0), Abs(y1 - y0);
    Advance(dx, dy, k, Steps(x0, x1, x), Steps(y0, y1, y), err - dx + dy);
  }

  predicate Int(v: int) { -0x8000_0000 <= v < 0x8000_0000 }

  /** err after the first test of an iteration. */
  function Halfway(dy: nat, err: int): int { if 2 * err > 0 - dy then err - dy else err }

  /** err before iteration k. */
  function Err(dx: nat, dy: nat, k: nat): int {
    if k == 0 then dx - dy
    else
      var e := Err(dx, dy, k - 1);
      Halfway(dy, e) + if 2 * e < dx then dx else 0
  }

  /** No int overflows: neither the differences nor, in any iteration that takes place, 2 * err and the new err. */
  predicate Defined(x0: i32, y0: i32, x1: i32, y1: i32) {
    var dx, dy := Abs(x1 - x0), Abs(y1 - y0);
    && Int(dx) && Int(dy)
    && forall k :: 0 <= k < Max(dx, dy) && k < GUARD ==> Computes(dx, dy, k)
  }

  predicate Computes(dx: nat, dy: nat, k: nat) {
    Int(2 * Err(dx, dy, k)) && Int(Halfway(dy, Err(dx, dy, k))) && Int(Err(dx, dy, k + 1))
  }

  lemma {:induction false} ErrTracks(x0: i32, y0: i32, x1: i32, y1: i32, k: nat) returns (x: int, y: int)
    requires k <= Max(Abs(x1 - x0), Abs(y1 - y0))
    ensures Tracks(x0, y0, x1, y1, x, y, Err(Abs(x1 - x0), Abs(y1 - y0), k), k)
    decreases k
  {
    hide Tracks;
    x, y := x0, y0;
    if k == 0 {
      StartTracks(x0, y0, x1, y1);
    } else {
      var dx, dy := Abs(x1 - x0), Abs(y1 - y0);
      x, y := ErrTracks(x0, y0, x1, y1, k - 1);
      var e: int := Err(dx, dy, k - 1);
      TracksNext(x0, y0, x1, y1, x, y, e, k - 1);
      NextErr(dx, dy, k - 1);
      var right, down := 2 * e > 0 - (dy as int), 2 * e < dx;
      x, y := if right then (if x0 < x1 then x + 1 else x - 1) else x,
              if down then (if y0 < y1 then y + 1 else y - 1) else y;
    }
  }

  /** Every line of moderate extent is defined. */
  lemma ModerateIsDefined(x0: i32, y0: i32, x1: i32, y1: i32)
    requires Max(Abs(x1 - x0), Abs(y1 - y0)) <= MAX_EXTENT
    ensures Defined(x0, y0, x1, y1)
  {
    hide Inv, Err;
    var dx, dy := Abs(x1 - x0), Abs(y1 - y0);
    forall k | 0 <= k < Max(dx, dy) && k < GUARD ensures Computes(dx, dy, k) {
      var x, y := ErrTracks(x0, y0, x1, y1, k);
      TracksOnLine(x0, y0, x1, y1, x, y, Err(dx, dy, k), k);
      var x', y' := ErrTracks(x0, y0, x1, y1, k + 1);
      TracksOnLine(x0, y0, x1, y1, x', y', Err(dx, dy, k + 1), k + 1);
    }
  }

  lemma {:induction false} FlatErr(dx: nat, k: nat)
    requires dx > 0
    ensures Err(dx, 0, k) == dx
  {
    if k > 0 {
      FlatErr(dx, k - 1);
    }
  }

  /** A horizontal line may be longer: it is defined exactly up to 2^30 - 1. */
  lemma FlatDefined(x0: i32, x1: i32, y: i32)
    ensures Defined(x0, y, x1, y) <==> Abs(x1 - x0) < 0x4000_0000
  {
    var dx := Abs(x1 - x0);
    if dx > 0 {
      forall k: nat ensures Err(dx, 0, k) == dx {
        FlatErr(dx, k);
      }
      assert Max(dx, 0) == dx && (Defined(x0, y, x1, y) ==> Computes(dx, 0, 0));
    }
  }

  /** drawLine. Each FillRect is recorded with its corner; thickness and colour play no part. */
  method DrawLine(x0: i32, y0: i32, x1: i32, y1: i32) returns (plots: seq<(int, int)>)
    requires Defined(x0, y0, x1, y1)
    ensures var n := Max(Abs(x1 - x0), Abs(y1 - y0));
            && |plots| == (if n < GUARD then n + 1 else GUARD)
            && plots[0] == (x0, y0)
            && (plots[|plots| - 1] == (x1, y1) <==> n <= 511)
            && forall k :: 0 <= k < |plots| ==> OnLine(x0, y0, x1, y1, plots[k], k)
  {
    hide Inv, OnLine, Err, Tracks, Halfway;
    var dx: i32 := if x1 > x0 then x1 - x0 else x0 - x1;
    var dy: i32 := if y1 > y0 then y1 - y0 else y0 - y1;
    var sx := if x0 < x1 then 1 else -1;
    var sy := if y0 < y1 then 1 else -1;
    var err: i32 := dx - dy;
    var x, y := x0 as int, y0 as int;
    ghost var n := Max(dx, dy);
    plots := [];
    StartTracks(x0, y0, x1, y1);
    StartErr(dx, dy);
    var guard := 0;
    var done := false;
    while guard < GUARD && !done
      invariant 0 <= guard <= GUARD && guard <= n
      invariant |plots| == if done then n + 1 else guard
      invariant done ==> guard == n < GUARD
      invariant |plots| > 0 ==> plots[0] == (x0, y0)
      invariant guard == 0 ==> (x, y) == (x0, y0)
      invariant Tracks(x0, y0, x1, y1, x, y, err, guard) && err == Err(dx, dy, guard)
      invariant forall k :: 0 <= k < |plots| ==> OnLine(x0, y0, x1, y1, plots[k], k)
      decreases GUARD - guard, !done
    {
      TracksOnLine(x0, y0, x1, y1, x, y, err, guard);
      EndpointIndex(x0, y0, x1, y1, (x, y), guard);
      plots := plots + [(x, y)];
      if x == x1 && y == y1 {
        done := true;
      } else {
        err, x, y := Move(x0, y0, x1, y1, dx, dy, sx, sy, err, x, y, guard);
        guard := guard + 1;
      }
    }
    EndpointIndex(x0, y0, x1, y1, plots[|plots| - 1], |plots| - 1);
  }

  /** The two tests of an iteration that takes place. */
  method Move(x0: i32, y0: i32, x1: i32, y1: i32, dx: i32, dy: i32, sx: int, sy: int, err: i32, x: int, y: int, ghost k: nat)
    returns (err': i32, x': int, y': int)
    requires dx == Abs(x1 - x0) && dy == Abs(y1 - y0) && Defined(x0, y0, x1, y1) && k < Max(dx, dy) && k < GUARD
    requires sx == (if x0 < x1 then 1 else -1) && sy == (if y0 < y1 then 1 else -1)
    requires Tracks(x0, y0, x1, y1, x, y, err, k) && err == Err(dx, dy, k)
    ensures Tracks(x0, y0, x1, y1, x', y', err', k + 1) && err' == Err(dx, dy, k + 1)
  {
    hide Tracks, Err, Halfway;
    TracksNext(x0, y0, x1, y1, x, y, err, k);
    NextErr(dx, dy, k);
    assert Computes(dx, dy, k);
    HalfwayNext(dx, dy, err);
    err', x', y' := Turn(dx, dy, sx, sy, err, x, y);
  }

  lemma StartTracks(x0: i32, y0: i32, x1: i32, y1: i32)
    ensures Tracks(x0, y0, x1, y1, x0, y0, Abs(x1 - x0) - Abs(y1 - y0), 0)
  {
  }

  lemma HalfwayNext(dx: nat, dy: nat, err: int)
    ensures Halfway(dy, err) + (if 2 * err < dx then dx else 0)
      == err - (if 2 * err > 0 - dy then dy else 0) + (if 2 * err < dx then dx else 0)
  {
  }

  lemma StartErr(dx: nat, dy: nat)
    ensures Err(dx, dy, 0) == dx - dy
  {
  }

  lemma NextErr(dx: nat, dy: nat, k: nat)
    ensures var e := Err(dx, dy, k);
            Err(dx, dy, k + 1) == e - (if 2 * e > 0 - dy then dy else 0) + (if 2 * e < dx then dx else 0)
  {
  }

  /** The two tests of an iteration. */
  method Turn(dx: i32, dy: i32, sx: int, sy: int, err: i32, x: int, y: int) returns (err': i32, x': int, y': int)
    requires 0 <= dx && 0 <= dy && Int(2 * err) && Int(Halfway(dy, err))
    requires Int(Halfway(dy, err) + if 2 * err < dx then dx else 0)
    ensures x' == (if 2 * err > 0 - dy then x + sx else x) && y' == (if 2 * err < dx then y + sy else y)
    ensures err' == err - (if 2 * err > 0 - dy then dy else 0) + (if 2 * err < dx then dx else 0)
  {
    err', x', y' := err, x, y;
    var e2: i32 := 2 * err;
    if e2 > 0 - dy {
      err' := err' - dy;
      x' := x' + sx;
    }
    if e2 < dx {
      err' := err' + dx;
      y' := y' + sy;
    }
  }

  /** The rounding is forced: two points with the same index on the same line differ by at most a tie of half a step. */
  lemma NearestPoint(x0: int, y0: int, x1: int, y1: int, p: (int, int), q: (int, int), k: nat)
    requires OnLine(x0, y0, x1, y1, p, k) && OnLine(x0, y0, x1, y1, q, k)
    ensures p == q ||
            (var dx, dy := Abs(x1 - x0), Abs(y1 - y0);
             var a, b := Steps(x0, x1, p.0), Steps(y0, y1, p.1);
             2 * Abs(b * dx - a * dy) == Max(dx, dy) && Abs(p.0 - q.0) + Abs(p.1 - q.1) == 1)
  {
    var dx, dy := Abs(x1 - x0), Abs(y1 - y0);
    var a, b := Steps(x0, x1, p.0), Steps(y0, y1, p.1);
    var c, d := Steps(x0, x1, q.0), Steps(y0, y1, q.1);
    if p != q {
      if dx > dy {
        Tie(dx, b, d, a * dy);
      } else if dy > dx {
        Tie(dy, a, c, b * dx);
      }
    }
  }

  lemma Tie(m: nat, b: int, d: int, t: int)
    requires m > 0 && 2 * Abs(b * m - t) <= m && 2 * Abs(d * m - t) <= m && b != d
    ensures 2 * Abs(b * m - t) == m && Abs(b - d) == 1
  {
    var p, q := b * m, d * m;
    Distribute(b, d - b, m);
    Distribute(d, b - d, m);
    if b < d {
      MulMono(1, d - b, m);
      if d - b >= 2 {
        MulMono(2, d - b, m);
      }
    } else {
      MulMono(1, b - d, m);
      if b - d >= 2 {
        MulMono(2, b - d, m);
      }
    }
  }
}
