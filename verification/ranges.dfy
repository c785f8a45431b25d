/** The port carving behind `Node.reservePort`.  The ports still free in an
    offer are a sorted list of disjoint closed intervals; reserving a port
    takes the lowest port the request admits and splits the interval it
    came from, so that sequential reservations never hand out a port twice. */
module Ranges {
  import opened Wrappers

  /** The closed interval lo..hi, written "lo..hi" in an offer. */
  datatype Range = Range(lo: int, hi: int)

  predicate Covers(r: Range, x: int) { r.lo <= x <= r.hi }

  /** Non-empty intervals in ascending order, pairwise disjoint. */
  predicate Valid(rs: seq<Range>)
  {
    && (forall k :: 0 <= k < |rs| ==> rs[k].lo <= rs[k].hi)
    && (forall i, j :: 0 <= i < j < |rs| ==> rs[i].hi < rs[j].lo)
  }

  /** Port `x` lies in one of the intervals. */
  predicate Free(rs: seq<Range>, x: int)
  {
    exists k | 0 <= k < |rs| :: Covers(rs[k], x)
  }

  /** A port request: `None` takes any port, `Some(r)` only a port inside `r`. */
  predicate Admits(want: Option<Range>, x: int)
  {
    want.None? || Covers(want.value, x)
  }

  /** The smallest port of `r` that `want` could admit. */
  function LowestIn(r: Range, want: Option<Range>): int
  {
    if want.Some? && want.value.lo > r.lo then want.value.lo else r.lo
  }

  /** What remains of `r` once port `p` is taken out: zero, one or two pieces. */
  function Split(r: Range, p: int): seq<Range>
  {
    (if r.lo < p then [Range(r.lo, p - 1)] else []) + (if p < r.hi then [Range(p + 1, r.hi)] else [])
  }

  /** A reserved port together with the free list left after it. */
  datatype Carve = Carve(port: int, rest: seq<Range>)

  /** Scans the free intervals in order; the first one that meets the request
      yields its lowest admitted port, and that interval is split around it.
      None when no interval meets the request. */
  function ReservePort(want: Option<Range>, free: seq<Range>): (c: Option<Carve>)
    ensures c.Some? ==> Free(free, c.value.port) && Admits(want, c.value.port)
    decreases |free|
  {
    if |free| == 0 then None
    else
      var p := LowestIn(free[0], want);
      if Covers(free[0], p) && Admits(want, p) then
        Some(Carve(p, Split(free[0], p) + free[1..]))
      else
        match ReservePort(want, free[1..])
        case None => None
        case Some(c) =>
          assert Covers(free[1..][0], c.port) || Free(free[1..][1..], c.port) by { FreeCons(free[1..], c.port); }
          FreeCons(free, c.port);
          Some(Carve(c.port, [free[0]] + c.rest))
  }

  lemma FreeCons(rs: seq<Range>, x: int)
    requires 0 < |rs|
    ensures Free(rs, x) <==> Covers(rs[0], x) || Free(rs[1..], x)
  {
    if Free(rs[1..], x) {
      var k :| 0 <= k < |rs[1..]| && Covers(rs[1..][k], x);
      assert Covers(rs[k + 1], x);
    }
    if Free(rs, x) && !Covers(rs[0], x) {
      var k :| 0 <= k < |rs| && Covers(rs[k], x);
      assert Covers(rs[1..][k - 1], x);
    }
  }

  lemma FreeAppend(a: seq<Range>, b: seq<Range>, x: int)
    ensures Free(a + b, x) <==> Free(a, x) || Free(b, x)
  {
    if Free(a + b, x) {
      var k :| 0 <= k < |a + b| && Covers((a + b)[k], x);
      if k < |a| { assert Covers(a[k], x); } else { assert Covers(b[k - |a|], x); }
    }
    if Free(a, x) {
      var k :| 0 <= k < |a| && Covers(a[k], x);
      assert Covers((a + b)[k], x);
    }
    if Free(b, x) {
      var k :| 0 <= k < |b| && Covers(b[k], x);
      assert Covers((a + b)[|a| + k], x);
    }
  }

  /** The pieces left by `Split` hold exactly the ports of `r` other than `p`. */
  lemma SplitFree(r: Range, p: int, x: int)
    requires Covers(r, p)
    ensures Free(Split(r, p), x) <==> Covers(r, x) && x != p
  {
    var left := if r.lo < p then [Range(r.lo, p - 1)] else [];
    var right := if p < r.hi then [Range(p + 1, r.hi)] else [];
    FreeAppend(left, right, x);
    if Covers(r, x) && x != p {
      if x < p { assert Covers(left[0], x); } else { assert Covers(right[0], x); }
    }
  }

  /** Every port of a valid list past its first interval lies above that interval. */
  lemma FreeTailAbove(rs: seq<Range>, x: int)
    requires Valid(rs) && 0 < |rs| && Free(rs[1..], x)
    ensures rs[0].hi < x
  {
    var k :| 0 <= k < |rs[1..]| && Covers(rs[1..][k], x);
    assert rs[0].hi < rs[k + 1].lo;
  }

  lemma ValidAppend(a: seq<Range>, b: seq<Range>)
    requires Valid(a) && Valid(b)
    requires forall i, j :: 0 <= i < |a| && 0 <= j < |b| ==> a[i].hi < b[j].lo
    ensures Valid(a + b)
  {
  }

  /** The port returned is the lowest free port the request admits, and there
      is none exactly when no free port is admitted. */
  lemma {:induction false} ReservePortLowest(want: Option<Range>, free: seq<Range>)
    requires Valid(free)
    ensures ReservePort(want, free).None? <==> forall x :: Free(free, x) ==> !Admits(want, x)
    ensures ReservePort(want, free).Some? ==>
              forall x :: Free(free, x) && Admits(want, x) ==> ReservePort(want, free).value.port <= x
    decreases |free|
  {
    if |free| == 0 {
      forall x ensures !Free(free, x) { }
    } else {
      var r := free[0];
      var p := LowestIn(r, want);
      forall x | Free(free, x) && Admits(want, x) && !Covers(r, x)
        ensures r.hi < x && Free(free[1..], x)
      {
        FreeCons(free, x);
        FreeTailAbove(free, x);
      }
      if Covers(r, p) && Admits(want, p) {
        assert Free(free, p) by { FreeCons(free, p); }
      } else {
        forall x | Covers(r, x) ensures !Admits(want, x) { }
        ReservePortLowest(want, free[1..]);
        forall x | Free(free[1..], x) ensures Free(free, x) { FreeCons(free, x); }
      }
    }
  }

  /** The reserved port leaves the free list, every other port stays, and the
      list stays sorted and disjoint. */
  lemma {:induction false} ReservePortRest(want: Option<Range>, free: seq<Range>)
    requires Valid(free) && ReservePort(want, free).Some?
    ensures Valid(ReservePort(want, free).value.rest)
    ensures forall x :: Free(ReservePort(want, free).value.rest, x) <==>
                          Free(free, x) && x != ReservePort(want, free).value.port
    decreases |free|
  {
    var r := free[0];
    var p := LowestIn(r, want);
    var c := ReservePort(want, free).value;
    if Covers(r, p) && Admits(want, p) {
      forall x ensures Free(c.rest, x) <==> Free(free, x) && x != p {
        FreeAppend(Split(r, p), free[1..], x);
        SplitFree(r, p, x);
        FreeCons(free, x);
        if Free(free[1..], x) { FreeTailAbove(free, x); }
      }
      assert Valid(free[1..]);
      forall i, j | 0 <= i < |Split(r, p)| && 0 <= j < |free[1..]|
        ensures Split(r, p)[i].hi < free[1..][j].lo
      {
        assert r.hi < free[j + 1].lo;
      }
      ValidAppend(Split(r, p), free[1..]);
    } else {
      var c' := ReservePort(want, free[1..]).value;
      assert Valid(free[1..]);
      ReservePortRest(want, free[1..]);
      assert c.rest == [r] + c'.rest;
      assert r.hi < c.port by {
        assert Free(free[1..], c'.port);
        FreeTailAbove(free, c'.port);
      }
      forall x ensures Free(c.rest, x) <==> Free(free, x) && x != c.port {
        FreeCons(c.rest, x);
        FreeCons(free, x);
        assert c.rest[1..] == c'.rest;
      }
      forall j | 0 <= j < |c'.rest| ensures r.hi < c'.rest[j].lo {
        assert Free(c'.rest, c'.rest[j].lo) by { assert Covers(c'.rest[j], c'.rest[j].lo); }
        FreeTailAbove(free, c'.rest[j].lo);
      }
      ValidAppend([r], c'.rest);
    }
  }

  /** `rest` is `free` with interval `k`, which holds port `p`, replaced by
      the pieces around `p`; the intervals before and after it are kept. */
  predicate CarvedAt(free: seq<Range>, k: int, p: int, rest: seq<Range>)
  {
    0 <= k < |free| && Covers(free[k], p) && rest == free[..k] + Split(free[k], p) + free[k + 1..]
  }

  /** Only the interval holding the reserved port changes: it is replaced by
      the zero, one or two pieces around the port. */
  lemma {:induction false} ReservePortShape(want: Option<Range>, free: seq<Range>)
    requires ReservePort(want, free).Some?
    ensures exists k :: CarvedAt(free, k, ReservePort(want, free).value.port, ReservePort(want, free).value.rest)
    decreases |free|
  {
    var r := free[0];
    var p := LowestIn(r, want);
    if Covers(r, p) && Admits(want, p) {
      var rest := Split(r, p) + free[1..];
      CarveFirst(want, free, p, rest);
      assert CarvedAt(free, 0, p, rest);
    } else {
      var c' := ReservePort(want, free[1..]).value;
      ReservePortShape(want, free[1..]);
      CarveLater(want, free, c'.port, c'.rest);
      var k :| CarvedAt(free[1..], k, c'.port, c'.rest);
      CarvedBelow(free, k, c'.port, c'.rest);
    }
  }

  /** Carving inside the tail is carving one interval further along. */
  lemma CarvedBelow(free: seq<Range>, k: int, p: int, rest: seq<Range>)
    requires 0 < |free| && CarvedAt(free[1..], k, p, rest)
    ensures CarvedAt(free, k + 1, p, [free[0]] + rest)
  {
    assert [free[0]] + free[1..][..k] == free[..k + 1];
    assert free[1..][k + 1..] == free[k + 2..];
  }

  /** Reserves a port for each request in turn against the shrinking free list. */
  function ReserveEach(wants: seq<Option<Range>>, free: seq<Range>): (ports: seq<Option<int>>)
    ensures |ports| == |wants|
    decreases |wants|
  {
    if |wants| == 0 then []
    else
      match ReservePort(wants[0], free)
      case None => [None] + ReserveEach(wants[1..], free)
      case Some(c) => [Some(c.port)] + ReserveEach(wants[1..], c.rest)
  }

  /** Successive reservations on one free list never return the same port
      twice, and every port returned was free before the first call and
      inside its own request. */
  lemma {:induction false} ReserveEachDistinct(wants: seq<Option<Range>>, free: seq<Range>)
    requires Valid(free)
    ensures var ports := ReserveEach(wants, free);
            forall i | 0 <= i < |ports| && ports[i].Some? :: Free(free, ports[i].value) && Admits(wants[i], ports[i].value)
    ensures var ports := ReserveEach(wants, free);
            forall i, j | 0 <= i < j < |ports| && ports[i].Some? && ports[j].Some? :: ports[i].value != ports[j].value
    decreases |wants|
  {
    if |wants| > 0 {
      var ports := ReserveEach(wants, free);
      match ReservePort(wants[0], free)
      case None =>
        ReserveEachDistinct(wants[1..], free);
        assert ports[1..] == ReserveEach(wants[1..], free);
      case Some(c) =>
        ReservePortRest(wants[0], free);
        ReserveEachDistinct(wants[1..], c.rest);
        assert ports[1..] == ReserveEach(wants[1..], c.rest);
        forall j | 1 <= j < |ports| && ports[j].Some? ensures Free(free, ports[j].value) && ports[j].value != c.port {
          assert ports[j] == ports[1..][j - 1];
        }
    }
  }

  /** Number of ports in the intervals. */
  function PortCount(rs: seq<Range>): int
  {
    if |rs| == 0 then 0 else rs[0].hi - rs[0].lo + 1 + PortCount(rs[1..])
  }

  /** A request for any port takes the first port of the first interval and
      leaves one port fewer; it fails only on an empty list. */
  lemma ReserveAnyPort(free: seq<Range>)
    requires Valid(free)
    ensures ReservePort(None, free).Some? <==> 0 < |free|
    ensures ReservePort(None, free).Some? ==>
              ReservePort(None, free).value.port == free[0].lo &&
              PortCount(ReservePort(None, free).value.rest) == PortCount(free) - 1
    ensures 0 <= PortCount(free)
  {
    ValidCountNonNegative(free);
    if 0 < |free| {
      var r := free[0];
      var rest := Split(r, r.lo) + free[1..];
      assert ReservePort(None, free) == Some(Carve(r.lo, rest)) by {
        assert LowestIn(r, None) == r.lo && Covers(r, r.lo);
      }
      assert PortCount(rest) == PortCount(free) - 1 by {
        if r.lo < r.hi {
          assert rest == [Range(r.lo + 1, r.hi)] + free[1..];
          assert rest[1..] == free[1..];
          assert PortCount(rest) == r.hi - r.lo + PortCount(free[1..]);
        } else {
          assert Split(r, r.lo) == [];
          assert rest == free[1..];
        }
      }
    }
  }

  lemma {:induction false} ValidCountNonNegative(rs: seq<Range>)
    requires Valid(rs)
    ensures |rs| <= PortCount(rs)
    decreases |rs|
  {
    if 0 < |rs| {
      assert Valid(rs[1..]);
      ValidCountNonNegative(rs[1..]);
    }
  }

  /** The free-list walk of the unit test: 0..100, then requests 10..20,
      0..0, 100..200 and 50..60. */
  lemma ReservePortExample()
    ensures ReservePort(Some(Range(10, 20)), [Range(0, 100)])
            == Some(Carve(10, [Range(0, 9), Range(11, 100)]))
    ensures ReservePort(Some(Range(0, 0)), [Range(0, 9), Range(11, 100)])
            == Some(Carve(0, [Range(1, 9), Range(11, 100)]))
    ensures ReservePort(Some(Range(100, 200)), [Range(1, 9), Range(11, 100)])
            == Some(Carve(100, [Range(1, 9), Range(11, 99)]))
    ensures ReservePort(Some(Range(50, 60)), [Range(1, 9), Range(11, 99)])
            == Some(Carve(50, [Range(1, 9), Range(11, 49), Range(51, 99)]))
  {
    CarveFirst(Some(Range(10, 20)), [Range(0, 100)], 10, [Range(0, 9), Range(11, 100)]);
    CarveFirst(Some(Range(0, 0)), [Range(0, 9), Range(11, 100)], 0, [Range(1, 9), Range(11, 100)]);
    CarveFirst(Some(Range(100, 200)), [Range(11, 100)], 100, [Range(11, 99)]);
    CarveLater(Some(Range(100, 200)), [Range(1, 9), Range(11, 100)], 100, [Range(11, 99)]);
    assert [Range(1, 9)] + [Range(11, 99)] == [Range(1, 9), Range(11, 99)];
    CarveFirst(Some(Range(50, 60)), [Range(11, 99)], 50, [Range(11, 49), Range(51, 99)]);
    CarveLater(Some(Range(50, 60)), [Range(1, 9), Range(11, 99)], 50, [Range(11, 49), Range(51, 99)]);
    assert [Range(1, 9)] + [Range(11, 49), Range(51, 99)] == [Range(1, 9), Range(11, 49), Range(51, 99)];
  }

  lemma CarveFirst(want: Option<Range>, free: seq<Range>, p: int, rest: seq<Range>)
    requires 0 < |free| && p == LowestIn(free[0], want) && Covers(free[0], p) && Admits(want, p)
    requires rest == Split(free[0], p) + free[1..]
    ensures ReservePort(want, free) == Some(Carve(p, rest))
  {
  }

  lemma CarveLater(want: Option<Range>, free: seq<Range>, p: int, rest: seq<Range>)
    requires 0 < |free| && !(Covers(free[0], LowestIn(free[0], want)) && Admits(want, LowestIn(free[0], want)))
    requires ReservePort(want, free[1..]) == Some(Carve(p, rest))
    ensures ReservePort(want, free) == Some(Carve(p, [free[0]] + rest))
  {
  }
}
