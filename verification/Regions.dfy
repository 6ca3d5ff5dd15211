/**
 * Region: a local point set and the native region the compositor builds from the requests sent to
 * it. The native side follows wl_region in Appendix A of The Wayland Protocol: it starts empty, and
 * every request adds or subtracts one rectangle.
 */
module Regions {

  type Point = (int, int)

  datatype Rect = Rect(x: int, y: int, width: int, height: int) {
    /** The points of a rectangle; none if it has no width or no height. */
    function Cover(): set<Point> {
      set px, py | x <= px < x + width && y <= py < y + height :: (px, py)
    }
  }

  lemma CoverPixel(x: int, y: int)
    ensures Rect(x, y, 1, 1).Cover() == {(x, y)}
  {
  }

  lemma UnionSize(a: set<Point>, b: set<Point>)
    requires a !! b
    ensures |a + b| == |a| + |b|
  {
  }

  /** Cut into two columns, a rectangle is covered by them, and they share no point. */
  lemma CoverBeside(r: Rect, k: nat)
    requires k <= r.width
    ensures var a, b := Rect(r.x, r.y, k, r.height).Cover(), Rect(r.x + k, r.y, r.width - k, r.height).Cover();
      a !! b && a + b == r.Cover() && |r.Cover()| == |a| + |b|
  {
    var a, b := Rect(r.x, r.y, k, r.height).Cover(), Rect(r.x + k, r.y, r.width - k, r.height).Cover();
    assert a + b == r.Cover();
    UnionSize(a, b);
  }

  /** The same for two rows. */
  lemma CoverBelow(r: Rect, k: nat)
    requires k <= r.height
    ensures var a, b := Rect(r.x, r.y, r.width, k).Cover(), Rect(r.x, r.y + k, r.width, r.height - k).Cover();
      a !! b && a + b == r.Cover() && |r.Cover()| == |a| + |b|
  {
    var a, b := Rect(r.x, r.y, r.width, k).Cover(), Rect(r.x, r.y + k, r.width, r.height - k).Cover();
    assert a + b == r.Cover();
    UnionSize(a, b);
  }

  lemma CoverNothing(r: Rect)
    requires r.width <= 0 || r.height <= 0
    ensures r.Cover() == {}
  {
  }

  lemma {:induction false} ColumnSize(x: int, y: int, height: nat)
    ensures |Rect(x, y, 1, height).Cover()| == height
    decreases height
  {
    if height == 0 {
      CoverNothing(Rect(x, y, 1, 0));
    } else {
      CoverBelow(Rect(x, y, 1, height), 1);
      CoverPixel(x, y);
      ColumnSize(x, y + 1, height - 1);
    }
  }

  lemma OneMoreColumn(width: nat, height: nat)
    ensures (width + 1) * height == height + width * height
  {
  }

  /** A rectangle has width times height points. */
  lemma {:induction false} CoverSize(x: int, y: int, width: nat, height: nat)
    ensures |Rect(x, y, width, height).Cover()| == width * height
    decreases width
  {
    if width == 0 {
      CoverNothing(Rect(x, y, 0, height));
    } else {
      CoverBeside(Rect(x, y, width, height), 1);
      ColumnSize(x, y, height);
      CoverSize(x + 1, y, width - 1, height);
      OneMoreColumn(width - 1, height);
    }
  }

  function CoverAll(rects: seq<Rect>): set<Point> {
    if rects == [] then {} else CoverAll(rects[..|rects| - 1]) + rects[|rects| - 1].Cover()
  }

  lemma {:induction false} CoverAllExactly(rects: seq<Rect>, p: Point)
    ensures p in CoverAll(rects) <==> exists i | 0 <= i < |rects| :: p in rects[i].Cover()
  {
    if rects != [] {
      CoverAllExactly(rects[..|rects| - 1], p);
    }
  }

  datatype Request = AddRequest(rect: Rect) | SubtractRequest(rect: Rect)

  function ServerStep(before: set<Point>, request: Request): set<Point> {
    match request
    case AddRequest(rect) => before + rect.Cover()
    case SubtractRequest(rect) => before - rect.Cover()
  }

  /** The native region after the given requests. */
  function Server(requests: seq<Request>): set<Point> {
    if requests == [] then {} else ServerStep(Server(requests[..|requests| - 1]), requests[|requests| - 1])
  }

  lemma {:induction false} ServerAppend(requests: seq<Request>, request: Request)
    ensures Server(requests + [request]) == ServerStep(Server(requests), request)
  {
    assert (requests + [request])[..|requests|] == requests;
  }

  function AddEach(rects: seq<Rect>): seq<Request> {
    seq(|rects|, i requires 0 <= i < |rects| => AddRequest(rects[i]))
  }

  function SubtractEach(rects: seq<Rect>): seq<Request> {
    seq(|rects|, i requires 0 <= i < |rects| => SubtractRequest(rects[i]))
  }

  lemma {:induction false} ServerAddsAll(requests: seq<Request>, rects: seq<Rect>)
    ensures Server(requests + AddEach(rects)) == Server(requests) + CoverAll(rects)
  {
    if rects == [] {
      assert requests + AddEach(rects) == requests;
    } else {
      var before, rect := rects[..|rects| - 1], rects[|rects| - 1];
      ServerAddsAll(requests, before);
      assert AddEach(rects) == AddEach(before) + [AddRequest(rect)];
      var all := requests + AddEach(rects);
      assert all[..|all| - 1] == requests + AddEach(before);
    }
  }

  lemma {:induction false} ServerSubtractsAll(requests: seq<Request>, rects: seq<Rect>)
    ensures Server(requests + SubtractEach(rects)) == Server(requests) - CoverAll(rects)
  {
    if rects == [] {
      assert requests + SubtractEach(rects) == requests;
    } else {
      var before, rect := rects[..|rects| - 1], rects[|rects| - 1];
      ServerSubtractsAll(requests, before);
      assert SubtractEach(rects) == SubtractEach(before) + [SubtractRequest(rect)];
      var all := requests + SubtractEach(rects);
      assert all[..|all| - 1] == requests + SubtractEach(before);
    }
  }

  /** What the application asked for, as point sets. */
  datatype Change = Added(area: set<Point>) | Subtracted(area: set<Point>)

  function Apply(region: set<Point>, change: Change): set<Point> {
    match change
    case Added(area) => region + area
    case Subtracted(area) => region - area
  }

  function ApplyAll(initial: set<Point>, changes: seq<Change>): set<Point> {
    if changes == [] then initial
    else Apply(ApplyAll(initial, changes[..|changes| - 1]), changes[|changes| - 1])
  }

  /** The i-th change is the last one to touch p. */
  ghost predicate LastTouch(changes: seq<Change>, p: Point, i: nat)
    requires i < |changes|
  {
    p in changes[i].area && forall j | i < j < |changes| :: p !in changes[j].area
  }

  /** A point belongs to the region exactly when the last change that touches it added it, or when it
      was there initially and nothing touched it. */
  lemma {:induction false} LastChangeDecides(initial: set<Point>, changes: seq<Change>, p: Point)
    ensures p in ApplyAll(initial, changes) <==>
      || (exists i | 0 <= i < |changes| :: LastTouch(changes, p, i) && changes[i].Added?)
      || (p in initial && forall i | 0 <= i < |changes| :: p !in changes[i].area)
  {
    if changes != [] {
      var n := |changes| - 1;
      var before := changes[..n];
      LastChangeDecides(initial, before, p);
      forall i | 0 <= i < n ensures LastTouch(changes, p, i) <==> LastTouch(before, p, i) && p !in changes[n].area {
      }
      assert LastTouch(changes, p, n) <==> p in changes[n].area;
    }
  }

  /** QRegion is represented by the points it covers. A QRegion that is iterated is given by the
      rectangles its iterator yields, which may be any decomposition of it. */
  class Region {
    var bound: bool                    // whether a native region is managed
    var qtRegion: set<Point>
    ghost var requests: seq<Request>   // sent to the current native region
    ghost const initial: set<Point>
    ghost var changes: seq<Change>

    /** The native region is the local one, and both are what the application asked for. */
    ghost predicate Valid()
      reads this
    {
      && (bound ==> Server(requests) == qtRegion)
      && qtRegion == ApplyAll(initial, changes)
    }

    constructor (region: set<Point>)
      ensures Valid() && !bound && qtRegion == region && initial == region && changes == []
    {
      bound, qtRegion, requests, initial, changes := false, region, [], region, [];
    }

    method InstallRect(rect: Rect)
      modifies this`requests
      ensures requests == if bound then old(requests) + [AddRequest(rect)] else old(requests)
    {
      if !bound {
        return;
      }
      requests := requests + [AddRequest(rect)];
    }

    method UninstallRect(rect: Rect)
      modifies this`requests
      ensures requests == if bound then old(requests) + [SubtractRequest(rect)] else old(requests)
    {
      if !bound {
        return;
      }
      requests := requests + [SubtractRequest(rect)];
    }

    method InstallRegion(rects: seq<Rect>)
      modifies this`requests
      ensures requests == if bound then old(requests) + AddEach(rects) else old(requests)
    {
      for i := 0 to |rects|
        invariant requests == if bound then old(requests) + AddEach(rects[..i]) else old(requests)
      {
        InstallRect(rects[i]);
        assert AddEach(rects[..i + 1]) == AddEach(rects[..i]) + [AddRequest(rects[i])];
      }
      assert rects[..|rects|] == rects;
    }

    method UninstallRegion(rects: seq<Rect>)
      modifies this`requests
      ensures requests == if bound then old(requests) + SubtractEach(rects) else old(requests)
    {
      for i := 0 to |rects|
        invariant requests == if bound then old(requests) + SubtractEach(rects[..i]) else old(requests)
      {
        UninstallRect(rects[i]);
        assert SubtractEach(rects[..i + 1]) == SubtractEach(rects[..i]) + [SubtractRequest(rects[i])];
      }
      assert rects[..|rects|] == rects;
    }

    /** Takes a new native region and sends it the whole local region, however it is split. */
    method Setup(rects: seq<Rect>)
      requires Valid() && !bound && CoverAll(rects) == qtRegion
      modifies this`bound, this`requests
      ensures Valid() && bound
      ensures requests == AddEach(rects)
    {
      bound, requests := true, [];
      InstallRegion(rects);
      ServerAddsAll([], rects);
    }

    method Release()
      requires Valid()
      modifies this`bound
      ensures Valid() && !bound
    {
      bound := false;
    }

    method Destroy()
      requires Valid()
      modifies this`bound
      ensures Valid() && !bound
    {
      bound := false;
    }

    ghost method Record(change: Change)
      modifies this`changes
      ensures changes == old(changes) + [change]
      ensures ApplyAll(initial, changes) == Apply(ApplyAll(initial, old(changes)), change)
    {
      changes := changes + [change];
      assert changes[..|changes| - 1] == old(changes);
    }

    method AddRect(rect: Rect)
      requires Valid()
      modifies this`qtRegion, this`requests, this`changes
      ensures Valid() && changes == old(changes) + [Added(rect.Cover())]
      ensures requests == if bound then old(requests) + [AddRequest(rect)] else old(requests)
    {
      qtRegion := qtRegion + rect.Cover();
      InstallRect(rect);
      Record(Added(rect.Cover()));
      ServerAppend(old(requests), AddRequest(rect));
    }

    method AddRegion(rects: seq<Rect>)
      requires Valid()
      modifies this`qtRegion, this`requests, this`changes
      ensures Valid() && changes == old(changes) + [Added(CoverAll(rects))]
      ensures requests == if bound then old(requests) + AddEach(rects) else old(requests)
    {
      qtRegion := qtRegion + CoverAll(rects);
      InstallRegion(rects);
      Record(Added(CoverAll(rects)));
      ServerAddsAll(old(requests), rects);
    }

    method SubtractRect(rect: Rect)
      requires Valid()
      modifies this`qtRegion, this`requests, this`changes
      ensures Valid() && changes == old(changes) + [Subtracted(rect.Cover())]
      ensures requests == if bound then old(requests) + [SubtractRequest(rect)] else old(requests)
    {
      qtRegion := qtRegion - rect.Cover();
      UninstallRect(rect);
      Record(Subtracted(rect.Cover()));
      ServerAppend(old(requests), SubtractRequest(rect));
    }

    method SubtractRegion(rects: seq<Rect>)
      requires Valid()
      modifies this`qtRegion, this`requests, this`changes
      ensures Valid() && changes == old(changes) + [Subtracted(CoverAll(rects))]
      ensures requests == if bound then old(requests) + SubtractEach(rects) else old(requests)
    {
      qtRegion := qtRegion - CoverAll(rects);
      UninstallRegion(rects);
      Record(Subtracted(CoverAll(rects)));
      ServerSubtractsAll(old(requests), rects);
    }
  }
}
