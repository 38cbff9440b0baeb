/**
  Scattering the shown elements over the game screen: a random candidate position
  per try, the margin-inflated overlap test against the other visible views and
  the timer, and the per-view retry loop that keeps the first position that
  overlaps nothing.

  Positions are screen pixels. The random values a try uses are parameters, and
  the unbounded retry loop becomes a finite list of tries per view.
 */
module Placement {
  import opened Seqs
  import opened JavaNum

  /** Extra space kept free around every view, on each side. */
  const Margin: int := 15

  /** An `android.graphics.Rect`: left and top inclusive, right and bottom exclusive. */
  datatype Rect = Rect(left: int, top: int, right: int, bottom: int)

  /** `Rect.intersect`: the two rectangles share interior area; every edge
      comparison is strict, so rectangles that only touch do not intersect. */
  predicate Intersects(a: Rect, b: Rect) {
    a.left < b.right && b.left < a.right && a.top < b.bottom && b.top < a.bottom
  }

  /** A text view as the placement sees it: its id, the top-left corner of its
      on-screen location, its measured size, and whether it is visible. */
  datatype View = View(id: int, x: int, y: int, width: nat, height: nat, visible: bool)

  /** The view's box grown by the margin on every side. */
  function Padded(v: View): Rect {
    Rect(v.x - Margin, v.y - Margin, v.x + v.width + Margin, v.y + v.height + Margin)
  }

  /** Two views are too close: their padded boxes intersect. */
  predicate Collide(a: View, b: View) {
    Intersects(Padded(a), Padded(b))
  }

  /** The horizontal distance between the two raw boxes (negative when they
      overlap horizontally). */
  function GapX(a: View, b: View): int {
    if a.x <= b.x then b.x - (a.x + a.width) else a.x - (b.x + b.width)
  }

  /** The vertical distance between the two raw boxes (negative when they
      overlap vertically). */
  function GapY(a: View, b: View): int {
    if a.y <= b.y then b.y - (a.y + a.height) else a.y - (b.y + b.height)
  }

  /** Two views collide exactly when they are less than twice the margin apart
      on both axes; so views 30 px or more apart on some axis never collide. */
  lemma CollideIffGap(a: View, b: View)
    ensures Collide(a, b) <==> GapX(a, b) < 2 * Margin && GapY(a, b) < 2 * Margin
  {
  }

  /** The overlap test does not depend on which view is being placed. */
  lemma CollideSymmetric(a: View, b: View)
    ensures Collide(a, b) <==> Collide(b, a)
  {
  }

  /** A visible view other than `v` itself whose padded box meets `v`'s. */
  predicate Blocks(v: View, other: View) {
    other.id != v.id && other.visible && Collide(v, other)
  }

  /** Some view of `others` blocks `v`; checked one by one in list order. */
  function AnyBlocks(v: View, others: seq<View>): (r: bool)
    ensures r <==> exists i :: 0 <= i < |others| && Blocks(v, others[i])
  {
    if others == [] then false
    else Blocks(v, others[0]) || AnyBlocks(v, others[1..])
  }

  /** `findIfViewsOverlaps`: whether `v` overlaps any other visible view among
      the shown elements or the timer, which is always added to the list. */
  function FindIfViewsOverlaps(v: View, elementViews: seq<View>, timer: View): (r: bool)
    ensures r <==> (exists i :: 0 <= i < |elementViews| && Blocks(v, elementViews[i])) || Blocks(v, timer)
  {
    var all := elementViews + [timer];
    assert all[|elementViews|] == timer;
    assert forall i :: 0 <= i < |elementViews| ==> all[i] == elementViews[i];
    AnyBlocks(v, all)
  }

  /** The view itself and invisible views never count as overlapping. */
  lemma OverlapSkipsSelfAndHidden(v: View, elementViews: seq<View>, timer: View)
    requires forall i :: 0 <= i < |elementViews| ==> elementViews[i].id == v.id || !elementViews[i].visible
    requires timer.id == v.id || !timer.visible
    ensures !FindIfViewsOverlaps(v, elementViews, timer)
  {
  }

  // ---------------------------------------------------------------------------
  // Candidate positions

  /** The display as `calculateRandPosition` reads it: the full width and height
      in pixels, and the height of the on-screen navigation keys. */
  datatype Screen = Screen(widthPixels: int, heightPixels: int, softKeys: nat)

  /** The height available to the game: the display minus the navigation keys. */
  function ActivityHeight(s: Screen): int {
    s.heightPixels - s.softKeys
  }

  /** The two `Math.random()` values of one try. */
  datatype Candidate = Candidate(rx: RandomDraw, ry: RandomDraw)

  datatype Point = Point(x: int, y: int)

  /** `calculateRandPosition`: a random corner that keeps the view on the
      screen, `x` below `W - w` and `y` below `H - h`. When the view is as wide
      (or tall) as the screen or more, the span is not positive and the
      coordinate lies between the span and 0. */
  function CalculateRandPosition(s: Screen, v: View, c: Candidate): (p: Point)
    ensures s.widthPixels - v.width > 0 ==> 0 <= p.x && p.x + v.width < s.widthPixels
    ensures s.widthPixels - v.width <= 0 ==> s.widthPixels - v.width <= p.x <= 0
    ensures ActivityHeight(s) - v.height > 0 ==> 0 <= p.y && p.y + v.height < ActivityHeight(s)
    ensures ActivityHeight(s) - v.height <= 0 ==> ActivityHeight(s) - v.height <= p.y <= 0
  {
    Point(Scale(c.rx, s.widthPixels - v.width), Scale(c.ry, ActivityHeight(s) - v.height))
  }

  /** The view moved to the try's position. */
  function MovedTo(s: Screen, v: View, c: Candidate): View {
    var p := CalculateRandPosition(s, v, c);
    v.(x := p.x, y := p.y)
  }

  /** A view whose corner came from `calculateRandPosition`. */
  predicate OnScreen(s: Screen, v: View) {
    (s.widthPixels - v.width > 0 ==> 0 <= v.x && v.x + v.width < s.widthPixels)
    && (ActivityHeight(s) - v.height > 0 ==> 0 <= v.y && v.y + v.height < ActivityHeight(s))
  }

  // ---------------------------------------------------------------------------
  // Placing one view, then all of them

  /** The posted runnable of `positionTextView` for one view, with its tries
      given in advance: the view, already visible, is moved to each try's position
      in turn until the overlap test is false. Gives that position, or None when
      every given try overlaps (the real loop would keep trying). */
  function PositionView(s: Screen, v: View, elementViews: seq<View>, timer: View, tries: seq<Candidate>)
    : (r: Option<View>)
    ensures r.Some? ==> !FindIfViewsOverlaps(r.value, elementViews, timer)
  {
    if tries == [] then None
    else
      var moved := MovedTo(s, v, tries[0]);
      if !FindIfViewsOverlaps(moved, elementViews, timer) then Some(moved)
      else PositionView(s, v, elementViews, timer, tries[1..])
  }

  /** The runnable stops at the first try `k` whose position overlaps nothing:
      every earlier try overlapped, and the view ends at try `k`'s position; when
      no try fits, `k` is the number of tries and the result is None. */
  lemma {:induction false} PositionViewFirst(s: Screen, v: View, elementViews: seq<View>, timer: View,
                                             tries: seq<Candidate>)
    returns (k: nat)
    ensures k <= |tries|
    ensures forall j :: 0 <= j < k ==> FindIfViewsOverlaps(MovedTo(s, v, tries[j]), elementViews, timer)
    ensures k < |tries| ==> !FindIfViewsOverlaps(MovedTo(s, v, tries[k]), elementViews, timer)
    ensures PositionView(s, v, elementViews, timer, tries)
            == if k < |tries| then Some(MovedTo(s, v, tries[k])) else None
  {
    if tries == [] || !FindIfViewsOverlaps(MovedTo(s, v, tries[0]), elementViews, timer) {
      k := 0;
    } else {
      var rest := tries[1..];
      var k' := PositionViewFirst(s, v, elementViews, timer, rest);
      k := k' + 1;
      forall j | 0 <= j < k
        ensures FindIfViewsOverlaps(MovedTo(s, v, tries[j]), elementViews, timer)
      {
        if j > 0 {
          assert tries[j] == rest[j - 1];
        }
      }
      if k' < |rest| {
        assert tries[k] == rest[k'];
      }
    }
  }

  /** Views with pairwise different ids, none of them the timer's. */
  predicate DistinctIds(views: seq<View>, timer: View) {
    (forall i, j :: 0 <= i < j < |views| ==> views[i].id != views[j].id)
    && (forall i :: 0 <= i < |views| ==> views[i].id != timer.id)
  }

  /** `positionTextView`: each view, in order, is made visible and placed by its
      runnable against the views placed before it, the views still hidden, and the
      timer. Returns the views afterwards and how many were placed; when fewer than
      all, the next view's tries all overlapped. Every placed view is on the
      screen, no two placed views collide, and none collides with a visible
      timer; the views not reached are unchanged. */
  method PositionTextViews(s: Screen, views: seq<View>, timer: View, tries: seq<seq<Candidate>>)
    returns (placed: seq<View>, done: nat)
    requires |tries| == |views|
    requires DistinctIds(views, timer)
    requires forall i :: 0 <= i < |views| ==> !views[i].visible
    ensures |placed| == |views| && done <= |views|
    ensures forall i :: 0 <= i < done ==> placed[i].visible && OnScreen(s, placed[i])
    ensures forall i :: 0 <= i < done ==> placed[i] == views[i].(visible := true, x := placed[i].x, y := placed[i].y)
    ensures forall i, j :: 0 <= i < j < done ==> !Collide(placed[i], placed[j])
    ensures timer.visible ==> forall i :: 0 <= i < done ==> !Collide(placed[i], timer)
    ensures forall i :: done <= i < |views| ==> placed[i] == views[i]
    ensures done < |views| ==> forall k :: 0 <= k < |tries[done]| ==>
              FindIfViewsOverlaps(MovedTo(s, views[done].(visible := true), tries[done][k]), placed, timer)
  {
    placed := views;
    done := 0;
    while done < |views|
      invariant Layout(s, views, timer, placed, done)
    {
      var v := views[done].(visible := true);
      var r := PositionView(s, v, placed, timer, tries[done]);
      if r.None? {
        var k := PositionViewFirst(s, v, placed, timer, tries[done]);
        return;
      }
      var w := r.value;
      PlacedClear(s, v, placed, timer, tries[done], done);
      LayoutStep(s, views, timer, placed, done, w);
      placed := placed[done := w];
      done := done + 1;
    }
  }

  /** The state of `positionTextView` after `done` views: those are visible,
      on the screen, moved but otherwise unchanged, and clear of each other and
      of a visible timer; the rest are untouched. */
  predicate Layout(s: Screen, views: seq<View>, timer: View, placed: seq<View>, done: nat) {
    done <= |views| && |placed| == |views|
    && (forall i :: 0 <= i < done ==> placed[i].visible && OnScreen(s, placed[i]))
    && (forall i :: 0 <= i < done ==> placed[i] == views[i].(visible := true, x := placed[i].x, y := placed[i].y))
    && (forall i, j :: 0 <= i < j < done ==> !Collide(placed[i], placed[j]))
    && (timer.visible ==> forall i :: 0 <= i < done ==> !Collide(placed[i], timer))
    && (forall i :: done <= i < |views| ==> placed[i] == views[i])
  }

  /** Placing the next view where it is clear of the ones before it extends the
      layout by one. */
  lemma LayoutStep(s: Screen, views: seq<View>, timer: View, placed: seq<View>, done: nat, w: View)
    requires Layout(s, views, timer, placed, done) && done < |views|
    requires w.visible && OnScreen(s, w) && w == views[done].(visible := true, x := w.x, y := w.y)
    requires forall i :: 0 <= i < done ==> !Collide(placed[i], w)
    requires timer.visible ==> !Collide(w, timer)
    ensures Layout(s, views, timer, placed[done := w], done + 1)
  {
    var next := placed[done := w];
    forall i, j | 0 <= i < j < done + 1
      ensures !Collide(next[i], next[j])
    {
      if j == done {
        assert next[i] == placed[i];
      }
    }
  }

  /** The view a runnable accepted is on the screen and keeps clear of every
      view placed before it and of a visible timer. */
  lemma PlacedClear(s: Screen, v: View, placed: seq<View>, timer: View, tries: seq<Candidate>, done: nat)
    requires PositionView(s, v, placed, timer, tries).Some?
    requires done <= |placed|
    requires forall i :: 0 <= i < done ==> placed[i].visible && placed[i].id != v.id
    requires timer.id != v.id
    ensures var w := PositionView(s, v, placed, timer, tries).value;
            OnScreen(s, w) && w == v.(x := w.x, y := w.y)
            && (forall i :: 0 <= i < done ==> !Collide(placed[i], w))
            && (timer.visible ==> !Collide(w, timer))
  {
    var w := PositionView(s, v, placed, timer, tries).value;
    var k := PositionViewFirst(s, v, placed, timer, tries);
    forall i | 0 <= i < done
      ensures !Collide(placed[i], w)
    {
      assert !Blocks(w, placed[i]);
      CollideSymmetric(placed[i], w);
    }
  }
}
