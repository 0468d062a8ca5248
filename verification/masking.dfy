/**
 * Redaction masks: the registry of sanitized views and the selection of the
 * rectangles that `viewToBitmap` paints over a captured frame.
 *
 * A `View` is the part of an Android view that the selection reads. It is a
 * class, so two views are the same view exactly when they are the same object,
 * as `List<View>.remove` compares them in the source.
 */
module Masking {
  import opened KotlinSemantics

  /** The values of Android's `View.getVisibility()`. */
  const VISIBLE: int := 0
  const INVISIBLE: int := 4
  const GONE: int := 8

  class View {
    var visibility: int
    /** The view's location in its window, as `getLocationInWindow` reports it. */
    var windowX: Int
    var windowY: Int
    var width: Int
    var height: Int

    constructor (visibility: int, windowX: Int, windowY: Int, width: Int, height: Int)
      ensures this.visibility == visibility
      ensures this.windowX == windowX && this.windowY == windowY
      ensures this.width == width && this.height == height
    {
      this.visibility := visibility;
      this.windowX := windowX;
      this.windowY := windowY;
      this.width := width;
      this.height := height;
    }
  }

  /** A mask rectangle in the root view's coordinates: origin, then size. */
  datatype Rect = Rect(left: Int, top: Int, width: Int, height: Int)

  /** Only VISIBLE views are masked; INVISIBLE and GONE views, and any other value, are not. */
  predicate IsVisible(v: View)
    reads v
  {
    v.visibility == VISIBLE
  }

  /**
   * The rectangle masking `v` in a frame rendered from `root`: the view's
   * window location translated by the root's (in 32-bit arithmetic), and the
   * view's size.
   */
  function MaskRect(v: View, root: View): (r: Rect)
    reads v, root
    ensures r.width == v.width && r.height == v.height
    ensures INT_MIN <= v.windowX - root.windowX <= INT_MAX ==> root.windowX + r.left == v.windowX
    ensures INT_MIN <= v.windowY - root.windowY <= INT_MAX ==> root.windowY + r.top == v.windowY
  {
    Rect(IntMinus(v.windowX, root.windowX), IntMinus(v.windowY, root.windowY), v.width, v.height)
  }

  /** The masks for `views`, in list order: one per visible view, none for the others. */
  function MaskRects(views: seq<View>, root: View): seq<Rect>
    reads views, root
  {
    if views == [] then []
    else
      var last := views[|views| - 1];
      MaskRects(views[..|views| - 1], root) + (if IsVisible(last) then [MaskRect(last, root)] else [])
  }

  /** The visible views of `views`, in order. */
  function VisibleViews(views: seq<View>): (r: seq<View>)
    reads views
    ensures |r| <= |views|
    ensures forall v :: v in r ==> v in views && IsVisible(v)
    ensures forall v :: v in views && IsVisible(v) ==> v in r
  {
    if views == [] then []
    else (if IsVisible(views[0]) then [views[0]] else []) + VisibleViews(views[1..])
  }

  lemma {:induction false} VisibleViewsAppend(a: seq<View>, b: seq<View>)
    ensures VisibleViews(a + b) == VisibleViews(a) + VisibleViews(b)
    decreases |a|
  {
    if a != [] {
      assert (a + b)[0] == a[0];
      assert (a + b)[1..] == a[1..] + b;
      VisibleViewsAppend(a[1..], b);
    } else {
      assert a + b == b;
    }
  }

  /** Masks for two lists run one after the other are the masks of their concatenation. */
  lemma {:induction false} MaskRectsAppend(a: seq<View>, b: seq<View>, root: View)
    ensures MaskRects(a + b, root) == MaskRects(a, root) + MaskRects(b, root)
    decreases |b|
  {
    if b == [] {
      assert a + b == a;
    } else {
      var init := b[..|b| - 1];
      assert (a + b)[..|a + b| - 1] == a + init;
      assert (a + b)[|a + b| - 1] == b[|b| - 1];
      MaskRectsAppend(a, init, root);
    }
  }

  /**
   * The selection is exactly the visible views, in list order, each mapped to
   * its rectangle: one mask per visible view, none for a hidden one.
   */
  lemma {:induction false} MaskRectsAreVisibleViews(views: seq<View>, root: View)
    ensures |MaskRects(views, root)| == |VisibleViews(views)|
    ensures forall i :: 0 <= i < |VisibleViews(views)| ==>
      MaskRects(views, root)[i] == MaskRect(VisibleViews(views)[i], root)
    decreases |views|
  {
    if views != [] {
      var init, last := views[..|views| - 1], views[|views| - 1];
      assert views == init + [last];
      VisibleViewsAppend(init, [last]);
      assert VisibleViews([last]) == if IsVisible(last) then [last] else [] by {
        assert [last][1..] == [];
      }
      MaskRectsAreVisibleViews(init, root);
    }
  }

  /** A view that is not VISIBLE adds no mask, wherever it stands in the list. */
  lemma HiddenViewAddsNoMask(before: seq<View>, v: View, after: seq<View>, root: View)
    requires !IsVisible(v)
    ensures MaskRects(before + [v] + after, root) == MaskRects(before + after, root)
  {
    MaskRectsAppend(before + [v], after, root);
    assert (before + [v])[..|before + [v]| - 1] == before;
    MaskRectsAppend(before, after, root);
  }

  /** The first position of `x` in `s`. */
  function FirstIndex<T(==)>(s: seq<T>, x: T): (i: nat)
    requires x in s
    ensures i < |s| && s[i] == x
    ensures x !in s[..i]
  {
    if s[0] == x then 0
    else
      var j := FirstIndex(s[1..], x);
      assert s[..j + 1] == [s[0]] + s[1..][..j];
      j + 1
  }

  /** The first position is the only position with `x` and no earlier `x`. */
  lemma {:induction false} FirstIndexIs<T>(s: seq<T>, x: T, k: nat)
    requires k < |s| && s[k] == x && x !in s[..k]
    ensures FirstIndex(s, x) == k
  {
    if k > 0 {
      assert s[0] in s[..k];
      assert s[..k] == [s[0]] + s[1..][..k - 1];
      FirstIndexIs(s[1..], x, k - 1);
    }
  }

  /** `MutableList.remove(x)`: drop the first occurrence of `x`, if there is one. */
  function RemoveFirst<T(==)>(s: seq<T>, x: T): (r: seq<T>)
    ensures x !in s ==> r == s
    ensures x in s ==> |r| == |s| - 1 && multiset(r) == multiset(s) - multiset{x}
  {
    if x in s then
      var i := FirstIndex(s, x);
      assert s == s[..i] + [s[i]] + s[i + 1..];
      s[..i] + s[i + 1..]
    else s
  }

  /** Removing a view that was just added, and was not there before, restores the list. */
  lemma RemoveUndoesAdd<T>(s: seq<T>, x: T)
    requires x !in s
    ensures RemoveFirst(s + [x], x) == s
  {
    assert (s + [x])[..|s|] == s;
    FirstIndexIs(s + [x], x, |s|);
  }

  /** With duplicates, removal takes out the earliest copy and keeps everything before it. */
  lemma RemoveTakesEarliest<T>(s: seq<T>, x: T, t: seq<T>)
    requires x !in s
    ensures RemoveFirst(s + [x] + t, x) == s + t
  {
    var u := s + [x] + t;
    assert u[..|s|] == s;
    FirstIndexIs(u, x, |s|);
    assert u[|s| + 1..] == t;
  }
}
