/**
 * The visibility test of `AbstractLodScheduler::checkSurfaceLayout` over
 * layout bitmasks. A bitmask is represented by the set of the positions of
 * its one bits: `a & b` is the intersection `a * b`, `x != 0` is `x != {}`,
 * and `(a & b) == a` is `a <= b`.
 */
module SurfaceVisibility {

  /** A layout bitmask of a scene node or component, as the set of its one bits. */
  type Layout = set<nat>

  /** What `checkSurfaceLayout` reads of a surface: its node's layout and its own layout mask. */
  datatype SurfaceLayout = SurfaceLayout(nodeLayout: Layout, layoutMask: Layout)

  /** `surface->target()->layout() & surface->layoutMask()`. */
  function Masked(surface: SurfaceLayout): Layout
  {
    surface.nodeLayout * surface.layoutMask
  }

  /** `checkSurfaceLayout`: the surface's masked layout must avoid `hidden` and meet the scheduler's mask. */
  function CheckSurfaceLayout(surface: SurfaceLayout, schedulerMask: Layout, hidden: Layout): bool
  {
    var surfaceLayout := Masked(surface);
    if surfaceLayout * hidden != {} then false else schedulerMask * surfaceLayout != {}
  }

  /** A surface is visible exactly when no bit of its masked layout is hidden and some bit is in the scheduler's mask. */
  lemma VisibleIffBits(surface: SurfaceLayout, schedulerMask: Layout, hidden: Layout)
    ensures CheckSurfaceLayout(surface, schedulerMask, hidden) <==>
      (forall b :: b in surface.nodeLayout && b in surface.layoutMask ==> b !in hidden)
      && (exists b :: b in surface.nodeLayout && b in surface.layoutMask && b in schedulerMask)
  {
    var m := Masked(surface);
    if m * hidden != {} {
      var b :| b in m * hidden;
      assert b in surface.nodeLayout && b in surface.layoutMask && b in hidden;
    } else if schedulerMask * m != {} {
      var b :| b in schedulerMask * m;
      assert b in surface.nodeLayout && b in surface.layoutMask && b in schedulerMask;
      forall b | b in surface.nodeLayout && b in surface.layoutMask
        ensures b !in hidden
      {
        assert b !in m * hidden;
      }
    } else {
      forall b | b in surface.nodeLayout && b in surface.layoutMask
        ensures b !in schedulerMask
      {
        assert b !in schedulerMask * m;
      }
    }
  }

  /** A hidden surface is never visible, whatever the scheduler's mask. */
  lemma HiddenIsNeverVisible(surface: SurfaceLayout, schedulerMask: Layout, hidden: Layout)
    requires Masked(surface) * hidden != {}
    ensures !CheckSurfaceLayout(surface, schedulerMask, hidden)
  {
  }

  /** Widening the scheduler's mask never hides a visible surface. */
  lemma {:induction false} VisibilityMonotoneInMask(surface: SurfaceLayout, mask: Layout, wider: Layout, hidden: Layout)
    requires mask <= wider
    requires CheckSurfaceLayout(surface, mask, hidden)
    ensures CheckSurfaceLayout(surface, wider, hidden)
  {
    var b :| b in mask * Masked(surface);
    assert b in wider * Masked(surface);
  }

  /** An empty scheduler mask shows nothing; a surface whose masked layout is empty is never shown. */
  lemma EmptyMasksShowNothing(surface: SurfaceLayout, schedulerMask: Layout, hidden: Layout)
    ensures !CheckSurfaceLayout(surface, {}, hidden)
    ensures Masked(surface) == {} ==> !CheckSurfaceLayout(surface, schedulerMask, hidden)
  {
  }
}
