/**
 * A selection (src/selection.js): the anchor is where it began, the focus
 * where the cursor is. Every time either one is set, the derived fields
 * `direction`, `isCollapsed`, `start` and `end` are recomputed from them.
 */
module Selections {
  import opened Wrappers
  import opened Position

  datatype Direction = Forward | Backward

  /** `getDirection`: backward exactly when the focus precedes the anchor. */
  function GetDirection(focus: Point, anchor: Point): (d: Direction)
    ensures d == Backward <==> Before(focus, anchor)
  {
    if Before(focus, anchor) then Backward else Forward
  }

  /** Start is the earlier of the two points and end the later, whichever is focus. */
  lemma DirectionOrdersEnds(focus: Point, anchor: Point)
    ensures var forward := GetDirection(focus, anchor) == Forward;
            var start := if forward then anchor else focus;
            var end := if forward then focus else anchor;
            && !After(start, end)
            && (Before(start, end) || start == end)
            && ((start == anchor && end == focus) || (start == focus && end == anchor))
  {
    Trichotomy(focus, anchor);
  }

  class Selection {
    /** `_focus`: where the cursor is. */
    var focus: Point
    /** `_anchor`: where the selection began. */
    var anchor: Point
    var start: Point
    var end: Point
    var isCollapsed: bool
    var direction: Direction

    /** The derived fields agree with focus and anchor, as `derive` leaves them. */
    ghost predicate Valid()
      reads this
    {
      && direction == GetDirection(focus, anchor)
      && isCollapsed == Equals(focus, anchor)
      && start == (if direction == Forward then anchor else focus)
      && end == (if direction == Forward then focus else anchor)
    }

    /**
     * `new Selection({ point })`: all four points at `point`, or at (0, 0)
     * when no point is given; collapsed and forward.
     */
    constructor (point: Option<Point>)
      ensures Valid()
      ensures var p := if point.Some? then point.value else Origin;
              focus == p && anchor == p && start == p && end == p
      ensures isCollapsed && direction == Forward
    {
      var p := if point.Some? then point.value else Origin;
      focus := p;
      anchor := p;
      start := p;
      end := p;
      isCollapsed := true;
      direction := GetDirection(p, p);
    }

    /** `derive`: recompute direction, collapsed flag, start and end. */
    method Derive()
      modifies this
      ensures focus == old(focus) && anchor == old(anchor)
      ensures Valid()
    {
      direction := GetDirection(focus, anchor);
      isCollapsed := Equals(focus, anchor);
      start := if direction == Forward then anchor else focus;
      end := if direction == Forward then focus else anchor;
    }

    /** The `focus` setter: the new focus, the anchor kept, everything re-derived. */
    method SetFocus(p: Point)
      modifies this
      ensures focus == p && anchor == old(anchor)
      ensures Valid()
    {
      focus := p;
      Derive();
    }

    /** The `anchor` setter: the new anchor, the focus kept, everything re-derived. */
    method SetAnchor(p: Point)
      modifies this
      ensures anchor == p && focus == old(focus)
      ensures Valid()
    {
      anchor := p;
      Derive();
    }

    /** In a consistent selection, start never comes after end, and the two are anchor and focus. */
    lemma StartNotAfterEnd()
      requires Valid()
      ensures !After(start, end)
      ensures isCollapsed <==> start == end
      ensures (start == anchor && end == focus) || (start == focus && end == anchor)
    {
      DirectionOrdersEnds(focus, anchor);
      EqualsIsIdentity(focus, anchor);
    }
  }
}
