/**
  The swipeable event card: the pan-responder rules that decide when a
  drag is a horizontal swipe, how far the card follows the finger, and
  which of the card's callbacks a release, a termination or a long press
  calls.
*/
module Swipe {

  /** The callbacks the card is given, in the order the card calls them. */
  datatype Callback = SwipeStart | SwipeEnd | Add | Delete

  /** The farthest the card follows the finger either way. */
  const MaxSwipe: real := 100.0

  /** The smallest horizontal travel that claims a move. */
  const ClaimDistance: real := 5.0

  /** The share of the window width a release must travel to act. */
  const ThresholdShare: real := 0.3

  function Abs(x: real): (a: real)
    ensures a >= 0.0 && (a == x || a == -x)
  {
    if x < 0.0 then -x else x
  }

  /**
    onMoveShouldSetPanResponder: the move is taken over exactly when it is
    more horizontal than vertical and more than 5 points sideways.
  */
  predicate ClaimsMove(dx: real, dy: real) {
    Abs(dx) > Abs(dy) && Abs(dx) > ClaimDistance
  }

  /**
    The claim rule as a region of the plane: a claimed move lies in the
    wedge to the right beyond x = 5 or in the one to the left beyond
    x = -5, between the two diagonals; and every such move is claimed.
  */
  lemma ClaimedMoveIsHorizontal(dx: real, dy: real)
    ensures ClaimsMove(dx, dy) <==>
              (dx > ClaimDistance && -dx < dy < dx) || (dx < -ClaimDistance && dx < dy < -dx)
  {
  }

  /** Math.max(-100, Math.min(100, dx)): the offset the card is moved to. */
  function Limited(dx: real): (x: real)
    ensures -MaxSwipe <= x <= MaxSwipe
    ensures -MaxSwipe <= dx <= MaxSwipe ==> x == dx
    ensures dx > MaxSwipe ==> x == MaxSwipe
    ensures dx < -MaxSwipe ==> x == -MaxSwipe
  {
    var capped := if dx < MaxSwipe then dx else MaxSwipe;
    if capped > -MaxSwipe then capped else -MaxSwipe
  }

  /** Limiting is idempotent and keeps the order of the offsets. */
  lemma LimitedMonotone(dx1: real, dx2: real)
    ensures Limited(Limited(dx1)) == Limited(dx1)
    ensures dx1 <= dx2 ==> Limited(dx1) <= Limited(dx2)
  {
  }

  /**
    The callbacks onPanResponderRelease calls for a gesture that ended dx
    points sideways: onSwipeEnd, then onAdd for a far enough swipe to the
    right or onDelete for a far enough swipe to the left.
  */
  function ReleaseCalls(dx: real, threshold: real): (calls: seq<Callback>)
    ensures 1 <= |calls| <= 2 && calls[0] == SwipeEnd
    ensures Add in calls <==> Abs(dx) >= threshold && dx > 0.0
    ensures Delete in calls <==> Abs(dx) >= threshold && dx <= 0.0
    ensures |calls| == 2 <==> Abs(dx) >= threshold
    ensures SwipeStart !in calls
  {
    if Abs(dx) >= threshold then
      if dx > 0.0 then [SwipeEnd, Add] else [SwipeEnd, Delete]
    else [SwipeEnd]
  }

  /** A release never calls both onAdd and onDelete. */
  lemma ReleaseAddsOrDeletes(dx: real, threshold: real)
    ensures !(Add in ReleaseCalls(dx, threshold) && Delete in ReleaseCalls(dx, threshold))
  {
  }

  /**
    The card: translateX, the offset the card is drawn at, and the log of
    the callbacks it has called. The threshold is fixed when the card is
    created from the window width.
  */
  class SwipeableCard {
    var translateX: real
    var calls: seq<Callback>
    const swipeThreshold: real

    /** The card only ever sits within 100 points of its rest position. */
    predicate Valid()
      reads this
    {
      -MaxSwipe <= translateX <= MaxSwipe
    }

    /** A card at rest that has called nothing, its threshold 0.3 of the window width. */
    constructor (screenWidth: real)
      ensures Valid()
      ensures swipeThreshold == screenWidth * ThresholdShare
      ensures translateX == 0.0 && calls == []
    {
      translateX := 0.0;
      calls := [];
      swipeThreshold := screenWidth * ThresholdShare;
    }

    /** onMoveShouldSetPanResponder: claims the move and calls onSwipeStart, or leaves it. */
    method MoveShouldSet(dx: real, dy: real) returns (claimed: bool)
      requires Valid()
      modifies this
      ensures Valid()
      ensures claimed <==> ClaimsMove(dx, dy)
      ensures calls == old(calls) + (if claimed then [SwipeStart] else [])
      ensures translateX == old(translateX)
    {
      var isHorizontalSwipe := Abs(dx) > Abs(dy);
      if isHorizontalSwipe && Abs(dx) > ClaimDistance {
        calls := calls + [SwipeStart];
        return true;
      }
      return false;
    }

    /** onPanResponderMove: the card follows dx, held within 100 points either way. */
    method Move(dx: real)
      requires Valid()
      modifies this
      ensures Valid()
      ensures translateX == Limited(dx)
      ensures calls == old(calls)
    {
      var limitedDx := if MaxSwipe < dx then MaxSwipe else dx;
      limitedDx := if -MaxSwipe > limitedDx then -MaxSwipe else limitedDx;
      translateX := limitedDx;
    }

    /**
      onPanResponderTerminate: the card springs back to rest and onSwipeEnd
      is called, never onAdd or onDelete.
    */
    method Terminate()
      requires Valid()
      modifies this
      ensures Valid()
      ensures translateX == 0.0
      ensures calls == old(calls) + [SwipeEnd]
    {
      translateX := 0.0;
      calls := calls + [SwipeEnd];
    }

    /** onPanResponderRelease: the card springs back to rest and the release callbacks are called. */
    method Release(dx: real)
      requires Valid()
      modifies this
      ensures Valid()
      ensures translateX == 0.0
      ensures calls == old(calls) + ReleaseCalls(dx, swipeThreshold)
    {
      if Abs(dx) >= swipeThreshold {
        if dx > 0.0 {
          translateX := 0.0;
          calls := calls + [SwipeEnd];
          calls := calls + [Add];
        } else {
          translateX := 0.0;
          calls := calls + [SwipeEnd];
          calls := calls + [Delete];
        }
      } else {
        translateX := 0.0;
        calls := calls + [SwipeEnd];
      }
    }

    /** onLongPress: onDelete is called and the card does not move. */
    method LongPress()
      requires Valid()
      modifies this
      ensures Valid()
      ensures translateX == old(translateX)
      ensures calls == old(calls) + [Delete]
    {
      calls := calls + [Delete];
    }
  }
}
