/**
  The snake: an ordered list of segments, head first, that steps one cell at
  a time on a wrap-around grid, refuses to bite its own interior, and turns
  in any direction except straight back.
 */
module Snakes {
  import opened GameTypes

  /** One body segment: where it is and how it is painted. */
  datatype Segment = Segment(pos: Point, color: Color)

  /** The cells covered by `body`, head first. */
  function Positions(body: seq<Segment>): (ps: seq<Point>)
    ensures |ps| == |body|
    ensures forall i :: 0 <= i < |body| ==> ps[i] == body[i].pos
  {
    seq(|body|, i requires 0 <= i < |body| => body[i].pos)
  }

  /** Brings one coordinate that has just moved by one cell back onto a grid
      of `size` cells: below 0 goes to the far edge, past the far edge to 0. */
  function Wrap(v: int, size: int): (w: int)
    ensures size >= 1 ==> 0 <= w < size
    ensures 0 <= v < size ==> w == v
  {
    if v < 0 then size - 1 else if v >= size then 0 else v
  }

  /** On a grid of at least one cell, wrapping a coordinate that is at most
      one cell off the grid is arithmetic modulo the grid size: the grid is a torus. */
  lemma WrapIsModulo(v: int, size: int)
    requires size >= 1 && -1 <= v <= size
    ensures Wrap(v, size) == v % size
  {
    if v == size {
      assert v % size == 0;
    } else if v == -1 {
      assert (size - 1) % size == size - 1;
      assert v % size == size - 1;
    }
  }

  /** The cell the head moves to: one step along `d`, each coordinate wrapped. */
  function NextHead(head: Point, d: Direction, maxWidth: int, maxHeight: int): (p: Point)
    ensures maxWidth >= 1 && maxHeight >= 1 ==> 0 <= p.x < maxWidth && 0 <= p.y < maxHeight
  {
    Point(Wrap(head.x + Delta(d).x, maxWidth), Wrap(head.y + Delta(d).y, maxHeight))
  }

  /** From a head on the grid, the next head is one step along the torus. */
  lemma NextHeadIsTorusStep(head: Point, d: Direction, maxWidth: int, maxHeight: int)
    requires 0 <= head.x < maxWidth && 0 <= head.y < maxHeight
    ensures NextHead(head, d, maxWidth, maxHeight)
         == Point((head.x + Delta(d).x) % maxWidth, (head.y + Delta(d).y) % maxHeight)
  {
    WrapIsModulo(head.x + Delta(d).x, maxWidth);
    WrapIsModulo(head.y + Delta(d).y, maxHeight);
  }

  /** Crossing an edge re-enters at the opposite one. */
  lemma NextHeadCrossesEdges(maxWidth: int, maxHeight: int, x: int, y: int)
    requires maxWidth >= 1 && maxHeight >= 1
    requires 0 <= x < maxWidth && 0 <= y < maxHeight
    ensures NextHead(Point(maxWidth - 1, y), Right, maxWidth, maxHeight) == Point(0, y)
    ensures NextHead(Point(0, y), Left, maxWidth, maxHeight) == Point(maxWidth - 1, y)
    ensures NextHead(Point(x, 0), Up, maxWidth, maxHeight) == Point(x, maxHeight - 1)
    ensures NextHead(Point(x, maxHeight - 1), Down, maxWidth, maxHeight) == Point(x, 0)
  {
  }

  /** Whether `p` is one of the cells strictly between the head and the tail:
      the only cells a move may not enter. */
  ghost predicate HitsInterior(body: seq<Segment>, p: Point)
  {
    exists i :: 1 <= i < |body| - 1 && body[i].pos == p
  }

  /** Whether some segment of `segs` covers `p`, by a scan from the head. */
  function Occupies(segs: seq<Segment>, p: Point): (r: bool)
    ensures segs == [] ==> !r
    ensures segs != [] && segs[0].pos == p ==> r
  {
    if segs == [] then false
    else segs[0].pos == p || Occupies(segs[1..], p)
  }

  /** The scan finds `p` exactly when some segment covers it. */
  lemma {:induction false} OccupiesSpec(segs: seq<Segment>, p: Point)
    ensures Occupies(segs, p) <==> exists i :: 0 <= i < |segs| && segs[i].pos == p
  {
    if segs != [] {
      OccupiesSpec(segs[1..], p);
      if segs[0].pos != p && Occupies(segs, p) {
        var i :| 0 <= i < |segs| - 1 && segs[1..][i].pos == p;
        assert segs[i + 1].pos == p;
      }
      if segs[0].pos != p && !Occupies(segs, p) {
        forall i | 1 <= i < |segs|
          ensures segs[i].pos != p
        {
          assert segs[i] == segs[1..][i - 1];
        }
      }
    }
  }

  /** The body after a successful move to `newHead`: the new head painted
      `headColor` in front, the old head repainted `bodyColor`, the rest as it was. */
  function Advance(body: seq<Segment>, newHead: Point, headColor: Color, bodyColor: Color): (r: seq<Segment>)
    requires body != []
    ensures |r| == |body| + 1 && r[0] == Segment(newHead, headColor)
  {
    [Segment(newHead, headColor), body[0].(color := bodyColor)] + body[1..]
  }

  /** A successful move lengthens the body by one, puts the new head in
      front of the old cells, and repaints only the first two segments. */
  lemma AdvanceShape(body: seq<Segment>, newHead: Point, headColor: Color, bodyColor: Color)
    requires body != []
    ensures var r := Advance(body, newHead, headColor, bodyColor);
            && |r| == |body| + 1
            && Positions(r) == [newHead] + Positions(body)
            && r[0].color == headColor && r[1].color == bodyColor
            && r[2..] == body[1..]
  {
    var r := Advance(body, newHead, headColor, bodyColor);
    assert forall i :: 1 <= i < |r| ==> r[i].pos == body[i - 1].pos;
  }

  /** A move followed by dropping the tail keeps the length, and the body
      slides by one cell: each old cell but the last is now one place back. */
  lemma AdvanceThenDropTail(body: seq<Segment>, newHead: Point, headColor: Color, bodyColor: Color)
    requires body != []
    ensures var r := WithoutTail(Advance(body, newHead, headColor, bodyColor));
            && |r| == |body|
            && Positions(r) == [newHead] + Positions(body)[..|body| - 1]
  {
    AdvanceShape(body, newHead, headColor, bodyColor);
  }

  /** The body with its last segment removed, or unchanged when empty. */
  function WithoutTail(body: seq<Segment>): seq<Segment>
  {
    if |body| > 0 then body[..|body| - 1] else body
  }

  /** The source's list of forbidden turns: each heading against its reverse. */
  predicate IsReversal(current: Direction, requested: Direction)
  {
    || (current == Right && requested == Left)
    || (current == Left && requested == Right)
    || (current == Up && requested == Down)
    || (current == Down && requested == Up)
  }

  /** The heading after a turn request: the request, unless its step exactly
      undoes the current step, in which case the current heading stays. */
  function Steer(current: Direction, requested: Direction): (r: Direction)
    ensures r == requested || r == current
    ensures r == requested <==> Delta(requested) != Point(-Delta(current).x, -Delta(current).y)
    ensures Delta(r) != Point(-Delta(current).x, -Delta(current).y)
  {
    if IsReversal(current, requested) then current else requested
  }

  class Snake {
    var body: seq<Segment>
    var direction: Direction
    var headColor: Color
    var bodyColor: Color

    /** A snake of three segments lying left of (startX, startY), heading right. */
    constructor (startX: int, startY: int)
      ensures body == [Segment(Point(startX, startY), LimeGreen),
                       Segment(Point(startX - 1, startY), Green),
                       Segment(Point(startX - 2, startY), Green)]
      ensures direction == Right && headColor == LimeGreen && bodyColor == Green
    {
      headColor := LimeGreen;
      bodyColor := Green;
      body := [Segment(Point(startX, startY), LimeGreen)];
      body := body + [Segment(Point(startX - 1, startY), Green)];
      body := body + [Segment(Point(startX - 2, startY), Green)];
      direction := Right;
    }

    /** Where the head is: a cell the snake covers. */
    function HeadPosition(): (p: Point)
      reads this
      requires body != []
      ensures Occupies(body, p)
    {
      body[0].pos
    }

    /** The number of segments; zero only for an empty body. */
    function Length(): (n: nat)
      reads this
      ensures n == 0 <==> body == []
    {
      |body|
    }

    /** One step along `direction`. Fails, changing nothing, when the new head
        would land on a segment other than the head and the tail; otherwise
        the new head is put in front and the old head takes the body colour. */
    method Move(maxWidth: int, maxHeight: int) returns (moved: bool)
      requires body != []
      modifies this
      ensures direction == old(direction) && headColor == old(headColor) && bodyColor == old(bodyColor)
      ensures moved <==> !HitsInterior(old(body), NextHead(old(body[0].pos), direction, maxWidth, maxHeight))
      ensures moved ==> body == Advance(old(body), NextHead(old(body[0].pos), direction, maxWidth, maxHeight), headColor, bodyColor)
      ensures !moved ==> body == old(body)
    {
      var head := body[0].pos;
      var newHead := NextHead(head, direction, maxWidth, maxHeight);
      var collidesWithSelf := false;
      var i := 1;
      while i < |body| - 1
        invariant 1 <= i <= |body|
        invariant !collidesWithSelf
        invariant forall j :: 1 <= j < i && j < |body| - 1 ==> body[j].pos != newHead
      {
        if body[i].pos == newHead {
          collidesWithSelf := true;
          break;
        }
        i := i + 1;
      }
      if collidesWithSelf {
        return false;
      }
      body := [Segment(newHead, headColor)] + body;
      if |body| > 1 {
        body := body[1 := body[1].(color := bodyColor)];
      }
      moved := true;
    }

    /** Growth is implicit: the caller keeps the tail by not shrinking. */
    method Grow()
      ensures unchanged(this)
    {
    }

    /** Drops the last segment; an empty body stays empty. */
    method ShrinkTail()
      modifies this
      ensures body == WithoutTail(old(body))
      ensures direction == old(direction) && headColor == old(headColor) && bodyColor == old(bodyColor)
    {
      if |body| > 0 {
        body := body[..|body| - 1];
      }
    }

    /** Whether some segment has the coordinates of `position`. */
    function Contains(position: Point): (r: bool)
      reads this
      ensures r <==> exists i :: 0 <= i < |body| && body[i].pos == position
    {
      OccupiesSpec(body, position);
      Occupies(body, position)
    }

    /** Takes the requested heading unless it is the exact reverse of the current one. */
    method ChangeDirection(newDirection: Direction)
      modifies this
      ensures direction == Steer(old(direction), newDirection)
      ensures body == old(body) && headColor == old(headColor) && bodyColor == old(bodyColor)
    {
      if IsReversal(direction, newDirection) {
        return;
      }
      direction := newDirection;
    }
  }
}
