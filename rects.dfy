// Integer screen rectangles as the game's sprites use them (pygame's Rect):
// a left/top corner and a non-negative size, with the derived edges and
// centre, and the assignments to `centerx`, `centery` and `top` that move the
// rectangle without resizing it.

module Rects {

  datatype Rect = Rect(x: int, y: int, w: nat, h: nat)
  {
    function Left(): int { x }
    function Right(): int { x + w }
    function Top(): int { y }

    /** The centre rounds down: a rect of odd width has its centre left of the middle. */
    function CenterX(): int { x + w / 2 }
    function CenterY(): int { y + h / 2 }

    /** `rect.centerx = c`: the rect moves horizontally so that its centre is `c`. */
    function WithCenterX(c: int): (r: Rect)
      ensures r.CenterX() == c
      ensures r.y == y && r.w == w && r.h == h
    {
      this.(x := c - w / 2)
    }

    /** `rect.centery = c`: the rect moves vertically so that its centre is `c`. */
    function WithCenterY(c: int): (r: Rect)
      ensures r.CenterY() == c
      ensures r.x == x && r.w == w && r.h == h
    {
      this.(y := c - h / 2)
    }

    /** `rect.top = t`: the rect moves vertically so that its top edge is `t`. */
    function WithTop(t: int): (r: Rect)
      ensures r.Top() == t
      ensures r.x == x && r.w == w && r.h == h
    {
      this.(y := t)
    }
  }

  /** `surface.get_rect()`: a rect of the surface's size at the origin. */
  function SizedRect(w: nat, h: nat): (r: Rect)
    ensures r.Left() == 0 && r.Top() == 0 && r.w == w && r.h == h
  {
    Rect(0, 0, w, h)
  }
}
