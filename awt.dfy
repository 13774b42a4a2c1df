/** The `java.awt` value types the game's logic uses: points, rectangles and the
    colours graves and souls carry. */
module Awt {
  import opened JavaInt

  /** `java.awt.Point`: `x` grows to the right (columns), `y` downward (rows). */
  datatype Point = Point(x: int, y: int)

  /** `java.awt.Rectangle`: top-left corner and size, all ints. */
  datatype Rect = Rect(x: int, y: int, width: int, height: int)

  /** The far edges of the rectangle fit in an int, so Rectangle's sums do not wrap. */
  predicate NoOverflow(r: Rect) {
    IsInt32(r.x) && IsInt32(r.y) && IsInt32(r.x + r.width) && IsInt32(r.y + r.height)
  }

  /** Plain geometric overlap of two non-empty half-open boxes: their intersection has
      positive width and positive height. */
  predicate Overlap(a: Rect, b: Rect) {
    a.width > 0 && a.height > 0 && b.width > 0 && b.height > 0 &&
    a.x < b.x + b.width && b.x < a.x + a.width &&
    a.y < b.y + b.height && b.y < a.y + a.height
  }

  /** `Rectangle.intersects` as the JDK writes it, including its int wrap-around guard;
      when no sum overflows it is exactly the geometric overlap. */
  function Intersects(t: Rect, r: Rect): (b: bool)
    ensures b ==> t.width > 0 && t.height > 0 && r.width > 0 && r.height > 0
    ensures NoOverflow(t) && NoOverflow(r) ==> (b <==> Overlap(t, r))
  {
    if r.width <= 0 || r.height <= 0 || t.width <= 0 || t.height <= 0 then false
    else
      var rw, rh := Wrap(r.width + r.x), Wrap(r.height + r.y);
      var tw, th := Wrap(t.width + t.x), Wrap(t.height + t.y);
      (rw < r.x || rw > t.x) && (rh < r.y || rh > t.y) &&
      (tw < t.x || tw > r.x) && (th < t.y || th > r.y)
  }

  /** Two s-by-s squares meet exactly when their corners are less than s apart on both
      axes; squares that only share an edge do not. */
  lemma SquaresIntersect(a: Point, b: Point, s: int)
    requires s > 0
    requires NoOverflow(Rect(a.x, a.y, s, s)) && NoOverflow(Rect(b.x, b.y, s, s))
    ensures Intersects(Rect(a.x, a.y, s, s), Rect(b.x, b.y, s, s)) <==> Abs(a.x - b.x) < s && Abs(a.y - b.y) < s
  {
  }

  /** The six colours of `Grave.generateGraves`; Purple is `new Color(128, 0, 128)`. */
  datatype Color = Red | Orange | Yellow | Blue | Green | Purple

  const AllColors: seq<Color> := [Red, Orange, Yellow, Blue, Green, Purple]
}
