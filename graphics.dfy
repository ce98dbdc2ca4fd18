/**
 * The few `embedded-graphics` geometry types the font crates use: points, sizes and
 * rectangles, and the order in which `Rectangle::points` visits a rectangle's points.
 */
module Graphics {
  import opened Bytes

  datatype Point = Point(x: int, y: int)

  datatype Size = Size(width: nat, height: nat)

  datatype Rectangle = Rectangle(topLeft: Point, size: Size)

  /** `Rectangle::translate`: the same size, the top-left corner moved by `offset`. */
  function Translate(r: Rectangle, offset: Point): Rectangle {
    Rectangle(Point(r.topLeft.x + offset.x, r.topLeft.y + offset.y), r.size)
  }

  /** `Rectangle::points`: the points of the rectangle row by row from the top, each row from the left. */
  function Points(r: Rectangle): (ps: seq<Point>) {
    PointRows(r, r.size.height)
  }

  /** The first `h` rows of the walk. */
  function PointRows(r: Rectangle, h: nat): (ps: seq<Point>) {
    if h == 0 then [] else PointRows(r, h - 1) + PointRow(r, h - 1)
  }

  /** Row `y` of the walk, from the left. */
  function PointRow(r: Rectangle, y: nat): (ps: seq<Point>)
    ensures |ps| == r.size.width
  {
    seq(r.size.width, x requires 0 <= x < r.size.width => Point(r.topLeft.x + x, r.topLeft.y + y))
  }

  /** The walk visits `width * height` points. */
  lemma PointsCount(r: Rectangle)
    ensures |Points(r)| == r.size.width * r.size.height
  {
    PointRowsCount(r, r.size.height);
  }

  lemma {:induction false} PointRowsCount(r: Rectangle, h: nat)
    ensures |PointRows(r, h)| == h * r.size.width
  {
    if h > 0 {
      PointRowsCount(r, h - 1);
      NextRow(r.size.width, h - 1);
    }
  }

  /** Point `y * width + x` of the walk is column `x` of row `y`. */
  lemma PointAt(r: Rectangle, x: nat, y: nat)
    requires x < r.size.width && y < r.size.height
    ensures y * r.size.width + x < |Points(r)|
    ensures Points(r)[y * r.size.width + x] == Point(r.topLeft.x + x, r.topLeft.y + y)
  {
    PointRowsAt(r, r.size.height, x, y);
  }

  lemma {:induction false} PointRowsAt(r: Rectangle, h: nat, x: nat, y: nat)
    requires x < r.size.width && y < h
    ensures y * r.size.width + x < |PointRows(r, h)|
    ensures PointRows(r, h)[y * r.size.width + x] == Point(r.topLeft.x + x, r.topLeft.y + y)
  {
    var w := r.size.width;
    PointRowsCount(r, h - 1);
    NextRow(w, h - 1);
    if y < h - 1 {
      PointRowsAt(r, h - 1, x, y);
    } else {
      assert (PointRows(r, h - 1) + PointRow(r, y))[y * w + x] == PointRow(r, y)[x];
    }
  }
}
