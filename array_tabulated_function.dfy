// The array engine: the points live in the first pointsCount slots of an
// over-allocated array; the remaining slots are empty (null in the source).
// Insertion and deletion shift the slots in place; a full array is replaced
// by one of twice the length.

module ArrayTabulated {
  import opened TabulatedFunction
  import opened TabulatedFunctionProperties

  /** System.arraycopy: copies length slots of src from srcPos to dest from
      destPos, as if through a temporary buffer when src and dest are the same
      array and the ranges overlap. */
  method ArrayCopy<T>(src: array<T>, srcPos: int, dest: array<T>, destPos: int, length: int)
    requires 0 <= srcPos && 0 <= destPos && 0 <= length
    requires srcPos + length <= src.Length && destPos + length <= dest.Length
    modifies dest
    ensures forall j :: 0 <= j < dest.Length ==>
      dest[j] == if destPos <= j < destPos + length then old(src[srcPos + j - destPos]) else old(dest[j])
  {
    if src == dest && srcPos < destPos {
      // moving right over itself: copy from the top down
      var k := length;
      while k > 0
        invariant 0 <= k <= length
        invariant forall j :: 0 <= j < dest.Length ==>
          dest[j] == if destPos + k <= j < destPos + length then old(src[srcPos + j - destPos]) else old(dest[j])
      {
        k := k - 1;
        dest[destPos + k] := src[srcPos + k];
      }
    } else {
      var k := 0;
      while k < length
        invariant 0 <= k <= length
        invariant forall j :: 0 <= j < dest.Length ==>
          dest[j] == if destPos <= j < destPos + k then old(src[srcPos + j - destPos]) else old(dest[j])
        invariant src != dest ==> forall j :: 0 <= j < src.Length ==> src[j] == old(src[j])
      {
        dest[destPos + k] := src[srcPos + k];
        k := k + 1;
      }
    }
  }

  class ArrayTabulatedFunction {
    var points: array<Option<Point>>
    var pointsCount: int

    /** The live points, in order. */
    ghost var Contents: seq<Point>

    /** The live slots hold Contents, every other slot is empty, and Contents
        is a table: at least two points in strictly ascending x. */
    ghost predicate Valid()
      reads this, points
    {
      0 <= pointsCount <= points.Length &&
      |Contents| == pointsCount &&
      (forall i :: 0 <= i < pointsCount ==> points[i] == Some(Contents[i])) &&
      (forall i :: pointsCount <= i < points.Length ==> points[i] == None) &&
      IsTable(Contents)
    }

    /** The source's first constructor, past its argument checks. */
    constructor Grid(leftX: real, rightX: real, pointsCount: int)
      requires ConstructionError(leftX, rightX, pointsCount) == None
      ensures Valid() && fresh(points)
      ensures Contents == TabulatedFunction.Grid(leftX, rightX, pointsCount)
      ensures points.Length == pointsCount + 10
    {
      this.pointsCount := pointsCount;
      var a := new Option<Point>[pointsCount + 10](_ => None);
      var step := (rightX - leftX) / ((pointsCount - 1) as real);
      ghost var grid := TabulatedFunction.Grid(leftX, rightX, pointsCount);
      for i := 0 to pointsCount
        invariant forall j :: 0 <= j < i ==> a[j] == Some(grid[j])
        invariant forall j :: i <= j < a.Length ==> a[j] == None
      {
        var x := leftX + (i as real) * step;
        GridPoint(leftX, rightX, pointsCount, i, step);
        a[i] := Some(Point(x, 0.0));
      }
      points := a;
      Contents := grid;
      GridIsTable(leftX, rightX, pointsCount);
    }

    /** Construction from a range and a count: InvalidRange or InvalidCount,
        or count equally spaced points with y = 0 and ten spare slots. */
    static method Create(leftX: real, rightX: real, pointsCount: int) returns (res: Result<ArrayTabulatedFunction>)
      ensures res.Err? <==> ConstructionError(leftX, rightX, pointsCount).Some?
      ensures res.Err? ==> Some(res.error) == ConstructionError(leftX, rightX, pointsCount)
      ensures res.Ok? ==>
        fresh(res.value) && fresh(res.value.points) && res.value.Valid() &&
        res.value.Contents == TabulatedFunction.Grid(leftX, rightX, pointsCount) &&
        res.value.points.Length == pointsCount + 10
    {
      if leftX >= rightX {
        return Err(InvalidRange);
      }
      if pointsCount < 2 {
        return Err(InvalidCount);
      }
      var f := new ArrayTabulatedFunction.Grid(leftX, rightX, pointsCount);
      return Ok(f);
    }

    /** Construction from a range and the y values: the checks of Create with
        count = |values|, then y[i] = values[i]. */
    static method CreateWithValues(leftX: real, rightX: real, values: seq<real>) returns (res: Result<ArrayTabulatedFunction>)
      ensures res.Err? <==> ConstructionError(leftX, rightX, |values|).Some?
      ensures res.Err? ==> Some(res.error) == ConstructionError(leftX, rightX, |values|)
      ensures res.Ok? ==>
        fresh(res.value) && fresh(res.value.points) && res.value.Valid() &&
        res.value.Contents == GridWithValues(leftX, rightX, values) &&
        res.value.points.Length == |values| + 10
    {
      res := Create(leftX, rightX, |values|);
      if res.Err? {
        return;
      }
      var f := res.value;
      ghost var grid := f.Contents;
      GridWithValuesIsTable(leftX, rightX, values);
      for i := 0 to |values|
        invariant fresh(f.points) && f.points.Length == |values| + 10
        invariant f.Valid() && f.pointsCount == |values|
        invariant forall j :: 0 <= j < i ==> f.Contents[j] == GridWithValues(leftX, rightX, values)[j]
        invariant forall j :: i <= j < |values| ==> f.Contents[j] == grid[j]
      {
        SetYKeepsTable(f.Contents, i, values[i]);
        f.points[i] := Some(Point(f.points[i].value.x, values[i]));
        f.Contents := f.Contents[i := Point(f.Contents[i].x, values[i])];
      }
      assert f.Contents == GridWithValues(leftX, rightX, values);
    }

    function LeftDomainBorder(): (r: real)
      reads this, points
      requires Valid()
      ensures r == Contents[0].x
      ensures forall i :: 0 <= i < |Contents| ==> r <= Contents[i].x
    {
      points[0].value.x
    }

    function RightDomainBorder(): (r: real)
      reads this, points
      requires Valid()
      ensures r == Contents[|Contents| - 1].x
      ensures forall i :: 0 <= i < |Contents| ==> Contents[i].x <= r
    {
      points[pointsCount - 1].value.x
    }

    function GetPointsCount(): (r: int)
      reads this, points
      requires Valid()
      ensures r == |Contents| && r >= 2
    {
      pointsCount
    }

    /** The value at x: NaN (None) outside [left, right], else the scan for
        the bracket and the endpoint-hit or interpolation rule. */
    method GetFunctionValue(x: real) returns (r: Option<real>)
      requires Valid()
      ensures r == Evaluate(Contents, x)
    {
      if x < LeftDomainBorder() || x > RightDomainBorder() {
        return None;
      }
      var i := 0;
      while i < pointsCount - 1 && points[i + 1].value.x < x
        invariant 0 <= i < pointsCount
        invariant forall j :: 0 < j <= i ==> Contents[j].x < x
      {
        i := i + 1;
      }
      EvaluateAtScan(Contents, x, i);
      if DoubleEquals(points[i].value.x, x) {
        return Some(points[i].value.y);
      }
      if i < pointsCount - 1 && DoubleEquals(points[i + 1].value.x, x) {
        return Some(points[i + 1].value.y);
      }
      return Some(Interpolate(points[i].value, points[i + 1].value, x));
    }

    function GetPoint(index: int): (r: Result<Point>)
      reads this, points
      requires Valid()
      ensures 0 <= index < |Contents| ==> r == Ok(Contents[index])
      ensures !(0 <= index < |Contents|) ==> r == Err(OutOfBounds(index))
    {
      if index < 0 || index >= pointsCount then Err(OutOfBounds(index))
      else Ok(points[index].value)
    }

    function GetPointX(index: int): (r: Result<real>)
      reads this, points
      requires Valid()
      ensures 0 <= index < |Contents| ==> r == Ok(Contents[index].x)
      ensures !(0 <= index < |Contents|) ==> r == Err(OutOfBounds(index))
    {
      if index < 0 || index >= pointsCount then Err(OutOfBounds(index))
      else Ok(points[index].value.x)
    }

    function GetPointY(index: int): (r: Result<real>)
      reads this, points
      requires Valid()
      ensures 0 <= index < |Contents| ==> r == Ok(Contents[index].y)
      ensures !(0 <= index < |Contents|) ==> r == Err(OutOfBounds(index))
    {
      if index < 0 || index >= pointsCount then Err(OutOfBounds(index))
      else Ok(points[index].value.y)
    }

    /** Replaces the point at index if its x lies strictly between the
        neighbours' x (compared exactly); only that slot changes. */
    method SetPoint(index: int, point: Point) returns (res: Outcome)
      requires Valid()
      modifies this, points
      ensures Valid() && points == old(points) && pointsCount == old(pointsCount)
      ensures res == OutcomeOf(AfterSetPoint(old(Contents), index, point))
      ensures Contents == StateAfter(AfterSetPoint(old(Contents), index, point), old(Contents))
    {
      if index < 0 || index >= pointsCount {
        return Fail(OutOfBounds(index));
      }
      var newX := point.x;
      if (index > 0 && newX <= points[index - 1].value.x) ||
         (index < pointsCount - 1 && newX >= points[index + 1].value.x) {
        return Fail(OrderViolation);
      }
      SetPointKeepsTable(Contents, index, point);
      points[index] := Some(point);
      Contents := Contents[index := point];
      return Pass;
    }

    method SetPointX(index: int, x: real) returns (res: Outcome)
      requires Valid()
      modifies this, points
      ensures Valid() && points == old(points) && pointsCount == old(pointsCount)
      ensures res == OutcomeOf(AfterSetX(old(Contents), index, x))
      ensures Contents == StateAfter(AfterSetX(old(Contents), index, x), old(Contents))
    {
      if index < 0 || index >= pointsCount {
        return Fail(OutOfBounds(index));
      }
      if (index > 0 && x <= points[index - 1].value.x) ||
         (index < pointsCount - 1 && x >= points[index + 1].value.x) {
        return Fail(OrderViolation);
      }
      SetXKeepsTable(Contents, index, x);
      points[index] := Some(Point(x, points[index].value.y));
      Contents := Contents[index := Point(x, Contents[index].y)];
      return Pass;
    }

    method SetPointY(index: int, y: real) returns (res: Outcome)
      requires Valid()
      modifies this, points
      ensures Valid() && points == old(points) && pointsCount == old(pointsCount)
      ensures res == OutcomeOf(AfterSetY(old(Contents), index, y))
      ensures Contents == StateAfter(AfterSetY(old(Contents), index, y), old(Contents))
    {
      if index < 0 || index >= pointsCount {
        return Fail(OutOfBounds(index));
      }
      SetYKeepsTable(Contents, index, y);
      points[index] := Some(Point(points[index].value.x, y));
      Contents := Contents[index := Point(Contents[index].x, y)];
      return Pass;
    }

    /** Removes the point at index by shifting the tail left and clearing the
        vacated slot; the array keeps its length. */
    method DeletePoint(index: int) returns (res: Outcome)
      requires Valid()
      modifies this, points
      ensures Valid() && points == old(points)
      ensures res == OutcomeOf(AfterDelete(old(Contents), index))
      ensures Contents == StateAfter(AfterDelete(old(Contents), index), old(Contents))
    {
      if index < 0 || index >= pointsCount {
        return Fail(OutOfBounds(index));
      }
      if pointsCount < 3 {
        return Fail(Underflow);
      }
      ghost var s := Contents;
      ghost var t := s[..index] + s[index + 1..];
      DeleteKeepsTable(s, index);
      ArrayCopy(points, index + 1, points, index, pointsCount - index - 1);
      forall j | 0 <= j < points.Length
        ensures points[j] == if j < pointsCount - 1 then Some(t[j]) else if j == pointsCount - 1 then Some(s[j]) else None
      {
        if j < index {
          assert t[j] == s[j];
        } else if j < pointsCount - 1 {
          assert t[j] == s[j + 1];
        }
      }
      pointsCount := pointsCount - 1;
      points[pointsCount] := None;
      Contents := t;
      return Pass;
    }

    /** Inserts point at the first index whose x is not below point.x, unless
        the point already there is epsilon-equal in x; a full array is first
        replaced by one of twice the length. */
    method AddPoint(point: Point) returns (res: Outcome)
      requires Valid()
      modifies this, points
      ensures Valid()
      ensures res == OutcomeOf(AfterArrayAdd(old(Contents), point))
      ensures Contents == StateAfter(AfterArrayAdd(old(Contents), point), old(Contents))
      ensures var grown := res.Pass? && old(pointsCount) == old(points.Length);
        (grown ==> fresh(points) && points.Length == 2 * old(points.Length)) &&
        (!grown ==> points == old(points))
    {
      var insertIndex := 0;
      while insertIndex < pointsCount && points[insertIndex].value.x < point.x
        invariant 0 <= insertIndex <= pointsCount
        invariant forall j :: 0 <= j < insertIndex ==> Contents[j].x < point.x
      {
        insertIndex := insertIndex + 1;
      }
      InsertionIndexUnique(Contents, point.x, insertIndex);

      if insertIndex < pointsCount && DoubleEquals(points[insertIndex].value.x, point.x) {
        return Fail(DuplicateX);
      }

      ArrayAddKeepsTable(Contents, point);
      if pointsCount == points.Length {
        Grow();
      }
      ShiftAndStore(insertIndex, point);
      return Pass;
    }

    /** Replaces the full array by one of twice the length that holds the
        same points. */
    method Grow()
      requires Valid() && pointsCount == points.Length
      modifies this
      ensures Valid() && Contents == old(Contents) && pointsCount == old(pointsCount)
      ensures fresh(points) && points.Length == 2 * old(points.Length)
    {
      var newArray := new Option<Point>[points.Length * 2](_ => None);
      ArrayCopy(points, 0, newArray, 0, pointsCount);
      points := newArray;
    }

    /** Opens slot index by shifting the slots from index on one to the right,
        and stores point there. */
    method ShiftAndStore(index: int, point: Point)
      requires Valid() && 0 <= index <= pointsCount < points.Length
      requires index > 0 ==> Contents[index - 1].x < point.x
      requires index < pointsCount ==> point.x < Contents[index].x
      modifies this, points
      ensures Valid() && points == old(points)
      ensures Contents == InsertAt(old(Contents), index, point)
    {
      ghost var s := Contents;
      InsertAtKeepsTable(s, index, point);
      ghost var t := InsertAt(s, index, point);
      ArrayCopy(points, index, points, index + 1, pointsCount - index);
      points[index] := Some(point);
      pointsCount := pointsCount + 1;
      Contents := t;
      forall j | 0 <= j < pointsCount ensures points[j] == Some(t[j]) {
        if j < index {
          assert t[j] == s[j];
        } else if j > index {
          assert t[j] == s[j - 1];
        }
      }
    }
  }
}
