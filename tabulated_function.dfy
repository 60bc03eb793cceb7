// The contract shared by both storage engines of a tabulated function: a finite
// list of points (x, y) in strictly increasing x order. Every operation of the
// engines is specified here on the abstract sequence of points, so that the
// array engine and the linked-ring engine are proved against the same
// definitions.

module TabulatedFunction {

  /** A sample of the function. A value: the copy-on-read and copy-on-store of
      the source's point objects is implicit. */
  datatype Point = Point(x: real, y: real)

  datatype Option<+T> = None | Some(value: T)

  /** The failures the engines signal. */
  datatype Error =
    | InvalidRange            // left border >= right border at construction
    | InvalidCount            // fewer than two points requested at construction
    | OutOfBounds(index: int) // index outside [0, count)
    | OrderViolation          // a new x would not lie strictly between its neighbours
    | DuplicateX              // an inserted x is epsilon-equal to a stored one
    | Underflow               // a deletion would leave fewer than two points

  datatype Result<+T> = Ok(value: T) | Err(error: Error)

  /** What a mutator reports: success, or the failure it signalled. */
  datatype Outcome = Pass | Fail(error: Error)

  function OutcomeOf<T>(r: Result<T>): Outcome {
    if r.Ok? then Pass else Fail(r.error)
  }

  /** The sequence a mutator leaves behind: the new one, or the old one on failure. */
  function StateAfter(r: Result<seq<Point>>, s: seq<Point>): seq<Point> {
    if r.Ok? then r.value else s
  }

  // ---------------------------------------------------------------------------
  // Comparison of x values

  const Epsilon: real := 0.0000000001

  function Abs(r: real): real {
    if r < 0.0 then -r else r
  }

  /** Equality up to the absolute tolerance Epsilon. */
  predicate DoubleEquals(a: real, b: real): (r: bool)
    ensures r <==> a - Epsilon < b < a + Epsilon
    ensures r <==> b - Epsilon < a < b + Epsilon
  {
    Abs(a - b) < Epsilon
  }

  // ---------------------------------------------------------------------------
  // The invariant of every engine

  predicate StrictlyIncreasing(s: seq<Point>) {
    forall i, j :: 0 <= i < j < |s| ==> s[i].x < s[j].x
  }

  /** At least two points, strictly ascending in x. */
  predicate IsTable(s: seq<Point>) {
    |s| >= 2 && StrictlyIncreasing(s)
  }

  /** Every two points are at least Epsilon apart in x. Not an engine invariant:
      it is what makes an epsilon-based lookup land on the intended point. */
  predicate Separated(s: seq<Point>) {
    forall i, j :: 0 <= i < j < |s| ==> s[j].x - s[i].x >= Epsilon
  }

  // ---------------------------------------------------------------------------
  // Construction

  /** The construction checks, in the order the constructors make them. */
  function ConstructionError(leftX: real, rightX: real, pointsCount: int): (r: Option<Error>)
    ensures r.None? <==> leftX < rightX && pointsCount >= 2
    ensures r == Some(InvalidCount) ==> leftX < rightX
  {
    if leftX >= rightX then Some(InvalidRange)
    else if pointsCount < 2 then Some(InvalidCount)
    else None
  }

  /** The i-th of n equally spaced abscissas from leftX to rightX. */
  function GridX(leftX: real, rightX: real, n: int, i: int): (r: real)
    requires n >= 2
    ensures i == 0 ==> r == leftX
    ensures i == n - 1 ==> r == rightX
  {
    leftX + (i as real) * ((rightX - leftX) / ((n - 1) as real))
  }

  /** The points a constructor given a count produces: equally spaced, y = 0. */
  function Grid(leftX: real, rightX: real, n: int): (r: seq<Point>)
    requires n >= 2
    ensures |r| == n && r[0] == Point(leftX, 0.0) && r[n - 1] == Point(rightX, 0.0)
  {
    seq(n, i => Point(GridX(leftX, rightX, n, i), 0.0))
  }

  /** The points a constructor given y values produces. */
  function GridWithValues(leftX: real, rightX: real, values: seq<real>): (r: seq<Point>)
    requires |values| >= 2
    ensures |r| == |values|
    ensures forall i :: 0 <= i < |values| ==> r[i] == Point(Grid(leftX, rightX, |values|)[i].x, values[i])
  {
    seq(|values|, i requires 0 <= i < |values| => Point(GridX(leftX, rightX, |values|, i), values[i]))
  }

  // ---------------------------------------------------------------------------
  // Index-checked mutators

  /** The index check comes first; on success only the point at index changes. */
  function AfterSetPoint(s: seq<Point>, index: int, p: Point): (r: Result<seq<Point>>)
    ensures r.Err? ==> r.error == if 0 <= index < |s| then OrderViolation else OutOfBounds(index)
    ensures r.Ok? ==>
      0 <= index < |s| && |r.value| == |s| && r.value[index] == p &&
      forall j :: 0 <= j < |s| && j != index ==> r.value[j] == s[j]
  {
    if index < 0 || index >= |s| then Err(OutOfBounds(index))
    else if (index > 0 && p.x <= s[index - 1].x) || (index < |s| - 1 && p.x >= s[index + 1].x) then
      Err(OrderViolation)
    else Ok(s[index := p])
  }

  function AfterSetX(s: seq<Point>, index: int, x: real): (r: Result<seq<Point>>)
    ensures r.Err? ==> r.error == if 0 <= index < |s| then OrderViolation else OutOfBounds(index)
    ensures r.Ok? ==>
      0 <= index < |s| && |r.value| == |s| && r.value[index] == Point(x, s[index].y) &&
      forall j :: 0 <= j < |s| && j != index ==> r.value[j] == s[j]
  {
    if index < 0 || index >= |s| then Err(OutOfBounds(index))
    else AfterSetPoint(s, index, Point(x, s[index].y))
  }

  function AfterSetY(s: seq<Point>, index: int, y: real): (r: Result<seq<Point>>)
    ensures r.Ok? <==> 0 <= index < |s|
    ensures r.Err? ==> r.error == OutOfBounds(index)
    ensures r.Ok? ==>
      |r.value| == |s| && r.value[index] == Point(s[index].x, y) &&
      forall j :: 0 <= j < |s| && j != index ==> r.value[j] == s[j]
  {
    if index < 0 || index >= |s| then Err(OutOfBounds(index))
    else Ok(s[index := Point(s[index].x, y)])
  }

  /** The index check comes first, then the two-point minimum; on success
      the later points move down one place. */
  function AfterDelete(s: seq<Point>, index: int): (r: Result<seq<Point>>)
    ensures r.Err? ==> r.error == if 0 <= index < |s| then Underflow else OutOfBounds(index)
    ensures r.Ok? ==>
      0 <= index < |s| && |r.value| == |s| - 1 &&
      (forall j :: 0 <= j < index ==> r.value[j] == s[j]) &&
      (forall j :: index <= j < |r.value| ==> r.value[j] == s[j + 1])
  {
    if index < 0 || index >= |s| then Err(OutOfBounds(index))
    else if |s| < 3 then Err(Underflow)
    else Ok(s[..index] + s[index + 1..])
  }

  // ---------------------------------------------------------------------------
  // Insertion

  /** Where the insertion scan stops: the first index whose x is not below x. */
  function InsertionIndex(s: seq<Point>, x: real): (k: nat)
    ensures k <= |s|
    ensures forall j :: 0 <= j < k ==> s[j].x < x
    ensures k < |s| ==> x <= s[k].x
  {
    if |s| == 0 || x <= s[0].x then 0 else 1 + InsertionIndex(s[1..], x)
  }

  function InsertAt(s: seq<Point>, k: int, p: Point): seq<Point>
    requires 0 <= k <= |s|
  {
    s[..k] + [p] + s[k..]
  }

  /** Insertion in the array engine: only the point where the scan stopped is
      compared with the new x. */
  function AfterArrayAdd(s: seq<Point>, p: Point): (r: Result<seq<Point>>)
    ensures r.Err? ==> r.error == DuplicateX
    ensures r.Ok? ==> |r.value| == |s| + 1 && r.value[InsertionIndex(s, p.x)] == p
  {
    var k := InsertionIndex(s, p.x);
    if k < |s| && DoubleEquals(s[k].x, p.x) then Err(DuplicateX)
    else Ok(InsertAt(s, k, p))
  }

  /** Splicing at a given index in the linked engine: both neighbours of the
      new position are compared with the new x. */
  function AfterAddAtIndex(s: seq<Point>, index: int, p: Point): (r: Result<seq<Point>>)
    ensures r.Err? ==> r.error == if 0 <= index <= |s| then DuplicateX else OutOfBounds(index)
    ensures r.Ok? ==> 0 <= index <= |s| && |r.value| == |s| + 1 && r.value[index] == p
  {
    if index < 0 || index > |s| then Err(OutOfBounds(index))
    else if index > 0 && DoubleEquals(s[index - 1].x, p.x) then Err(DuplicateX)
    else if index < |s| && DoubleEquals(s[index].x, p.x) then Err(DuplicateX)
    else Ok(InsertAt(s, index, p))
  }

  /** Insertion in the linked engine: the scan's own check, then the splice. */
  function AfterLinkedAdd(s: seq<Point>, p: Point): (r: Result<seq<Point>>)
    ensures r.Err? ==> r.error == DuplicateX
    ensures r.Ok? ==> |r.value| == |s| + 1 && r.value[InsertionIndex(s, p.x)] == p
  {
    var k := InsertionIndex(s, p.x);
    if k < |s| && DoubleEquals(s[k].x, p.x) then Err(DuplicateX)
    else AfterAddAtIndex(s, k, p)
  }

  // ---------------------------------------------------------------------------
  // Evaluation

  /** Where the evaluation scan stops: the first i that is the last index or
      whose successor's x is not below x. */
  function Bracket(s: seq<Point>, x: real): (i: nat)
    requires |s| >= 1
    ensures i < |s|
    ensures forall j :: 0 < j <= i ==> s[j].x < x
    ensures i == |s| - 1 || x <= s[i + 1].x
  {
    if |s| == 1 || x <= s[1].x then 0 else 1 + Bracket(s[1..], x)
  }

  /** The straight line through a and b, at x. */
  function Interpolate(a: Point, b: Point, x: real): (r: real)
    requires a.x != b.x
    ensures x == a.x ==> r == a.y
    ensures x == b.x ==> r == b.y
  {
    a.y + (b.y - a.y) * (x - a.x) / (b.x - a.x)
  }

  /** The value of the tabulated function at x; None is the source's NaN. */
  function Evaluate(s: seq<Point>, x: real): (r: Option<real>)
    requires |s| >= 1
    ensures r.None? <==> x < s[0].x || x > s[|s| - 1].x
  {
    if x < s[0].x || x > s[|s| - 1].x then None
    else
      var i := Bracket(s, x);
      if DoubleEquals(s[i].x, x) then Some(s[i].y)
      else if i < |s| - 1 && DoubleEquals(s[i + 1].x, x) then Some(s[i + 1].y)
      else
        assert i < |s| - 1;
        Some(Interpolate(s[i], s[i + 1], x))
  }
}
