// What the shared contract promises: every mutator keeps the table invariant,
// the scans stop where their definitions say, evaluation is undefined exactly
// outside the domain and interpolates inside it, and the two insertion rules
// differ exactly where their duplicate checks differ.

module TabulatedFunctionProperties {
  import opened TabulatedFunction

  // ---------------------------------------------------------------------------
  // Construction

  /** The i-th grid point, with the spacing computed once as the
      constructors do. */
  lemma GridPoint(leftX: real, rightX: real, n: int, i: int, step: real)
    requires n >= 2 && 0 <= i < n && step == (rightX - leftX) / ((n - 1) as real)
    ensures Grid(leftX, rightX, n)[i] == Point(leftX + (i as real) * step, 0.0)
  {
  }

  /** A count-based constructor yields count points from leftX to rightX,
      strictly ascending, all with y = 0. */
  lemma GridIsTable(leftX: real, rightX: real, n: int)
    requires ConstructionError(leftX, rightX, n) == None
    ensures |Grid(leftX, rightX, n)| == n && IsTable(Grid(leftX, rightX, n))
    ensures Grid(leftX, rightX, n)[0].x == leftX && Grid(leftX, rightX, n)[n - 1].x == rightX
    ensures forall i :: 0 <= i < n ==> Grid(leftX, rightX, n)[i].y == 0.0
  {
    var s := Grid(leftX, rightX, n);
    var step := (rightX - leftX) / ((n - 1) as real);
    assert step > 0.0;
    forall i, j | 0 <= i < j < n ensures s[i].x < s[j].x {
      GridPoint(leftX, rightX, n, i, step);
      GridPoint(leftX, rightX, n, j, step);
      var d := (j - i) as real;
      assert d > 0.0;
      assert d * step > 0.0;
      assert (j as real) * step == (i as real) * step + d * step;
    }
    assert ((n - 1) as real) * step == rightX - leftX;
  }

  /** A value-based constructor yields the same abscissas, with y[i] = values[i]. */
  lemma GridWithValuesIsTable(leftX: real, rightX: real, values: seq<real>)
    requires ConstructionError(leftX, rightX, |values|) == None
    ensures |GridWithValues(leftX, rightX, values)| == |values|
    ensures IsTable(GridWithValues(leftX, rightX, values))
    ensures forall i :: 0 <= i < |values| ==>
      GridWithValues(leftX, rightX, values)[i] == Point(Grid(leftX, rightX, |values|)[i].x, values[i])
  {
    GridIsTable(leftX, rightX, |values|);
    var g := Grid(leftX, rightX, |values|);
    var s := GridWithValues(leftX, rightX, values);
    forall i, j | 0 <= i < j < |s| ensures s[i].x < s[j].x {
      assert s[i].x == g[i].x && s[j].x == g[j].x;
    }
  }

  // ---------------------------------------------------------------------------
  // The two scans

  /** Any index where the insertion scan may stop is InsertionIndex: two
      such indices cannot differ, since each would see the other's point on
      its own side of x. */
  lemma InsertionIndexUnique(s: seq<Point>, x: real, k: int)
    requires 0 <= k <= |s|
    requires forall j :: 0 <= j < k ==> s[j].x < x
    requires k < |s| ==> x <= s[k].x
    ensures k == InsertionIndex(s, x)
  {
  }

  /** In a sorted table the insertion index counts the points below x. */
  lemma InsertionIndexSplits(s: seq<Point>, x: real)
    requires StrictlyIncreasing(s)
    ensures forall j :: 0 <= j < |s| ==> (s[j].x < x <==> j < InsertionIndex(s, x))
  {
    var k := InsertionIndex(s, x);
    forall j | k <= j < |s| ensures x <= s[j].x {
      assert x <= s[k].x;
    }
  }

  /** Any index where the evaluation scan may stop is Bracket, for the
      same reason. */
  lemma BracketUnique(s: seq<Point>, x: real, i: int)
    requires 0 <= i < |s|
    requires forall j :: 0 < j <= i ==> s[j].x < x
    requires i == |s| - 1 || x <= s[i + 1].x
    ensures i == Bracket(s, x)
  {
  }

  // ---------------------------------------------------------------------------
  // Evaluation

  lemma InterpolateBetween(a: Point, b: Point, x: real)
    requires a.x < x < b.x
    ensures a.y <= b.y ==> a.y <= Interpolate(a, b, x) <= b.y
    ensures b.y <= a.y ==> b.y <= Interpolate(a, b, x) <= a.y
  {
    var d, u, dy := b.x - a.x, x - a.x, b.y - a.y;
    var t := u / d;
    assert 0.0 < t && 0.0 < (d - u) / d;
    assert t + (d - u) / d == (u + (d - u)) / d == 1.0;
    // the value is a.y + dy * t with 0 < t < 1
    assert Interpolate(a, b, x) - a.y == dy * t;
    assert b.y - Interpolate(a, b, x) == dy * (1.0 - t);
    if dy >= 0.0 {
      assert dy * t >= 0.0 && dy * (1.0 - t) >= 0.0;
    } else {
      assert dy * t < 0.0 && dy * (1.0 - t) < 0.0;
    }
  }

  /** Inside the domain the scan stops on a real bracket x[i] <= x <= x[i+1]
      (never past the last point), and the value lies between its two y's. */
  lemma EvaluateWithinBracket(s: seq<Point>, x: real)
    requires IsTable(s)
    requires s[0].x <= x <= s[|s| - 1].x
    ensures Bracket(s, x) + 1 < |s|
    ensures s[Bracket(s, x)].x <= x <= s[Bracket(s, x) + 1].x
    ensures Evaluate(s, x).Some?
    ensures var i, v := Bracket(s, x), Evaluate(s, x).value;
      (s[i].y <= s[i + 1].y ==> s[i].y <= v <= s[i + 1].y) &&
      (s[i + 1].y <= s[i].y ==> s[i + 1].y <= v <= s[i].y)
  {
    var i := Bracket(s, x);
    var v := Evaluate(s, x).value;
    if !DoubleEquals(s[i].x, x) && !DoubleEquals(s[i + 1].x, x) {
      assert s[i].x < x < s[i + 1].x;
      InterpolateBetween(s[i], s[i + 1], x);
    }
  }

  /** Wherever a scan stops under the conditions that define Bracket inside
      the domain, the value is read off the point there and its successor. */
  lemma EvaluateAtScan(s: seq<Point>, x: real, i: int)
    requires IsTable(s) && s[0].x <= x <= s[|s| - 1].x
    requires 0 <= i < |s|
    requires forall j :: 0 < j <= i ==> s[j].x < x
    requires i == |s| - 1 || x <= s[i + 1].x
    ensures i + 1 < |s|
    ensures Evaluate(s, x) ==
      if DoubleEquals(s[i].x, x) then Some(s[i].y)
      else if DoubleEquals(s[i + 1].x, x) then Some(s[i + 1].y)
      else Some(Interpolate(s[i], s[i + 1], x))
  {
    BracketUnique(s, x, i);
    EvaluateWithinBracket(s, x);
  }

  /** In a table whose points are at least Epsilon apart, evaluating at a
      stored x returns the stored y. */
  lemma EvaluateAtNode(s: seq<Point>, i: int)
    requires IsTable(s) && Separated(s)
    requires 0 <= i < |s|
    ensures Evaluate(s, s[i].x) == Some(s[i].y)
  {
    var x := s[i].x;
    var b := if i == 0 then 0 else i - 1;
    BracketUnique(s, x, b);
    if i > 0 {
      assert x - s[i - 1].x >= Epsilon;
      assert !DoubleEquals(s[i - 1].x, x);
    }
  }

  // ---------------------------------------------------------------------------
  // Index-checked mutators keep the invariant

  lemma SetPointKeepsTable(s: seq<Point>, index: int, p: Point)
    requires IsTable(s)
    ensures AfterSetPoint(s, index, p).Ok? <==>
      0 <= index < |s| && (index == 0 || s[index - 1].x < p.x) && (index == |s| - 1 || p.x < s[index + 1].x)
    ensures AfterSetPoint(s, index, p).Ok? ==>
      var t := AfterSetPoint(s, index, p).value;
      IsTable(t) && |t| == |s| && t[index] == p && forall j :: 0 <= j < |s| && j != index ==> t[j] == s[j]
  {
    if AfterSetPoint(s, index, p).Ok? {
      var t := s[index := p];
      forall i, j | 0 <= i < j < |t| ensures t[i].x < t[j].x {
        if i == index {
          assert p.x < s[index + 1].x && s[index + 1].x <= s[j].x;
        } else if j == index {
          assert s[i].x <= s[index - 1].x && s[index - 1].x < p.x;
        }
      }
    }
  }

  lemma SetXKeepsTable(s: seq<Point>, index: int, x: real)
    requires IsTable(s)
    ensures AfterSetX(s, index, x).Ok? <==>
      0 <= index < |s| && (index == 0 || s[index - 1].x < x) && (index == |s| - 1 || x < s[index + 1].x)
    ensures AfterSetX(s, index, x).Ok? ==>
      var t := AfterSetX(s, index, x).value;
      IsTable(t) && |t| == |s| && t[index] == Point(x, s[index].y) &&
      forall j :: 0 <= j < |s| && j != index ==> t[j] == s[j]
  {
    if 0 <= index < |s| {
      SetPointKeepsTable(s, index, Point(x, s[index].y));
    }
  }

  lemma SetYKeepsTable(s: seq<Point>, index: int, y: real)
    requires IsTable(s)
    ensures AfterSetY(s, index, y).Ok? <==> 0 <= index < |s|
    ensures AfterSetY(s, index, y).Ok? ==>
      var t := AfterSetY(s, index, y).value;
      IsTable(t) && |t| == |s| && t[index] == Point(s[index].x, y) &&
      forall j :: 0 <= j < |s| && j != index ==> t[j] == s[j]
  {
    if 0 <= index < |s| {
      var t := s[index := Point(s[index].x, y)];
      forall i, j | 0 <= i < j < |t| ensures t[i].x < t[j].x {
        assert t[i].x == s[i].x && t[j].x == s[j].x;
      }
    }
  }

  /** setPoint compares neighbours exactly, without Epsilon: it accepts an x
      closer than Epsilon to a neighbour, which insertion in the linked engine
      rejects. */
  lemma SetPointComparesExactly()
    ensures var s := [Point(0.0, 0.0), Point(1.0, 0.0), Point(2.0, 0.0)];
      var p := Point(0.00000000005, 7.0);
      AfterSetPoint(s, 1, p) == Ok([s[0], p, s[2]]) &&
      AfterLinkedAdd([s[0], s[2]], p) == Err(DuplicateX)
  {
    var s := [Point(0.0, 0.0), Point(1.0, 0.0), Point(2.0, 0.0)];
    var p := Point(0.00000000005, 7.0);
    assert s[1 := p] == [s[0], p, s[2]];
    InsertionIndexUnique([s[0], s[2]], p.x, 1);
    assert DoubleEquals(s[0].x, p.x);
  }

  lemma DeleteKeepsTable(s: seq<Point>, index: int)
    requires IsTable(s)
    ensures AfterDelete(s, index).Ok? <==> 0 <= index < |s| && |s| >= 3
    ensures AfterDelete(s, index).Ok? ==>
      var t := AfterDelete(s, index).value;
      IsTable(t) && |t| == |s| - 1 &&
      (forall j :: 0 <= j < index ==> t[j] == s[j]) &&
      (forall j :: index <= j < |t| ==> t[j] == s[j + 1])
  {
    if AfterDelete(s, index).Ok? {
      var t := s[..index] + s[index + 1..];
      forall j | index <= j < |t| ensures t[j] == s[j + 1] {
      }
      forall i, j | 0 <= i < j < |t| ensures t[i].x < t[j].x {
        var i' := if i < index then i else i + 1;
        var j' := if j < index then j else j + 1;
        assert t[i] == s[i'] && t[j] == s[j'];
      }
    }
  }

  /** At the minimum of two points every deletion fails. */
  lemma DeleteAtMinimumFails(s: seq<Point>, index: int)
    requires |s| == 2
    ensures AfterDelete(s, index) == if 0 <= index < 2 then Err(Underflow) else Err(OutOfBounds(index))
  {
  }

  // ---------------------------------------------------------------------------
  // Insertion

  lemma InsertAtKeepsTable(s: seq<Point>, k: int, p: Point)
    requires IsTable(s) && 0 <= k <= |s|
    requires k > 0 ==> s[k - 1].x < p.x
    requires k < |s| ==> p.x < s[k].x
    ensures |InsertAt(s, k, p)| == |s| + 1 && IsTable(InsertAt(s, k, p))
    ensures InsertAt(s, k, p)[k] == p
    ensures forall j :: 0 <= j < k ==> InsertAt(s, k, p)[j] == s[j]
    ensures forall j :: k < j <= |s| ==> InsertAt(s, k, p)[j] == s[j - 1]
  {
    var t := InsertAt(s, k, p);
    forall j | k < j <= |s| ensures t[j] == s[j - 1] {
    }
    forall i, j | 0 <= i < j < |t| ensures t[i].x < t[j].x {
      if j == k {
        assert s[i].x <= s[k - 1].x;
      } else if i == k {
        assert s[k].x <= s[j - 1].x;
      } else {
        var i' := if i < k then i else i - 1;
        var j' := if j < k then j else j - 1;
        assert t[i] == s[i'] && t[j] == s[j'];
      }
    }
  }

  /** Array-engine insertion keeps the invariant and places p where the scan stopped. */
  lemma ArrayAddKeepsTable(s: seq<Point>, p: Point)
    requires IsTable(s)
    ensures AfterArrayAdd(s, p).Ok? ==>
      AfterArrayAdd(s, p).value == InsertAt(s, InsertionIndex(s, p.x), p) &&
      IsTable(AfterArrayAdd(s, p).value) && |AfterArrayAdd(s, p).value| == |s| + 1
  {
    var k := InsertionIndex(s, p.x);
    if AfterArrayAdd(s, p).Ok? {
      assert k < |s| ==> p.x != s[k].x;
      InsertAtKeepsTable(s, k, p);
    }
  }

  /** The array engine rejects p exactly when some stored x at or above p.x is
      epsilon-equal to it: a stored x just below p.x is not looked at. */
  lemma ArrayAddRejects(s: seq<Point>, p: Point)
    requires IsTable(s)
    ensures AfterArrayAdd(s, p).Err? <==>
      exists j :: 0 <= j < |s| && p.x <= s[j].x && DoubleEquals(s[j].x, p.x)
    ensures AfterArrayAdd(s, p).Err? ==> AfterArrayAdd(s, p).error == DuplicateX
  {
    var k := InsertionIndex(s, p.x);
    if exists j :: 0 <= j < |s| && p.x <= s[j].x && DoubleEquals(s[j].x, p.x) {
      var j :| 0 <= j < |s| && p.x <= s[j].x && DoubleEquals(s[j].x, p.x);
      InsertionIndexSplits(s, p.x);
      assert k <= j;
      assert p.x <= s[k].x <= s[j].x;
    }
  }

  /** The linked engine rejects p exactly when some stored x is epsilon-equal to it. */
  lemma LinkedAddRejects(s: seq<Point>, p: Point)
    requires IsTable(s)
    ensures AfterLinkedAdd(s, p).Err? <==> exists j :: 0 <= j < |s| && DoubleEquals(s[j].x, p.x)
    ensures AfterLinkedAdd(s, p).Err? ==> AfterLinkedAdd(s, p).error == DuplicateX
  {
    var k := InsertionIndex(s, p.x);
    if exists j :: 0 <= j < |s| && DoubleEquals(s[j].x, p.x) {
      var j :| 0 <= j < |s| && DoubleEquals(s[j].x, p.x);
      InsertionIndexSplits(s, p.x);
      if j < k {
        assert s[j].x <= s[k - 1].x < p.x;
        assert DoubleEquals(s[k - 1].x, p.x);
      } else {
        assert p.x <= s[k].x <= s[j].x;
        assert DoubleEquals(s[k].x, p.x);
      }
    }
  }

  /** Linked-engine insertion keeps the invariant, places p where the scan
      stopped, and also keeps points at least Epsilon apart. */
  lemma LinkedAddKeepsTable(s: seq<Point>, p: Point)
    requires IsTable(s)
    ensures AfterLinkedAdd(s, p).Ok? ==>
      var t := AfterLinkedAdd(s, p).value;
      t == InsertAt(s, InsertionIndex(s, p.x), p) && IsTable(t) && |t| == |s| + 1 &&
      (Separated(s) ==> Separated(t))
  {
    var k := InsertionIndex(s, p.x);
    if AfterLinkedAdd(s, p).Ok? {
      InsertAtKeepsTable(s, k, p);
      var t := InsertAt(s, k, p);
      if Separated(s) {
        forall i, j | 0 <= i < j < |t| ensures t[j].x - t[i].x >= Epsilon {
          if j == k {
            assert p.x - s[k - 1].x >= Epsilon;
            assert s[i].x <= s[k - 1].x;
          } else if i == k {
            assert s[k].x - p.x >= Epsilon;
            assert s[k].x <= s[j - 1].x;
          } else {
            var i' := if i < k then i else i - 1;
            var j' := if j < k then j else j - 1;
            assert t[i] == s[i'] && t[j] == s[j'];
          }
        }
      }
    }
  }

  /** The linked engine accepts a subset of what the array engine accepts, and
      where both accept they produce the same sequence. */
  lemma LinkedAddRefinesArrayAdd(s: seq<Point>, p: Point)
    requires IsTable(s)
    ensures AfterLinkedAdd(s, p).Ok? ==> AfterArrayAdd(s, p) == AfterLinkedAdd(s, p)
    ensures AfterArrayAdd(s, p).Err? ==> AfterLinkedAdd(s, p).Err?
  {
    ArrayAddRejects(s, p);
    LinkedAddRejects(s, p);
  }

  /** A new x just above a stored one, by less than Epsilon: the array engine
      inserts it, the linked engine refuses it, and in the array engine's
      result evaluation at the new x returns the neighbour's y. */
  lemma AddEnginesDisagree()
    ensures var s := [Point(0.0, 0.0), Point(1.0, 0.0)];
      var p := Point(0.00000000005, 1.0);
      AfterArrayAdd(s, p) == Ok([s[0], p, s[1]]) &&
      AfterLinkedAdd(s, p) == Err(DuplicateX) &&
      Evaluate([s[0], p, s[1]], p.x) == Some(0.0)
  {
    var s := [Point(0.0, 0.0), Point(1.0, 0.0)];
    var p := Point(0.00000000005, 1.0);
    InsertionIndexUnique(s, p.x, 1);
    assert InsertAt(s, 1, p) == [s[0], p, s[1]];
    assert DoubleEquals(s[0].x, p.x);
    BracketUnique([s[0], p, s[1]], p.x, 0);
  }

  /** After a successful linked insertion into a separated table, evaluating at
      the new x returns the new y. */
  lemma LinkedAddThenEvaluate(s: seq<Point>, p: Point)
    requires IsTable(s) && Separated(s)
    requires AfterLinkedAdd(s, p).Ok?
    ensures Evaluate(AfterLinkedAdd(s, p).value, p.x) == Some(p.y)
  {
    LinkedAddKeepsTable(s, p);
    var k := InsertionIndex(s, p.x);
    InsertAtKeepsTable(s, k, p);
    EvaluateAtNode(AfterLinkedAdd(s, p).value, k);
  }

  /** Deleting the point just inserted gives back the table before the insertion. */
  lemma AddThenDelete(s: seq<Point>, p: Point)
    requires IsTable(s)
    requires AfterArrayAdd(s, p).Ok?
    ensures AfterDelete(AfterArrayAdd(s, p).value, InsertionIndex(s, p.x)) == Ok(s)
  {
    ArrayAddKeepsTable(s, p);
    var k := InsertionIndex(s, p.x);
    var t := InsertAt(s, k, p);
    assert t[..k] == s[..k];
    assert t[k + 1..] == s[k..];
    assert s[..k] + s[k..] == s;
  }

  /** The same round trip for the linked engine, whose insertions are a
      subset of the array engine's. */
  lemma LinkedAddThenDelete(s: seq<Point>, p: Point)
    requires IsTable(s)
    requires AfterLinkedAdd(s, p).Ok?
    ensures AfterDelete(AfterLinkedAdd(s, p).value, InsertionIndex(s, p.x)) == Ok(s)
  {
    LinkedAddRefinesArrayAdd(s, p);
    AddThenDelete(s, p);
  }
}
