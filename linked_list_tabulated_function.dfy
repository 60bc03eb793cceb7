// The linked engine: the points live in a circular doubly-linked ring closed
// by a sentinel node that carries no point. A one-slot cache remembers the
// last node reached by index, so that accesses at the same or an adjacent
// index cost one step.

module LinkedListTabulated {
  import opened TabulatedFunction
  import opened TabulatedFunctionProperties

  /** A ring node; the sentinel's point is None. */
  class FunctionNode {
    var point: Option<Point>
    var prev: FunctionNode?
    var next: FunctionNode?

    constructor (point: Option<Point>)
      ensures this.point == point && prev == null && next == null
    {
      this.point := point;
      prev := null;
      next := null;
    }
  }

  /** Every node is in repr. */
  ghost predicate Within(nodes: seq<FunctionNode>, repr: set<object>) {
    forall i :: 0 <= i < |nodes| ==> nodes[i] in repr
  }

  /** The nodes carry the points, in order. */
  ghost predicate Carries(nodes: seq<FunctionNode>, contents: seq<Point>)
    reads nodes
  {
    |nodes| == |contents| &&
    forall i :: 0 <= i < |nodes| ==> nodes[i].point == Some(contents[i])
  }

  /** h, nodes[0], ..., nodes[n-1], h is a ring closed in both directions. */
  ghost predicate Ring(h: FunctionNode, nodes: seq<FunctionNode>)
    reads h, nodes
  {
    (|nodes| == 0 ==> h.next == h && h.prev == h) &&
    (|nodes| > 0 ==>
      h.next == nodes[0] && nodes[0].prev == h &&
      h.prev == nodes[|nodes| - 1] && nodes[|nodes| - 1].next == h) &&
    (forall i :: 0 <= i < |nodes| - 1 ==> nodes[i].next == nodes[i + 1]) &&
    (forall i :: 0 < i < |nodes| ==> nodes[i].prev == nodes[i - 1])
  }

  /** The node before position k of the ring: h for k = 0. */
  function Before(h: FunctionNode, nodes: seq<FunctionNode>, k: int): FunctionNode
    requires 0 <= k <= |nodes|
  {
    if k == 0 then h else nodes[k - 1]
  }

  /** The node at position k of the ring: h for k = |nodes|. */
  function At(h: FunctionNode, nodes: seq<FunctionNode>, k: int): FunctionNode
    requires 0 <= k <= |nodes|
  {
    if k == |nodes| then h else nodes[k]
  }

  /** A node that occurred twice in a ring would make the walk from its second
      occurrence reach h before the end of nodes: the nodes of a ring are
      distinct. */
  lemma {:induction false} RingDistinct(h: FunctionNode, nodes: seq<FunctionNode>, i: int, j: int)
    requires Ring(h, nodes) && h !in nodes && 0 <= i < j < |nodes|
    ensures nodes[i] != nodes[j]
    decreases |nodes| - j
  {
    assert nodes[i].next == nodes[i + 1] != h;
    if j < |nodes| - 1 {
      RingDistinct(h, nodes, i + 1, j + 1);
    }
  }

  /** The node at k occurs nowhere else in a ring. */
  lemma RingElsewhere(h: FunctionNode, nodes: seq<FunctionNode>, k: int)
    requires Ring(h, nodes) && h !in nodes && 0 <= k < |nodes|
    ensures forall i :: 0 <= i < |nodes| && i != k ==> nodes[i] != nodes[k]
  {
    forall i | 0 <= i < |nodes| && i != k
      ensures nodes[i] != nodes[k]
    {
      if i < k {
        RingDistinct(h, nodes, i, k);
      } else {
        RingDistinct(h, nodes, k, i);
      }
    }
  }

  /** The classic doubly-linked invariant: every node of the ring, the
      sentinel included, is its successor's predecessor and its
      predecessor's successor. */
  lemma RingMutual(h: FunctionNode, nodes: seq<FunctionNode>)
    requires Ring(h, nodes)
    ensures h.next != null && h.next.prev == h && h.prev != null && h.prev.next == h
    ensures forall i :: 0 <= i < |nodes| ==>
      nodes[i].next != null && nodes[i].next.prev == nodes[i] &&
      nodes[i].prev != null && nodes[i].prev.next == nodes[i]
  {
    forall i | 0 <= i < |nodes|
      ensures nodes[i].next != null && nodes[i].next.prev == nodes[i]
      ensures nodes[i].prev != null && nodes[i].prev.next == nodes[i]
    {
      if i < |nodes| - 1 {
        assert nodes[i].next == nodes[i + 1];
      }
      if i > 0 {
        assert nodes[i].prev == nodes[i - 1];
      }
    }
  }

  lemma SpliceWithin(nodes: seq<FunctionNode>, repr: set<object>, index: int, m: FunctionNode)
    requires Within(nodes, repr) && 0 <= index <= |nodes|
    ensures Within(nodes[..index] + [m] + nodes[index..], repr + {m})
  {
    var s := nodes[..index] + [m] + nodes[index..];
    assert forall i :: 0 <= i < |s| ==> s[i] == if i < index then nodes[i] else if i == index then m else nodes[i - 1];
  }

  lemma RemoveWithin(nodes: seq<FunctionNode>, repr: set<object>, index: int)
    requires Within(nodes, repr) && 0 <= index < |nodes|
    ensures Within(nodes[..index] + nodes[index + 1..], repr)
  {
    var s := nodes[..index] + nodes[index + 1..];
    assert forall i :: 0 <= i < |s| ==> s[i] == if i < index then nodes[i] else nodes[i + 1];
  }

  /** A node other than the removed one keeps its place, one lower if it
      lay beyond. */
  lemma CacheAfterRemove(nodes: seq<FunctionNode>, index: int, c: FunctionNode, k: int)
    requires 0 <= index < |nodes| && 0 <= k < |nodes| && c == nodes[k] && c != nodes[index]
    ensures var k' := if k > index then k - 1 else k;
      0 <= k' < |nodes| - 1 && (nodes[..index] + nodes[index + 1..])[k'] == c
  {
  }

  lemma CarriesInsert(nodes: seq<FunctionNode>, contents: seq<Point>, index: int, m: FunctionNode, p: Point)
    requires Carries(nodes, contents) && m.point == Some(p) && 0 <= index <= |nodes|
    ensures Carries(nodes[..index] + [m] + nodes[index..], InsertAt(contents, index, p))
  {
    var s := nodes[..index] + [m] + nodes[index..];
    assert forall i :: 0 <= i < |s| ==> s[i] == if i < index then nodes[i] else if i == index then m else nodes[i - 1];
  }

  lemma CarriesRemove(nodes: seq<FunctionNode>, contents: seq<Point>, index: int)
    requires Carries(nodes, contents) && 0 <= index < |nodes|
    ensures Carries(nodes[..index] + nodes[index + 1..], contents[..index] + contents[index + 1..])
  {
    var s := nodes[..index] + nodes[index + 1..];
    assert forall i :: 0 <= i < |s| ==> s[i] == if i < index then nodes[i] else nodes[i + 1];
  }

  /** The links of a ring with m spliced in at index, from the links that
      the splice keeps and the four it makes. */
  lemma RingInsert(h: FunctionNode, nodes: seq<FunctionNode>, index: int, m: FunctionNode)
    requires 0 <= index <= |nodes|
    requires forall i :: 0 <= i < |nodes| - 1 && i != index - 1 ==> nodes[i].next == nodes[i + 1]
    requires forall i :: 0 < i < |nodes| && i != index ==> nodes[i].prev == nodes[i - 1]
    requires index > 0 ==> h.next == nodes[0] && nodes[0].prev == h
    requires index < |nodes| ==> h.prev == nodes[|nodes| - 1] && nodes[|nodes| - 1].next == h
    requires m.prev == Before(h, nodes, index) && m.next == At(h, nodes, index)
    requires Before(h, nodes, index).next == m && At(h, nodes, index).prev == m
    ensures Ring(h, nodes[..index] + [m] + nodes[index..])
  {
    var s := nodes[..index] + [m] + nodes[index..];
    assert forall i :: 0 <= i < |s| ==> s[i] == if i < index then nodes[i] else if i == index then m else nodes[i - 1];
  }

  /** The links of a ring without its node at index, from the links that the
      removal keeps and the two it makes. */
  lemma RingRemove(h: FunctionNode, nodes: seq<FunctionNode>, index: int)
    requires 0 <= index < |nodes|
    requires forall i :: 0 <= i < |nodes| - 1 && i != index - 1 && i != index ==> nodes[i].next == nodes[i + 1]
    requires forall i :: 0 < i < |nodes| && i != index && i != index + 1 ==> nodes[i].prev == nodes[i - 1]
    requires index > 0 ==> h.next == nodes[0] && nodes[0].prev == h
    requires index < |nodes| - 1 ==> h.prev == nodes[|nodes| - 1] && nodes[|nodes| - 1].next == h
    requires Before(h, nodes, index).next == At(h, nodes, index + 1)
    requires At(h, nodes, index + 1).prev == Before(h, nodes, index)
    ensures Ring(h, nodes[..index] + nodes[index + 1..])
  {
    var s := nodes[..index] + nodes[index + 1..];
    assert forall i :: 0 <= i < |s| ==> s[i] == if i < index then nodes[i] else nodes[i + 1];
  }

  /** The four link updates of an insertion: newNode goes between prevNode
      and nextNode, the nodes before and at position index of the ring, which
      then holds newNode, and its point, at index. */
  method Link(prevNode: FunctionNode, newNode: FunctionNode, nextNode: FunctionNode,
              ghost h: FunctionNode, ghost nodes: seq<FunctionNode>, ghost contents: seq<Point>, ghost index: int)
    requires Ring(h, nodes) && Carries(nodes, contents) && h !in nodes && h.point == None
    requires newNode != h && newNode !in nodes && newNode.point.Some?
    requires 0 <= index <= |nodes| && prevNode == Before(h, nodes, index) && nextNode == At(h, nodes, index)
    modifies prevNode, newNode, nextNode
    ensures Ring(h, nodes[..index] + [newNode] + nodes[index..])
    ensures newNode.point.Some? && Carries(nodes[..index] + [newNode] + nodes[index..], InsertAt(contents, index, newNode.point.value))
    ensures h.point == None && newNode.point == old(newNode.point)
  {
    if index < |nodes| {
      RingElsewhere(h, nodes, index);
    }
    if index > 0 {
      RingElsewhere(h, nodes, index - 1);
    }
    newNode.prev := prevNode;
    newNode.next := nextNode;
    prevNode.next := newNode;
    nextNode.prev := newNode;
    RingInsert(h, nodes, index, newNode);
    CarriesInsert(nodes, contents, index, newNode, newNode.point.value);
  }

  /** The two link updates of a deletion: the neighbours of the node at index
      are linked to each other, and the ring, and its points, lose it. */
  method Unlink(prevNode: FunctionNode, nextNode: FunctionNode,
                ghost h: FunctionNode, ghost nodes: seq<FunctionNode>, ghost contents: seq<Point>, ghost index: int)
    requires Ring(h, nodes) && Carries(nodes, contents) && h !in nodes && h.point == None
    requires 0 <= index < |nodes| && prevNode == Before(h, nodes, index) && nextNode == At(h, nodes, index + 1)
    modifies prevNode, nextNode
    ensures Ring(h, nodes[..index] + nodes[index + 1..])
    ensures Carries(nodes[..index] + nodes[index + 1..], contents[..index] + contents[index + 1..])
    ensures h.point == None
  {
    RingElsewhere(h, nodes, index);
    if index > 0 {
      RingElsewhere(h, nodes, index - 1);
    }
    if index < |nodes| - 1 {
      RingElsewhere(h, nodes, index + 1);
    }
    prevNode.next := nextNode;
    nextNode.prev := prevNode;
    RingRemove(h, nodes, index);
    CarriesRemove(nodes, contents, index);
  }

  /** A new point for the node at k: the links are untouched, and the nodes
      then carry contents with its k-th point replaced. */
  method SetNodePoint(node: FunctionNode, p: Point,
                      ghost h: FunctionNode, ghost nodes: seq<FunctionNode>, ghost contents: seq<Point>, ghost k: int)
    requires Ring(h, nodes) && Carries(nodes, contents) && h !in nodes && h.point == None
    requires 0 <= k < |nodes| && node == nodes[k]
    modifies node
    ensures Ring(h, nodes) && Carries(nodes, contents[k := p]) && h.point == None
  {
    RingElsewhere(h, nodes, k);
    node.point := Some(p);
  }

  class LinkedListTabulatedFunction {
    var head: FunctionNode
    var pointsCount: int
    var lastAccessedNode: FunctionNode?
    var lastAccessedIndex: int

    /** The data nodes in ring order, starting after head. */
    ghost var Nodes: seq<FunctionNode>
    /** The points they carry. */
    ghost var Contents: seq<Point>
    ghost var Repr: set<object>

    /** The ring head, Nodes[0], ..., Nodes[n-1], head is closed in both
        directions and the nodes carry Contents. That the nodes are distinct
        follows (see RingDistinct), and so does n.next.prev == n ==
        n.prev.next for every node n of the ring (see RingMutual). */
    ghost predicate RingFormed()
      reads this, Repr
    {
      this in Repr && head in Repr && Within(Nodes, Repr) &&
      head !in Nodes &&
      pointsCount == |Nodes| &&
      head.point == None && Carries(Nodes, Contents) &&
      Ring(head, Nodes)
    }

    /** The cache, when set, names the node at its index. */
    ghost predicate CacheCoherent()
      reads this
    {
      lastAccessedNode != null ==> 0 <= lastAccessedIndex < |Nodes| && lastAccessedNode == Nodes[lastAccessedIndex]
    }

    ghost predicate WellFormed()
      reads this, Repr
    {
      RingFormed() && CacheCoherent()
    }

    /** A well-formed ring whose points form a table. */
    ghost predicate Valid()
      reads this, Repr
    {
      WellFormed() && IsTable(Contents)
    }

    // -------------------------------------------------------------------------
    // Construction

    /** The source's first constructor, past its argument checks: a
        self-linked sentinel, then one tail append per grid point. */
    constructor Grid(leftX: real, rightX: real, pointsCount: int)
      requires ConstructionError(leftX, rightX, pointsCount) == None
      ensures Valid() && fresh(Repr)
      ensures Contents == TabulatedFunction.Grid(leftX, rightX, pointsCount)
    {
      var h := new FunctionNode(None);
      head := h;
      this.pointsCount := 0;
      lastAccessedNode := null;
      lastAccessedIndex := 0;
      Nodes := [];
      Contents := [];
      Repr := {this, h};
      new;
      head.next := head;
      head.prev := head;
      AppendGrid(leftX, rightX, pointsCount);
    }

    /** The loop of the first constructor: one tail append per grid point,
        the spacing computed once. */
    method AppendGrid(leftX: real, rightX: real, pointsCount: int)
      requires ConstructionError(leftX, rightX, pointsCount) == None
      requires WellFormed() && Nodes == []
      modifies Repr
      ensures Valid() && fresh(Repr - old(Repr))
      ensures forall i :: 0 <= i < |Nodes| ==> fresh(Nodes[i])
      ensures Contents == TabulatedFunction.Grid(leftX, rightX, pointsCount)
    {
      var step := (rightX - leftX) / ((pointsCount - 1) as real);
      ghost var grid := TabulatedFunction.Grid(leftX, rightX, pointsCount);
      for i := 0 to pointsCount
        invariant WellFormed() && fresh(Repr - old(Repr))
        invariant forall j :: 0 <= j < |Nodes| ==> fresh(Nodes[j])
        invariant Contents == grid[..i]
      {
        var x := leftX + (i as real) * step;
        GridPoint(leftX, rightX, pointsCount, i, step);
        assert grid[..i + 1] == grid[..i] + [grid[i]];
        var node := AddNodeToTail(Point(x, 0.0));
      }
      GridIsTable(leftX, rightX, pointsCount);
      assert grid[..pointsCount] == grid;
    }

    /** Construction from a range and a count: InvalidRange or InvalidCount,
        or a ring of count equally spaced points with y = 0. */
    static method Create(leftX: real, rightX: real, pointsCount: int) returns (res: Result<LinkedListTabulatedFunction>)
      ensures res.Err? <==> ConstructionError(leftX, rightX, pointsCount).Some?
      ensures res.Err? ==> Some(res.error) == ConstructionError(leftX, rightX, pointsCount)
      ensures res.Ok? ==>
        fresh(res.value.Repr) && res.value.Valid() &&
        res.value.Contents == TabulatedFunction.Grid(leftX, rightX, pointsCount)
    {
      if leftX >= rightX {
        return Err(InvalidRange);
      }
      if pointsCount < 2 {
        return Err(InvalidCount);
      }
      var f := new LinkedListTabulatedFunction.Grid(leftX, rightX, pointsCount);
      return Ok(f);
    }

    /** Construction from a range and the y values: the checks of Create with
        count = |values|, then a walk from head.next setting y[i] = values[i]. */
    static method CreateWithValues(leftX: real, rightX: real, values: seq<real>) returns (res: Result<LinkedListTabulatedFunction>)
      ensures res.Err? <==> ConstructionError(leftX, rightX, |values|).Some?
      ensures res.Err? ==> Some(res.error) == ConstructionError(leftX, rightX, |values|)
      ensures res.Ok? ==>
        fresh(res.value.Repr) && res.value.Valid() &&
        res.value.Contents == GridWithValues(leftX, rightX, values)
    {
      res := Create(leftX, rightX, |values|);
      if res.Err? {
        return;
      }
      var f := res.value;
      f.SetValues(values);
      GridWithValuesIsTable(leftX, rightX, values);
      assert f.Contents == GridWithValues(leftX, rightX, values);
    }

    /** The loop of the second constructor: a walk from head.next giving the
        i-th node the y value values[i]. */
    method SetValues(values: seq<real>)
      requires WellFormed() && |values| == |Nodes|
      modifies Repr
      ensures WellFormed() && head == old(head) && Nodes == old(Nodes) && Repr == old(Repr)
      ensures |Contents| == |values|
      ensures forall j :: 0 <= j < |values| ==> Contents[j] == Point(old(Contents)[j].x, values[j])
    {
      ghost var start := Contents;
      var current := head.next;
      for i := 0 to |values|
        invariant WellFormed() && head == old(head) && Nodes == old(Nodes) && Repr == old(Repr)
        invariant current == if i < |values| then Nodes[i] else head
        invariant |Contents| == |values|
        invariant forall j :: 0 <= j < |values| ==> Contents[j] == if j < i then Point(start[j].x, values[j]) else start[j]
      {
        StorePoint(i, current, Point(current.point.value.x, values[i]));
        assert i < |values| - 1 ==> Nodes[i].next == Nodes[i + 1];
        current := current.next;
      }
    }

    // -------------------------------------------------------------------------
    // Ring operations

    /** The node at index: the cached node itself, one step from it, or a
        walk from the nearer end of the ring; the cache then names that node. */
    method GetNodeByIndex(index: int) returns (res: Result<FunctionNode>)
      requires WellFormed()
      modifies this`lastAccessedNode, this`lastAccessedIndex
      ensures WellFormed()
      ensures res == if 0 <= index < |Nodes| then Ok(Nodes[index]) else Err(OutOfBounds(index))
      ensures res.Ok? ==> lastAccessedNode == Nodes[index] && lastAccessedIndex == index
      ensures res.Err? ==> lastAccessedNode == old(lastAccessedNode) && lastAccessedIndex == old(lastAccessedIndex)
    {
      if index < 0 || index >= pointsCount {
        return Err(OutOfBounds(index));
      }

      if lastAccessedNode != null && lastAccessedIndex != -1 {
        if index == lastAccessedIndex {
          return Ok(lastAccessedNode);
        } else if index == lastAccessedIndex + 1 && index < pointsCount {
          assert Nodes[index - 1].next == Nodes[index];
          lastAccessedNode := lastAccessedNode.next;
          lastAccessedIndex := lastAccessedIndex + 1;
          return Ok(lastAccessedNode);
        } else if index == lastAccessedIndex - 1 && index >= 0 {
          assert Nodes[index + 1].prev == Nodes[index];
          lastAccessedNode := lastAccessedNode.prev;
          lastAccessedIndex := lastAccessedIndex - 1;
          return Ok(lastAccessedNode);
        }
      }

      var current: FunctionNode;
      if index < pointsCount / 2 {
        current := head.next;
        for i := 0 to index
          invariant current == Nodes[i]
        {
          assert Nodes[i].next == Nodes[i + 1];
          current := current.next;
        }
      } else {
        current := head.prev;
        var i := pointsCount - 1;
        while i > index
          invariant index <= i <= pointsCount - 1
          invariant current == Nodes[i]
        {
          assert Nodes[i].prev == Nodes[i - 1];
          current := current.prev;
          i := i - 1;
        }
      }

      lastAccessedNode := current;
      lastAccessedIndex := index;
      return Ok(current);
    }

    /** Gives node, the node at index, the point p: only Contents[index]
        changes. */
    method StorePoint(index: int, node: FunctionNode, p: Point)
      requires WellFormed() && 0 <= index < |Nodes| && node == Nodes[index]
      modifies this`Contents, node
      ensures WellFormed() && Contents == old(Contents)[index := p]
    {
      ghost var contents := Contents;
      Contents := Contents[index := p];
      SetNodePoint(node, p, head, Nodes, contents, index);
    }

    /** Links a new node carrying point between the last node and head; the
        cache then names it. */
    method AddNodeToTail(point: Point) returns (node: FunctionNode)
      requires WellFormed()
      modifies Repr
      ensures WellFormed() && head == old(head)
      ensures fresh(node) && Repr == old(Repr) + {node}
      ensures Nodes == old(Nodes) + [node] && Contents == old(Contents) + [point]
      ensures lastAccessedNode == node && lastAccessedIndex == pointsCount - 1
    {
      node := new FunctionNode(Some(point));
      var tail := head.prev;

      ghost var nodes, contents := Nodes, Contents;
      SpliceWithin(Nodes, Repr, |Nodes|, node);
      assert Nodes[..|Nodes|] + [node] + Nodes[|Nodes|..] == Nodes + [node];
      Nodes := Nodes + [node];
      Contents := Contents + [point];
      Repr := Repr + {node};
      pointsCount := pointsCount + 1;
      lastAccessedNode := node;
      lastAccessedIndex := pointsCount - 1;
      Link(tail, node, head, head, nodes, contents, |nodes|);
    }

    /** The two duplicate checks before a splice at index: the x of the node
        before index and that of the node at index, each looked up through
        the cache, against x. */
    method DuplicateNeighbour(index: int, x: real) returns (dup: bool)
      requires WellFormed() && 0 <= index <= |Nodes|
      modifies this`lastAccessedNode, this`lastAccessedIndex
      ensures WellFormed()
      ensures dup <==>
        (index > 0 && DoubleEquals(Contents[index - 1].x, x)) ||
        (index < |Contents| && DoubleEquals(Contents[index].x, x))
    {
      if index > 0 {
        var prevNode := GetNodeByIndex(index - 1);
        if DoubleEquals(prevNode.value.point.value.x, x) {
          return true;
        }
      }
      if index < pointsCount {
        var nextNode := GetNodeByIndex(index);
        if DoubleEquals(nextNode.value.point.value.x, x) {
          return true;
        }
      }
      return false;
    }

    /** The splice proper: newNode goes before the node at index, found
        through the cache, and the cache then names newNode. */
    method LinkBefore(index: int, nextNode: FunctionNode, newNode: FunctionNode)
      requires WellFormed() && 0 <= index < |Nodes| && nextNode == Nodes[index]
      requires newNode !in Repr && newNode.point.Some?
      modifies Repr, newNode
      ensures WellFormed() && head == old(head) && Repr == old(Repr) + {newNode}
      ensures Nodes == old(Nodes)[..index] + [newNode] + old(Nodes)[index..]
      ensures Contents == InsertAt(old(Contents), index, old(newNode.point).value)
      ensures lastAccessedNode == newNode && lastAccessedIndex == index
    {
      assert index > 0 ==> Nodes[index].prev == Nodes[index - 1];
      var prevNode := nextNode.prev;

      ghost var nodes, contents := Nodes, Contents;
      SpliceWithin(Nodes, Repr, index, newNode);
      Nodes := Nodes[..index] + [newNode] + Nodes[index..];
      Contents := InsertAt(Contents, index, newNode.point.value);
      Repr := Repr + {newNode};
      pointsCount := pointsCount + 1;
      lastAccessedNode := newNode;
      lastAccessedIndex := index;
      Link(prevNode, newNode, nextNode, head, nodes, contents, index);
    }

    /** Splices a new node carrying point in at index, unless the point before
        or at that index is epsilon-equal in x; the cache then names it. */
    method AddNodeByIndex(index: int, point: Point) returns (res: Result<FunctionNode>)
      requires WellFormed()
      modifies Repr
      ensures WellFormed() && head == old(head) && fresh(Repr - old(Repr))
      ensures OutcomeOf(res) == OutcomeOf(AfterAddAtIndex(old(Contents), index, point))
      ensures res.Ok? ==>
        fresh(res.value) &&
        Nodes == old(Nodes)[..index] + [res.value] + old(Nodes)[index..] &&
        Contents == InsertAt(old(Contents), index, point) &&
        lastAccessedNode == res.value && lastAccessedIndex == index
      ensures res.Err? ==> Nodes == old(Nodes) && Contents == old(Contents)
    {
      if index < 0 || index > pointsCount {
        return Err(OutOfBounds(index));
      }
      var dup := DuplicateNeighbour(index, point.x);
      if dup {
        return Err(DuplicateX);
      }

      var newNode := new FunctionNode(Some(point));

      if index == pointsCount {
        var node := AddNodeToTail(point);
        assert Nodes == old(Nodes)[..index] + [node] + old(Nodes)[index..];
        return Ok(node);
      }

      var found := GetNodeByIndex(index);
      LinkBefore(index, found.value, newNode);
      return Ok(newNode);
    }

    /** The unlinking proper: the neighbours of nodeToDelete, the node at
        index, are linked to each other. The cache is left as it was. */
    method UnlinkAt(index: int, nodeToDelete: FunctionNode)
      requires WellFormed() && 0 <= index < |Nodes| && nodeToDelete == Nodes[index]
      modifies Repr
      ensures RingFormed() && head == old(head) && Repr == old(Repr)
      ensures Nodes == old(Nodes)[..index] + old(Nodes)[index + 1..]
      ensures Contents == old(Contents)[..index] + old(Contents)[index + 1..]
      ensures lastAccessedNode == old(lastAccessedNode) && lastAccessedIndex == old(lastAccessedIndex)
    {
      assert index > 0 ==> Nodes[index].prev == Nodes[index - 1];
      assert index < |Nodes| - 1 ==> Nodes[index].next == Nodes[index + 1];
      var prevNode := nodeToDelete.prev;
      var nextNode := nodeToDelete.next;

      ghost var nodes, contents := Nodes, Contents;
      RemoveWithin(Nodes, Repr, index);
      Nodes := Nodes[..index] + Nodes[index + 1..];
      Contents := Contents[..index] + Contents[index + 1..];
      pointsCount := pointsCount - 1;
      Unlink(prevNode, nextNode, head, nodes, contents, index);
    }

    /** The cache after the node at index of oldNodes was unlinked: cleared
        if it named that node, moved down one index if it lay beyond. */
    method ForgetDeleted(index: int, nodeToDelete: FunctionNode, ghost oldNodes: seq<FunctionNode>)
      requires RingFormed() && 0 <= index < |oldNodes| && nodeToDelete == oldNodes[index]
      requires Nodes == oldNodes[..index] + oldNodes[index + 1..]
      requires lastAccessedNode != null ==>
        0 <= lastAccessedIndex < |oldNodes| && lastAccessedNode == oldNodes[lastAccessedIndex]
      modifies this`lastAccessedNode, this`lastAccessedIndex
      ensures WellFormed()
      ensures old(lastAccessedNode) == nodeToDelete ==> lastAccessedNode == null && lastAccessedIndex == -1
      ensures old(lastAccessedNode) != nodeToDelete ==>
        lastAccessedNode == old(lastAccessedNode) &&
        lastAccessedIndex == if old(lastAccessedIndex) > index then old(lastAccessedIndex) - 1 else old(lastAccessedIndex)
    {
      if lastAccessedNode == nodeToDelete {
        lastAccessedNode := null;
        lastAccessedIndex := -1;
      } else {
        if lastAccessedNode != null {
          CacheAfterRemove(oldNodes, index, lastAccessedNode, lastAccessedIndex);
        }
        if lastAccessedIndex > index {
          lastAccessedIndex := lastAccessedIndex - 1;
        }
      }
    }

    /** Unlinks the node at index unless that would leave fewer than two
        points. The lookup leaves the cache on the deleted node, so of the
        two cache updates only the clearing one can happen here. */
    method DeleteNodeByIndex(index: int) returns (res: Result<FunctionNode>)
      requires WellFormed()
      modifies Repr
      ensures WellFormed() && head == old(head) && Repr == old(Repr)
      ensures OutcomeOf(res) == OutcomeOf(AfterDelete(old(Contents), index))
      ensures res.Ok? ==>
        res.value == old(Nodes)[index] &&
        Nodes == old(Nodes)[..index] + old(Nodes)[index + 1..] &&
        Contents == old(Contents)[..index] + old(Contents)[index + 1..] &&
        lastAccessedNode == null && lastAccessedIndex == -1
      ensures res.Err? ==> Nodes == old(Nodes) && Contents == old(Contents)
    {
      if index < 0 || index >= pointsCount {
        return Err(OutOfBounds(index));
      }
      if pointsCount < 3 {
        return Err(Underflow);
      }

      var found := GetNodeByIndex(index);
      var nodeToDelete := found.value;
      ghost var nodes := Nodes;
      UnlinkAt(index, nodeToDelete);
      ForgetDeleted(index, nodeToDelete, nodes);
      return Ok(nodeToDelete);
    }

    // -------------------------------------------------------------------------
    // The tabulated-function operations

    function LeftDomainBorder(): (r: real)
      reads this, Repr
      requires Valid()
      ensures r == Contents[0].x
      ensures forall i :: 0 <= i < |Contents| ==> r <= Contents[i].x
    {
      head.next.point.value.x
    }

    function RightDomainBorder(): (r: real)
      reads this, Repr
      requires Valid()
      ensures r == Contents[|Contents| - 1].x
      ensures forall i :: 0 <= i < |Contents| ==> Contents[i].x <= r
    {
      head.prev.point.value.x
    }

    function GetPointsCount(): (r: int)
      reads this, Repr
      requires Valid()
      ensures r == |Contents| && r >= 2
    {
      pointsCount
    }

    /** The value at x: NaN (None) outside [left, right], else a walk from
        the first node to the bracket and the endpoint-hit or interpolation
        rule. The walk ignores the cache. */
    method GetFunctionValue(x: real) returns (r: Option<real>)
      requires Valid()
      ensures r == Evaluate(Contents, x)
    {
      if x < LeftDomainBorder() || x > RightDomainBorder() {
        return None;
      }
      var current := head.next;
      ghost var i := 0;
      assert 0 < |Nodes| - 1 ==> Nodes[0].next == Nodes[1];
      while current != head && current.next != head && current.next.point.value.x < x
        invariant 0 <= i < |Nodes| && current == Nodes[i] && current.next == At(head, Nodes, i + 1)
        invariant forall j :: 0 < j <= i ==> Contents[j].x < x
        decreases |Nodes| - i
      {
        current := current.next;
        i := i + 1;
        assert i < |Nodes| - 1 ==> Nodes[i].next == Nodes[i + 1];
      }
      EvaluateAtScan(Contents, x, i);
      if DoubleEquals(current.point.value.x, x) {
        return Some(current.point.value.y);
      }
      if current.next != head && DoubleEquals(current.next.point.value.x, x) {
        return Some(current.next.point.value.y);
      }
      return Some(Interpolate(current.point.value, current.next.point.value, x));
    }

    /** The point at index, looked up through the cache. */
    method GetPoint(index: int) returns (r: Result<Point>)
      requires Valid()
      modifies this`lastAccessedNode, this`lastAccessedIndex
      ensures Valid()
      ensures 0 <= index < |Contents| ==> r == Ok(Contents[index])
      ensures !(0 <= index < |Contents|) ==> r == Err(OutOfBounds(index))
    {
      var found := GetNodeByIndex(index);
      if found.Err? {
        return Err(found.error);
      }
      return Ok(found.value.point.value);
    }

    method GetPointX(index: int) returns (r: Result<real>)
      requires Valid()
      modifies this`lastAccessedNode, this`lastAccessedIndex
      ensures Valid()
      ensures 0 <= index < |Contents| ==> r == Ok(Contents[index].x)
      ensures !(0 <= index < |Contents|) ==> r == Err(OutOfBounds(index))
    {
      var found := GetNodeByIndex(index);
      if found.Err? {
        return Err(found.error);
      }
      return Ok(found.value.point.value.x);
    }

    method GetPointY(index: int) returns (r: Result<real>)
      requires Valid()
      modifies this`lastAccessedNode, this`lastAccessedIndex
      ensures Valid()
      ensures 0 <= index < |Contents| ==> r == Ok(Contents[index].y)
      ensures !(0 <= index < |Contents|) ==> r == Err(OutOfBounds(index))
    {
      var found := GetNodeByIndex(index);
      if found.Err? {
        return Err(found.error);
      }
      return Ok(found.value.point.value.y);
    }

    /** The order check shared by SetPoint and SetPointX: x is not above the
        point before index or not below the point after it (compared
        exactly), each looked up through the cache, the second only when the
        first passes. */
    method OrderViolated(index: int, x: real) returns (bad: bool)
      requires WellFormed() && 0 <= index < |Nodes|
      modifies this`lastAccessedNode, this`lastAccessedIndex
      ensures WellFormed()
      ensures bad <==>
        (index > 0 && x <= Contents[index - 1].x) ||
        (index < |Contents| - 1 && x >= Contents[index + 1].x)
    {
      if index > 0 {
        var prevNode := GetNodeByIndex(index - 1);
        if x <= prevNode.value.point.value.x {
          return true;
        }
      }
      if index < pointsCount - 1 {
        var nextNode := GetNodeByIndex(index + 1);
        if x >= nextNode.value.point.value.x {
          return true;
        }
      }
      return false;
    }

    /** Replaces the point at index if its x lies strictly between the
        neighbours' x; only that point changes. */
    method SetPoint(index: int, point: Point) returns (res: Outcome)
      requires Valid()
      modifies Repr
      ensures Valid() && head == old(head) && Nodes == old(Nodes) && Repr == old(Repr)
      ensures res == OutcomeOf(AfterSetPoint(old(Contents), index, point))
      ensures Contents == StateAfter(AfterSetPoint(old(Contents), index, point), old(Contents))
    {
      var found := GetNodeByIndex(index);
      if found.Err? {
        return Fail(found.error);
      }
      var node := found.value;
      var bad := OrderViolated(index, point.x);
      if bad {
        return Fail(OrderViolation);
      }
      SetPointKeepsTable(Contents, index, point);
      StorePoint(index, node, point);
      return Pass;
    }

    method SetPointX(index: int, x: real) returns (res: Outcome)
      requires Valid()
      modifies Repr
      ensures Valid() && head == old(head) && Nodes == old(Nodes) && Repr == old(Repr)
      ensures res == OutcomeOf(AfterSetX(old(Contents), index, x))
      ensures Contents == StateAfter(AfterSetX(old(Contents), index, x), old(Contents))
    {
      var found := GetNodeByIndex(index);
      if found.Err? {
        return Fail(found.error);
      }
      var node := found.value;
      var bad := OrderViolated(index, x);
      if bad {
        return Fail(OrderViolation);
      }
      SetXKeepsTable(Contents, index, x);
      StorePoint(index, node, Point(x, node.point.value.y));
      return Pass;
    }

    method SetPointY(index: int, y: real) returns (res: Outcome)
      requires Valid()
      modifies Repr
      ensures Valid() && head == old(head) && Nodes == old(Nodes) && Repr == old(Repr)
      ensures res == OutcomeOf(AfterSetY(old(Contents), index, y))
      ensures Contents == StateAfter(AfterSetY(old(Contents), index, y), old(Contents))
    {
      var found := GetNodeByIndex(index);
      if found.Err? {
        return Fail(found.error);
      }
      var node := found.value;
      SetYKeepsTable(Contents, index, y);
      StorePoint(index, node, Point(node.point.value.x, y));
      return Pass;
    }

    method DeletePoint(index: int) returns (res: Outcome)
      requires Valid()
      modifies Repr
      ensures Valid() && head == old(head) && Repr == old(Repr)
      ensures res == OutcomeOf(AfterDelete(old(Contents), index))
      ensures Contents == StateAfter(AfterDelete(old(Contents), index), old(Contents))
    {
      DeleteKeepsTable(Contents, index);
      var r := DeleteNodeByIndex(index);
      return OutcomeOf(r);
    }

    /** Inserts point where a walk from the first node meets the first x not
        below point.x: refused if that node's x, or (through the splice's
        own checks) the previous node's x, is epsilon-equal to point.x. */
    method AddPoint(point: Point) returns (res: Outcome)
      requires Valid()
      modifies Repr
      ensures Valid() && head == old(head) && fresh(Repr - old(Repr))
      ensures res == OutcomeOf(AfterLinkedAdd(old(Contents), point))
      ensures Contents == StateAfter(AfterLinkedAdd(old(Contents), point), old(Contents))
    {
      var insertIndex := 0;
      var current := head.next;
      while current != head && current.point.value.x < point.x
        invariant 0 <= insertIndex <= |Nodes| && current == At(head, Nodes, insertIndex)
        invariant forall j :: 0 <= j < insertIndex ==> Contents[j].x < point.x
        decreases |Nodes| - insertIndex
      {
        assert insertIndex < |Nodes| - 1 ==> Nodes[insertIndex].next == Nodes[insertIndex + 1];
        current := current.next;
        insertIndex := insertIndex + 1;
      }
      InsertionIndexUnique(Contents, point.x, insertIndex);

      if current != head && DoubleEquals(current.point.value.x, point.x) {
        return Fail(DuplicateX);
      }

      LinkedAddKeepsTable(Contents, point);
      var r := AddNodeByIndex(insertIndex, point);
      return OutcomeOf(r);
    }
  }
}
