/**
 * The order columns: `video_order` ranks the videos of one project (1 is the video
 * the player opens with), `category_order` ranks all categories. New rows go at
 * MAX(order) + 1, and moving a video up or down swaps its order with that of its
 * nearest neighbour in the project.
 */
module Ordering {
  import opened Rows
  import opened Query

  /** SELECT video_order FROM Video WHERE project_id = pid, in table order. */
  function ProjectOrders(vs: seq<Video>, pid: int): (r: seq<int>)
    ensures forall k :: k in r <==> exists v :: v in vs && v.projectId == pid && v.order == k
  {
    if vs == [] then []
    else
      assert vs == [vs[0]] + vs[1..];
      (if vs[0].projectId == pid then [vs[0].order] else []) + ProjectOrders(vs[1..], pid)
  }

  /** SELECT category_order FROM Category, in table order. */
  function CategoryOrders(cs: seq<Category>): (r: seq<int>)
    ensures forall k :: k in r <==> exists c :: c in cs && c.order == k
  {
    if cs == [] then []
    else
      assert cs == [cs[0]] + cs[1..];
      [cs[0].order] + CategoryOrders(cs[1..])
  }

  /**
   * MAX(order) + 1, where the NULL maximum of no rows counts as 0: a new row goes
   * at 1 when there are none, otherwise right after the largest order.
   */
  function NextOrder(orders: seq<int>): (r: int)
    ensures orders == [] ==> r == 1
    ensures orders != [] ==> r - 1 in orders
    ensures forall k :: k in orders ==> k < r
  {
    match MaxOf(orders)
    case None => 1
    case Some(m) => m + 1
  }

  /** No two videos of one project hold the same order. */
  ghost predicate UniqueOrders(vs: seq<Video>) {
    Pairwise(vs, DistinctOrdersInProject)
  }

  /** No two categories hold the same order. */
  ghost predicate UniqueCategoryOrders(cs: seq<Category>) {
    Pairwise(cs, DistinctCategoryOrders)
  }

  /** A video appended at its project's next order keeps the orders of every project unique. */
  lemma AppendAtNextOrder(vs: seq<Video>, v: Video)
    requires UniqueOrders(vs)
    requires v.order == NextOrder(ProjectOrders(vs, v.projectId))
    ensures UniqueOrders(vs + [v])
  {
    forall y | y in vs ensures DistinctOrdersInProject(y, v) {
      if y.projectId == v.projectId {
        assert y.order in ProjectOrders(vs, v.projectId);
      }
    }
    AppendPairwise(vs, v, DistinctOrdersInProject);
  }

  /** An insert adds its order at the end of its project's order column. */
  lemma {:induction false} ProjectOrdersAppend(vs: seq<Video>, v: Video)
    ensures ProjectOrders(vs + [v], v.projectId) == ProjectOrders(vs, v.projectId) + [v.order]
  {
    if vs != [] {
      assert (vs + [v])[1..] == vs[1..] + [v];
      ProjectOrdersAppend(vs[1..], v);
    }
  }

  /** After an insert at the next order, that order is the largest of the project. */
  lemma AppendedIsMax(vs: seq<Video>, v: Video)
    requires v.order == NextOrder(ProjectOrders(vs, v.projectId))
    ensures MaxOf(ProjectOrders(vs + [v], v.projectId)) == Some(v.order)
  {
    var before := ProjectOrders(vs, v.projectId);
    ProjectOrdersAppend(vs, v);
    var m := MaxOf(before + [v.order]);
    assert v.order in before + [v.order];
    assert m.value in before || m.value == v.order;
  }

  /** A category appended at the next global order keeps category orders unique. */
  lemma AppendAtNextCategoryOrder(cs: seq<Category>, c: Category)
    requires UniqueCategoryOrders(cs)
    requires c.order == NextOrder(CategoryOrders(cs))
    ensures UniqueCategoryOrders(cs + [c])
  {
    forall y | y in cs ensures DistinctCategoryOrders(y, c) {
      assert y.order in CategoryOrders(cs);
    }
    AppendPairwise(cs, c, DistinctCategoryOrders);
  }

  /**
   * The neighbour lookup of a move: the largest order of the project below `o`
   * (up), or the smallest above it (down), or None (SQL NULL) when there is none.
   */
  function NeighbourOrder(vs: seq<Video>, pid: int, o: int, up: bool): (r: Option<int>)
    ensures r.None? <==> forall v :: v in vs && v.projectId == pid ==> if up then o <= v.order else v.order <= o
    ensures r.Some? ==> (if up then r.value < o else o < r.value)
                        && exists v :: v in vs && v.projectId == pid && v.order == r.value
    ensures r.Some? ==> forall v :: v in vs && v.projectId == pid ==>
                          if up then v.order < o ==> v.order <= r.value
                          else o < v.order ==> r.value <= v.order
  {
    var orders := ProjectOrders(vs, pid);
    if up then
      var below := Filter(orders, (k: int) => k < o);
      assert forall v :: v in vs && v.projectId == pid && v.order < o ==> v.order in below;
      MaxOf(below)
    else
      var above := Filter(orders, (k: int) => k > o);
      assert forall v :: v in vs && v.projectId == pid && v.order > o ==> v.order in above;
      MinOf(above)
  }

  /** The first video with this id. */
  function VideoById(vs: seq<Video>, id: int): Option<Video>
  {
    FetchFirst(vs, (v: Video) => v.id == id)
  }

  /** The first video of project `pid` holding order `o`. */
  function VideoAtOrder(vs: seq<Video>, o: int, pid: int): Option<Video>
  {
    FetchFirst(vs, (v: Video) => v.order == o && v.projectId == pid)
  }

  /** The single-column UPDATE of a move: every video with this id gets order `o`. */
  function SetOrder(vs: seq<Video>, id: int, o: int): seq<Video>
  {
    UpdateWhere(vs, (v: Video) => v.id == id, (v: Video) => v.(order := o))
  }

  /**
   * The video table after moving video `videoId` up (`up`) or down in project `pid`:
   * the first video with that id takes the neighbour order, and the first video of
   * the project holding that order takes the moved video's old order. With no such
   * video, or no neighbour, the table is unchanged.
   */
  function Moved(vs: seq<Video>, videoId: int, up: bool, pid: int): seq<Video>
  {
    match VideoById(vs, videoId)
    case None => vs
    case Some(cur) =>
      match NeighbourOrder(vs, pid, cur.order, up)
      case None => vs
      case Some(n) =>
        match VideoAtOrder(vs, n, pid)
        case None => vs
        case Some(other) => SwapOrders(vs, cur, other)
  }

  /**
   * The two single-row updates of a move: the row with `a`'s id gets `b`'s order,
   * then the row with `b`'s id gets `a`'s order.
   */
  function SwapOrders(vs: seq<Video>, a: Video, b: Video): seq<Video>
  {
    var first := SetOrder(vs, a.id, b.order);
    SetOrder(first, b.id, a.order)
  }

  /**
   * The statements of a move, run against the video table: look up the video, then
   * its neighbour's order, then the neighbour, and issue the two single-row updates.
   */
  method RunMove(vs: seq<Video>, videoId: int, up: bool, pid: int) returns (ws: seq<Video>)
    ensures ws == Moved(vs, videoId, up, pid)
  {
    ws := vs;
    var current := VideoById(ws, videoId);
    if current.Some? {
      var otherOrder := NeighbourOrder(ws, pid, current.value.order, up);
      if otherOrder.Some? {
        var otherVideo := VideoAtOrder(ws, otherOrder.value, pid);
        if otherVideo.Some? {
          var a, b := current.value, otherVideo.value;
          ws := SetOrder(ws, a.id, b.order);
          ws := SetOrder(ws, b.id, a.order);
        }
      }
    }
  }

  /** A move changes nothing but the order column, and keeps every row in its place. */
  lemma MovedOnlyReorders(vs: seq<Video>, videoId: int, up: bool, pid: int)
    ensures |Moved(vs, videoId, up, pid)| == |vs|
    ensures forall i :: 0 <= i < |vs| ==> Moved(vs, videoId, up, pid)[i] == vs[i].(order := Moved(vs, videoId, up, pid)[i].order)
  {
  }

  /** The number of videos of project `pid` holding order `k`. */
  function OrderCount(vs: seq<Video>, pid: int, k: int): nat
  {
    if vs == [] then 0
    else (if vs[0].projectId == pid && vs[0].order == k then 1 else 0) + OrderCount(vs[1..], pid, k)
  }

  /** OrderCount is the multiplicity of `k` among the project's orders. */
  lemma {:induction false} OrderCountIsMultiplicity(vs: seq<Video>, pid: int, k: int)
    ensures multiset(ProjectOrders(vs, pid))[k] == OrderCount(vs, pid, k)
  {
    if vs != [] {
      OrderCountIsMultiplicity(vs[1..], pid, k);
      var head := if vs[0].projectId == pid then [vs[0].order] else [];
      assert ProjectOrders(vs, pid) == head + ProjectOrders(vs[1..], pid);
      assert multiset(ProjectOrders(vs, pid)) == multiset(head) + multiset(ProjectOrders(vs[1..], pid));
    }
  }

  /**
   * SET video_order = n on the row with id k (at position i): the project loses one
   * video at that row's old order and gains one at n.
   */
  lemma {:induction false} SetOrderCount(vs: seq<Video>, k: int, n: int, pid: int, i: int, z: int)
    requires Pairwise(vs, DistinctVideoIds)
    requires 0 <= i < |vs| && vs[i].id == k
    ensures OrderCount(SetOrder(vs, k, n), pid, z)
            + (if vs[i].projectId == pid && vs[i].order == z then 1 else 0)
            == OrderCount(vs, pid, z) + (if vs[i].projectId == pid && n == z then 1 else 0)
  {
    var after := SetOrder(vs, k, n);
    var rest := SetOrder(vs[1..], k, n);
    assert after[1..] == rest;
    if i == 0 {
      forall j | 0 <= j < |vs[1..]| ensures vs[1..][j].id != k {
        assert DistinctVideoIds(vs[0], vs[j + 1]);
      }
      UpdateNoMatch(vs[1..], (v: Video) => v.id == k, (v: Video) => v.(order := n));
    } else {
      assert DistinctVideoIds(vs[0], vs[i]);
      forall a, b | 0 <= a < b < |vs[1..]| ensures DistinctVideoIds(vs[1..][a], vs[1..][b]) {
        assert DistinctVideoIds(vs[a + 1], vs[b + 1]);
      }
      SetOrderCount(vs[1..], k, n, pid, i - 1, z);
      assert vs[1..][i - 1] == vs[i];
    }
  }

  /** Swapping the orders of rows i and j leaves the multiplicity of each order `z` in the project unchanged. */
  lemma SwapKeepsOrderCount(vs: seq<Video>, i: int, j: int, pid: int, z: int)
    requires Pairwise(vs, DistinctVideoIds)
    requires 0 <= i < |vs| && 0 <= j < |vs| && i != j
    requires vs[i].projectId == pid && vs[j].projectId == pid
    ensures multiset(ProjectOrders(SwapOrders(vs, vs[i], vs[j]), pid))[z] == multiset(ProjectOrders(vs, pid))[z]
  {
    var a, b := vs[i], vs[j];
    if i < j { assert DistinctVideoIds(vs[i], vs[j]); } else { assert DistinctVideoIds(vs[j], vs[i]); }
    var first := SetOrder(vs, a.id, b.order);
    UpdatePairwise(vs, (v: Video) => v.id == a.id, (v: Video) => v.(order := b.order), DistinctVideoIds);
    assert first[j] == b;
    SetOrderCount(vs, a.id, b.order, pid, i, z);
    SetOrderCount(first, b.id, a.order, pid, j, z);
    OrderCountIsMultiplicity(SwapOrders(vs, a, b), pid, z);
    OrderCountIsMultiplicity(vs, pid, z);
  }

  /** Swapping the orders of two distinct rows of the project permutes the project's orders. */
  lemma SwapKeepsOrders(vs: seq<Video>, i: int, j: int, pid: int)
    requires Pairwise(vs, DistinctVideoIds)
    requires 0 <= i < |vs| && 0 <= j < |vs| && i != j
    requires vs[i].projectId == pid && vs[j].projectId == pid
    ensures multiset(ProjectOrders(SwapOrders(vs, vs[i], vs[j]), pid)) == multiset(ProjectOrders(vs, pid))
  {
    forall z ensures multiset(ProjectOrders(SwapOrders(vs, vs[i], vs[j]), pid))[z] == multiset(ProjectOrders(vs, pid))[z] {
      SwapKeepsOrderCount(vs, i, j, pid, z);
    }
  }


  /**
   * When the moved video belongs to the project, a move permutes the project's
   * orders: the multiset of `video_order` values of the project is the same afterwards.
   */
  lemma MovedKeepsOrders(vs: seq<Video>, videoId: int, up: bool, pid: int)
    requires Pairwise(vs, DistinctVideoIds)
    requires forall v :: v in vs && v.id == videoId ==> v.projectId == pid
    ensures multiset(ProjectOrders(Moved(vs, videoId, up, pid), pid)) == multiset(ProjectOrders(vs, pid))
  {
    var c := VideoById(vs, videoId);
    if c.Some? {
      var cur := c.value;
      var nb := NeighbourOrder(vs, pid, cur.order, up);
      if nb.Some? {
        var n := nb.value;
        var o := VideoAtOrder(vs, n, pid);
        if o.Some? {
          var i :| 0 <= i < |vs| && vs[i] == cur;
          var j :| 0 <= j < |vs| && vs[j] == o.value && vs[j].order == n && vs[j].projectId == pid;
          assert vs[i].order != vs[j].order;
          SwapKeepsOrders(vs, i, j, pid);
        }
      }
    }
  }

  /** Where the two updates of a swap land when the two rows have distinct ids. */
  lemma SwapAt(vs: seq<Video>, i: int, j: int)
    requires Pairwise(vs, DistinctVideoIds)
    requires 0 <= i < |vs| && 0 <= j < |vs| && i != j
    ensures var r := SwapOrders(vs, vs[i], vs[j]);
            && |r| == |vs|
            && r[i] == vs[i].(order := vs[j].order)
            && r[j] == vs[j].(order := vs[i].order)
            && forall k :: 0 <= k < |vs| && k != i && k != j ==> r[k] == vs[k]
  {
    forall k | 0 <= k < |vs| && k != i ensures vs[k].id != vs[i].id {
      if k < i { assert DistinctVideoIds(vs[k], vs[i]); } else { assert DistinctVideoIds(vs[i], vs[k]); }
    }
    forall k | 0 <= k < |vs| && k != j ensures vs[k].id != vs[j].id {
      if k < j { assert DistinctVideoIds(vs[k], vs[j]); } else { assert DistinctVideoIds(vs[j], vs[k]); }
    }
  }

  /** With unique ids, fetching by the id of row i yields row i. */
  lemma FetchById(vs: seq<Video>, i: int)
    requires Pairwise(vs, DistinctVideoIds)
    requires 0 <= i < |vs|
    ensures VideoById(vs, vs[i].id) == Some(vs[i])
  {
    forall k | 0 <= k < |vs| && k != i ensures vs[k].id != vs[i].id {
      IdsDifferAt(vs, k, i);
    }
  }

  /** With unique orders, fetching the project's video at the order of row j yields row j. */
  lemma FetchByOrder(vs: seq<Video>, j: int)
    requires UniqueOrders(vs)
    requires 0 <= j < |vs|
    ensures VideoAtOrder(vs, vs[j].order, vs[j].projectId) == Some(vs[j])
  {
    forall k | 0 <= k < |vs| && k != j && vs[k].projectId == vs[j].projectId ensures vs[k].order != vs[j].order {
      OrdersDifferAt(vs, k, j);
    }
  }

  /** Two distinct rows hold different ids, whichever comes first. */
  lemma IdsDifferAt(vs: seq<Video>, a: int, b: int)
    requires Pairwise(vs, DistinctVideoIds)
    requires 0 <= a < |vs| && 0 <= b < |vs| && a != b
    ensures vs[a].id != vs[b].id
  {
    if a < b { assert DistinctVideoIds(vs[a], vs[b]); } else { assert DistinctVideoIds(vs[b], vs[a]); }
  }

  /** Two distinct videos of one project hold different orders, whichever comes first. */
  lemma OrdersDifferAt(vs: seq<Video>, a: int, b: int)
    requires UniqueOrders(vs)
    requires 0 <= a < |vs| && 0 <= b < |vs| && a != b && vs[a].projectId == vs[b].projectId
    ensures vs[a].order != vs[b].order
  {
    if a < b { assert DistinctOrdersInProject(vs[a], vs[b]); } else { assert DistinctOrdersInProject(vs[b], vs[a]); }
  }

  /** Swapping the orders of two videos of one project keeps every project's orders unique. */
  lemma SwapKeepsUniqueOrders(vs: seq<Video>, i: int, j: int)
    requires Pairwise(vs, DistinctVideoIds) && UniqueOrders(vs)
    requires 0 <= i < |vs| && 0 <= j < |vs| && i != j && vs[i].projectId == vs[j].projectId
    ensures UniqueOrders(SwapOrders(vs, vs[i], vs[j]))
  {
    SwapAt(vs, i, j);
    var r := SwapOrders(vs, vs[i], vs[j]);
    forall p, q | 0 <= p < q < |r| ensures DistinctOrdersInProject(r[p], r[q]) {
      if r[p].projectId == r[q].projectId {
        // each of r[p], r[q] carries the order of one original row of the same project
        var p' := if p == i then j else if p == j then i else p;
        var q' := if q == i then j else if q == j then i else q;
        assert r[p].order == vs[p'].order && r[q].order == vs[q'].order;
        assert vs[p'].projectId == r[p].projectId && vs[q'].projectId == r[q].projectId;
        OrdersDifferAt(vs, p', q');
      }
    }
  }

  /**
   * When no two videos of a project share an order, a move keeps it so, provided
   * the moved video belongs to the project it is moved in.
   */
  lemma MovedKeepsUniqueOrders(vs: seq<Video>, videoId: int, up: bool, pid: int)
    requires Pairwise(vs, DistinctVideoIds) && UniqueOrders(vs)
    requires forall v :: v in vs && v.id == videoId ==> v.projectId == pid
    ensures UniqueOrders(Moved(vs, videoId, up, pid))
  {
    var c := VideoById(vs, videoId);
    if c.Some? {
      var nb := NeighbourOrder(vs, pid, c.value.order, up);
      if nb.Some? {
        var o := VideoAtOrder(vs, nb.value, pid);
        if o.Some? {
          var i :| 0 <= i < |vs| && vs[i] == c.value;
          var j :| 0 <= j < |vs| && vs[j] == o.value && vs[j].order == nb.value && vs[j].projectId == pid;
          assert vs[i].order != vs[j].order;
          SwapKeepsUniqueOrders(vs, i, j);
        }
      }
    }
  }

  /**
   * With unique ids and orders, moving video i swaps its order with that of video j,
   * the project's video at the nearest lower (up) or higher (down) order; every other
   * row is unchanged.
   */
  lemma MovedSwapsWithNeighbour(vs: seq<Video>, up: bool, pid: int, i: int, j: int)
    requires Pairwise(vs, DistinctVideoIds) && UniqueOrders(vs)
    requires 0 <= i < |vs| && 0 <= j < |vs| && vs[j].projectId == pid
    requires NeighbourOrder(vs, pid, vs[i].order, up) == Some(vs[j].order)
    ensures var r := Moved(vs, vs[i].id, up, pid);
            && |r| == |vs|
            && r[i] == vs[i].(order := vs[j].order)
            && r[j] == vs[j].(order := vs[i].order)
            && forall k :: 0 <= k < |vs| && k != i && k != j ==> r[k] == vs[k]
  {
    FetchById(vs, i);
    FetchByOrder(vs, j);
    SwapAt(vs, i, j);
  }

  /**
   * Moving up the lowest video of the project, or down the highest, leaves the table
   * unchanged (the guard the source lacks; see OrderColumnAsWritten).
   */
  lemma MovedAtEdgeIsNoOp(vs: seq<Video>, up: bool, pid: int, i: int)
    requires Pairwise(vs, DistinctVideoIds)
    requires 0 <= i < |vs|
    requires forall v :: v in vs && v.projectId == pid ==> if up then vs[i].order <= v.order else v.order <= vs[i].order
    ensures Moved(vs, vs[i].id, up, pid) == vs
  {
    FetchById(vs, i);
  }

  /**
   * The video_order column after moveVideoUpOrDown AS THE SOURCE WRITES IT, None
   * standing for SQL NULL. The source runs its first UPDATE whenever the moved video
   * exists, writing the order of the neighbour row it fetched; when there is no
   * neighbour that fetch found no row and the value written is NULL.
   */
  function OrderColumnAsWritten(vs: seq<Video>, videoId: int, up: bool, pid: int): (r: seq<Option<int>>)
    ensures |r| == |vs|
  {
    match VideoById(vs, videoId)
    case None => seq(|vs|, k requires 0 <= k < |vs| => Some(vs[k].order))
    case Some(cur) =>
      var other := match NeighbourOrder(vs, pid, cur.order, up)
                   case None => None
                   case Some(n) => VideoAtOrder(vs, n, pid);
      var written := match other case None => None case Some(o) => Some(o.order);
      seq(|vs|, k requires 0 <= k < |vs| =>
        if other.Some? && vs[k].id == other.value.id then Some(cur.order)
        else if vs[k].id == cur.id then written
        else Some(vs[k].order))
  }

  /** Whenever a neighbour exists, the source's two updates write exactly the orders of Moved. */
  lemma AsWrittenAgreesWithMoved(vs: seq<Video>, up: bool, pid: int, i: int)
    requires Pairwise(vs, DistinctVideoIds)
    requires 0 <= i < |vs|
    requires NeighbourOrder(vs, pid, vs[i].order, up).Some?
    ensures forall k :: 0 <= k < |vs| ==> OrderColumnAsWritten(vs, vs[i].id, up, pid)[k] == Some(Moved(vs, vs[i].id, up, pid)[k].order)
  {
    FetchById(vs, i);
    var n := NeighbourOrder(vs, pid, vs[i].order, up).value;
    var o := VideoAtOrder(vs, n, pid);
    var oj :| 0 <= oj < |vs| && vs[oj] == o.value && vs[oj].order == n;
    assert oj != i;
    SwapAt(vs, i, oj);
    var moved := Moved(vs, vs[i].id, up, pid);
    assert moved == SwapOrders(vs, vs[i], vs[oj]);
    var w := OrderColumnAsWritten(vs, vs[i].id, up, pid);
    forall k | 0 <= k < |vs| ensures w[k] == Some(moved[k].order) {
      if k != i { IdsDifferAt(vs, k, i); }
      if k != oj { IdsDifferAt(vs, k, oj); }
    }
  }

  /**
   * At the edge the source's first UPDATE writes NULL into the moved video's order,
   * where Moved leaves it as it was.
   */
  lemma AsWrittenNullsOrderAtEdge(vs: seq<Video>, up: bool, pid: int, i: int)
    requires Pairwise(vs, DistinctVideoIds)
    requires 0 <= i < |vs|
    requires forall v :: v in vs && v.projectId == pid ==> if up then vs[i].order <= v.order else v.order <= vs[i].order
    ensures OrderColumnAsWritten(vs, vs[i].id, up, pid)[i] == None
    ensures Moved(vs, vs[i].id, up, pid)[i].order == vs[i].order
  {
    FetchById(vs, i);
    MovedAtEdgeIsNoOp(vs, up, pid, i);
  }

  /** A project with a single video at order 1, moved up: the source stores NULL as its order. */
  lemma LoneVideoMovedUp()
    ensures var vs := [Video(1, 1, "Intro", "intro.mp4", 1)];
            OrderColumnAsWritten(vs, 1, true, 1) == [None] && Moved(vs, 1, true, 1) == vs
  {
    var vs := [Video(1, 1, "Intro", "intro.mp4", 1)];
    assert forall v :: v in vs && v.projectId == 1 ==> vs[0].order <= v.order;
    AsWrittenNullsOrderAtEdge(vs, true, 1, 0);
    MovedAtEdgeIsNoOp(vs, true, 1, 0);
  }
}
