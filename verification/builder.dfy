/**
 * The `KD_tree` constructor as written: one index array partitioned in
 * place, an explicit stack of subdivision tasks, and box nodes filled in as
 * their tasks are popped. Nodes are addressed by their path from the root
 * (`false` for a left child, `true` for a right child).
 */
module Builder {
  import opened Geometry
  import opened Seqs
  import opened Selection
  import opened KdTree

  /**
   * A subdivision task: the box node it fills (its path and box), the
   * dimension it splits, and the inclusive range `[ptlo, pthi]` of the index
   * array it covers.
   */
  datatype Task = Task(path: seq<bool>, dim: Dim, ptlo: int, pthi: int, box: Box)

  /** What a box node holds once its task has run. */
  datatype Cell = Cell(box: Box, point: Point)

  /** Number of indexes a task covers. */
  function Size(t: Task): nat
  {
    if t.ptlo <= t.pthi then t.pthi - t.ptlo + 1 else 0
  }

  /** `half_index`: the median's offset in the task's range, `(count - 1) / 2` for `count` indexes. */
  function Half(t: Task): (h: int)
    ensures t.ptlo <= t.pthi ==> 0 <= h && t.ptlo + 2 * h <= t.pthi <= t.ptlo + 2 * h + 1
  {
    (Size(t) - 1) / 2
  }

  /** The task for the indexes before the median, filling the left child with the box below `v`. */
  function LeftTask(t: Task, v: int): Task
  {
    Task(t.path + [false], Next(t.dim), t.ptlo, t.ptlo + Half(t) - 1, LeftBox(t.box, t.dim, v))
  }

  /** The task for the indexes after the median, filling the right child with the box above `v`. */
  function RightTask(t: Task, v: int): Task
  {
    Task(t.path + [true], Next(t.dim), t.ptlo + Half(t) + 1, t.pthi, RightBox(t.box, t.dim, v))
  }

  /** A child task is pushed only when its range is not empty. */
  function Pushed(t: Task): seq<Task>
  {
    if t.ptlo <= t.pthi then [t] else []
  }

  /** The tasks a popped task pushes, in push order: the left one, then the right one, each if its range is not empty. */
  function ChildTasks(t: Task, v: int): (children: seq<Task>)
    ensures |children| <= 2
  {
    Pushed(LeftTask(t, v)) + Pushed(RightTask(t, v))
  }

  /**
   * `children`, pushed for task `t` whose median splits at `v`, partition the
   * task's range around the median's index: each child covers a smaller range
   * strictly on one side of the median, on the next dimension, one step below
   * the task's node on that side and with the box split at `v` on that side;
   * together with the median they cover the whole range; and when both exist,
   * the right one is as large as the left or one larger.
   */
  predicate SplitsRange(t: Task, v: int, children: seq<Task>)
    requires t.ptlo <= t.pthi
  {
    var median := t.ptlo + (t.pthi - t.ptlo) / 2;
    && |children| <= 2
    && (forall c :: c in children ==>
          && t.ptlo <= c.ptlo <= c.pthi <= t.pthi
          && !(c.ptlo <= median <= c.pthi)
          && Size(c) < Size(t)
          && c.dim == Next(t.dim)
          && t.path < c.path
          && ((c.path == t.path + [false] && c.box == LeftBox(t.box, t.dim, v) && c.pthi < median)
              || (c.path == t.path + [true] && c.box == RightBox(t.box, t.dim, v) && median < c.ptlo)))
    && Size(t) == 1 + (if |children| == 0 then 0 else Size(children[0]) + if |children| == 2 then Size(children[1]) else 0)
    && (|children| == 2 ==>
          children[0].pthi < median < children[1].ptlo && Size(children[0]) <= Size(children[1]) <= Size(children[0]) + 1)
  }

  /** The children a task pushes partition its range around the median's index. */
  lemma ChildTasksSpec(t: Task, v: int)
    requires t.ptlo <= t.pthi
    ensures SplitsRange(t, v, ChildTasks(t, v))
  {
  }

  /** Total number of indexes still covered by pending tasks. */
  function Work(stack: seq<Task>): nat
  {
    if stack == [] then 0 else Work(stack[..|stack| - 1]) + Size(stack[|stack| - 1])
  }

  lemma WorkPush(stack: seq<Task>, t: Task)
    ensures Work(stack + [t]) == Work(stack) + Size(t)
  {
    assert (stack + [t])[..|stack|] == stack;
  }

  /** Replacing a task by its children lowers the pending work by one: the median's index. */
  lemma WorkOfChildren(stack: seq<Task>, t: Task, v: int)
    requires t.ptlo <= t.pthi
    ensures Work(stack + ChildTasks(t, v)) + 1 == Work(stack + [t])
  {
    var children := ChildTasks(t, v);
    ChildTasksSpec(t, v);
    WorkPush(stack, t);
    if |children| == 0 {
      assert stack + children == stack;
    } else if |children| == 1 {
      assert stack + children == stack + [children[0]];
      WorkPush(stack, children[0]);
    } else {
      assert stack + children == stack + [children[0]] + [children[1]];
      WorkPush(stack, children[0]);
      WorkPush(stack + [children[0]], children[1]);
    }
  }

  /* ---------------------------------------------------------------------- */
  /* The nodes of a tree, by path                                           */
  /* ---------------------------------------------------------------------- */

  /** Every node of `t` as a cell, keyed by its path, `t` itself sitting at `path`. */
  function Cells(t: Tree, path: seq<bool>): map<seq<bool>, Cell>
  {
    match t
    case Nil => map[]
    case Node(b, p, l, r) => Cells(l, path + [false]) + Cells(r, path + [true]) + map[path := Cell(b, p)]
  }

  lemma {:induction false} CellsBelowPath(t: Tree, path: seq<bool>, k: seq<bool>)
    requires k in Cells(t, path)
    ensures path <= k
  {
    match t
    case Nil =>
    case Node(b, p, l, r) =>
      if k in Cells(l, path + [false]) {
        CellsBelowPath(l, path + [false], k);
      } else if k in Cells(r, path + [true]) {
        CellsBelowPath(r, path + [true], k);
      }
  }

  /** The subtree a task grows over the current contents of its range. */
  function TaskTree(points: seq<Point>, coords: seq<int>, idx: seq<nat>, t: Task): Tree
    requires IndexesBelow(idx, |points|) && 0 <= t.ptlo <= t.pthi < |idx|
  {
    BuildNode(points, coords, idx[t.ptlo..t.pthi + 1], t.box, t.dim)
  }

  predicate TasksInRange(stack: seq<Task>, n: nat)
  {
    forall k :: 0 <= k < |stack| ==> 0 <= stack[k].ptlo <= stack[k].pthi < n
  }

  /** The cells every pending task will fill, read off the current index array. */
  function Pending(points: seq<Point>, coords: seq<int>, idx: seq<nat>, stack: seq<Task>): map<seq<bool>, Cell>
    requires IndexesBelow(idx, |points|) && TasksInRange(stack, |idx|)
  {
    if stack == [] then map[]
    else
      var top := stack[|stack| - 1];
      Pending(points, coords, idx, stack[..|stack| - 1]) + Cells(TaskTree(points, coords, idx, top), top.path)
  }

  /** A path under no pending task is not filled by any of them. */
  lemma {:induction false} PendingAvoids(points: seq<Point>, coords: seq<int>, idx: seq<nat>, stack: seq<Task>, q: seq<bool>)
    requires IndexesBelow(idx, |points|) && TasksInRange(stack, |idx|)
    requires forall k :: 0 <= k < |stack| ==> !(stack[k].path <= q)
    ensures q !in Pending(points, coords, idx, stack)
  {
    if stack != [] {
      var top := stack[|stack| - 1];
      PendingAvoids(points, coords, idx, stack[..|stack| - 1], q);
      if q in Cells(TaskTree(points, coords, idx, top), top.path) {
        CellsBelowPath(TaskTree(points, coords, idx, top), top.path, q);
      }
    }
  }

  /** Pending tasks whose ranges an update leaves alone fill the same cells. */
  lemma {:induction false} PendingFrame(points: seq<Point>, coords: seq<int>, idx: seq<nat>, idx': seq<nat>,
                                        stack: seq<Task>, lo: int, hi: int)
    requires IndexesBelow(idx, |points|) && IndexesBelow(idx', |points|) && |idx'| == |idx|
    requires TasksInRange(stack, |idx|)
    requires forall k :: 0 <= k < |stack| ==> stack[k].pthi < lo || hi < stack[k].ptlo
    requires forall i :: 0 <= i < |idx| && (i < lo || hi < i) ==> idx'[i] == idx[i]
    ensures Pending(points, coords, idx', stack) == Pending(points, coords, idx, stack)
  {
    if stack != [] {
      PendingFrame(points, coords, idx, idx', stack[..|stack| - 1], lo, hi);
      FrameTop(points, coords, idx, idx', stack[|stack| - 1], lo, hi);
    }
  }

  /** A task whose range an update leaves alone grows the same subtree. */
  lemma FrameTop(points: seq<Point>, coords: seq<int>, idx: seq<nat>, idx': seq<nat>, t: Task, lo: int, hi: int)
    requires IndexesBelow(idx, |points|) && IndexesBelow(idx', |points|) && |idx'| == |idx|
    requires 0 <= t.ptlo <= t.pthi < |idx| && (t.pthi < lo || hi < t.ptlo)
    requires forall i :: 0 <= i < |idx| && (i < lo || hi < i) ==> idx'[i] == idx[i]
    ensures TaskTree(points, coords, idx', t) == TaskTree(points, coords, idx, t)
  {
    assert idx'[t.ptlo..t.pthi + 1] == idx[t.ptlo..t.pthi + 1];
  }

  /**
   * Pushing a task over `part`, when its range is not empty, makes the
   * subtree `part` grows pending; an empty range is not pushed and grows
   * nothing.
   */
  lemma PendingPushPart(points: seq<Point>, coords: seq<int>, idx: seq<nat>, stack: seq<Task>, t: Task, part: seq<nat>)
    requires IndexesBelow(idx, |points|) && TasksInRange(stack, |idx|)
    requires 0 <= t.ptlo <= t.pthi + 1 && t.pthi < |idx| && part == idx[t.ptlo..t.pthi + 1]
    ensures IndexesBelow(part, |points|)
    ensures TasksInRange(stack + Pushed(t), |idx|)
    ensures Pending(points, coords, idx, stack + Pushed(t))
         == Pending(points, coords, idx, stack) + Cells(BuildNode(points, coords, part, t.box, t.dim), t.path)
  {
    if t.ptlo <= t.pthi {
      assert forall k :: 0 <= k < |stack| ==> (stack + [t])[k] == stack[k];
      PendingTop(points, coords, idx, stack, t);
    } else {
      assert stack + [] == stack;
      assert part == [];
      UnionEmpty(Pending(points, coords, idx, stack));
    }
  }

  /** The top task's subtree, over its current range, is the last part of what is pending. */
  lemma PendingTop(points: seq<Point>, coords: seq<int>, idx: seq<nat>, rest: seq<Task>, t: Task)
    requires IndexesBelow(idx, |points|) && TasksInRange(rest + [t], |idx|)
    ensures 0 <= t.ptlo <= t.pthi < |idx| && TasksInRange(rest, |idx|)
    ensures IndexesBelow(idx[t.ptlo..t.pthi + 1], |points|)
    ensures Pending(points, coords, idx, rest + [t])
         == Pending(points, coords, idx, rest) + Cells(BuildNode(points, coords, idx[t.ptlo..t.pthi + 1], t.box, t.dim), t.path)
  {
    assert (rest + [t])[..|rest|] == rest && (rest + [t])[|rest|] == t;
    assert forall k :: 0 <= k < |rest| ==> rest[k] == (rest + [t])[k];
    assert Pending(points, coords, idx, rest + [t])
        == Pending(points, coords, idx, rest) + Cells(TaskTree(points, coords, idx, t), t.path);
  }

  lemma UnionEmpty<K, V>(m: map<K, V>)
    ensures m + map[] == m
  {
  }

  /* ---------------------------------------------------------------------- */
  /* One step of the loop                                                   */
  /* ---------------------------------------------------------------------- */

  /** The index array after a task's partition step: its range rearranged by the selection, the rest alone. */
  ghost predicate Partitioned(points: seq<Point>, coords: seq<int>, idx: seq<nat>, idx': seq<nat>, t: Task)
    requires 0 <= t.ptlo <= t.pthi < |idx|
  {
    && |idx'| == |idx|
    && multiset(idx') == multiset(idx)
    && (forall i :: 0 <= i < |idx| && (i < t.ptlo || t.pthi < i) ==> idx'[i] == idx[i])
    && idx'[t.ptlo..t.pthi + 1] == NthElement(idx[t.ptlo..t.pthi + 1], Half(t), CoordComp(|points|, coords, t.dim))
  }

  /** What the partition step promises is what `Partitioned` records. */
  lemma PartitionStep(points: seq<Point>, coords: seq<int>, idx: seq<nat>, idx': seq<nat>, t: Task)
    requires 0 <= t.ptlo <= t.pthi < |idx|
    requires |idx'| == |idx| && multiset(idx') == multiset(idx)
    requires forall i :: 0 <= i < |idx'| && (i < t.ptlo || t.pthi < i) ==> idx'[i] == idx[i]
    requires idx'[t.ptlo..t.pthi + 1]
          == NthElement(idx[t.ptlo..t.pthi + 1], t.ptlo + Half(t) - t.ptlo, CoordComp(|points|, coords, t.dim))
    ensures Partitioned(points, coords, idx, idx', t)
  {
  }

  /** A stack is its top task pushed onto the rest. */
  lemma SplitLast(stack: seq<Task>)
    requires stack != []
    ensures stack == stack[..|stack| - 1] + [stack[|stack| - 1]]
  {
  }

  /** After the partition step, the selection's three parts sit in the task's range in order. */
  lemma PartitionedParts(points: seq<Point>, coords: seq<int>, idx: seq<nat>, idx': seq<nat>, t: Task)
    requires 0 <= t.ptlo <= t.pthi < |idx|
    requires Partitioned(points, coords, idx, idx', t)
    ensures Subdivide(points, coords, idx[t.ptlo..t.pthi + 1], t.dim)
         == Split(idx'[t.ptlo..t.ptlo + Half(t)], idx'[t.ptlo + Half(t)], idx'[t.ptlo + Half(t) + 1..t.pthi + 1])
  {
    var half := Half(t);
    var r := idx'[t.ptlo..t.pthi + 1];
    assert r[..half] == idx'[t.ptlo..t.ptlo + half];
    assert r[half] == idx'[t.ptlo + half];
    assert r[half + 1..] == idx'[t.ptlo + half + 1..t.pthi + 1];
  }

  /**
   * After a task's partition step, the task's subtree is its node (the
   * median's point, its box) over the subtrees its two child ranges grow,
   * with the boxes split at the median's coordinate `v`.
   */
  lemma TaskUnfolds(points: seq<Point>, coords: seq<int>, idx: seq<nat>, idx': seq<nat>, t: Task, m: nat, v: int)
    requires IndexesBelow(idx, |points|) && 0 <= t.ptlo <= t.pthi < |idx|
    requires Partitioned(points, coords, idx, idx', t)
    requires m == idx'[t.ptlo + Half(t)] && v == CoordComp(|points|, coords, t.dim).Key(m)
    ensures IndexesBelow(idx', |points|) && m < |points|
    ensures BuildNode(points, coords, idx[t.ptlo..t.pthi + 1], t.box, t.dim)
         == Node(t.box, points[m],
                 BuildNode(points, coords, idx'[t.ptlo..t.ptlo + Half(t)], LeftBox(t.box, t.dim, v), Next(t.dim)),
                 BuildNode(points, coords, idx'[t.ptlo + Half(t) + 1..t.pthi + 1], RightBox(t.box, t.dim, v), Next(t.dim)))
  {
    PermutationBelow(idx, idx', |points|);
    PartitionedParts(points, coords, idx, idx', t);
    BuildNodeUnfolds(points, coords, idx[t.ptlo..t.pthi + 1], t.box, t.dim,
                     idx'[t.ptlo..t.ptlo + Half(t)], m, idx'[t.ptlo + Half(t) + 1..t.pthi + 1], v);
  }

  /** The cells of the task's subtree: its own node over the cells its two child ranges grow. */
  lemma TaskCells(points: seq<Point>, coords: seq<int>, idx: seq<nat>, idx': seq<nat>, t: Task, m: nat, v: int)
    requires IndexesBelow(idx, |points|) && 0 <= t.ptlo <= t.pthi < |idx|
    requires Partitioned(points, coords, idx, idx', t)
    requires m == idx'[t.ptlo + Half(t)] && v == CoordComp(|points|, coords, t.dim).Key(m)
    ensures IndexesBelow(idx', |points|) && m < |points|
    ensures Cells(BuildNode(points, coords, idx[t.ptlo..t.pthi + 1], t.box, t.dim), t.path)
         == Cells(BuildNode(points, coords, idx'[t.ptlo..t.ptlo + Half(t)], LeftBox(t.box, t.dim, v), Next(t.dim)), t.path + [false])
          + Cells(BuildNode(points, coords, idx'[t.ptlo + Half(t) + 1..t.pthi + 1], RightBox(t.box, t.dim, v), Next(t.dim)), t.path + [true])
          + map[t.path := Cell(t.box, points[m])]
  {
    TaskUnfolds(points, coords, idx, idx', t, m, v);
  }

  /** Tasks over ranges apart from one another, at paths none of which lies under another. */
  ghost predicate Separate(stack: seq<Task>)
  {
    forall i, j :: 0 <= i < j < |stack| ==>
      && (stack[i].pthi < stack[j].ptlo || stack[j].pthi < stack[i].ptlo)
      && !(stack[i].path <= stack[j].path) && !(stack[j].path <= stack[i].path)
  }

  /**
   * The loop invariant: the index array is a permutation of `0 .. n-1`, the
   * pending tasks are separate, and the nodes filled so far together with
   * the nodes the pending tasks will fill are exactly `full`.
   */
  ghost predicate Inv(points: seq<Point>, coords: seq<int>, idx: seq<nat>, stack: seq<Task>,
                      nodes: map<seq<bool>, Cell>, full: map<seq<bool>, Cell>)
  {
    && |idx| == |points|
    && multiset(idx) == multiset(Iota(|points|))
    && IndexesBelow(idx, |points|)
    && TasksInRange(stack, |points|)
    && Separate(stack)
    && nodes + Pending(points, coords, idx, stack) == full
  }

  /** Popping the top task `t`: its subtree over its current range joins the nodes still to fill. */
  lemma PopTask(points: seq<Point>, coords: seq<int>, idx: seq<nat>, rest: seq<Task>, t: Task,
                nodes: map<seq<bool>, Cell>, full: map<seq<bool>, Cell>)
    requires Inv(points, coords, idx, rest + [t], nodes, full)
    ensures 0 <= t.ptlo <= t.pthi < |idx| && TasksInRange(rest, |idx|)
    ensures IndexesBelow(idx[t.ptlo..t.pthi + 1], |points|)
    ensures nodes + (Pending(points, coords, idx, rest)
                     + Cells(BuildNode(points, coords, idx[t.ptlo..t.pthi + 1], t.box, t.dim), t.path)) == full
  {
    PendingTop(points, coords, idx, rest, t);
  }

  /** Pushing a task's children makes the subtrees of its two child ranges pending. */
  lemma PushChildren(points: seq<Point>, coords: seq<int>, idx: seq<nat>, rest: seq<Task>, t: Task, v: int)
    requires IndexesBelow(idx, |points|) && TasksInRange(rest, |idx|) && 0 <= t.ptlo <= t.pthi < |idx|
    ensures TasksInRange(rest + ChildTasks(t, v), |idx|)
    ensures IndexesBelow(idx[t.ptlo..t.ptlo + Half(t)], |points|)
    ensures IndexesBelow(idx[t.ptlo + Half(t) + 1..t.pthi + 1], |points|)
    ensures Pending(points, coords, idx, rest + ChildTasks(t, v))
         == Pending(points, coords, idx, rest)
          + Cells(BuildNode(points, coords, idx[t.ptlo..t.ptlo + Half(t)], LeftBox(t.box, t.dim, v), Next(t.dim)), t.path + [false])
          + Cells(BuildNode(points, coords, idx[t.ptlo + Half(t) + 1..t.pthi + 1], RightBox(t.box, t.dim, v), Next(t.dim)), t.path + [true])
  {
    assert LeftTask(t, v).ptlo == t.ptlo && LeftTask(t, v).pthi + 1 == t.ptlo + Half(t);
    assert RightTask(t, v).ptlo == t.ptlo + Half(t) + 1 && RightTask(t, v).pthi == t.pthi;
    assert rest + ChildTasks(t, v) == rest + Pushed(LeftTask(t, v)) + Pushed(RightTask(t, v));
    PendingPushPart(points, coords, idx, rest, LeftTask(t, v), idx[t.ptlo..t.ptlo + Half(t)]);
    PendingPushPart(points, coords, idx, rest + Pushed(LeftTask(t, v)), RightTask(t, v), idx[t.ptlo + Half(t) + 1..t.pthi + 1]);
  }

  /** The popped task's path is filled by none of the pending tasks nor by its children's subtrees. */
  lemma PathIsFresh(points: seq<Point>, coords: seq<int>, idx: seq<nat>, rest: seq<Task>, t: Task, lt: Tree, rt: Tree)
    requires IndexesBelow(idx, |points|) && TasksInRange(rest, |idx|) && Separate(rest + [t])
    ensures t.path !in Pending(points, coords, idx, rest)
    ensures t.path !in Cells(lt, t.path + [false]) && t.path !in Cells(rt, t.path + [true])
  {
    forall k | 0 <= k < |rest|
      ensures !(rest[k].path <= t.path)
    {
      assert rest[k] == (rest + [t])[k] && t == (rest + [t])[|rest|];
    }
    PendingAvoids(points, coords, idx, rest, t.path);
    if t.path in Cells(lt, t.path + [false]) {
      CellsBelowPath(lt, t.path + [false], t.path);
    }
    if t.path in Cells(rt, t.path + [true]) {
      CellsBelowPath(rt, t.path + [true], t.path);
    }
  }

  /**
   * One turn of the loop keeps the invariant: the popped task `t`'s node is
   * filled with the median's point, and its children, pushed over the two
   * parts of its partitioned range, will fill the rest of its subtree.
   */
  lemma StepKeepsInv(points: seq<Point>, coords: seq<int>, idx: seq<nat>, idx': seq<nat>, stack: seq<Task>,
                     rest: seq<Task>, t: Task, nodes: map<seq<bool>, Cell>, full: map<seq<bool>, Cell>, m: nat, v: int)
    requires Inv(points, coords, idx, stack, nodes, full) && stack == rest + [t]
    requires 0 <= t.ptlo <= t.pthi < |idx| && Partitioned(points, coords, idx, idx', t)
    requires m == idx'[t.ptlo + Half(t)] && v == CoordComp(|points|, coords, t.dim).Key(m)
    ensures m < |points|
    ensures Inv(points, coords, idx', rest + ChildTasks(t, v), nodes[t.path := Cell(t.box, points[m])], full)
  {
    PopTask(points, coords, idx, rest, t, nodes, full);
    TaskCells(points, coords, idx, idx', t, m, v);
    PendingFrame(points, coords, idx, idx', rest, t.ptlo, t.pthi);
    PushChildren(points, coords, idx', rest, t, v);
    SeparateChildren(rest, t, v);
    PathIsFresh(points, coords, idx, rest, t,
                BuildNode(points, coords, idx'[t.ptlo..t.ptlo + Half(t)], LeftBox(t.box, t.dim, v), Next(t.dim)),
                BuildNode(points, coords, idx'[t.ptlo + Half(t) + 1..t.pthi + 1], RightBox(t.box, t.dim, v), Next(t.dim)));
    Rewire(nodes, Pending(points, coords, idx, rest), Pending(points, coords, idx', rest),
           Cells(BuildNode(points, coords, idx'[t.ptlo..t.ptlo + Half(t)], LeftBox(t.box, t.dim, v), Next(t.dim)), t.path + [false]),
           Cells(BuildNode(points, coords, idx'[t.ptlo + Half(t) + 1..t.pthi + 1], RightBox(t.box, t.dim, v), Next(t.dim)), t.path + [true]),
           Cells(BuildNode(points, coords, idx[t.ptlo..t.pthi + 1], t.box, t.dim), t.path),
           Pending(points, coords, idx', rest + ChildTasks(t, v)), full, t.path, Cell(t.box, points[m]));
  }

  /** Replacing the top task `t` by its children keeps the pending tasks separate. */
  lemma SeparateChildren(rest: seq<Task>, t: Task, v: int)
    requires Separate(rest + [t]) && t.ptlo <= t.pthi
    ensures Separate(rest + ChildTasks(t, v))
  {
    var children := ChildTasks(t, v);
    var stack, stack' := rest + [t], rest + children;
    ChildTasksSpec(t, v);
    forall i, j | 0 <= i < j < |stack'|
      ensures stack'[i].pthi < stack'[j].ptlo || stack'[j].pthi < stack'[i].ptlo
      ensures !(stack'[i].path <= stack'[j].path) && !(stack'[j].path <= stack'[i].path)
    {
      if j < |rest| {
        assert stack'[i] == stack[i] && stack'[j] == stack[j];
      } else if i < |rest| {
        assert stack'[i] == stack[i] && t == stack[|rest|];
        assert stack'[j] in children;
        SeparateFromChild(stack[i], t, stack'[j]);
      } else {
        assert stack'[i] == children[0] && stack'[j] == children[1];
        assert children[0].path[|t.path|] == false && children[1].path[|t.path|] == true;
      }
    }
  }

  /** A task apart from a parent, in range and in path, is apart from the parent's child. */
  lemma SeparateFromChild(a: Task, t: Task, c: Task)
    requires a.pthi < t.ptlo || t.pthi < a.ptlo
    requires !(a.path <= t.path) && !(t.path <= a.path)
    requires t.ptlo <= c.ptlo <= c.pthi <= t.pthi && t.path < c.path
    ensures a.pthi < c.ptlo || c.pthi < a.ptlo
    ensures !(a.path <= c.path) && !(c.path <= a.path)
  {
    if a.path <= c.path {
      PrefixesOrdered(a.path, t.path, c.path);
    }
  }

  /** Two prefixes of one sequence are prefixes of one another. */
  lemma PrefixesOrdered(a: seq<bool>, b: seq<bool>, c: seq<bool>)
    requires a <= c && b <= c
    ensures a <= b || b <= a
  {
    if |a| <= |b| {
      assert a == c[..|a|] == b[..|a|];
    } else {
      assert b == c[..|b|] == a[..|b|];
    }
  }

  /**
   * Filling the popped task's node `k` with `v` and pushing its children
   * rearranges the same cells: `sub`, the popped task's share, is `v` at `k`
   * over the children's shares `cl` and `cr`.
   */
  lemma Rewire<K, V>(nodes: map<K, V>, pr: map<K, V>, pr': map<K, V>, cl: map<K, V>, cr: map<K, V>,
                     sub: map<K, V>, pending: map<K, V>, full: map<K, V>, k: K, v: V)
    requires nodes + (pr + sub) == full
    requires sub == cl + cr + map[k := v] && pr' == pr && pending == pr' + cl + cr
    requires k !in pr && k !in cl && k !in cr
    ensures nodes[k := v] + pending == full
  {
    UnionUpdate(pr, cl + cr, k, v);
    assert pr + (cl + cr) == pr + cl + cr;
    UpdateThrough(nodes, pr + cl + cr, k, v);
  }

  lemma UnionUpdate<K, V>(a: map<K, V>, b: map<K, V>, k: K, v: V)
    ensures a + (b + map[k := v]) == (a + b)[k := v]
  {
  }

  /** Setting a key the right operand does not hold commutes with the union. */
  lemma UpdateThrough<K, V>(nodes: map<K, V>, m: map<K, V>, k: K, v: V)
    requires k !in m
    ensures nodes + m[k := v] == nodes[k := v] + m
  {
  }

  /* ---------------------------------------------------------------------- */
  /* The constructor                                                        */
  /* ---------------------------------------------------------------------- */

  /**
   * Pushes the popped task's children: the left one when the median has
   * indexes before it (`half_index > 0`), then the right one when it has
   * indexes after it (`count - half_index > 1`). What is pushed partitions
   * the task's range around the median; the rest of the stack is untouched.
   */
  method PushSubdivisionTasks(stack: seq<Task>, task: Task, v: int) returns (stack': seq<Task>)
    requires task.ptlo <= task.pthi
    ensures |stack| <= |stack'| && stack'[..|stack|] == stack
    ensures SplitsRange(task, v, stack'[|stack|..])
    ensures stack' == stack + ChildTasks(task, v)
  {
    var count := task.pthi - task.ptlo + 1;
    var half := (count - 1) / 2;
    stack' := stack;
    if half > 0 {
      stack' := stack' + [LeftTask(task, v)];
    }
    if count - half > 1 {
      stack' := stack' + [RightTask(task, v)];
    }
    assert stack'[|stack|..] == ChildTasks(task, v);
    ChildTasksSpec(task, v);
  }

  /** Before the loop: one task over the whole index array `0 .. n-1`, filling the root with the bounding box. */
  lemma InitInv(bbox: Box, points: seq<Point>, coords: seq<int>)
    requires |points| > 0 && coords == CoordTable(points)
    ensures Inv(points, coords, Iota(|points|), [Task([], BuildStartDim, 0, |points| - 1, bbox)], map[],
                Cells(Build(bbox, points), []))
  {
    InitPending(bbox, points, coords);
    EmptyUnion(Cells(Build(bbox, points), []));
  }

  /** The root task alone is due to fill the whole reference tree. */
  lemma InitPending(bbox: Box, points: seq<Point>, coords: seq<int>)
    requires |points| > 0 && coords == CoordTable(points)
    ensures TasksInRange([Task([], BuildStartDim, 0, |points| - 1, bbox)], |points|)
    ensures Pending(points, coords, Iota(|points|), [Task([], BuildStartDim, 0, |points| - 1, bbox)])
         == map[] + Cells(Build(bbox, points), [])
  {
    RootPending(points, coords, Iota(|points|), Task([], BuildStartDim, 0, |points| - 1, bbox));
    assert Build(bbox, points) == BuildNode(points, coords, Iota(|points|), bbox, BuildStartDim);
  }

  /** A lone task over the whole index array makes pending exactly the subtree it grows. */
  lemma RootPending(points: seq<Point>, coords: seq<int>, idx: seq<nat>, root: Task)
    requires IndexesBelow(idx, |points|) && |idx| > 0 && root.ptlo == 0 && root.pthi == |idx| - 1
    ensures TasksInRange([root], |idx|)
    ensures Pending(points, coords, idx, [root]) == map[] + Cells(BuildNode(points, coords, idx, root.box, root.dim), root.path)
  {
    PendingSingle(points, coords, idx, root);
    assert idx[root.ptlo..root.pthi + 1] == idx;
    assert TaskTree(points, coords, idx, root) == BuildNode(points, coords, idx, root.box, root.dim);
  }

  lemma PendingSingle(points: seq<Point>, coords: seq<int>, idx: seq<nat>, t: Task)
    requires IndexesBelow(idx, |points|) && 0 <= t.ptlo <= t.pthi < |idx|
    ensures TasksInRange([t], |idx|)
    ensures Pending(points, coords, idx, [t]) == map[] + Cells(TaskTree(points, coords, idx, t), t.path)
  {
    assert [t][..0] == [];
  }

  lemma EmptyUnion<K, V>(m: map<K, V>)
    ensures map[] + (map[] + m) == m
  {
  }

  /**
   * The constructor's loop: pops a task, partitions its range around the
   * median, fills the task's node and pushes the tasks for the two sides,
   * until no task is left. Every node the tasks were due to fill is filled.
   */
  method RunTasks(points: seq<Point>, coords: seq<int>, stack: seq<Task>, idx: seq<nat>,
                  nodes: map<seq<bool>, Cell>, ghost full: map<seq<bool>, Cell>)
    returns (nodes': map<seq<bool>, Cell>, pointIndexes: seq<nat>)
    requires |coords| == DIM * |points| && Inv(points, coords, idx, stack, nodes, full)
    ensures nodes' == full
    ensures |pointIndexes| == |points| && multiset(pointIndexes) == multiset(Iota(|points|))
  {
    var stack := stack;
    pointIndexes, nodes' := idx, nodes;
    while stack != []
      invariant Inv(points, coords, pointIndexes, stack, nodes', full)
      decreases Work(stack)
    {
      var task := stack[|stack| - 1];
      ghost var popped := stack;
      SplitLast(stack);
      stack := stack[..|stack| - 1];
      var half := Half(task);
      ghost var previous := pointIndexes;
      pointIndexes := PartitionPointIndexes(pointIndexes, coords, task.ptlo, task.ptlo + half, task.pthi, |points|, task.dim);
      PartitionStep(points, coords, previous, pointIndexes, task);
      PermutationBelow(previous, pointIndexes, |points|);
      var m := pointIndexes[task.ptlo + half];
      TableIndexInRange(coords, |points|, task.dim, m);
      var v := coords[BlockStart(task.dim, |points|) + m];
      StepKeepsInv(points, coords, previous, pointIndexes, popped, stack, task, nodes', full, m, v);
      nodes' := nodes'[task.path := Cell(task.box, points[m])];
      ghost var before := stack;
      stack := PushSubdivisionTasks(stack, task, v);
      WorkOfChildren(before, task, v);
    }
    UnionEmpty(nodes');
  }

  /**
   * Runs the constructor. Returns the filled box nodes by path and the final
   * index array. The nodes are exactly the reference tree's; the index
   * array ends a permutation of `0 .. n-1`.
   */
  method BuildIterative(bbox: Box, points: seq<Point>) returns (nodes: map<seq<bool>, Cell>, pointIndexes: seq<nat>)
    ensures nodes == Cells(Build(bbox, points), [])
    ensures |pointIndexes| == |points| && multiset(pointIndexes) == multiset(Iota(|points|))
  {
    if |points| == 0 {
      return map[], [];
    }
    var coords := CoordTable(points);
    InitInv(bbox, points, coords);
    nodes, pointIndexes := RunTasks(points, coords, [Task([], BuildStartDim, 0, |points| - 1, bbox)], Iota(|points|),
                                    map[], Cells(Build(bbox, points), []));
  }
}
