/** The recursive bill-of-material query of the BOM repository, on exact numbers.

    `bom_tree` is the working table of a recursive common table expression: the first level joins
    the parent with its own lines, every further level joins the rows of the level before with
    their lines (`UNION ALL`, so one row for every path). The outer query sums the rows of one
    level and one component. */
module BomExplosion {

  type ItemId = int

  /** A row of `bom_components`. */
  datatype Edge = Edge(parent: ItemId, child: ItemId, quantity: real, scrapPct: real)

  /** A row of `bom_tree`; its level is the table iteration that produced it. */
  datatype TreeRow = TreeRow(childId: ItemId, totalQty: real)

  function Factor(e: Edge): real {
    e.quantity * (1.0 + e.scrapPct)
  }

  /** What a line passes on of its parent's quantity. */
  function Passed(e: Edge, qty: real): real {
    Factor(e) * qty
  }

  /** The lines of one parent at one parent quantity. */
  function Lines(bom: seq<Edge>, parent: ItemId, qty: real): seq<TreeRow> {
    if bom == [] then []
    else
      var rest := Lines(bom[1..], parent, qty);
      if bom[0].parent == parent then [TreeRow(bom[0].child, Passed(bom[0], qty))] + rest else rest
  }

  /** One iteration of the recursive member: join every row with the lines of its component. */
  function Join(bom: seq<Edge>, rows: seq<TreeRow>): seq<TreeRow> {
    if rows == [] then []
    else Lines(bom, rows[0].childId, rows[0].totalQty) + Join(bom, rows[1..])
  }

  function Iterate(bom: seq<Edge>, rows: seq<TreeRow>, n: nat): seq<TreeRow> {
    if n == 0 then rows else Join(bom, Iterate(bom, rows, n - 1))
  }

  /** The rows of `bom_tree` at one level; level 0 stands for the ordered item itself. */
  function Level(bom: seq<Edge>, parent: ItemId, qty: real, level: nat): seq<TreeRow> {
    Iterate(bom, [TreeRow(parent, qty)], level)
  }

  /** Levels 1 to `depth` of `bom_tree`, one after the other. */
  function Tree(bom: seq<Edge>, parent: ItemId, qty: real, depth: nat): seq<TreeRow> {
    if depth == 0 then [] else Tree(bom, parent, qty, depth - 1) + Level(bom, parent, qty, depth)
  }

  function Total(rows: seq<TreeRow>, c: ItemId): real {
    if rows == [] then 0.0
    else (if rows[0].childId == c then rows[0].totalQty else 0.0) + Total(rows[1..], c)
  }

  function Components(rows: seq<TreeRow>): set<ItemId> {
    set r | r in rows :: r.childId
  }

  /** The query stops at the first level without rows. */
  ghost predicate Terminates(bom: seq<Edge>, parent: ItemId, qty: real) {
    exists level: nat :: Level(bom, parent, qty, level) == []
  }

  function Groups(bom: seq<Edge>, parent: ItemId, qty: real): set<(nat, ItemId)> {
    set level: nat, c: ItemId | 1 <= level <= |bom| && c in Components(Level(bom, parent, qty, level)) :: (level, c)
  }

  /** The grouped result: one total for every level and every component of that level. By
      `TerminationBound` no level beyond the number of BOM lines has rows. */
  function Explode(bom: seq<Edge>, parent: ItemId, qty: real): map<(nat, ItemId), real> {
    map k | k in Groups(bom, parent, qty) :: Total(Level(bom, parent, qty, k.0), k.1)
  }

  /** What the grouped result says of one component at one level. */
  function Share(out: map<(nat, ItemId), real>, level: nat, c: ItemId): real {
    if (level, c) in out then out[(level, c)] else 0.0
  }

  function SumOverLevels(out: map<(nat, ItemId), real>, c: ItemId, depth: nat): real {
    if depth == 0 then 0.0
    else SumOverLevels(out, c, depth - 1) + Share(out, depth, c)
  }

  // ---------------------------------------------------------------- walks and cycles

  /** A walk down the BOM, item by item. */
  ghost predicate Walk(bom: seq<Edge>, w: seq<ItemId>) {
    |w| > 0 && forall i :: 0 <= i < |w| - 1 ==> HasLine(bom, w[i], w[i + 1])
  }

  ghost predicate HasLine(bom: seq<Edge>, parent: ItemId, child: ItemId) {
    exists e :: e in bom && e.parent == parent && e.child == child
  }

  /** Some walk from `start` visits an item twice. */
  ghost predicate ReachesCycle(bom: seq<Edge>, start: ItemId) {
    exists w :: Walk(bom, w) && w[0] == start && Repeats(w)
  }

  ghost predicate Repeats(w: seq<ItemId>) {
    exists i, j :: 0 <= i < j < |w| && w[i] == w[j]
  }

  ghost predicate HasWalk(bom: seq<Edge>, start: ItemId, steps: nat) {
    exists w :: Walk(bom, w) && w[0] == start && |w| == steps + 1
  }

  ghost predicate HasWalkTo(bom: seq<Edge>, start: ItemId, steps: nat, end: ItemId) {
    exists w :: Walk(bom, w) && w[0] == start && |w| == steps + 1 && w[steps] == end
  }

  // ---------------------------------------------------------------- the independent calculation

  /** Low-level codes: every component lies below all its parents. */
  ghost predicate ValidCodes(bom: seq<Edge>, code: ItemId -> nat) {
    forall e :: e in bom ==> code(e.parent) < code(e.child)
  }

  /** Gross requirement as level-by-level planning computes it: an item is planned after all its
      parents and receives, from each of its where-used lines, the line's quantity, with its scrap
      added, for every unit of the parent's requirement. */
  ghost function Requirement(bom: seq<Edge>, code: ItemId -> nat, root: ItemId, qty: real, c: ItemId): real
    requires ValidCodes(bom, code)
    decreases code(c), |bom| + 1
  {
    if c == root then qty else WhereUsed(bom, code, root, qty, c, bom)
  }

  ghost function WhereUsed(bom: seq<Edge>, code: ItemId -> nat, root: ItemId, qty: real, c: ItemId,
                           lines: seq<Edge>): real
    requires ValidCodes(bom, code)
    requires forall e :: e in lines ==> e in bom
    decreases code(c), |lines|
  {
    if lines == [] then 0.0
    else
      (if lines[0].child == c
       then lines[0].quantity * (1.0 + lines[0].scrapPct) * Requirement(bom, code, root, qty, lines[0].parent)
       else 0.0)
      + WhereUsed(bom, code, root, qty, c, lines[1..])
  }

  // ---------------------------------------------------------------- totals

  lemma {:induction false} TotalConcat(a: seq<TreeRow>, b: seq<TreeRow>, c: ItemId)
    ensures Total(a + b, c) == Total(a, c) + Total(b, c)
  {
    if a == [] {
      assert a + b == b;
    } else {
      assert (a + b)[1..] == a[1..] + b;
      TotalConcat(a[1..], b, c);
    }
  }

  lemma {:induction false} TotalAbsent(rows: seq<TreeRow>, c: ItemId)
    requires c !in Components(rows)
    ensures Total(rows, c) == 0.0
  {
    if rows != [] {
      assert rows[0] in rows;
      forall r | r in rows[1..] ensures r in rows {}
      TotalAbsent(rows[1..], c);
    }
  }

  /** What the rows feed into c over the lines of the BOM. */
  function Inflow(lines: seq<Edge>, rows: seq<TreeRow>, c: ItemId): real {
    if lines == [] then 0.0
    else Fed(lines[0], Total(rows, lines[0].parent), c) + Inflow(lines[1..], rows, c)
  }

  lemma Distribute(x: real, a: real, b: real)
    ensures x * (a + b) == x * a + x * b
  {}

  /** What one line passes on for one component. */
  function Fed(e: Edge, qty: real, c: ItemId): real {
    if e.child == c then Passed(e, qty) else 0.0
  }

  lemma HeadSplit(e: Edge, r: TreeRow, rest: seq<TreeRow>, c: ItemId)
    ensures Fed(e, Total([r] + rest, e.parent), c) ==
              Fed(e, if r.childId == e.parent then r.totalQty else 0.0, c) + Fed(e, Total(rest, e.parent), c)
  {
    assert ([r] + rest)[1..] == rest;
    Distribute(Factor(e), if r.childId == e.parent then r.totalQty else 0.0, Total(rest, e.parent));
  }

  lemma LinesTotal(lines: seq<Edge>, r: TreeRow, c: ItemId)
    requires lines != []
    ensures Total(Lines(lines, r.childId, r.totalQty), c) ==
              Fed(lines[0], if r.childId == lines[0].parent then r.totalQty else 0.0, c) +
                Total(Lines(lines[1..], r.childId, r.totalQty), c)
  {
    var e, rest := lines[0], Lines(lines[1..], r.childId, r.totalQty);
    if e.parent == r.childId {
      var row := TreeRow(e.child, Passed(e, r.totalQty));
      assert ([row] + rest)[1..] == rest;
    }
  }

  lemma {:induction false} InflowSplit(lines: seq<Edge>, r: TreeRow, rest: seq<TreeRow>, c: ItemId)
    ensures Inflow(lines, [r] + rest, c) == Total(Lines(lines, r.childId, r.totalQty), c) + Inflow(lines, rest, c)
  {
    if lines != [] {
      InflowSplit(lines[1..], r, rest, c);
      HeadSplit(lines[0], r, rest, c);
      LinesTotal(lines, r, c);
    }
  }

  /** One join moves every quantity down exactly one line. */
  lemma {:induction false} TotalOfJoin(bom: seq<Edge>, rows: seq<TreeRow>, c: ItemId)
    ensures Total(Join(bom, rows), c) == Inflow(bom, rows, c)
  {
    if rows == [] {
      InflowEmpty(bom, c);
    } else {
      assert rows == [rows[0]] + rows[1..];
      InflowSplit(bom, rows[0], rows[1..], c);
      TotalConcat(Lines(bom, rows[0].childId, rows[0].totalQty), Join(bom, rows[1..]), c);
      TotalOfJoin(bom, rows[1..], c);
    }
  }

  lemma {:induction false} InflowEmpty(lines: seq<Edge>, c: ItemId)
    ensures Inflow(lines, [], c) == 0.0
  {
    if lines != [] {
      InflowEmpty(lines[1..], c);
    }
  }

  lemma {:induction false} JoinConcat(bom: seq<Edge>, a: seq<TreeRow>, b: seq<TreeRow>)
    ensures Join(bom, a + b) == Join(bom, a) + Join(bom, b)
  {
    if a == [] {
      assert a + b == b;
    } else {
      assert (a + b)[1..] == a[1..] + b;
      JoinConcat(bom, a[1..], b);
    }
  }

  lemma {:induction false} IterateConcat(bom: seq<Edge>, a: seq<TreeRow>, b: seq<TreeRow>, n: nat)
    ensures Iterate(bom, a + b, n) == Iterate(bom, a, n) + Iterate(bom, b, n)
  {
    if n > 0 {
      IterateConcat(bom, a, b, n - 1);
      var x, y := Iterate(bom, a, n - 1), Iterate(bom, b, n - 1);
      JoinConcat(bom, x, y);
      assert Iterate(bom, a + b, n) == Join(bom, x + y);
      assert Iterate(bom, a, n) == Join(bom, x) && Iterate(bom, b, n) == Join(bom, y);
    }
  }

  lemma {:induction false} IterateShift(bom: seq<Edge>, rows: seq<TreeRow>, n: nat)
    ensures Iterate(bom, rows, n + 1) == Iterate(bom, Join(bom, rows), n)
  {
    if n > 0 {
      IterateShift(bom, rows, n - 1);
    }
  }

  /** The whole tree to one more level is one join of the ordered item together with the tree. */
  lemma {:induction false} TreeUnfold(bom: seq<Edge>, parent: ItemId, qty: real, depth: nat)
    ensures Tree(bom, parent, qty, depth + 1) == Join(bom, [TreeRow(parent, qty)] + Tree(bom, parent, qty, depth))
  {
    var seed := [TreeRow(parent, qty)];
    if depth == 0 {
      assert seed + Tree(bom, parent, qty, 0) == seed;
      assert Tree(bom, parent, qty, 1) == Tree(bom, parent, qty, 0) + Level(bom, parent, qty, 1);
      assert Level(bom, parent, qty, 1) == Join(bom, Iterate(bom, seed, 0));
    } else {
      TreeUnfold(bom, parent, qty, depth - 1);
      JoinConcat(bom, seed + Tree(bom, parent, qty, depth - 1), Level(bom, parent, qty, depth));
      assert seed + Tree(bom, parent, qty, depth) ==
               (seed + Tree(bom, parent, qty, depth - 1)) + Level(bom, parent, qty, depth);
    }
  }

  // ---------------------------------------------------------------- levels are walks

  lemma {:induction false} LinesAreEdges(bom: seq<Edge>, parent: ItemId, qty: real, c: ItemId)
    ensures c in Components(Lines(bom, parent, qty)) <==> HasLine(bom, parent, c)
  {
    if bom != [] {
      LinesAreEdges(bom[1..], parent, qty, c);
      var rest := Lines(bom[1..], parent, qty);
      var e := bom[0];
      if HasLine(bom, parent, c) && !HasLine(bom[1..], parent, c) {
        assert e.parent == parent && e.child == c;
        assert Lines(bom, parent, qty)[0].childId == c;
      } else if HasLine(bom[1..], parent, c) {
        var r :| r in rest && r.childId == c;
        assert r in Lines(bom, parent, qty);
      }
      if c in Components(Lines(bom, parent, qty)) {
        var r :| r in Lines(bom, parent, qty) && r.childId == c;
        if r in rest {
          assert c in Components(rest);
        } else {
          assert r == TreeRow(e.child, Passed(e, qty)) && e in bom;
        }
      }
    }
  }

  lemma {:induction false} JoinIsOneStep(bom: seq<Edge>, rows: seq<TreeRow>, c: ItemId)
    ensures c in Components(Join(bom, rows)) <==> exists p :: p in Components(rows) && HasLine(bom, p, c)
  {
    if rows != [] {
      JoinIsOneStep(bom, rows[1..], c);
      LinesAreEdges(bom, rows[0].childId, rows[0].totalQty, c);
      var head, tail := Lines(bom, rows[0].childId, rows[0].totalQty), Join(bom, rows[1..]);
      assert Components(head + tail) == Components(head) + Components(tail) by {
        forall r | r in head || r in tail ensures r in head + tail {}
      }
      assert Components(rows) == {rows[0].childId} + Components(rows[1..]) by {
        assert rows == [rows[0]] + rows[1..];
        forall r | r in rows[1..] ensures r in rows {}
      }
    }
  }

  lemma ExtendWalk(bom: seq<Edge>, w: seq<ItemId>, c: ItemId)
    requires Walk(bom, w) && HasLine(bom, w[|w| - 1], c)
    ensures Walk(bom, w + [c])
  {
    var longer := w + [c];
    forall i | 0 <= i < |longer| - 1 ensures HasLine(bom, longer[i], longer[i + 1]) {
      if i < |w| - 1 {
        assert HasLine(bom, w[i], w[i + 1]);
      }
    }
  }

  lemma WalkPrefix(bom: seq<Edge>, w: seq<ItemId>, n: nat)
    requires Walk(bom, w) && 0 < n <= |w|
    ensures Walk(bom, w[..n])
  {
    forall i | 0 <= i < n - 1 ensures HasLine(bom, w[..n][i], w[..n][i + 1]) {
      assert HasLine(bom, w[i], w[i + 1]);
    }
  }

  /** A component stands at a level exactly when a walk with that many steps ends there. */
  lemma {:induction false} LevelIsWalks(bom: seq<Edge>, parent: ItemId, qty: real, level: nat, c: ItemId)
    ensures c in Components(Level(bom, parent, qty, level)) <==> HasWalkTo(bom, parent, level, c)
  {
    if level == 0 {
      var seed := [TreeRow(parent, qty)];
      assert seed[0] in seed;
      if c == parent {
        assert Walk(bom, [c]) && [c][0] == parent && |[c]| == 1 && [c][0] == c;
      }
    } else {
      JoinIsOneStep(bom, Level(bom, parent, qty, level - 1), c);
      if c in Components(Level(bom, parent, qty, level)) {
        var p :| p in Components(Level(bom, parent, qty, level - 1)) && HasLine(bom, p, c);
        LevelIsWalks(bom, parent, qty, level - 1, p);
        var w :| Walk(bom, w) && w[0] == parent && |w| == level && w[level - 1] == p;
        ExtendWalk(bom, w, c);
        assert (w + [c])[level] == c;
      }
      if HasWalkTo(bom, parent, level, c) {
        var w :| Walk(bom, w) && w[0] == parent && |w| == level + 1 && w[level] == c;
        assert HasLine(bom, w[level - 1], w[level - 1 + 1]);
        WalkPrefix(bom, w, level);
        assert w[..level][level - 1] == w[level - 1];
        assert HasWalkTo(bom, parent, level - 1, w[level - 1]);
        LevelIsWalks(bom, parent, qty, level - 1, w[level - 1]);
      }
    }
  }

  /** Longest-path depth: a level has rows exactly when a walk of that length starts at the parent. */
  lemma LevelNonEmpty(bom: seq<Edge>, parent: ItemId, qty: real, level: nat)
    ensures Level(bom, parent, qty, level) != [] <==> HasWalk(bom, parent, level)
  {
    var rows := Level(bom, parent, qty, level);
    if rows != [] {
      assert rows[0].childId in Components(rows);
      LevelIsWalks(bom, parent, qty, level, rows[0].childId);
    }
    if HasWalk(bom, parent, level) {
      var w :| Walk(bom, w) && w[0] == parent && |w| == level + 1;
      assert HasWalkTo(bom, parent, level, w[level]);
      LevelIsWalks(bom, parent, qty, level, w[level]);
    }
  }

  lemma {:induction false} ChildrenBound(bom: seq<Edge>) returns (children: set<ItemId>)
    ensures children == set e | e in bom :: e.child
    ensures |children| <= |bom|
  {
    if bom == [] {
      children := {};
    } else {
      var rest := ChildrenBound(bom[1..]);
      children := {bom[0].child} + rest;
      assert bom == [bom[0]] + bom[1..];
    }
  }

  lemma {:induction false} DistinctFits(s: seq<ItemId>, universe: set<ItemId>)
    requires forall i :: 0 <= i < |s| ==> s[i] in universe
    requires !Repeats(s)
    ensures |s| <= |universe|
  {
    if s != [] {
      var n := |s| - 1;
      forall i | 0 <= i < n ensures s[..n][i] in universe - {s[n]} {}
      DistinctFits(s[..n], universe - {s[n]});
    }
  }

  /** A walk with more steps than the BOM has lines meets some item twice. */
  lemma LongWalkRepeats(bom: seq<Edge>, w: seq<ItemId>)
    requires Walk(bom, w) && |w| - 1 > |bom|
    ensures Repeats(w)
  {
    if !Repeats(w) {
      var children := ChildrenBound(bom);
      var below := w[1..];
      forall i | 0 <= i < |below| ensures below[i] in children {
        assert HasLine(bom, w[i], w[i + 1]);
      }
      assert !Repeats(below) by {
        if i, j :| 0 <= i < j < |below| && below[i] == below[j] {
          assert w[i + 1] == w[j + 1];
        }
      }
      DistinctFits(below, children);
    }
  }

  /** A reachable cycle can be walked again and again. */
  lemma {:induction false} CycleGivesLongWalks(bom: seq<Edge>, start: ItemId, w: seq<ItemId>, i: nat, j: nat,
                                               steps: nat)
    requires Walk(bom, w) && w[0] == start
    requires i < j < |w| && w[i] == w[j]
    ensures HasWalk(bom, start, steps)
    decreases if steps < |w| then 0 else steps + 1 - |w|
  {
    if steps < |w| {
      WalkPrefix(bom, w, steps + 1);
      assert w[..steps + 1][0] == start;
    } else {
      var longer := w[..j] + w[i..];
      forall k | 0 <= k < |longer| - 1 ensures HasLine(bom, longer[k], longer[k + 1]) {
        if k < j - 1 {
          assert HasLine(bom, w[k], w[k + 1]);
        } else if k == j - 1 {
          assert longer[k] == w[j - 1] && longer[k + 1] == w[i] == w[j];
          assert HasLine(bom, w[j - 1], w[j - 1 + 1]);
        } else {
          var m := i + k - j;
          assert longer[k] == w[m] && longer[k + 1] == w[m + 1];
        }
      }
      assert longer[0] == start && longer[i] == w[i] && longer[j] == w[i];
      CycleGivesLongWalks(bom, start, longer, i, j, steps);
    }
  }

  /** The query ends exactly when no cycle can be reached from the parent: without one, every
      level beyond the number of BOM lines is empty; with one, no level ever is. */
  lemma TerminatesIffNoCycle(bom: seq<Edge>, parent: ItemId, qty: real)
    ensures Terminates(bom, parent, qty) <==> !ReachesCycle(bom, parent)
    ensures !ReachesCycle(bom, parent) ==> forall level :: level > |bom| ==> Level(bom, parent, qty, level) == []
    ensures ReachesCycle(bom, parent) ==> forall level: nat :: Level(bom, parent, qty, level) != []
  {
    if ReachesCycle(bom, parent) {
      var w :| Walk(bom, w) && w[0] == parent && Repeats(w);
      var i, j :| 0 <= i < j < |w| && w[i] == w[j];
      forall level: nat ensures Level(bom, parent, qty, level) != [] {
        CycleGivesLongWalks(bom, parent, w, i, j, level);
        LevelNonEmpty(bom, parent, qty, level);
      }
    } else {
      forall level: nat | level > |bom| ensures Level(bom, parent, qty, level) == [] {
        TerminationBound(bom, parent, qty, level);
      }
      assert Level(bom, parent, qty, |bom| + 1) == [];
    }
  }

  lemma TerminationBound(bom: seq<Edge>, parent: ItemId, qty: real, level: nat)
    requires !ReachesCycle(bom, parent) && level > |bom|
    ensures Level(bom, parent, qty, level) == []
  {
    LevelNonEmpty(bom, parent, qty, level);
    if HasWalk(bom, parent, level) {
      var w :| Walk(bom, w) && w[0] == parent && |w| == level + 1;
      LongWalkRepeats(bom, w);
      assert false;
    }
  }

  // ---------------------------------------------------------------- agreement with planning

  lemma {:induction false} CodesGrow(bom: seq<Edge>, code: ItemId -> nat, w: seq<ItemId>, i: nat, j: nat)
    requires ValidCodes(bom, code) && Walk(bom, w) && i <= j < |w|
    ensures code(w[i]) + (j - i) <= code(w[j])
  {
    if i < j {
      CodesGrow(bom, code, w, i, j - 1);
      assert HasLine(bom, w[j - 1], w[j - 1 + 1]);
    }
  }

  lemma CodesExcludeCycles(bom: seq<Edge>, code: ItemId -> nat, start: ItemId)
    requires ValidCodes(bom, code)
    ensures !ReachesCycle(bom, start)
  {
    if ReachesCycle(bom, start) {
      var w :| Walk(bom, w) && w[0] == start && Repeats(w);
      var i, j :| 0 <= i < j < |w| && w[i] == w[j];
      CodesGrow(bom, code, w, i, j);
      assert false;
    }
  }

  /** The ordered item never appears below itself. */
  lemma {:induction false} RootNotBelowItself(bom: seq<Edge>, code: ItemId -> nat, root: ItemId, qty: real, depth: nat)
    requires ValidCodes(bom, code)
    ensures Total(Tree(bom, root, qty, depth), root) == 0.0
  {
    if depth > 0 {
      RootNotBelowItself(bom, code, root, qty, depth - 1);
      LevelIsWalks(bom, root, qty, depth, root);
      if HasWalkTo(bom, root, depth, root) {
        var w :| Walk(bom, w) && w[0] == root && |w| == depth + 1 && w[depth] == root;
        CodesGrow(bom, code, w, 0, depth);
        assert false;
      }
      TotalAbsent(Level(bom, root, qty, depth), root);
      TotalConcat(Tree(bom, root, qty, depth - 1), Level(bom, root, qty, depth), root);
    }
  }

  lemma {:induction false} TreeIsRequirement(bom: seq<Edge>, code: ItemId -> nat, root: ItemId, qty: real, c: ItemId)
    requires ValidCodes(bom, code)
    ensures Total([TreeRow(root, qty)] + Tree(bom, root, qty, |bom|), c) == Requirement(bom, code, root, qty, c)
    decreases code(c), |bom| + 1
  {
    var seed := [TreeRow(root, qty)];
    var tree := Tree(bom, root, qty, |bom|);
    TotalConcat(seed, tree, c);
    assert seed[1..] == [];
    if c == root {
      RootNotBelowItself(bom, code, root, qty, |bom|);
    } else {
      CodesExcludeCycles(bom, code, root);
      TerminationBound(bom, root, qty, |bom| + 1);
      assert Tree(bom, root, qty, |bom| + 1) == tree + [] == tree;
      TreeUnfold(bom, root, qty, |bom|);
      TotalOfJoin(bom, seed + tree, c);
      InflowIsWhereUsed(bom, code, root, qty, c, bom, seed + tree);
    }
  }

  lemma {:induction false} InflowIsWhereUsed(bom: seq<Edge>, code: ItemId -> nat, root: ItemId, qty: real, c: ItemId,
                                             lines: seq<Edge>, rows: seq<TreeRow>)
    requires ValidCodes(bom, code)
    requires forall e :: e in lines ==> e in bom
    requires rows == [TreeRow(root, qty)] + Tree(bom, root, qty, |bom|)
    ensures Inflow(lines, rows, c) == WhereUsed(bom, code, root, qty, c, lines)
    decreases code(c), |lines|
  {
    if lines != [] {
      var e := lines[0];
      assert e in lines;
      if e.child == c {
        assert code(e.parent) < code(c);
        TreeIsRequirement(bom, code, root, qty, e.parent);
      }
      InflowIsWhereUsed(bom, code, root, qty, c, lines[1..], rows);
      WhereUsedStep(bom, code, root, qty, c, lines, rows);
    }
  }

  lemma WhereUsedStep(bom: seq<Edge>, code: ItemId -> nat, root: ItemId, qty: real, c: ItemId, lines: seq<Edge>,
                      rows: seq<TreeRow>)
    requires ValidCodes(bom, code) && lines != [] && forall e :: e in lines ==> e in bom
    requires lines[0].child == c ==> Total(rows, lines[0].parent) == Requirement(bom, code, root, qty, lines[0].parent)
    requires Inflow(lines[1..], rows, c) == WhereUsed(bom, code, root, qty, c, lines[1..])
    ensures Inflow(lines, rows, c) == WhereUsed(bom, code, root, qty, c, lines)
  {
    WhereUsedIs(bom, code, root, qty, c, lines);
  }

  lemma WhereUsedIs(bom: seq<Edge>, code: ItemId -> nat, root: ItemId, qty: real, c: ItemId, lines: seq<Edge>)
    requires ValidCodes(bom, code) && lines != [] && forall e :: e in lines ==> e in bom
    ensures lines[0].child == c ==>
              WhereUsed(bom, code, root, qty, c, lines) ==
              Passed(lines[0], Requirement(bom, code, root, qty, lines[0].parent)) +
                WhereUsed(bom, code, root, qty, c, lines[1..])
    ensures lines[0].child != c ==>
              WhereUsed(bom, code, root, qty, c, lines) == WhereUsed(bom, code, root, qty, c, lines[1..])
  {
    if lines[0].child == c {
      var x := Requirement(bom, code, root, qty, lines[0].parent);
      PassedIs(lines[0], x);
    }
  }

  lemma PassedIs(e: Edge, x: real)
    ensures Passed(e, x) == e.quantity * (1.0 + e.scrapPct) * x
  {}

  lemma {:induction false} SumIsTree(bom: seq<Edge>, parent: ItemId, qty: real, c: ItemId, depth: nat)
    requires depth <= |bom|
    ensures SumOverLevels(Explode(bom, parent, qty), c, depth) == Total(Tree(bom, parent, qty, depth), c)
  {
    if depth > 0 {
      SumIsTree(bom, parent, qty, c, depth - 1);
      TotalConcat(Tree(bom, parent, qty, depth - 1), Level(bom, parent, qty, depth), c);
      if c !in Components(Level(bom, parent, qty, depth)) {
        TotalAbsent(Level(bom, parent, qty, depth), c);
        assert (depth, c) !in Explode(bom, parent, qty);
      } else {
        assert (depth, c) in Explode(bom, parent, qty);
      }
    }
  }

  /** Main result: on an acyclic BOM the all-paths query, summed over levels, is the gross
      requirement of level-by-level planning, whatever valid low-level codes are used. */
  lemma ExplodeIsRequirement(bom: seq<Edge>, code: ItemId -> nat, root: ItemId, qty: real, c: ItemId)
    requires ValidCodes(bom, code) && c != root
    ensures SumOverLevels(Explode(bom, root, qty), c, |bom|) == Requirement(bom, code, root, qty, c)
  {
    SumIsTree(bom, root, qty, c, |bom|);
    TreeIsRequirement(bom, code, root, qty, c);
    TotalConcat([TreeRow(root, qty)], Tree(bom, root, qty, |bom|), c);
    assert [TreeRow(root, qty)][1..] == [];
  }

  // ---------------------------------------------------------------- every acyclic BOM has codes

  ghost predicate Acyclic(bom: seq<Edge>) {
    forall w :: Walk(bom, w) ==> !Repeats(w)
  }

  ghost predicate HasWalkInto(bom: seq<Edge>, c: ItemId, steps: nat) {
    exists w :: Walk(bom, w) && |w| == steps + 1 && w[steps] == c
  }

  /** The longest walk of at most `bound` steps that ends at c. */
  ghost function LongestInto(bom: seq<Edge>, c: ItemId, bound: nat): nat {
    if bound == 0 || HasWalkInto(bom, c, bound) then bound else LongestInto(bom, c, bound - 1)
  }

  ghost function LowLevelCode(bom: seq<Edge>): ItemId -> nat {
    c => LongestInto(bom, c, |bom|)
  }

  lemma {:induction false} LongestIntoIsLongest(bom: seq<Edge>, c: ItemId, bound: nat)
    ensures LongestInto(bom, c, bound) <= bound && HasWalkInto(bom, c, LongestInto(bom, c, bound))
    ensures forall n: nat :: n <= bound && HasWalkInto(bom, c, n) ==> n <= LongestInto(bom, c, bound)
  {
    if bound == 0 {
      assert Walk(bom, [c]) && |[c]| == 0 + 1 && [c][0] == c;
    } else if !HasWalkInto(bom, c, bound) {
      LongestIntoIsLongest(bom, c, bound - 1);
    }
  }

  lemma AcyclicHasCodes(bom: seq<Edge>)
    requires Acyclic(bom)
    ensures ValidCodes(bom, LowLevelCode(bom))
  {
    forall e | e in bom ensures LongestInto(bom, e.parent, |bom|) < LongestInto(bom, e.child, |bom|) {
      LongestIntoIsLongest(bom, e.parent, |bom|);
      LongestIntoIsLongest(bom, e.child, |bom|);
      var n := LongestInto(bom, e.parent, |bom|);
      var w :| Walk(bom, w) && |w| == n + 1 && w[n] == e.parent;
      assert HasLine(bom, e.parent, e.child);
      ExtendWalk(bom, w, e.child);
      var longer := w + [e.child];
      assert Walk(bom, longer) && |longer| == n + 1 + 1 && longer[n + 1] == e.child;
      if n + 1 > |bom| {
        LongWalkRepeats(bom, longer);
      }
      assert HasWalkInto(bom, e.child, n + 1);
    }
  }

  /** Main result for every acyclic BOM, with the longest-path low-level codes. */
  lemma ExplodeAgreesWithPlanning(bom: seq<Edge>, root: ItemId, qty: real, c: ItemId)
    requires Acyclic(bom) && c != root
    ensures ValidCodes(bom, LowLevelCode(bom))
    ensures SumOverLevels(Explode(bom, root, qty), c, |bom|) == Requirement(bom, LowLevelCode(bom), root, qty, c)
    ensures forall level :: level > |bom| ==> Level(bom, root, qty, level) == []
  {
    AcyclicHasCodes(bom);
    ExplodeIsRequirement(bom, LowLevelCode(bom), root, qty, c);
    CodesExcludeCycles(bom, LowLevelCode(bom), root);
    TerminatesIffNoCycle(bom, root, qty);
  }

  // ---------------------------------------------------------------- only what lies below counts

  ghost predicate Reachable(bom: seq<Edge>, root: ItemId, p: ItemId) {
    exists steps: nat :: HasWalkTo(bom, root, steps, p)
  }

  /** The lines whose parent can be reached from the root. */
  ghost function Below(bom: seq<Edge>, root: ItemId, lines: seq<Edge>): (below: seq<Edge>)
    ensures forall e :: e in below <==> e in lines && Reachable(bom, root, e.parent)
  {
    if lines == [] then []
    else
      var rest := Below(bom, root, lines[1..]);
      assert forall e :: e in lines <==> e == lines[0] || e in lines[1..];
      if Reachable(bom, root, lines[0].parent) then [lines[0]] + rest else rest
  }

  lemma {:induction false} LinesBelow(bom: seq<Edge>, root: ItemId, lines: seq<Edge>, p: ItemId, qty: real)
    requires Reachable(bom, root, p)
    ensures Lines(Below(bom, root, lines), p, qty) == Lines(lines, p, qty)
  {
    if lines != [] {
      LinesBelow(bom, root, lines[1..], p, qty);
      var rest := Below(bom, root, lines[1..]);
      assert ([lines[0]] + rest)[1..] == rest;
    }
  }

  lemma {:induction false} JoinBelow(bom: seq<Edge>, root: ItemId, rows: seq<TreeRow>)
    requires forall r :: r in rows ==> Reachable(bom, root, r.childId)
    ensures Join(Below(bom, root, bom), rows) == Join(bom, rows)
  {
    if rows != [] {
      assert rows[0] in rows;
      LinesBelow(bom, root, bom, rows[0].childId, rows[0].totalQty);
      JoinBelow(bom, root, rows[1..]);
    }
  }

  /** The query sees no other lines. */
  lemma {:induction false} LevelBelow(bom: seq<Edge>, root: ItemId, qty: real, level: nat)
    ensures Level(Below(bom, root, bom), root, qty, level) == Level(bom, root, qty, level)
  {
    if level > 0 {
      LevelBelow(bom, root, qty, level - 1);
      var rows := Level(bom, root, qty, level - 1);
      forall r | r in rows ensures Reachable(bom, root, r.childId) {
        LevelIsWalks(bom, root, qty, level - 1, r.childId);
        assert HasWalkTo(bom, root, level - 1, r.childId);
      }
      JoinBelow(bom, root, rows);
    }
  }

  lemma {:induction false} TreeBelow(bom: seq<Edge>, root: ItemId, qty: real, depth: nat)
    ensures Tree(Below(bom, root, bom), root, qty, depth) == Tree(bom, root, qty, depth)
  {
    if depth > 0 {
      TreeBelow(bom, root, qty, depth - 1);
      LevelBelow(bom, root, qty, depth);
    }
  }

  lemma JoinedWalk(bom: seq<Edge>, u: seq<ItemId>, w: seq<ItemId>)
    requires Walk(bom, u) && Walk(bom, w) && u[|u| - 1] == w[0]
    ensures var all := u[..|u| - 1] + w; Walk(bom, all) && all[0] == u[0]
  {
    var all := u[..|u| - 1] + w;
    forall i | 0 <= i < |all| - 1 ensures HasLine(bom, all[i], all[i + 1]) {
      if i < |u| - 1 {
        assert all[i + 1] == u[i + 1];
        assert HasLine(bom, u[i], u[i + 1]);
      } else {
        var k := i - (|u| - 1);
        assert HasLine(bom, w[k], w[k + 1]);
      }
    }
  }

  /** A repeated item below the root is a cycle that can be reached. */
  lemma BelowIsAcyclic(bom: seq<Edge>, root: ItemId)
    requires !ReachesCycle(bom, root)
    ensures Acyclic(Below(bom, root, bom))
  {
    var below := Below(bom, root, bom);
    forall w | Walk(below, w) ensures !Repeats(w) {
      if Repeats(w) {
        forall i | 0 <= i < |w| - 1 ensures HasLine(bom, w[i], w[i + 1]) {
          assert HasLine(below, w[i], w[i + 1]);
        }
        assert HasLine(below, w[0], w[0 + 1]);
        var steps: nat :| HasWalkTo(bom, root, steps, w[0]);
        var u :| Walk(bom, u) && u[0] == root && |u| == steps + 1 && u[steps] == w[0];
        JoinedWalk(bom, u, w);
        RepeatsLater(u[..steps], w);
        assert ReachesCycle(bom, root);
      }
    }
  }

  lemma RepeatsLater(before: seq<ItemId>, w: seq<ItemId>)
    requires Repeats(w)
    ensures Repeats(before + w)
  {
    var i, j :| 0 <= i < j < |w| && w[i] == w[j];
    var n := |before|;
    assert (before + w)[n + i] == (before + w)[n + j];
  }

  /** Beyond the levels that have rows the tree does not grow. */
  lemma {:induction false} TreeStops(bom: seq<Edge>, root: ItemId, qty: real, depth: nat)
    requires !ReachesCycle(bom, root) && depth >= |bom|
    ensures Tree(bom, root, qty, depth) == Tree(bom, root, qty, |bom|)
  {
    if depth > |bom| {
      TreeStops(bom, root, qty, depth - 1);
      TerminationBound(bom, root, qty, depth);
    }
  }

  /** Main result whenever the query ends: whatever the rest of the BOM looks like, the lines below the
      root are acyclic, and the result is the gross requirement that planning computes from them. */
  lemma ExplodeAgreesBelow(bom: seq<Edge>, root: ItemId, qty: real, c: ItemId)
    requires Terminates(bom, root, qty) && c != root
    ensures var below := Below(bom, root, bom);
            Acyclic(below) && ValidCodes(below, LowLevelCode(below)) &&
            SumOverLevels(Explode(bom, root, qty), c, |bom|) == Requirement(below, LowLevelCode(below), root, qty, c)
  {
    var below := Below(bom, root, bom);
    TerminatesIffNoCycle(bom, root, qty);
    BelowIsAcyclic(bom, root);
    ExplodeAgreesWithPlanning(below, root, qty, c);
    CodesExcludeCycles(below, LowLevelCode(below), root);
    SumIsTree(bom, root, qty, c, |bom|);
    SumIsTree(below, root, qty, c, |below|);
    TreeBelow(bom, root, qty, |bom|);
    BelowIsFewer(bom, root, bom);
    TreeStops(below, root, qty, |bom|);
  }

  lemma {:induction false} BelowIsFewer(bom: seq<Edge>, root: ItemId, lines: seq<Edge>)
    ensures |Below(bom, root, lines)| <= |lines|
  {
    if lines != [] {
      BelowIsFewer(bom, root, lines[1..]);
    }
  }

  // ---------------------------------------------------------------- composition and additivity

  /** The levels of several parents, side by side. */
  function LevelOfEach(bom: seq<Edge>, rows: seq<TreeRow>, level: nat): seq<TreeRow> {
    if rows == [] then []
    else Level(bom, rows[0].childId, rows[0].totalQty, level) + LevelOfEach(bom, rows[1..], level)
  }

  lemma {:induction false} IterateIsLevelOfEach(bom: seq<Edge>, rows: seq<TreeRow>, n: nat)
    ensures Iterate(bom, rows, n) == LevelOfEach(bom, rows, n)
  {
    if rows == [] {
      IterateEmpty(bom, n);
    } else {
      var head := rows[0];
      assert rows == [head] + rows[1..];
      IterateConcat(bom, [head], rows[1..], n);
      IterateIsLevelOfEach(bom, rows[1..], n);
      assert [head] == [TreeRow(head.childId, head.totalQty)];
    }
  }

  lemma {:induction false} IterateEmpty(bom: seq<Edge>, n: nat)
    ensures Iterate(bom, [], n) == []
  {
    if n > 0 {
      IterateEmpty(bom, n - 1);
    }
  }

  /** Exploding an item is listing its direct lines and exploding each component at the quantity
      of its line, one level further down, row for row. */
  lemma ExplodeComposes(bom: seq<Edge>, parent: ItemId, qty: real, level: nat)
    ensures Level(bom, parent, qty, level + 1) == LevelOfEach(bom, Lines(bom, parent, qty), level)
  {
    var seed := [TreeRow(parent, qty)];
    IterateShift(bom, seed, level);
    assert Join(bom, seed) == Lines(bom, parent, qty) by {
      assert seed[1..] == [];
      assert Lines(bom, parent, qty) + [] == Lines(bom, parent, qty);
    }
    IterateIsLevelOfEach(bom, Lines(bom, parent, qty), level);
  }

  /** The explosion of some row has this group. */
  ghost predicate SomeHasGroup(bom: seq<Edge>, rows: seq<TreeRow>, level: nat, c: ItemId) {
    exists r :: r in rows && (level, c) in Explode(bom, r.childId, r.totalQty)
  }

  function ShareOfEach(bom: seq<Edge>, rows: seq<TreeRow>, level: nat, c: ItemId): real {
    if rows == [] then 0.0
    else Share(Explode(bom, rows[0].childId, rows[0].totalQty), level, c) + ShareOfEach(bom, rows[1..], level, c)
  }

  lemma ShareIsTotal(bom: seq<Edge>, parent: ItemId, qty: real, level: nat, c: ItemId)
    requires 1 <= level && (level <= |bom| || Level(bom, parent, qty, level) == [])
    ensures Share(Explode(bom, parent, qty), level, c) == Total(Level(bom, parent, qty, level), c)
    ensures (level, c) in Explode(bom, parent, qty) <==> c in Components(Level(bom, parent, qty, level))
  {
    if c !in Components(Level(bom, parent, qty, level)) {
      TotalAbsent(Level(bom, parent, qty, level), c);
    }
  }

  lemma {:induction false} ShareOfEachIsTotal(bom: seq<Edge>, rows: seq<TreeRow>, level: nat, c: ItemId)
    requires 1 <= level && (level <= |bom| || LevelOfEach(bom, rows, level) == [])
    ensures ShareOfEach(bom, rows, level, c) == Total(LevelOfEach(bom, rows, level), c)
    ensures c in Components(LevelOfEach(bom, rows, level)) <==> SomeHasGroup(bom, rows, level, c)
  {
    if rows != [] {
      var head, tail := Level(bom, rows[0].childId, rows[0].totalQty, level), LevelOfEach(bom, rows[1..], level);
      assert LevelOfEach(bom, rows, level) == head + tail;
      if head + tail == [] {
        assert |head + tail| == |head| + |tail|;
      }
      ShareIsTotal(bom, rows[0].childId, rows[0].totalQty, level, c);
      ShareOfEachIsTotal(bom, rows[1..], level, c);
      TotalConcat(head, tail, c);
      ComponentsConcat(head, tail);
      MembersCons(rows);
    }
  }

  lemma ComponentsConcat(a: seq<TreeRow>, b: seq<TreeRow>)
    ensures Components(a + b) == Components(a) + Components(b)
  {
    forall r | r in a || r in b ensures r in a + b {}
  }

  lemma MembersCons(rows: seq<TreeRow>)
    requires rows != []
    ensures forall r :: r in rows <==> r == rows[0] || r in rows[1..]
  {
    assert rows == [rows[0]] + rows[1..];
  }

  /** The same of the grouped result, whenever the query ends: level 1 holds the direct lines, and
      every further level adds up what the explosions of the components say one level higher, with
      exactly their groups. */
  lemma GroupsCompose(bom: seq<Edge>, parent: ItemId, qty: real, level: nat, c: ItemId)
    requires Terminates(bom, parent, qty) && 1 <= level
    ensures var out, lines := Explode(bom, parent, qty), Lines(bom, parent, qty);
            Share(out, 1, c) == Total(lines, c) && ((1, c) in out <==> HasLine(bom, parent, c)) &&
            Share(out, level + 1, c) == ShareOfEach(bom, lines, level, c) &&
            ((level + 1, c) in out <==> SomeHasGroup(bom, lines, level, c))
  {
    TerminatesIffNoCycle(bom, parent, qty);
    DirectGroups(bom, parent, qty, c);
    LowerGroups(bom, parent, qty, level, c);
  }

  /** A BOM of one line: the component comes out at level 1 with its quantity, scrap added, for every
      unit ordered, and nothing else comes out. */
  lemma OneLine(e: Edge, qty: real)
    requires e.parent != e.child
    ensures Share(Explode([e], e.parent, qty), 1, e.child) == e.quantity * (1.0 + e.scrapPct) * qty
    ensures forall k :: k in Explode([e], e.parent, qty) <==> k == (1, e.child)
  {
    var bom, row := [e], TreeRow(e.child, Passed(e, qty));
    assert bom[1..] == [];
    var seed := TreeRow(e.parent, qty);
    assert [seed][1..] == [];
    assert Lines(bom, e.parent, qty) == [row] + Lines([], e.parent, qty) == [row];
    assert Join(bom, [seed]) == [row] + Join(bom, []) == [row];
    assert Level(bom, e.parent, qty, 0) == [seed];
    assert Level(bom, e.parent, qty, 1) == Join(bom, Level(bom, e.parent, qty, 0));
    assert [row][1..] == [];
    PassedIs(e, qty);
    assert Total([row], e.child) == row.totalQty;
    assert Components([row]) == {e.child};
    forall k: (nat, ItemId) ensures k in Explode(bom, e.parent, qty) <==> k == (1, e.child) {
      assert k in Groups(bom, e.parent, qty) <==> k == (1, e.child);
    }
    assert Explode(bom, e.parent, qty)[(1, e.child)] == Total(Level(bom, e.parent, qty, 1), e.child);
  }

  lemma DirectGroups(bom: seq<Edge>, parent: ItemId, qty: real, c: ItemId)
    requires Level(bom, parent, qty, |bom| + 1) == []
    ensures var out, lines := Explode(bom, parent, qty), Lines(bom, parent, qty);
            Share(out, 1, c) == Total(lines, c) && ((1, c) in out <==> HasLine(bom, parent, c))
  {
    var lines := Lines(bom, parent, qty);
    ExplodeComposes(bom, parent, qty, 0);
    LevelOfEachZero(bom, lines);
    assert Level(bom, parent, qty, 1) == lines;
    LinesAreEdges(bom, parent, qty, c);
    ShareIsTotal(bom, parent, qty, 1, c);
  }

  lemma LowerGroups(bom: seq<Edge>, parent: ItemId, qty: real, level: nat, c: ItemId)
    requires 1 <= level && (level < |bom| || Level(bom, parent, qty, level + 1) == [])
    ensures var out, lines := Explode(bom, parent, qty), Lines(bom, parent, qty);
            Share(out, level + 1, c) == ShareOfEach(bom, lines, level, c) &&
            ((level + 1, c) in out <==> SomeHasGroup(bom, lines, level, c))
  {
    var lines := Lines(bom, parent, qty);
    ExplodeComposes(bom, parent, qty, level);
    ShareIsTotal(bom, parent, qty, level + 1, c);
    ShareOfEachIsTotal(bom, lines, level, c);
  }

  lemma {:induction false} LevelOfEachZero(bom: seq<Edge>, rows: seq<TreeRow>)
    ensures LevelOfEach(bom, rows, 0) == rows
  {
    if rows != [] {
      LevelOfEachZero(bom, rows[1..]);
      assert rows == [rows[0]] + rows[1..];
      assert [TreeRow(rows[0].childId, rows[0].totalQty)] == [rows[0]];
    }
  }

  /** `c` holds the same components as `a` and `b`, and their quantities added up. */
  ghost predicate AddsUp(a: seq<TreeRow>, b: seq<TreeRow>, c: seq<TreeRow>) {
    |a| == |b| == |c| &&
    forall i :: 0 <= i < |a| ==>
      a[i].childId == b[i].childId == c[i].childId && c[i].totalQty == a[i].totalQty + b[i].totalQty
  }

  lemma {:induction false} LinesAddUp(bom: seq<Edge>, parent: ItemId, x: real, y: real)
    ensures AddsUp(Lines(bom, parent, x), Lines(bom, parent, y), Lines(bom, parent, x + y))
  {
    if bom != [] {
      LinesAddUp(bom[1..], parent, x, y);
      Distribute(Factor(bom[0]), x, y);
    }
  }

  lemma {:induction false} JoinAddsUp(bom: seq<Edge>, a: seq<TreeRow>, b: seq<TreeRow>, c: seq<TreeRow>)
    requires AddsUp(a, b, c)
    ensures AddsUp(Join(bom, a), Join(bom, b), Join(bom, c))
  {
    if a != [] {
      LinesAddUp(bom, a[0].childId, a[0].totalQty, b[0].totalQty);
      JoinAddsUp(bom, a[1..], b[1..], c[1..]);
    }
  }

  lemma {:induction false} LevelAddsUp(bom: seq<Edge>, parent: ItemId, x: real, y: real, level: nat)
    ensures AddsUp(Level(bom, parent, x, level), Level(bom, parent, y, level), Level(bom, parent, x + y, level))
  {
    if level > 0 {
      LevelAddsUp(bom, parent, x, y, level - 1);
      JoinAddsUp(bom, Level(bom, parent, x, level - 1), Level(bom, parent, y, level - 1),
                 Level(bom, parent, x + y, level - 1));
    }
  }

  lemma {:induction false} TotalAddsUp(a: seq<TreeRow>, b: seq<TreeRow>, c: seq<TreeRow>, item: ItemId)
    requires AddsUp(a, b, c)
    ensures Total(c, item) == Total(a, item) + Total(b, item)
  {
    if a != [] {
      TotalAddsUp(a[1..], b[1..], c[1..], item);
    }
  }

  lemma SameComponents(a: seq<TreeRow>, b: seq<TreeRow>)
    requires |a| == |b| && forall i :: 0 <= i < |a| ==> a[i].childId == b[i].childId
    ensures Components(a) == Components(b)
  {
    forall r | r in a ensures r.childId in Components(b) {
      var i :| 0 <= i < |a| && a[i] == r;
      assert b[i] in b;
    }
    forall r | r in b ensures r.childId in Components(a) {
      var i :| 0 <= i < |b| && b[i] == r;
      assert a[i] in a;
    }
  }

  /** The result is additive in the ordered quantity: the same groups, their totals added up. */
  lemma ExplodeAdditive(bom: seq<Edge>, parent: ItemId, x: real, y: real)
    ensures Explode(bom, parent, x + y).Keys == Explode(bom, parent, x).Keys == Explode(bom, parent, y).Keys
    ensures forall k :: k in Explode(bom, parent, x + y) ==>
              Explode(bom, parent, x + y)[k] == Explode(bom, parent, x)[k] + Explode(bom, parent, y)[k]
  {
    forall level: nat, c: ItemId
      ensures c in Components(Level(bom, parent, x + y, level)) <==> c in Components(Level(bom, parent, x, level))
      ensures c in Components(Level(bom, parent, x + y, level)) <==> c in Components(Level(bom, parent, y, level))
      ensures Total(Level(bom, parent, x + y, level), c) ==
                Total(Level(bom, parent, x, level), c) + Total(Level(bom, parent, y, level), c)
    {
      LevelAddsUp(bom, parent, x, y, level);
      var a, b, both := Level(bom, parent, x, level), Level(bom, parent, y, level), Level(bom, parent, x + y, level);
      TotalAddsUp(a, b, both, c);
      SameComponents(both, a);
      SameComponents(both, b);
    }
  }
}
