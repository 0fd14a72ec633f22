/**
 * The item-child table read as a directed graph: paths, reachability (the relation
 * the loop check of addChild answers), acyclicity, and the rename rewrites of the
 * table that updateItem issues.
 */
module Graph {
  import opened Types

  /** `p` is a walk along edges of `es` (a single node is a walk of length zero). */
  ghost predicate IsPath(es: seq<Edge>, p: seq<string>)
  {
    |p| >= 1 && forall i :: 0 <= i < |p| - 1 ==> Edge(p[i], p[i + 1]) in es
  }

  /** `b` is `a` or a descendant of `a`. */
  ghost predicate Reaches(es: seq<Edge>, a: string, b: string)
  {
    exists p :: IsPath(es, p) && p[0] == a && p[|p| - 1] == b
  }

  /** No walk of one or more edges returns to its start. */
  ghost predicate Acyclic(es: seq<Edge>)
  {
    forall p :: IsPath(es, p) && |p| >= 2 ==> p[0] != p[|p| - 1]
  }

  function Nodes(es: seq<Edge>): (ns: set<string>)
    ensures forall e :: e in es ==> e.parent in ns && e.child in ns
  {
    (set e | e in es :: e.parent) + (set e | e in es :: e.child)
  }

  /** With no edges, every walk is a single node. */
  lemma NoEdges()
    ensures Acyclic([])
    ensures forall a, b :: Reaches([], a, b) ==> a == b
  {
    forall p | IsPath([], p) ensures |p| == 1 {
      FirstStepIsEdge([], p);
    }
  }

  lemma FirstStepIsEdge(es: seq<Edge>, p: seq<string>)
    requires IsPath(es, p)
    ensures |p| >= 2 ==> Edge(p[0], p[1]) in es
  {
    if |p| >= 2 {
      assert 0 < |p| - 1;
    }
  }

  lemma ReachesRefl(es: seq<Edge>, a: string)
    ensures Reaches(es, a, a)
  {
    assert IsPath(es, [a]);
  }

  lemma PathConcat(es: seq<Edge>, p: seq<string>, q: seq<string>)
    requires IsPath(es, p) && IsPath(es, q) && p[|p| - 1] == q[0]
    ensures IsPath(es, p + q[1..])
    ensures (p + q[1..])[0] == p[0] && (p + q[1..])[|p + q[1..]| - 1] == q[|q| - 1]
  {
    var r := p + q[1..];
    forall i | 0 <= i < |r| - 1
      ensures Edge(r[i], r[i + 1]) in es
    {
      if i < |p| - 1 {
        assert r[i] == p[i] && r[i + 1] == p[i + 1];
      } else {
        assert r[i] == q[i - |p| + 1] && r[i + 1] == q[i - |p| + 2];
      }
    }
  }

  lemma ReachesTrans(es: seq<Edge>, a: string, b: string, c: string)
    requires Reaches(es, a, b) && Reaches(es, b, c)
    ensures Reaches(es, a, c)
  {
    var p :| IsPath(es, p) && p[0] == a && p[|p| - 1] == b;
    var q :| IsPath(es, q) && q[0] == b && q[|q| - 1] == c;
    PathConcat(es, p, q);
  }

  lemma ReachesStep(es: seq<Edge>, a: string, x: string, y: string)
    requires Reaches(es, a, x) && Edge(x, y) in es
    ensures Reaches(es, a, y)
  {
    assert IsPath(es, [x, y]);
    ReachesTrans(es, a, x, y);
  }

  /**
   * A walk in the table extended by the edge `e` either avoids `e`, or it runs from its
   * start to `e.parent` and from `e.child` to its end in the old table.
   */
  lemma {:induction false} SplitAtNewEdge(es: seq<Edge>, e: Edge, q: seq<string>)
    requires IsPath(es + [e], q)
    ensures IsPath(es, q) || (Reaches(es, q[0], e.parent) && Reaches(es, e.child, q[|q| - 1]))
    decreases |q|
  {
    if |q| > 1 {
      var q' := q[..|q| - 1];
      assert IsPath(es + [e], q') by {
        forall i | 0 <= i < |q'| - 1 ensures Edge(q'[i], q'[i + 1]) in es + [e] {
          assert q'[i] == q[i] && q'[i + 1] == q[i + 1];
        }
      }
      SplitAtNewEdge(es, e, q');
      var x, y := q[|q| - 2], q[|q| - 1];
      assert Edge(x, y) in es + [e];
      if Edge(x, y) in es {
        if IsPath(es, q') {
          forall i | 0 <= i < |q| - 1 ensures Edge(q[i], q[i + 1]) in es {
            if i < |q| - 2 {
              assert q[i] == q'[i] && q[i + 1] == q'[i + 1];
            }
          }
        } else {
          ReachesStep(es, e.child, x, y);
        }
      } else {
        assert Edge(x, y) == e;
        ReachesRefl(es, e.child);
        if IsPath(es, q') {
          assert Reaches(es, q[0], x) by { assert q'[0] == q[0] && q'[|q'| - 1] == x; }
        }
      }
    }
  }

  /**
   * The loop check of addChild is sufficient: an edge from `e.parent` to `e.child`
   * keeps an acyclic table acyclic when `e.parent` is not reachable from `e.child`.
   */
  lemma AddEdgePreservesAcyclic(es: seq<Edge>, e: Edge)
    requires Acyclic(es) && !Reaches(es, e.child, e.parent)
    ensures Acyclic(es + [e])
  {
    forall q | IsPath(es + [e], q) && |q| >= 2
      ensures q[0] != q[|q| - 1]
    {
      SplitAtNewEdge(es, e, q);
      if !IsPath(es, q) && q[0] == q[|q| - 1] {
        ReachesTrans(es, e.child, q[0], e.parent);
      }
    }
  }

  /** The loop check is also necessary: when it fires, the new edge closes a cycle. */
  lemma LoopIsNecessary(es: seq<Edge>, e: Edge)
    requires Reaches(es, e.child, e.parent)
    ensures !Acyclic(es + [e])
  {
    var p :| IsPath(es, p) && p[0] == e.child && p[|p| - 1] == e.parent;
    var q := [e.parent] + p;
    forall i | 0 <= i < |q| - 1 ensures Edge(q[i], q[i + 1]) in es + [e] {
      if i > 0 {
        assert q[i] == p[i - 1] && q[i + 1] == p[i];
      }
    }
    assert IsPath(es + [e], q) && |q| >= 2 && q[0] == q[|q| - 1];
  }

  /** A walk that starts in a set closed under the edges stays in it. */
  lemma {:induction false} PathStaysIn(es: seq<Edge>, vs: set<string>, p: seq<string>)
    requires IsPath(es, p) && p[0] in vs
    requires forall e :: e in es && e.parent in vs ==> e.child in vs
    ensures p[|p| - 1] in vs
    decreases |p|
  {
    if |p| > 1 {
      var p' := p[..|p| - 1];
      assert IsPath(es, p') by {
        forall i | 0 <= i < |p'| - 1 ensures Edge(p'[i], p'[i + 1]) in es {
          assert p'[i] == p[i] && p'[i + 1] == p[i + 1];
        }
      }
      PathStaysIn(es, vs, p');
      assert Edge(p[|p| - 2], p[|p| - 1]) in es;
    }
  }

  /** Everything reachable from a member of a set closed under the edges is in the set. */
  lemma ClosedSetContainsReachable(es: seq<Edge>, vs: set<string>, a: string)
    requires a in vs
    requires forall e :: e in es && e.parent in vs ==> e.child in vs
    ensures forall b :: Reaches(es, a, b) ==> b in vs
  {
    forall b | Reaches(es, a, b) ensures b in vs {
      var p :| IsPath(es, p) && p[0] == a && p[|p| - 1] == b;
      PathStaysIn(es, vs, p);
    }
  }

  /** The join of the edges into `n` with the item table, in the order of the edges. */
  function ParentNames(es: seq<Edge>, items: map<string, ItemRow>, n: string): (ps: seq<string>)
    ensures forall p :: p in ps <==> Edge(p, n) in es && p in items
    ensures forall p :: p in ps ==> p in items
    decreases |es|
  {
    if es == [] then []
    else
      var e := es[|es| - 1];
      assert es == es[..|es| - 1] + [e];
      var before := ParentNames(es[..|es| - 1], items, n);
      if e.child == n && e.parent in items then before + [e.parent] else before
  }

  /** The join of the edges out of `n` with the item table, in the order of the edges. */
  function ChildNames(es: seq<Edge>, items: map<string, ItemRow>, n: string): (cs: seq<string>)
    ensures forall c :: c in cs <==> Edge(n, c) in es && c in items
    decreases |es|
  {
    if es == [] then []
    else
      var e := es[|es| - 1];
      assert es == es[..|es| - 1] + [e];
      var before := ChildNames(es[..|es| - 1], items, n);
      if e.parent == n && e.child in items then before + [e.child] else before
  }

  /** The name an edge endpoint carries after `from` is renamed to `to`. */
  function Renamed(x: string, from: string, to: string): string
  {
    if x == from then to else x
  }

  /** `UPDATE item_child SET parent = to WHERE parent = from`. */
  function RewriteParents(es: seq<Edge>, from: string, to: string): (r: seq<Edge>)
    ensures |r| == |es|
    ensures forall i :: 0 <= i < |es| ==> r[i] == Edge(Renamed(es[i].parent, from, to), es[i].child)
  {
    seq(|es|, i requires 0 <= i < |es| => Edge(Renamed(es[i].parent, from, to), es[i].child))
  }

  /** `UPDATE item_child SET child = to WHERE child = from`. */
  function RewriteChildren(es: seq<Edge>, from: string, to: string): (r: seq<Edge>)
    ensures |r| == |es|
    ensures forall i :: 0 <= i < |es| ==> r[i] == Edge(es[i].parent, Renamed(es[i].child, from, to))
  {
    seq(|es|, i requires 0 <= i < |es| => Edge(es[i].parent, Renamed(es[i].child, from, to)))
  }

  /** Both rewrites of updateItem, in the order it issues them. */
  function RenameInEdges(es: seq<Edge>, from: string, to: string): seq<Edge>
  {
    RewriteChildren(RewriteParents(es, from, to), from, to)
  }

  /**
   * The rename rewrites every reference to `from` and nothing else: afterwards no edge
   * mentions `from`, and an edge that did not mention it is unchanged.
   */
  lemma RenameInEdgesExactly(es: seq<Edge>, from: string, to: string)
    requires from != to
    ensures |RenameInEdges(es, from, to)| == |es|
    ensures forall e :: e in RenameInEdges(es, from, to) ==> e.parent != from && e.child != from
    ensures forall i :: 0 <= i < |es| && es[i].parent != from && es[i].child != from ==>
              RenameInEdges(es, from, to)[i] == es[i]
    ensures forall i :: 0 <= i < |es| ==>
              RenameInEdges(es, from, to)[i] == Edge(Renamed(es[i].parent, from, to), Renamed(es[i].child, from, to))
  {
  }

  /** An edge after the rename is the image of an edge before it. */
  lemma RenamedEdgeHasPreimage(es: seq<Edge>, from: string, to: string, a: string, b: string)
    requires to !in Nodes(es) && Edge(a, b) in RenameInEdges(es, from, to)
    ensures Edge(Renamed(a, to, from), Renamed(b, to, from)) in es
  {
    var rs := RenameInEdges(es, from, to);
    var j :| 0 <= j < |rs| && rs[j] == Edge(a, b);
    assert es[j].parent in Nodes(es) && es[j].child in Nodes(es);
    assert Edge(Renamed(a, to, from), Renamed(b, to, from)) == es[j];
  }

  /** A walk after the rename, with every `to` renamed back to `from`, is a walk before it. */
  lemma PathHasPreimage(es: seq<Edge>, from: string, to: string, q: seq<string>) returns (back: seq<string>)
    requires to !in Nodes(es) && IsPath(RenameInEdges(es, from, to), q)
    ensures IsPath(es, back) && |back| == |q|
    ensures back[0] == Renamed(q[0], to, from) && back[|q| - 1] == Renamed(q[|q| - 1], to, from)
  {
    back := seq(|q|, i requires 0 <= i < |q| => Renamed(q[i], to, from));
    forall i | 0 <= i < |back| - 1
      ensures Edge(back[i], back[i + 1]) in es
    {
      RenamedEdgeHasPreimage(es, from, to, q[i], q[i + 1]);
    }
  }

  /**
   * Renaming a node to a name the graph does not use yet keeps the graph acyclic:
   * every walk after the rename is the image of a walk before it.
   */
  lemma RenamePreservesAcyclic(es: seq<Edge>, from: string, to: string)
    requires Acyclic(es) && to !in Nodes(es)
    ensures Acyclic(RenameInEdges(es, from, to))
  {
    forall q | IsPath(RenameInEdges(es, from, to), q) && |q| >= 2
      ensures q[0] != q[|q| - 1]
    {
      var back := PathHasPreimage(es, from, to, q);
    }
  }

  /** An acyclic table has no edge from a name to itself. */
  lemma AcyclicNoSelfEdge(es: seq<Edge>, a: string)
    requires Acyclic(es)
    ensures Edge(a, a) !in es
  {
    var p := [a, a];
    assert Edge(a, a) in es ==> IsPath(es, p);
  }

  /** Renaming a name that is on no edge leaves the table as it is. */
  lemma RenameOfNonNode(es: seq<Edge>, from: string, to: string)
    requires from !in Nodes(es) && from != to
    ensures RenameInEdges(es, from, to) == es
  {
    RenameInEdgesExactly(es, from, to);
  }

  /** The last edge of the renamed table is the renamed last edge; the rest is the renamed rest. */
  lemma RenameInEdgesSnoc(es: seq<Edge>, from: string, to: string)
    requires |es| > 0
    ensures RenameInEdges(es, from, to)[..|es| - 1] == RenameInEdges(es[..|es| - 1], from, to)
    ensures RenameInEdges(es, from, to)[|es| - 1] ==
              Edge(Renamed(es[|es| - 1].parent, from, to), Renamed(es[|es| - 1].child, from, to))
  {
    var r := RenameInEdges(es, from, to);
    var r' := RenameInEdges(es[..|es| - 1], from, to);
    assert forall i :: 0 <= i < |es| - 1 ==> r[i] == r'[i];
  }

  /**
   * After renaming `o` to an unused `n` in the edges and in the item table, the parents
   * of `n` are the parents `o` had, in the same order.
   */
  lemma {:induction false} RenameKeepsParentNames(es: seq<Edge>, items: map<string, ItemRow>, o: string, n: string, row: ItemRow)
    requires Edge(o, o) !in es && n !in Nodes(es) && n !in items && o in items && o != n
    ensures ParentNames(RenameInEdges(es, o, n), (items - {o})[n := row], n) == ParentNames(es, items, o)
    decreases |es|
  {
    if |es| > 0 {
      var init := es[..|es| - 1];
      var e := es[|es| - 1];
      assert es == init + [e];
      assert Nodes(init) <= Nodes(es);
      RenameInEdgesSnoc(es, o, n);
      RenameKeepsParentNames(init, items, o, n, row);
      assert e.parent in Nodes(es) && e.child in Nodes(es);
    }
  }

  /** The same for the children: those of `n` are the children `o` had, in the same order. */
  lemma {:induction false} RenameKeepsChildNames(es: seq<Edge>, items: map<string, ItemRow>, o: string, n: string, row: ItemRow)
    requires Edge(o, o) !in es && n !in Nodes(es) && n !in items && o in items && o != n
    ensures ChildNames(RenameInEdges(es, o, n), (items - {o})[n := row], n) == ChildNames(es, items, o)
    decreases |es|
  {
    if |es| > 0 {
      var init := es[..|es| - 1];
      var e := es[|es| - 1];
      assert es == init + [e];
      assert Nodes(init) <= Nodes(es);
      RenameInEdgesSnoc(es, o, n);
      RenameKeepsChildNames(init, items, o, n, row);
      assert e.parent in Nodes(es) && e.child in Nodes(es);
    }
  }

  /** From a name no edge leaves, nothing but the name itself is reachable. */
  lemma SinkReachesOnlyItself(es: seq<Edge>, a: string)
    requires forall e :: e in es ==> e.parent != a
    ensures forall b :: Reaches(es, a, b) ==> b == a
  {
    ClosedSetContainsReachable(es, {a}, a);
  }

  /** The chain o -> x -> n is acyclic. */
  lemma ChainOXNAcyclic()
    ensures Acyclic([Edge("o", "x"), Edge("x", "n")])
  {
    var e1, e2 := Edge("o", "x"), Edge("x", "n");
    NoEdges();
    AddEdgePreservesAcyclic([], e1);
    assert [] + [e1] == [e1];
    SinkReachesOnlyItself([e1], "n");
    AddEdgePreservesAcyclic([e1], e2);
    assert [e1] + [e2] == [e1, e2];
  }

  /** Renaming o to n in the chain o -> x -> n gives n -> x -> n. */
  lemma RenameChainOXN()
    ensures RenameInEdges([Edge("o", "x"), Edge("x", "n")], "o", "n") == [Edge("n", "x"), Edge("x", "n")]
  {
    var es := [Edge("o", "x"), Edge("x", "n")];
    var r := RenameInEdges(es, "o", "n");
    assert Renamed("o", "o", "n") == "n" && Renamed("x", "o", "n") == "x" && Renamed("n", "o", "n") == "n";
    assert r[0] == Edge("n", "x") && r[1] == Edge("x", "n");
  }

  /** n -> x -> n is a cycle. */
  lemma ChainNXNCyclic()
    ensures !Acyclic([Edge("n", "x"), Edge("x", "n")])
  {
    assert IsPath([Edge("n", "x"), Edge("x", "n")], ["n", "x", "n"]);
  }

  /**
   * The rewrites of a rename applied to a name that is already taken: on the acyclic
   * chain o -> x -> n, renaming o to n rewrites the parent column to give n -> x -> n,
   * a cycle.
   */
  lemma RenameOntoTakenNameClosesCycle()
    ensures Acyclic([Edge("o", "x"), Edge("x", "n")])
    ensures RenameInEdges([Edge("o", "x"), Edge("x", "n")], "o", "n") == [Edge("n", "x"), Edge("x", "n")]
    ensures !Acyclic([Edge("n", "x"), Edge("x", "n")])
  {
    ChainOXNAcyclic();
    RenameChainOXN();
    ChainNXNCyclic();
  }
}
