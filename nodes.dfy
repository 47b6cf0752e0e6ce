/**
  The `Node` objects of pmtk/model/tree.py as mutable state: an arena whose
  fields are the per-object attributes the source updates in place.
 */
module Nodes {
  import opened Wrappers
  import opened Tree
  import Navigation

  class Arena {
    /** `node.id` of every node created so far. */
    var ids: map<Node, string>
    /** `node.parent`, for the nodes that have one. */
    var parent: map<Node, Node>
    /** `node.abs_path`. */
    var absPath: map<Node, seq<string>>
    /** `node.children`. */
    var children: map<Node, map<string, Node>>
    /** The next unused handle. */
    var next: Node

    /** The nodes as a value. */
    function State(): Forest
      reads this
    {
      Forest(ids, parent, absPath, children)
    }

    ghost predicate Valid()
      reads this
    {
      Tree.Valid(State()) && forall n :: n in ids ==> n < next
    }

    /** An arena with no nodes yet. */
    constructor ()
      ensures Valid() && State() == Forest(map[], map[], map[], map[])
    {
      ids, parent, absPath, children := map[], map[], map[], map[];
      next := 0;
    }

    /**
      `Node(id, parent)`: a fresh node with path `('',)` and no children,
      then `parent.addChild(node)` when a parent is given. A duplicate id
      under that parent is `DuplicateChildId`; the new node then stays
      detached.
     */
    method NewNode(id: string, p: Option<Node>) returns (r: Result<Node, AddError>)
      requires Valid() && (p.Some? ==> p.value in ids)
      modifies this
      ensures Valid() && next == old(next) + 1
      ensures var g := AddDetached(old(State()), old(next), id);
        match p
        case None => r == Ok(old(next)) && State() == g
        case Some(q) =>
          if id in old(children[q]) then r == Err(DuplicateChildId(id)) && State() == g
          else r == Ok(old(next)) && State() == NewChild(old(State()), old(next), id, q)
    {
      ghost var f := State();
      var n := Detached(id);
      ghost var g := AddDetached(f, n, id);
      match p {
        case None =>
          r := Ok(n);
        case Some(q) =>
          ChildlessHasNoDescendants(g, n, q);
          var out := AddChild(q, n);
          r := if out.Pass? then Ok(n) else Err(out.error);
      }
    }

    /** The first half of `Node(id, parent)`: a node with path `('',)`, no parent and no children. */
    method Detached(id: string) returns (n: Node)
      requires Valid()
      modifies this
      ensures Valid() && n == old(next) && next == old(next) + 1
      ensures State() == AddDetached(old(State()), n, id)
    {
      n := next;
      ghost var g := AddDetached(State(), n, id);
      ids, absPath, children := ids[n := id], absPath[n := [""]], children[n := map[]];
      next := next + 1;
      assert State() == g;
      ValidState(g, State(), next);
    }

    /** `origin.navigate(path)`. */
    method Navigate(origin: Node, path: string) returns (r: Result<Node, NavError>)
      requires Valid() && origin in ids
      ensures r == Navigation.Navigate(State(), origin, path)
    {
      var f := State();
      if |path| > 0 && path[0] == '.' {
        r := NavigateDirect(f, GetRoot(f, origin), path[1..]);
      } else {
        r := Navigation.NavigateFuzzy(f, origin, path, None);
      }
    }

    /**
      `child.parent` is `p`; `p.addChild(child)` records the child, sets its
      parent and path, and `_readdChildren` recomputes the paths of its whole
      subtree. A child id already used under `p` is `DuplicateChildId`, and
      nothing changes.
     */
    method AddChild(p: Node, c: Node) returns (out: Outcome<AddError>)
      requires Valid() && p in ids && c in ids && c !in parent
      requires !AtOrBelow(State(), c, p)
      modifies this
      ensures Valid()
      ensures old(ids[c] in children[p]) ==>
        out == Fail(DuplicateChildId(old(ids[c]))) && State() == old(State())
      ensures old(ids[c] !in children[p]) ==>
        out == Pass && State() == Attach(old(State()), p, c)
      ensures next == old(next)
    {
      if ids[c] in children[p] {
        return Fail(DuplicateChildId(ids[c]));
      }
      Link(p, c);
      out := Pass;
    }

    /** The part of `addChild` past the duplicate check: record the child, set its parent, re-index its subtree. */
    method Link(p: Node, c: Node)
      requires Valid() && p in ids && c in ids && c !in parent
      requires !AtOrBelow(State(), c, p) && ids[c] !in children[p]
      modifies this
      ensures Valid() && next == old(next)
      ensures State() == Attach(old(State()), p, c)
    {
      var f := State();
      ghost var g := Attach(f, p, c);
      var paths := Readd(f, p, c);
      children, parent, absPath := children[p := children[p][ids[c] := c]], parent[c := p], paths;
      assert State() == g;
      ValidState(g, State(), next);
    }
  }

  /** Proof helper: the arena invariant read off a forest equal to one known to be valid. */
  lemma ValidState(g: Forest, s: Forest, next: Node)
    requires Tree.Valid(g) && s == g && forall n :: n in g.ids ==> n < next
    ensures Tree.Valid(s) && forall n :: n in s.ids ==> n < next
  {
  }

  /**
    `paths` holds the re-indexed path of every node in `done` and the old
    path of every other node.
   */
  ghost predicate PathsSoFar(f: Forest, target: map<Node, seq<string>>, paths: map<Node, seq<string>>, done: set<Node>)
    requires target.Keys == f.absPath.Keys
  {
    && paths.Keys == f.absPath.Keys
    && forall n :: n in f.absPath ==> paths[n] == if n in done then target[n] else f.absPath[n]
  }

  /** Re-indexing `d` from its already re-indexed parent extends the re-indexed part. */
  lemma ReaddStep(f: Forest, p: Node, c: Node, paths: map<Node, seq<string>>, done: set<Node>, d: Node)
    requires Valid(f) && p in f.ids && c in f.ids && d in f.ids
    requires StrictlyBelow(f, c, d) && f.parent[d] in done
    requires PathsSoFar(f, Reindexed(f, p, c), paths, done)
    ensures f.parent[d] in paths
    ensures PathsSoFar(f, Reindexed(f, p, c), paths[d := paths[f.parent[d]] + [f.ids[d]]], done + {d})
  {
    ReindexedStep(f, p, c, d);
    ExtendPaths(f, Reindexed(f, p, c), paths, done, d, f.parent[d]);
  }

  /** Giving `d` the path of its already finished parent `q` plus its id finishes `d`. */
  lemma ExtendPaths(f: Forest, target: map<Node, seq<string>>, paths: map<Node, seq<string>>, done: set<Node>, d: Node, q: Node)
    requires target.Keys == f.absPath.Keys && f.ids.Keys == f.absPath.Keys
    requires d in f.ids && q in f.ids && q in done
    requires target[d] == target[q] + [f.ids[d]]
    requires PathsSoFar(f, target, paths, done)
    ensures PathsSoFar(f, target, paths[d := paths[q] + [f.ids[d]]], done + {d})
  {
  }

  /** One iteration of the re-index loop keeps its invariant. */
  lemma ReaddIteration(f: Forest, p: Node, c: Node, order: seq<Node>, i: nat,
                       paths: map<Node, seq<string>>, done: set<Node>)
    requires Valid(f) && p in f.ids && c in f.ids && i < |order|
    requires forall d :: d in order <==> d in Navigation.Candidates(f, c, None)
    requires Navigation.ParentFirst(f, c, order)
    requires forall n :: n in done <==> n == c || n in order[..i]
    requires PathsSoFar(f, Reindexed(f, p, c), paths, done)
    ensures order[i] in f.ids && f.parent[order[i]] in paths
    ensures forall n :: n in done + {order[i]} <==> n == c || n in order[..i + 1]
    ensures PathsSoFar(f, Reindexed(f, p, c),
      paths[order[i] := paths[f.parent[order[i]]] + [f.ids[order[i]]]], done + {order[i]})
  {
    var d := order[i];
    assert d in order;
    Extend(order, i);
    ReaddStep(f, p, c, paths, done, d);
  }

  /** Once `c` and all its descendants are re-indexed, the paths are those of the attached forest. */
  lemma ReaddDone(f: Forest, p: Node, c: Node, order: seq<Node>, paths: map<Node, seq<string>>, done: set<Node>)
    requires Valid(f) && p in f.ids && c in f.ids
    requires forall d :: d in order <==> d in Navigation.Candidates(f, c, None)
    requires forall n :: n in done <==> n == c || n in order[..|order|]
    requires PathsSoFar(f, Reindexed(f, p, c), paths, done)
    ensures paths == Reindexed(f, p, c)
  {
    assert order[..|order|] == order;
  }

  /** The re-index starts with `c` alone: a detached node's path `('',)` becomes `p`'s path plus its id. */
  lemma ReaddStart(f: Forest, p: Node, c: Node)
    requires Valid(f) && p in f.ids && c in f.ids && c !in f.parent
    ensures PathsSoFar(f, Reindexed(f, p, c), f.absPath[c := f.absPath[p] + [f.ids[c]]], {c})
  {
  }

  /** Proof helper: taking one more element of a sequence. */
  lemma Extend(s: seq<Node>, i: nat)
    requires i < |s|
    ensures forall n :: n in s[..i + 1] <==> n in s[..i] || n == s[i]
  {
    assert s[..i + 1] == s[..i] + [s[i]];
  }

  /**
    The paths `p.addChild(c)` leaves: `c` gets `p`'s path plus its id, and
    `_readdChildren` then gives every node of `c`'s subtree, parents first,
    its parent's new path plus its own id.
   */
  method Readd(f: Forest, p: Node, c: Node) returns (paths: map<Node, seq<string>>)
    requires Valid(f) && p in f.ids && c in f.ids && c !in f.parent
    ensures paths == Reindexed(f, p, c)
  {
    var order := Navigation.DepthFirst(f, c, None);
    paths := f.absPath[c := f.absPath[p] + [f.ids[c]]];
    ghost var done := {c};
    ReaddStart(f, p, c);
    var i := 0;
    while i < |order|
      invariant 0 <= i <= |order|
      invariant forall n :: n in done <==> n == c || n in order[..i]
      invariant PathsSoFar(f, Reindexed(f, p, c), paths, done)
    {
      ReaddIteration(f, p, c, order, i, paths, done);
      var d := order[i];
      paths := paths[d := paths[f.parent[d]] + [f.ids[d]]];
      done := done + {d};
      i := i + 1;
    }
    ReaddDone(f, p, c, order, paths, done);
  }
}
