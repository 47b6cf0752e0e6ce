/**
  The addressable tree of pmtk/model/tree.py, as a value.

  Every `Node` object of the source becomes a handle into a `Forest`, which
  holds, per handle, the fields the source keeps on the object: `id`,
  `parent` (absent for a node without parent), the cached `abs_path` and the
  `children` dictionary. A forest may hold several trees: a freshly
  constructed node without parent is the root of its own tree.
 */
module Tree {
  import opened Wrappers
  import opened Paths

  type Node = int

  datatype Forest = Forest(
    ids: map<Node, string>,
    parent: map<Node, Node>,
    absPath: map<Node, seq<string>>,
    children: map<Node, map<string, Node>>)

  /** Navigation errors: `NonexistentPath` and `AmbiguousPath` (path plus tied nodes). */
  datatype NavError =
    | NonexistentPath(path: string)
    | AmbiguousPath(path: string, nodes: set<Node>)

  /** `addChild` raises `ValueError("Duplicate child id: ...")`. */
  datatype AddError = DuplicateChildId(id: string)

  /** The invariant `addChild` maintains over all nodes. */
  ghost predicate Valid(f: Forest) {
    && f.absPath.Keys == f.ids.Keys
    && f.children.Keys == f.ids.Keys
    // a parent link is mirrored by the parent's children dictionary
    && (forall c :: c in f.parent ==>
          && c in f.ids && f.parent[c] in f.ids
          && f.ids[c] in f.children[f.parent[c]]
          && f.children[f.parent[c]][f.ids[c]] == c)
    // a child entry is keyed by the child's id and points back
    && (forall a, k :: a in f.children && k in f.children[a] ==>
          && f.children[a][k] in f.parent
          && f.parent[f.children[a][k]] == a
          && f.ids[f.children[a][k]] == k)
    // abs_path is ('',) at a root and parent.abs_path + (id,) below
    && (forall n :: n in f.ids && n !in f.parent ==> f.absPath[n] == [""])
    && (forall n :: n in f.parent ==> f.absPath[n] == f.absPath[f.parent[n]] + [f.ids[n]])
  }

  /**
    `d` is reached from `a` by going down at least one step and never through
    `skip` (which `_depthFirstIterator(skip_node)` refuses to yield or enter).
   */
  ghost predicate Below(f: Forest, a: Node, d: Node, skip: Option<Node>)
    requires Valid(f) && d in f.ids
    decreases |f.absPath[d]|
  {
    && d in f.parent
    && skip != Some(d)
    && (f.parent[d] == a || Below(f, a, f.parent[d], skip))
  }

  /** `d` is a descendant of `a`. */
  ghost predicate StrictlyBelow(f: Forest, a: Node, d: Node)
    requires Valid(f) && d in f.ids
  {
    Below(f, a, d, None)
  }

  /** `a` is `d` or one of its ancestors. */
  ghost predicate AtOrBelow(f: Forest, a: Node, d: Node)
    requires Valid(f) && d in f.ids
  {
    d == a || StrictlyBelow(f, a, d)
  }

  /** Number of ancestors of `n`. */
  ghost function Depth(f: Forest, n: Node): nat
    requires Valid(f) && n in f.ids
    decreases |f.absPath[n]|
  {
    if n in f.parent then Depth(f, f.parent[n]) + 1 else 0
  }

  /** `getRoot`: the topmost ancestor of `n`. */
  function GetRoot(f: Forest, n: Node): (r: Node)
    requires Valid(f) && n in f.ids
    ensures r in f.ids && r !in f.parent
    ensures AtOrBelow(f, r, n)
    decreases |f.absPath[n]|
  {
    if n !in f.parent then n
    else
      var r := GetRoot(f, f.parent[n]);
      BelowParent(f, r, n);
      r
  }

  /** `getLevel`: the length of the absolute path. */
  function GetLevel(f: Forest, n: Node): (l: nat)
    requires Valid(f) && n in f.ids
    ensures l >= 1
  {
    PathStartsEmpty(f, n);
    |f.absPath[n]|
  }

  /** `str(node)`: the dot-joined absolute path ('' for a root, '.a.b' below). */
  function Str(f: Forest, n: Node): (s: string)
    requires Valid(f) && n in f.ids
    ensures n !in f.parent ==> s == ""
    ensures n in f.parent ==> |s| > 0 && s[0] == '.'
  {
    PathStartsEmpty(f, n);
    if n in f.parent then
      PathStartsEmpty(f, f.parent[n]);
      assert |f.absPath[n]| >= 2;
      Join(f.absPath[n])
    else Join(f.absPath[n])
  }

  /**
    `_matchesRelPath`: the dotted `path` names the trailing segments of the
    node's absolute path.
   */
  function MatchesRelPath(f: Forest, n: Node, path: string): (b: bool)
    requires n in f.absPath
    ensures b <==>
      var segs := Split(path);
      var p := f.absPath[n];
      && |segs| <= |p|
      && forall i :: 0 <= i < |segs| ==> segs[i] == p[|p| - |segs| + i]
  {
    var segs := Split(path);
    var p := f.absPath[n];
    if |segs| > |p| then false
    else
      var tail := p[|p| - |segs|..];
      assert forall i :: 0 <= i < |segs| ==> tail[i] == p[|p| - |segs| + i];
      tail == segs
  }

  /**
    `_navigateDirect`: follow the exact chain of child ids named by the dotted
    `path`; a missing segment raises `NonexistentPath` carrying the whole path
    given to this call.
   */
  function NavigateDirect(f: Forest, a: Node, path: string): (r: Result<Node, NavError>)
    requires Valid(f) && a in f.ids
    ensures r.Ok? ==> r.value in f.ids && r.value in f.parent
    ensures r.Err? ==> r == Err(NonexistentPath(path))
    decreases |path|
  {
    if '.' in path then
      var k := FirstDot(path);
      var first := path[..k];
      if first in f.children[a] then
        match NavigateDirect(f, f.children[a][first], path[k + 1..])
        case Ok(d) => Ok(d)
        case Err(_) => Err(NonexistentPath(path))
      else Err(NonexistentPath(path))
    else if path in f.children[a] then
      ChildLink(f, a, path);
      Ok(f.children[a][path])
    else Err(NonexistentPath(path))
  }

  // ---------------------------------------------------------------------------
  // Structure of a valid forest

  /** Going up one step from a descendant of `a` stays at or below `a`. */
  lemma BelowParent(f: Forest, a: Node, d: Node)
    requires Valid(f) && d in f.parent && a in f.ids
    requires AtOrBelow(f, a, f.parent[d])
    ensures StrictlyBelow(f, a, d)
  {
  }

  /** A descendant has a longer absolute path that extends its ancestor's. */
  lemma {:induction false} BelowPrefix(f: Forest, a: Node, d: Node, skip: Option<Node>)
    requires Valid(f) && d in f.ids
    requires Below(f, a, d, skip)
    ensures a in f.ids
    ensures |f.absPath[a]| < |f.absPath[d]|
    ensures f.absPath[d][..|f.absPath[a]|] == f.absPath[a]
    decreases |f.absPath[d]|
  {
    var q := f.parent[d];
    if q != a {
      BelowPrefix(f, a, q, skip);
    }
  }

  /** Every absolute path starts with the root's empty segment. */
  lemma {:induction false} PathStartsEmpty(f: Forest, n: Node)
    requires Valid(f) && n in f.ids
    ensures |f.absPath[n]| >= 1 && f.absPath[n][0] == ""
    decreases |f.absPath[n]|
  {
    if n in f.parent {
      PathStartsEmpty(f, f.parent[n]);
    }
  }

  /** The level of a node is its depth plus one (the root is at level 1). */
  lemma {:induction false} LevelIsDepthPlusOne(f: Forest, n: Node)
    requires Valid(f) && n in f.ids
    ensures GetLevel(f, n) == Depth(f, n) + 1
    ensures n !in f.parent <==> GetLevel(f, n) == 1
    decreases |f.absPath[n]|
  {
    if n in f.parent {
      LevelIsDepthPlusOne(f, f.parent[n]);
    }
  }

  /** A node `c` directly under `a` sits on the way to everything below `c`. */
  lemma {:induction false} BelowThroughChild(f: Forest, a: Node, c: Node, d: Node)
    requires Valid(f) && d in f.ids && c in f.parent && f.parent[c] == a
    requires AtOrBelow(f, c, d)
    ensures StrictlyBelow(f, a, d)
    decreases |f.absPath[d]|
  {
    if d != c {
      BelowThroughChild(f, a, c, f.parent[d]);
    }
  }

  /** Two ancestors of one node are ancestors of each other, the higher one first. */
  lemma {:induction false} AncestorsAreNested(f: Forest, x: Node, y: Node, d: Node)
    requires Valid(f) && d in f.ids && x in f.ids && y in f.ids
    requires AtOrBelow(f, x, d) && AtOrBelow(f, y, d)
    requires GetLevel(f, x) <= GetLevel(f, y)
    ensures AtOrBelow(f, x, y)
    ensures GetLevel(f, x) == GetLevel(f, y) ==> x == y
    decreases |f.absPath[d]|
  {
    if d == y {
    } else if d == x {
      BelowPrefix(f, y, d, None);
    } else {
      AncestorsAreNested(f, x, y, f.parent[d]);
    }
    if x != y {
      BelowPrefix(f, x, y, None);
    }
  }

  /** The child of `a` on the way down to its descendant `d`. */
  ghost function ChildToward(f: Forest, a: Node, d: Node): (c: Node)
    requires Valid(f) && d in f.ids && StrictlyBelow(f, a, d)
    ensures c in f.parent && f.parent[c] == a
    ensures AtOrBelow(f, c, d)
    decreases |f.absPath[d]|
  {
    if f.parent[d] == a then d
    else
      var c := ChildToward(f, a, f.parent[d]);
      c
  }

  /** A node with an empty children dictionary has no descendants. */
  lemma {:induction false} ChildlessHasNoDescendants(f: Forest, a: Node, d: Node)
    requires Valid(f) && a in f.ids && d in f.ids
    requires f.children[a] == map[]
    ensures !StrictlyBelow(f, a, d)
    decreases |f.absPath[d]|
  {
    if d in f.parent {
      ChildlessHasNoDescendants(f, a, f.parent[d]);
    }
  }

  /** Nodes below `a` share `a`'s root. */
  lemma {:induction false} BelowSameRoot(f: Forest, a: Node, d: Node)
    requires Valid(f) && a in f.ids && d in f.ids
    requires StrictlyBelow(f, a, d)
    ensures GetRoot(f, d) == GetRoot(f, a)
    decreases |f.absPath[d]|
  {
    if f.parent[d] != a {
      BelowSameRoot(f, a, f.parent[d]);
    }
  }

  /** Every non-root node of a tree is below that tree's root. */
  lemma RootIsAncestor(f: Forest, d: Node)
    requires Valid(f) && d in f.parent
    ensures StrictlyBelow(f, GetRoot(f, d), d)
  {
  }

  // ---------------------------------------------------------------------------
  // Absolute navigation

  /** Extending a path by the first segment and then by the rest is extending it by all segments. */
  lemma SplitAppend(p: seq<string>, path: string)
    requires '.' in path
    ensures p + [path[..FirstDot(path)]] + Split(path[FirstDot(path) + 1..]) == p + Split(path)
  {
    var k := FirstDot(path);
    var x, r := path[..k], Split(path[k + 1..]);
    assert Split(path) == [x] + r;
    Assoc(p, x, r);
  }

  /** Proof helper: concatenation regroups. */
  lemma Assoc(p: seq<string>, x: string, r: seq<string>)
    ensures p + [x] + r == p + ([x] + r)
  {
  }

  /** The entry `k` of `a`'s children is a child of `a` with id `k`, one segment deeper. */
  lemma ChildLink(f: Forest, a: Node, k: string)
    requires Valid(f) && a in f.ids && k in f.children[a]
    ensures var c := f.children[a][k];
      c in f.ids && c in f.parent && f.parent[c] == a && f.ids[c] == k && f.absPath[c] == f.absPath[a] + [k]
  {
  }

  /**
    What `_navigateDirect` finds lies below the start node, and its absolute
    path is the start node's path extended by the segments of `path`.
   */
  lemma {:induction false} NavigateDirectSound(f: Forest, a: Node, path: string, d: Node)
    requires Valid(f) && a in f.ids
    requires NavigateDirect(f, a, path) == Ok(d)
    ensures d in f.ids
    ensures StrictlyBelow(f, a, d)
    ensures f.absPath[d] == f.absPath[a] + Split(path)
    decreases |path|
  {
    if '.' in path {
      var k := FirstDot(path);
      var first, rest := path[..k], path[k + 1..];
      assert first in f.children[a];
      var c := f.children[a][first];
      ChildLink(f, a, first);
      assert NavigateDirect(f, c, rest) == Ok(d);
      NavigateDirectSound(f, c, rest, d);
      BelowThroughChild(f, a, c, d);
      SplitAppend(f.absPath[a], path);
    } else {
      assert path in f.children[a] && d == f.children[a][path];
      ChildLink(f, a, path);
      assert Split(path) == [path];
    }
  }

  /**
    Conversely, every descendant whose absolute path extends the start node's
    by the segments of `path` is what `_navigateDirect` returns.
   */
  lemma {:induction false} NavigateDirectComplete(f: Forest, a: Node, d: Node, path: string)
    requires Valid(f) && a in f.ids && d in f.ids
    requires StrictlyBelow(f, a, d)
    requires f.absPath[d] == f.absPath[a] + Split(path)
    ensures NavigateDirect(f, a, path) == Ok(d)
    decreases |path|
  {
    var c := ChildToward(f, a, d);
    ChildIsNextSegment(f, a, c, d);
    if '.' !in path {
      assert Split(path) == [path];
      if c != d {
        BelowPrefix(f, c, d, None);
        assert false;
      }
    } else {
      var k := FirstDot(path);
      var first, rest := path[..k], path[k + 1..];
      SplitAppend(f.absPath[a], path);
      assert f.ids[c] == first;
      if c == d {
        assert false;
      }
      RestBelowChild(f, a, c, d, first, Split(rest));
      NavigateDirectComplete(f, c, d, rest);
    }
  }

  /** The child of `a` toward `d` is entered under `d`'s next path segment. */
  lemma ChildIsNextSegment(f: Forest, a: Node, c: Node, d: Node)
    requires Valid(f) && a in f.ids && d in f.ids && c in f.parent && f.parent[c] == a
    requires AtOrBelow(f, c, d)
    ensures |f.absPath[d]| > |f.absPath[a]|
    ensures f.ids[c] == f.absPath[d][|f.absPath[a]|]
    ensures f.ids[c] in f.children[a] && f.children[a][f.ids[c]] == c
  {
    var la := |f.absPath[a]|;
    assert f.absPath[c] == f.absPath[a] + [f.ids[c]];
    if c != d {
      BelowPrefix(f, c, d, None);
      assert f.absPath[d][..la + 1] == f.absPath[c];
    }
  }

  /** Below the child `c`, the rest of the path extends `c`'s path. */
  lemma RestBelowChild(f: Forest, a: Node, c: Node, d: Node, first: string, rest: seq<string>)
    requires Valid(f) && a in f.ids && d in f.ids && c in f.parent && f.parent[c] == a
    requires f.ids[c] == first
    requires f.absPath[d] == f.absPath[a] + [first] + rest
    ensures f.absPath[d] == f.absPath[c] + rest
  {
  }

  /**
    `str(n)` has a leading dot, and the walk down from the root of `x`'s
    tree along `str(n)[1:]` reaches `n`, for every non-root `n` of that tree
    whose ids contain no dot.
   */
  lemma AbsoluteRoundTrip(f: Forest, x: Node, n: Node)
    requires Valid(f) && x in f.ids && n in f.parent
    requires GetRoot(f, x) == GetRoot(f, n)
    requires forall i :: 0 <= i < |f.absPath[n]| ==> '.' !in f.absPath[n][i]
    ensures |Str(f, n)| > 0 && Str(f, n)[0] == '.'
    ensures NavigateDirect(f, GetRoot(f, x), Str(f, n)[1..]) == Ok(n)
  {
    var r := GetRoot(f, n);
    var p := f.absPath[n];
    PathStartsEmpty(f, n);
    LevelIsDepthPlusOne(f, n);
    var rest := p[1..];
    assert p == [""] + rest;
    assert Str(f, n) == "." + Join(rest);
    SplitJoin(rest);
    NavigateDirectComplete(f, r, n, Join(rest));
  }

  // ---------------------------------------------------------------------------
  // Construction

  /** `Node(id)` without parent: a new root whose absolute path is `('',)`. */
  ghost function AddDetached(f: Forest, n: Node, id: string): (g: Forest)
    requires Valid(f) && n !in f.ids
    ensures Valid(g)
    ensures g.ids == f.ids[n := id] && g.parent == f.parent
    ensures g.absPath == f.absPath[n := [""]] && g.children == f.children[n := map[]]
  {
    var g := Forest(f.ids[n := id], f.parent, f.absPath[n := [""]], f.children[n := map[]]);
    AddDetachedValid(f, n, id, g);
    g
  }

  /** A new node without parent or children keeps the forest valid. */
  lemma AddDetachedValid(f: Forest, n: Node, id: string, g: Forest)
    requires Valid(f) && n !in f.ids
    requires g.ids == f.ids[n := id] && g.parent == f.parent
    requires g.absPath == f.absPath[n := [""]] && g.children == f.children[n := map[]]
    ensures Valid(g)
  {
    AddDetachedLinks(f, n, id, g);
    forall x | x in g.parent
      ensures x in g.ids && g.parent[x] in g.ids
      ensures g.ids[x] in g.children[g.parent[x]] && g.children[g.parent[x]][g.ids[x]] == x
      ensures g.absPath[x] == g.absPath[g.parent[x]] + [g.ids[x]]
    {
      assert x != n && f.parent[x] != n;
    }
    forall x | x in g.ids && x !in g.parent
      ensures g.absPath[x] == [""]
    {
    }
    assert g.absPath.Keys == g.ids.Keys && g.children.Keys == g.ids.Keys;
  }

  /** The children dictionaries of a forest with a new detached node mirror its parent links. */
  lemma AddDetachedLinks(f: Forest, n: Node, id: string, g: Forest)
    requires Valid(f) && n !in f.ids
    requires g.ids == f.ids[n := id] && g.parent == f.parent && g.children == f.children[n := map[]]
    ensures forall a, k :: a in g.children && k in g.children[a] ==>
          && g.children[a][k] in g.parent
          && g.parent[g.children[a][k]] == a
          && g.children[a][k] in g.ids && g.ids[g.children[a][k]] == k
  {
    forall a, k | a in g.children && k in g.children[a]
      ensures g.children[a][k] in g.parent && g.parent[g.children[a][k]] == a
      ensures g.children[a][k] in g.ids && g.ids[g.children[a][k]] == k
    {
      assert a != n && g.children[a] == f.children[a];
      assert f.children[a][k] != n;
    }
  }

  /**
    `p.addChild(c)` for a detached `c` whose id is new among `p`'s children,
    including the re-indexing of `c`'s whole subtree by `_readdChildren`.
   */
  ghost function Attach(f: Forest, p: Node, c: Node): (g: Forest)
    requires Valid(f) && p in f.ids && c in f.ids && c !in f.parent
    requires !AtOrBelow(f, c, p)
    requires f.ids[c] !in f.children[p]
    ensures Valid(g)
    ensures g.ids == f.ids
    ensures g.parent == f.parent[c := p]
    ensures g.children[p] == f.children[p][f.ids[c] := c]
    ensures forall a :: a in f.children && a != p ==> g.children[a] == f.children[a]
    ensures g.absPath[c] == f.absPath[p] + [f.ids[c]]
    ensures forall n :: n in f.ids && !AtOrBelow(f, c, n) ==> g.absPath[n] == f.absPath[n]
  {
    var g := Forest(f.ids, f.parent[c := p], Reindexed(f, p, c), f.children[p := f.children[p][f.ids[c] := c]]);
    AttachValid(f, p, c, g);
    AttachMovesSubtree(f, p, c, g);
    g
  }

  /**
    `Node(id, q)`: a fresh node `n` entered in `q`'s children under `id`,
    with `q` as parent and `q`'s path plus `id` as path; no other node
    changes.
   */
  ghost function NewChild(f: Forest, n: Node, id: string, q: Node): (g: Forest)
    requires Valid(f) && n !in f.ids && q in f.ids && id !in f.children[q]
    ensures Valid(g)
    ensures g.ids == f.ids[n := id] && g.parent == f.parent[n := q]
    ensures g.children == f.children[n := map[]][q := f.children[q][id := n]]
    ensures g.absPath == f.absPath[n := f.absPath[q] + [id]]
  {
    var h := AddDetached(f, n, id);
    ChildlessHasNoDescendants(h, n, q);
    var g := Attach(h, q, n);
    NewChildShape(f, n, id, q, h, g);
    assert g.children.Keys == f.children.Keys + {n};
    g
  }

  /** Attaching a fresh node changes the path of no other node. */
  lemma NewChildShape(f: Forest, n: Node, id: string, q: Node, h: Forest, g: Forest)
    requires Valid(f) && n !in f.ids && q in f.ids
    requires h == AddDetached(f, n, id) && Valid(h) && Valid(g) && g.ids == h.ids
    requires g.absPath[n] == h.absPath[q] + [id]
    requires forall m :: m in h.ids && !AtOrBelow(h, n, m) ==> g.absPath[m] == h.absPath[m]
    ensures g.absPath == f.absPath[n := f.absPath[q] + [id]]
  {
    var target := f.absPath[n := f.absPath[q] + [id]];
    forall m | m in g.absPath
      ensures m in target && g.absPath[m] == target[m]
    {
      if m != n {
        ChildlessHasNoDescendants(h, n, m);
      }
    }
    assert g.absPath.Keys == target.Keys;
  }

  /** The absolute paths after `c`'s subtree is re-indexed under `p`. */
  ghost function Reindexed(f: Forest, p: Node, c: Node): (m: map<Node, seq<string>>)
    requires Valid(f) && p in f.ids && c in f.ids
    ensures m.Keys == f.absPath.Keys
    ensures forall n :: n in f.ids ==>
      m[n] == if AtOrBelow(f, c, n) then f.absPath[p] + [f.ids[c]] + f.absPath[n][1..] else f.absPath[n]
  {
    map n | n in f.absPath ::
      if AtOrBelow(f, c, n) then f.absPath[p] + [f.ids[c]] + f.absPath[n][1..] else f.absPath[n]
  }

  /** Inside the moved subtree, a node's new path extends its parent's new path by its id. */
  lemma ReindexedStep(f: Forest, p: Node, c: Node, d: Node)
    requires Valid(f) && p in f.ids && c in f.ids && d in f.ids
    requires StrictlyBelow(f, c, d)
    ensures f.parent[d] in f.ids
    ensures Reindexed(f, p, c)[d] == Reindexed(f, p, c)[f.parent[d]] + [f.ids[d]]
  {
    var q := f.parent[d];
    PathStartsEmpty(f, q);
    assert AtOrBelow(f, c, q);
    assert f.absPath[d][1..] == f.absPath[q][1..] + [f.ids[d]];
  }

  lemma AttachValid(f: Forest, p: Node, c: Node, g: Forest)
    requires Valid(f) && p in f.ids && c in f.ids && c !in f.parent
    requires !AtOrBelow(f, c, p)
    requires f.ids[c] !in f.children[p]
    requires g.ids == f.ids && g.parent == f.parent[c := p]
    requires g.children == f.children[p := f.children[p][f.ids[c] := c]]
    requires g.absPath.Keys == f.absPath.Keys
    requires forall n :: n in f.ids ==>
      g.absPath[n] == if AtOrBelow(f, c, n) then f.absPath[p] + [f.ids[c]] + f.absPath[n][1..] else f.absPath[n]
    ensures Valid(g)
  {
    forall n | n in g.parent
      ensures g.absPath[n] == g.absPath[g.parent[n]] + [g.ids[n]]
    {
      AttachPathAt(f, p, c, g, n);
    }
    forall n | n in g.ids && n !in g.parent
      ensures g.absPath[n] == [""]
    {
      assert n != c && !StrictlyBelow(f, c, n);
    }
    AttachLinks(f, p, c, g);
  }

  /** Attaching gives `c` its new parent's path plus its id, and leaves the rest of the paths and dictionaries alone. */
  lemma AttachMovesSubtree(f: Forest, p: Node, c: Node, g: Forest)
    requires Valid(f) && p in f.ids && c in f.ids && c !in f.parent
    requires g.ids == f.ids && g.absPath.Keys == f.absPath.Keys
    requires g.children == f.children[p := f.children[p][f.ids[c] := c]]
    requires forall n :: n in f.ids ==>
      g.absPath[n] == if AtOrBelow(f, c, n) then f.absPath[p] + [f.ids[c]] + f.absPath[n][1..] else f.absPath[n]
    ensures g.children[p] == f.children[p][f.ids[c] := c]
    ensures forall a :: a in f.children && a != p ==> g.children[a] == f.children[a]
    ensures g.absPath[c] == f.absPath[p] + [f.ids[c]]
    ensures forall n :: n in f.ids && !AtOrBelow(f, c, n) ==> g.absPath[n] == f.absPath[n]
  {
    assert f.absPath[c] == [""] && AtOrBelow(f, c, c);
    assert g.absPath[c] == f.absPath[p] + [f.ids[c]] + [""][1..];
  }

  /** After attaching, the path invariant holds at each node. */
  lemma AttachPathAt(f: Forest, p: Node, c: Node, g: Forest, n: Node)
    requires Valid(f) && p in f.ids && c in f.ids && c !in f.parent
    requires !AtOrBelow(f, c, p)
    requires g.ids == f.ids && g.parent == f.parent[c := p]
    requires g.absPath.Keys == f.absPath.Keys
    requires forall n :: n in f.ids ==>
      g.absPath[n] == if AtOrBelow(f, c, n) then f.absPath[p] + [f.ids[c]] + f.absPath[n][1..] else f.absPath[n]
    requires n in g.parent
    ensures g.absPath[n] == g.absPath[g.parent[n]] + [g.ids[n]]
  {
    if n == c {
      assert f.absPath[c] == [""];
      assert g.absPath[p] == f.absPath[p];
    } else {
      var q := f.parent[n];
      PathStartsEmpty(f, q);
      assert g.parent[n] == q && g.ids[n] == f.ids[n];
      if AtOrBelow(f, c, q) {
        assert AtOrBelow(f, c, n);
        assert f.absPath[n] == f.absPath[q] + [f.ids[n]];
        ReplaceHeadStep(f.absPath[p] + [f.ids[c]], f.absPath[q], f.ids[n]);
      } else {
        assert !AtOrBelow(f, c, n);
      }
    }
  }

  /** Replacing the leading segment of a path commutes with appending a segment. */
  lemma ReplaceHeadStep(pre: seq<string>, path: seq<string>, x: string)
    requires |path| >= 1
    ensures pre + (path + [x])[1..] == pre + path[1..] + [x]
  {
    assert (path + [x])[1..] == path[1..] + [x];
  }

  /** After attaching, parent links and children dictionaries still mirror each other. */
  lemma AttachLinks(f: Forest, p: Node, c: Node, g: Forest)
    requires Valid(f) && p in f.ids && c in f.ids && c !in f.parent
    requires f.ids[c] !in f.children[p]
    requires g.ids == f.ids && g.parent == f.parent[c := p]
    requires g.children == f.children[p := f.children[p][f.ids[c] := c]]
    requires g.absPath.Keys == f.absPath.Keys
    ensures g.absPath.Keys == g.ids.Keys && g.children.Keys == g.ids.Keys
    ensures forall x :: x in g.parent ==>
          && x in g.ids && g.parent[x] in g.ids
          && g.ids[x] in g.children[g.parent[x]]
          && g.children[g.parent[x]][g.ids[x]] == x
    ensures forall a, k :: a in g.children && k in g.children[a] ==>
          && g.children[a][k] in g.parent
          && g.parent[g.children[a][k]] == a
          && g.children[a][k] in g.ids
          && g.ids[g.children[a][k]] == k
  {
    forall a, k | a in g.children && k in g.children[a]
      ensures g.children[a][k] in g.parent && g.parent[g.children[a][k]] == a
      ensures g.children[a][k] in g.ids && g.ids[g.children[a][k]] == k
    {
      if !(a == p && k == f.ids[c]) {
        assert g.children[a][k] == f.children[a][k];
      }
    }
  }
}
