/**
  Navigation of pmtk/model/tree.py: `_depthFirstIterator`, `_navigateFuzzy`
  and `navigate`, with the declarative contract of fuzzy navigation stated in
  the module docstring of that file (smallest containing subtree first, the
  shallowest match wins, ties at the shallowest level are ambiguous).
 */
module Navigation {
  import opened Wrappers
  import opened Paths
  import opened Tree

  /** What `a._depthFirstIterator(skip)` yields: descendants reached without entering `skip`. */
  ghost function Candidates(f: Forest, a: Node, skip: Option<Node>): set<Node>
    requires Valid(f)
  {
    set d | d in f.ids && Below(f, a, d, skip)
  }

  /** The `found` list of `_navigateFuzzy` at one level, as a set. */
  ghost function Found(f: Forest, a: Node, skip: Option<Node>, path: string): set<Node>
    requires Valid(f)
  {
    set d | d in Candidates(f, a, skip) && MatchesRelPath(f, d, path)
  }

  /** The members of `s` at the smallest level. */
  ghost function Shallowest(f: Forest, s: set<Node>): set<Node>
    requires Valid(f) && s <= f.ids.Keys
  {
    set d | d in s && forall e :: e in s ==> GetLevel(f, d) <= GetLevel(f, e)
  }

  /**
    `a._navigateFuzzy(path, skip)`: search the candidates of this level; if
    none matches, retry from the parent, skipping the subtree just searched.
   */
  ghost function FuzzyAt(f: Forest, a: Node, skip: Option<Node>, path: string): (r: Result<Node, NavError>)
    requires Valid(f) && a in f.ids
    ensures r.Ok? ==> r.value in f.ids && MatchesRelPath(f, r.value, path)
    ensures r.Err? ==>
      || r.error == NonexistentPath(path)
      || (r.error.AmbiguousPath? && r.error.path == path && |r.error.nodes| >= 2)
    decreases |f.absPath[a]|
  {
    var found := Found(f, a, skip, path);
    if |found| == 1 then
      var d :| d in found; Ok(d)
    else if |found| > 1 then
      var tied := Shallowest(f, found);
      if |tied| == 1 then var d :| d in tied; Ok(d)
      else
        assert tied != {} by { ShallowestNonEmpty(f, found); }
        Err(AmbiguousPath(path, tied))
    else if a in f.parent then FuzzyAt(f, f.parent[a], Some(a), path)
    else Err(NonexistentPath(path))
  }

  /** `origin.navigate(path)`: a leading dot is absolute, anything else fuzzy. */
  ghost function Navigate(f: Forest, origin: Node, path: string): (r: Result<Node, NavError>)
    requires Valid(f) && origin in f.ids
    ensures r.Ok? ==> r.value in f.ids
    ensures r.Err? && r.error.NonexistentPath? ==>
      r.error.path == if |path| > 0 && path[0] == '.' then path[1..] else path
  {
    if |path| > 0 && path[0] == '.' then NavigateDirect(f, GetRoot(f, origin), path[1..])
    else FuzzyAt(f, origin, None, path)
  }

  // ---------------------------------------------------------------------------
  // The declarative contract

  /**
    Nodes a fuzzy lookup from `o` may return for `path`: matching nodes of
    `o`'s tree other than `o` and its ancestors.
   */
  ghost function Matches(f: Forest, o: Node, path: string): set<Node>
    requires Valid(f) && o in f.ids
  {
    set e | e in f.ids && GetRoot(f, e) == GetRoot(f, o) && !AtOrBelow(f, e, o) && MatchesRelPath(f, e, path)
  }

  /**
    The root of the smallest containing subtree (SCST) of `o` and `e`: the
    deepest ancestor-or-self of `o` that has `e` below it.
   */
  ghost function Scope(f: Forest, o: Node, e: Node): (s: Node)
    requires Valid(f) && o in f.ids && e in f.ids
    requires GetRoot(f, e) == GetRoot(f, o) && !AtOrBelow(f, e, o)
    ensures s in f.ids && AtOrBelow(f, s, o) && StrictlyBelow(f, s, e)
    ensures forall a :: a in f.ids && AtOrBelow(f, a, o) && StrictlyBelow(f, a, e) ==>
      GetLevel(f, a) <= GetLevel(f, s)
    decreases |f.absPath[o]|
  {
    if StrictlyBelow(f, o, e) then
      forall a | a in f.ids && AtOrBelow(f, a, o) && StrictlyBelow(f, a, e)
        ensures GetLevel(f, a) <= GetLevel(f, o)
      {
        if a != o { BelowPrefix(f, a, o, None); }
      }
      o
    else if o !in f.parent then
      RootIsAncestor(f, e);
      assert false;
      o
    else
      var q := f.parent[o];
      var s := Scope(f, q, e);
      BelowParent(f, s, o);
      s
  }

  /** `x` is a better fuzzy result than `e`: in a smaller SCST, or in the same one but shallower. */
  ghost predicate Outranks(f: Forest, o: Node, x: Node, e: Node)
    requires Valid(f) && o in f.ids && x in f.ids && e in f.ids
    requires GetRoot(f, x) == GetRoot(f, o) && !AtOrBelow(f, x, o)
    requires GetRoot(f, e) == GetRoot(f, o) && !AtOrBelow(f, e, o)
  {
    var sx, se := GetLevel(f, Scope(f, o, x)), GetLevel(f, Scope(f, o, e));
    sx > se || (sx == se && GetLevel(f, x) < GetLevel(f, e))
  }

  /** The matches no other match outranks. */
  ghost function Optimal(f: Forest, o: Node, path: string): set<Node>
    requires Valid(f) && o in f.ids
  {
    var m := Matches(f, o, path);
    set e | e in m && forall x :: x in m ==> !Outranks(f, o, x, e)
  }

  /**
    What a fuzzy lookup from `o` for `path` may produce: the single optimal
    match; `AmbiguousPath` carrying exactly the optimal matches when several
    tie; `NonexistentPath` exactly when nothing matches.
   */
  ghost predicate Describes(f: Forest, o: Node, path: string, r: Result<Node, NavError>)
    requires Valid(f) && o in f.ids
  {
    match r
    case Ok(d) => Optimal(f, o, path) == {d}
    case Err(NonexistentPath(q)) => q == path && Matches(f, o, path) == {}
    case Err(AmbiguousPath(q, tied)) => q == path && tied == Optimal(f, o, path) && |tied| >= 2
  }

  /** `(a, skip)` is one level of the search from `o`: `o` itself, or an ancestor skipping the child toward `o`. */
  ghost predicate SearchLevel(f: Forest, o: Node, a: Node, skip: Option<Node>)
    requires Valid(f) && o in f.ids
  {
    && a in f.ids
    && AtOrBelow(f, a, o)
    && match skip
       case None => a == o
       case Some(c) => c in f.parent && f.parent[c] == a && AtOrBelow(f, c, o)
  }

  // ---------------------------------------------------------------------------
  // Proof of the contract

  /** Being at or above a node that is above `d` puts you above `d`. */
  lemma {:induction false} BelowTrans(f: Forest, a: Node, b: Node, d: Node)
    requires Valid(f) && a in f.ids && b in f.ids && d in f.ids
    requires AtOrBelow(f, a, b) && StrictlyBelow(f, b, d)
    ensures StrictlyBelow(f, a, d)
    decreases |f.absPath[d]|
  {
    if f.parent[d] != b {
      BelowTrans(f, a, b, f.parent[d]);
    }
    BelowParent(f, a, d);
  }

  /** Skipping the child `c` of `a` leaves the descendants of `a` not at or below `c`. */
  lemma {:induction false} SkipChild(f: Forest, a: Node, c: Node, e: Node)
    requires Valid(f) && e in f.ids && c in f.parent && f.parent[c] == a
    ensures Below(f, a, e, Some(c)) <==> StrictlyBelow(f, a, e) && !AtOrBelow(f, c, e)
    decreases |f.absPath[e]|
  {
    if e in f.parent {
      var q := f.parent[e];
      if q == a {
        if StrictlyBelow(f, c, e) {
          BelowPrefix(f, c, e, None);
        }
      } else {
        SkipChild(f, a, c, q);
      }
    }
  }

  /** The candidates of a search level are exactly the nodes whose SCST with `o` is that level's node. */
  lemma RegionIsScope(f: Forest, o: Node, a: Node, skip: Option<Node>, e: Node)
    requires Valid(f) && o in f.ids && e in f.ids
    requires SearchLevel(f, o, a, skip)
    ensures e in Candidates(f, a, skip) <==>
      GetRoot(f, e) == GetRoot(f, o) && !AtOrBelow(f, e, o) && Scope(f, o, e) == a
  {
    if e in Candidates(f, a, skip) {
      match skip {
        case None =>
          assert StrictlyBelow(f, a, e);
          BelowPrefix(f, a, e, None);
          if StrictlyBelow(f, e, o) {
            BelowPrefix(f, e, o, None);
          }
        case Some(c) =>
          SkipChild(f, a, c, e);
          BelowPrefix(f, a, e, None);
          if AtOrBelow(f, e, o) {
            AncestorsAreNested(f, c, e, o);
          }
      }
      BelowSameRoot(f, a, e);
      if a != o {
        BelowSameRoot(f, a, o);
      }
      var s := Scope(f, o, e);
      if s != a {
        AncestorsAreNested(f, a, s, o);
        match skip {
          case None =>
            BelowPrefix(f, s, o, None);
          case Some(c) =>
            BelowPrefix(f, a, s, None);
            AncestorsAreNested(f, c, s, o);
            BelowTrans(f, c, s, e);
            SkipChild(f, a, c, e);
        }
      }
    } else if GetRoot(f, e) == GetRoot(f, o) && !AtOrBelow(f, e, o) && Scope(f, o, e) == a {
      match skip {
        case None =>
        case Some(c) =>
          if StrictlyBelow(f, c, e) {
            assert false;
          }
          SkipChild(f, a, c, e);
      }
    }
  }

  /** Proof helper: a one-element set is the singleton of its member. */
  lemma Singleton(s: set<Node>, d: Node)
    requires |s| == 1 && d in s
    ensures s == {d}
  {
    assert |s - {d}| == 0;
  }

  /** A non-empty set of nodes has members at the smallest level. */
  lemma {:induction false} ShallowestNonEmpty(f: Forest, s: set<Node>)
    requires Valid(f) && s <= f.ids.Keys && s != {}
    ensures Shallowest(f, s) != {}
    decreases |s|
  {
    var x := Pick(s);
    if s == {x} {
      assert x in Shallowest(f, s);
    } else {
      var rest := s - {x};
      ShallowestNonEmpty(f, rest);
      var m := Pick(Shallowest(f, rest));
      if GetLevel(f, x) < GetLevel(f, m) {
        assert x in Shallowest(f, s);
      } else {
        assert m in Shallowest(f, s);
      }
    }
  }

  /** At a search level, `found` holds the matches whose SCST is that level's node. */
  lemma FoundAtLevel(f: Forest, o: Node, a: Node, skip: Option<Node>, path: string)
    requires Valid(f) && o in f.ids
    requires SearchLevel(f, o, a, skip)
    ensures Found(f, a, skip, path) == set e | e in Matches(f, o, path) && Scope(f, o, e) == a
  {
    forall e | e in f.ids {
      RegionIsScope(f, o, a, skip, e);
    }
  }

  /** Two search levels (ancestors-or-self of `o`) at the same level are the same node. */
  lemma SameLevelSameScope(f: Forest, o: Node, x: Node, y: Node)
    requires Valid(f) && o in f.ids && x in f.ids && y in f.ids
    requires AtOrBelow(f, x, o) && AtOrBelow(f, y, o)
    requires GetLevel(f, x) == GetLevel(f, y)
    ensures x == y
  {
    AncestorsAreNested(f, x, y, o);
  }

  /** A match whose SCST is not `a`, when no match lies deeper than `a`, has its SCST strictly above `a`. */
  lemma OtherScopeShallower(f: Forest, o: Node, a: Node, skip: Option<Node>, path: string, e: Node)
    requires Valid(f) && o in f.ids
    requires SearchLevel(f, o, a, skip)
    requires e in Matches(f, o, path) && Scope(f, o, e) != a
    requires GetLevel(f, Scope(f, o, e)) <= GetLevel(f, a)
    ensures GetLevel(f, Scope(f, o, e)) < GetLevel(f, a)
  {
    if GetLevel(f, Scope(f, o, e)) == GetLevel(f, a) {
      SameLevelSameScope(f, o, Scope(f, o, e), a);
    }
  }

  /** No match outranks an optimal one. */
  lemma OptimalNotOutranked(f: Forest, o: Node, path: string, e: Node, x: Node)
    requires Valid(f) && o in f.ids
    requires e in Optimal(f, o, path) && x in Matches(f, o, path)
    ensures e in Matches(f, o, path) && !Outranks(f, o, x, e)
  {
  }

  /** An optimal match has its SCST at the deepest level with a match. */
  lemma OptimalScopeHere(f: Forest, o: Node, a: Node, skip: Option<Node>, path: string, e: Node)
    requires Valid(f) && o in f.ids
    requires SearchLevel(f, o, a, skip)
    requires forall e :: e in Matches(f, o, path) ==> GetLevel(f, Scope(f, o, e)) <= GetLevel(f, a)
    requires Found(f, a, skip, path) == set e | e in Matches(f, o, path) && Scope(f, o, e) == a
    requires Found(f, a, skip, path) != {}
    requires e in Optimal(f, o, path)
    ensures e in Matches(f, o, path) && Scope(f, o, e) == a
  {
    var found := Found(f, a, skip, path);
    var x0 := Pick(found);
    OptimalNotOutranked(f, o, path, e, x0);
    if Scope(f, o, e) != a {
      OtherScopeShallower(f, o, a, skip, path, e);
      assert false;
    }
  }

  /** Optimal matches lie in `a`'s `found`, at its smallest level. */
  lemma OptimalInShallowest(f: Forest, o: Node, a: Node, skip: Option<Node>, path: string, e: Node)
    requires Valid(f) && o in f.ids
    requires SearchLevel(f, o, a, skip)
    requires forall e :: e in Matches(f, o, path) ==> GetLevel(f, Scope(f, o, e)) <= GetLevel(f, a)
    requires Found(f, a, skip, path) == set e | e in Matches(f, o, path) && Scope(f, o, e) == a
    requires Found(f, a, skip, path) != {}
    requires e in Optimal(f, o, path)
    ensures e in Shallowest(f, Found(f, a, skip, path))
  {
    var found := Found(f, a, skip, path);
    OptimalScopeHere(f, o, a, skip, path, e);
    assert e in found;
    forall y | y in found
      ensures GetLevel(f, e) <= GetLevel(f, y)
    {
      OptimalNotOutranked(f, o, path, e, y);
    }
  }

  /** The shallowest of `a`'s `found` are optimal when no match lies deeper than `a`. */
  lemma ShallowestIsOptimal(f: Forest, o: Node, a: Node, skip: Option<Node>, path: string, e: Node)
    requires Valid(f) && o in f.ids
    requires SearchLevel(f, o, a, skip)
    requires forall e :: e in Matches(f, o, path) ==> GetLevel(f, Scope(f, o, e)) <= GetLevel(f, a)
    requires Found(f, a, skip, path) == set e | e in Matches(f, o, path) && Scope(f, o, e) == a
    requires e in Shallowest(f, Found(f, a, skip, path))
    ensures e in Optimal(f, o, path)
  {
    forall x | x in Matches(f, o, path)
      ensures !Outranks(f, o, x, e)
    {
      ShallowestNotOutranked(f, o, a, skip, path, e, x);
    }
  }

  /** No match outranks a shallowest node of `a`'s `found` when no match lies deeper than `a`. */
  lemma ShallowestNotOutranked(f: Forest, o: Node, a: Node, skip: Option<Node>, path: string, e: Node, x: Node)
    requires Valid(f) && o in f.ids
    requires SearchLevel(f, o, a, skip)
    requires forall e :: e in Matches(f, o, path) ==> GetLevel(f, Scope(f, o, e)) <= GetLevel(f, a)
    requires Found(f, a, skip, path) == set e | e in Matches(f, o, path) && Scope(f, o, e) == a
    requires e in Shallowest(f, Found(f, a, skip, path))
    requires x in Matches(f, o, path)
    ensures e in Matches(f, o, path) && !Outranks(f, o, x, e)
  {
    var found := Found(f, a, skip, path);
    assert e in found;
    if Scope(f, o, x) == a {
      assert x in found;
    } else {
      OtherScopeShallower(f, o, a, skip, path, x);
    }
  }

  /**
    When nothing matches deeper than level `a`, and something matches at `a`,
    the optimal matches are the shallowest of `a`'s `found`.
   */
  lemma OptimalAtLevel(f: Forest, o: Node, a: Node, skip: Option<Node>, path: string)
    requires Valid(f) && o in f.ids
    requires SearchLevel(f, o, a, skip)
    requires forall e :: e in Matches(f, o, path) ==> GetLevel(f, Scope(f, o, e)) <= GetLevel(f, a)
    requires Found(f, a, skip, path) != {}
    ensures Optimal(f, o, path) == Shallowest(f, Found(f, a, skip, path))
  {
    FoundAtLevel(f, o, a, skip, path);
    forall e | e in Optimal(f, o, path)
      ensures e in Shallowest(f, Found(f, a, skip, path))
    {
      OptimalInShallowest(f, o, a, skip, path, e);
    }
    forall e | e in Shallowest(f, Found(f, a, skip, path))
      ensures e in Optimal(f, o, path)
    {
      ShallowestIsOptimal(f, o, a, skip, path, e);
    }
  }
  /** One node found at this level is the answer. */
  lemma FuzzyAtOne(f: Forest, a: Node, skip: Option<Node>, path: string, d: Node)
    requires Valid(f) && a in f.ids
    requires Found(f, a, skip, path) == {d}
    ensures FuzzyAt(f, a, skip, path) == Ok(d)
  {
  }

  /** Several nodes found at this level: the shallowest of them answer, alone or as a tie. */
  lemma FuzzyAtMany(f: Forest, a: Node, skip: Option<Node>, path: string)
    requires Valid(f) && a in f.ids
    requires |Found(f, a, skip, path)| > 1
    ensures var tied := Shallowest(f, Found(f, a, skip, path));
      if |tied| == 1 then exists d :: tied == {d} && FuzzyAt(f, a, skip, path) == Ok(d)
      else FuzzyAt(f, a, skip, path) == Err(AmbiguousPath(path, tied))
  {
    var tied := Shallowest(f, Found(f, a, skip, path));
    if |tied| == 1 {
      var d :| d in tied && FuzzyAt(f, a, skip, path) == Ok(d);
      Singleton(tied, d);
    }
  }

  /** When this level finds something, `_navigateFuzzy` answers from it, as the contract says. */
  lemma FoundDescribes(f: Forest, o: Node, a: Node, skip: Option<Node>, path: string)
    requires Valid(f) && o in f.ids
    requires SearchLevel(f, o, a, skip)
    requires forall e :: e in Matches(f, o, path) ==> GetLevel(f, Scope(f, o, e)) <= GetLevel(f, a)
    requires Found(f, a, skip, path) != {}
    ensures Describes(f, o, path, FuzzyAt(f, a, skip, path))
  {
    var found := Found(f, a, skip, path);
    OptimalAtLevel(f, o, a, skip, path);
    ShallowestNonEmpty(f, found);
    if |found| == 1 {
      var d := Pick(found);
      Singleton(found, d);
      FuzzyAtOne(f, a, skip, path, d);
      assert d in Shallowest(f, found);
    } else {
      FuzzyAtMany(f, a, skip, path);
    }
  }

  /** A match whose SCST is this level's node is among this level's `found`. */
  lemma ScopeHereIsFound(f: Forest, o: Node, a: Node, skip: Option<Node>, path: string, e: Node)
    requires Valid(f) && o in f.ids
    requires SearchLevel(f, o, a, skip)
    requires e in Matches(f, o, path)
    ensures Scope(f, o, e) == a ==> e in Found(f, a, skip, path)
  {
    RegionIsScope(f, o, a, skip, e);
  }

  /** When this level finds nothing, no match has its SCST here, so none lies deeper than the parent. */
  lemma NothingAtLevel(f: Forest, o: Node, a: Node, skip: Option<Node>, path: string, e: Node)
    requires Valid(f) && o in f.ids
    requires SearchLevel(f, o, a, skip)
    requires Found(f, a, skip, path) == {}
    requires e in Matches(f, o, path)
    requires GetLevel(f, Scope(f, o, e)) <= GetLevel(f, a)
    ensures GetLevel(f, Scope(f, o, e)) < GetLevel(f, a)
  {
    ScopeHereIsFound(f, o, a, skip, path, e);
    AncestorsAreNested(f, Scope(f, o, e), a, o);
  }

  /** The recursion of `_navigateFuzzy`, from any search level with no deeper match, meets the contract. */
  lemma {:induction false} FuzzyAtDescribes(f: Forest, o: Node, a: Node, skip: Option<Node>, path: string)
    requires Valid(f) && o in f.ids
    requires SearchLevel(f, o, a, skip)
    requires forall e :: e in Matches(f, o, path) ==> GetLevel(f, Scope(f, o, e)) <= GetLevel(f, a)
    ensures Describes(f, o, path, FuzzyAt(f, a, skip, path))
    decreases |f.absPath[a]|
  {
    if Found(f, a, skip, path) != {} {
      FoundDescribes(f, o, a, skip, path);
    } else if a in f.parent {
      var q := f.parent[a];
      BelowParent(f, q, a);
      if a != o {
        BelowTrans(f, q, a, o);
      }
      forall e | e in Matches(f, o, path)
        ensures GetLevel(f, Scope(f, o, e)) <= GetLevel(f, q)
      {
        NothingAtLevel(f, o, a, skip, path, e);
      }
      FuzzyAtDescribes(f, o, q, Some(a), path);
    } else {
      LevelIsDepthPlusOne(f, a);
      forall e | e in Matches(f, o, path)
        ensures false
      {
        LevelIsDepthPlusOne(f, Scope(f, o, e));
        NothingAtLevel(f, o, a, skip, path, e);
      }
    }
  }

  /**
    Fuzzy navigation from `o` meets the declarative contract: the result
    comes from the smallest containing subtree with a match, the shallowest
    match there wins, a tie at that level is `AmbiguousPath` with exactly the
    tied nodes, and `NonexistentPath` means no node outside `o`'s own
    ancestry matches.
   */
  lemma FuzzyContract(f: Forest, o: Node, path: string)
    requires Valid(f) && o in f.ids
    ensures Describes(f, o, path, FuzzyAt(f, o, None, path))
  {
    forall e | e in Matches(f, o, path)
      ensures GetLevel(f, Scope(f, o, e)) <= GetLevel(f, o)
    {
      var s := Scope(f, o, e);
      if s != o {
        BelowPrefix(f, s, o, None);
      }
    }
    FuzzyAtDescribes(f, o, o, None, path);
  }

  /** The contract admits one result only, so it pins down fuzzy navigation completely. */
  lemma DescribesIsFunctional(f: Forest, o: Node, path: string, r1: Result<Node, NavError>, r2: Result<Node, NavError>)
    requires Valid(f) && o in f.ids
    requires Describes(f, o, path, r1) && Describes(f, o, path, r2)
    ensures r1 == r2
  {
    assert Optimal(f, o, path) <= Matches(f, o, path);
    match r1 {
      case Ok(d) =>
        assert d in Optimal(f, o, path);
      case Err(NonexistentPath(_)) =>
      case Err(AmbiguousPath(_, _)) =>
    }
  }

  /**
    What `navigate` promises: a dotted path names the node whose absolute
    path is the root's followed by the path's segments (and that node is
    found whenever it exists; without one, `NonexistentPath` of the path
    after the leading dot is raised); any other path is resolved by the
    fuzzy contract.
   */
  lemma NavigateMeaning(f: Forest, o: Node, path: string)
    requires Valid(f) && o in f.ids
    ensures |path| > 0 && path[0] == '.' ==>
      forall d :: d in f.ids ==>
        (Navigate(f, o, path) == Ok(d) <==>
         StrictlyBelow(f, GetRoot(f, o), d) && f.absPath[d] == f.absPath[GetRoot(f, o)] + Split(path[1..]))
    ensures (&& |path| > 0 && path[0] == '.'
             && forall d :: d in f.ids && StrictlyBelow(f, GetRoot(f, o), d) ==>
                  f.absPath[d] != f.absPath[GetRoot(f, o)] + Split(path[1..]))
      ==> Navigate(f, o, path) == Err(NonexistentPath(path[1..]))
    ensures !(|path| > 0 && path[0] == '.') ==> Describes(f, o, path, Navigate(f, o, path))
  {
    if |path| > 0 && path[0] == '.' {
      var root := GetRoot(f, o);
      if NavigateDirect(f, root, path[1..]).Ok? {
        NavigateDirectSound(f, root, path[1..], NavigateDirect(f, root, path[1..]).value);
      }
      forall d | d in f.ids
        ensures Navigate(f, o, path) == Ok(d) <==>
          StrictlyBelow(f, root, d) && f.absPath[d] == f.absPath[root] + Split(path[1..])
      {
        if Navigate(f, o, path) == Ok(d) {
          NavigateDirectSound(f, root, path[1..], d);
        }
        if StrictlyBelow(f, root, d) && f.absPath[d] == f.absPath[root] + Split(path[1..]) {
          NavigateDirectComplete(f, root, d, path[1..]);
        }
      }
    } else {
      FuzzyContract(f, o, path);
    }
  }

  /**
    `x.navigate(str(n))` returns `n` for every non-root `n` of `x`'s tree
    whose path holds no dotted id.
   */
  lemma AbsoluteNavigate(f: Forest, x: Node, n: Node)
    requires Valid(f) && x in f.ids && n in f.parent
    requires GetRoot(f, x) == GetRoot(f, n)
    requires forall i :: 0 <= i < |f.absPath[n]| ==> '.' !in f.absPath[n][i]
    ensures Navigate(f, x, Str(f, n)) == Ok(n)
  {
    AbsoluteRoundTrip(f, x, n);
  }

  /**
    `navigate('.')` is not the root: the empty rest of the path is looked up
    as a child id `''` of the root, which a tree normally lacks.
   */
  lemma DotIsNotTheRoot(f: Forest, o: Node)
    requires Valid(f) && o in f.ids
    requires "" !in f.children[GetRoot(f, o)]
    ensures Navigate(f, o, ".") == Err(NonexistentPath(""))
  {
    assert "."[1..] == "";
  }

  // ---------------------------------------------------------------------------
  // The search as the source runs it

  /** The children of `x` other than `skip`. */
  function ChildrenExcept(f: Forest, x: Node, skip: Option<Node>): (kids: set<Node>)
    requires Valid(f) && x in f.ids
    ensures forall c :: c in kids <==> c in f.parent && f.parent[c] == x && skip != Some(c)
  {
    set k | k in f.children[x] && skip != Some(f.children[x][k]) :: f.children[x][k]
  }

  /**
    A set of descendants of `a` that holds every candidate whose parent is
    `a` or in the set holds every candidate.
   */
  lemma {:induction false} ClosedUnderChildren(f: Forest, a: Node, skip: Option<Node>, seen: set<Node>, d: Node)
    requires Valid(f) && d in Candidates(f, a, skip)
    requires forall e :: e in Candidates(f, a, skip) && (f.parent[e] == a || f.parent[e] in seen) ==> e in seen
    ensures d in seen
    decreases |f.absPath[d]|
  {
    var q := f.parent[d];
    if q != a {
      assert Below(f, a, q, skip);
      ClosedUnderChildren(f, a, skip, seen, q);
    }
  }

  /**
    The worklist state of the depth-first walk: `seen` has been yielded,
    `frontier` waits, and a candidate is in either exactly when its parent is
    `a` or has been yielded.
   */
  ghost predicate Worklist(f: Forest, a: Node, skip: Option<Node>, seen: set<Node>, frontier: set<Node>)
    requires Valid(f)
  {
    var cands := Candidates(f, a, skip);
    && frontier <= cands && seen <= cands && frontier !! seen
    && forall d :: d in cands ==>
         ((d in seen || d in frontier) <==> (f.parent[d] == a || f.parent[d] in seen))
  }

  /** The walk starts with the children of `a`. */
  lemma WorklistStart(f: Forest, a: Node, skip: Option<Node>)
    requires Valid(f) && a in f.ids
    ensures Worklist(f, a, skip, {}, ChildrenExcept(f, a, skip))
  {
    forall c | c in ChildrenExcept(f, a, skip)
      ensures c in Candidates(f, a, skip)
    {
      assert Below(f, a, c, skip);
    }
  }

  /** Yielding `x` and queueing its children keeps the worklist state. */
  lemma WorklistStep(f: Forest, a: Node, skip: Option<Node>, seen: set<Node>, frontier: set<Node>, x: Node)
    requires Valid(f) && a in f.ids
    requires Worklist(f, a, skip, seen, frontier) && x in frontier
    ensures x in f.parent && (f.parent[x] == a || f.parent[x] in seen)
    ensures Worklist(f, a, skip, seen + {x}, (frontier - {x}) + ChildrenExcept(f, x, skip))
  {
    var cands := Candidates(f, a, skip);
    BelowPrefix(f, a, x, skip);
    var kids := ChildrenExcept(f, x, skip);
    forall c | c in kids
      ensures c in cands && c !in seen && c != x
    {
      assert |f.absPath[c]| > |f.absPath[x]|;
    }
  }

  /** A finished walk has yielded every candidate. */
  lemma WorklistDone(f: Forest, a: Node, skip: Option<Node>, seen: set<Node>)
    requires Valid(f) && a in f.ids
    requires Worklist(f, a, skip, seen, {})
    ensures seen == Candidates(f, a, skip)
  {
    forall d | d in Candidates(f, a, skip)
      ensures d in seen
    {
      ClosedUnderChildren(f, a, skip, seen, d);
    }
  }

  /** Every node of `order` has a parent that is `a` or comes earlier. */
  ghost predicate ParentFirst(f: Forest, a: Node, order: seq<Node>) {
    forall i :: 0 <= i < |order| ==>
      order[i] in f.parent && (f.parent[order[i]] == a || f.parent[order[i]] in order[..i])
  }

  /** Appending a node whose parent is `a` or already listed, and which is not listed, keeps both. */
  lemma Append(f: Forest, a: Node, order: seq<Node>, x: Node)
    requires ParentFirst(f, a, order) && Distinct(order)
    requires x in f.parent && (f.parent[x] == a || f.parent[x] in order) && x !in order
    ensures ParentFirst(f, a, order + [x]) && Distinct(order + [x])
  {
    var o := order + [x];
    assert forall i :: 0 <= i <= |order| ==> o[..i] == order[..i];
  }

  /**
    `a._depthFirstIterator(skip)`: every candidate exactly once, each after
    its parent. The recursion of the source becomes a worklist, so the order
    is parent-first but not necessarily the source's depth-first pre-order.
   */
  method DepthFirst(f: Forest, a: Node, skip: Option<Node>) returns (order: seq<Node>)
    requires Valid(f) && a in f.ids
    ensures forall d :: d in order <==> d in Candidates(f, a, skip)
    ensures Distinct(order) && ParentFirst(f, a, order)
  {
    ghost var seen: set<Node> := {};
    var frontier := ChildrenExcept(f, a, skip);
    WorklistStart(f, a, skip);
    order := [];
    while frontier != {}
      invariant Worklist(f, a, skip, seen, frontier)
      invariant forall d :: d in order <==> d in seen
      invariant Distinct(order) && ParentFirst(f, a, order)
      decreases |Candidates(f, a, skip) - seen|
    {
      ghost var w := Pick(frontier);
      var x :| x in frontier;
      WorklistStep(f, a, skip, seen, frontier, x);
      ghost var cands := Candidates(f, a, skip);
      assert (cands - (seen + {x})) < (cands - seen);
      Append(f, a, order, x);
      order := order + [x];
      seen := seen + {x};
      frontier := (frontier - {x}) + ChildrenExcept(f, x, skip);
    }
    WorklistDone(f, a, skip, seen);
  }

  /** The nodes of a duplicate-free sequence are as many as its length. */
  lemma {:induction false} DistinctCard(s: seq<Node>)
    requires Distinct(s)
    ensures |set d | d in s| == |s|
  {
    if s != [] {
      var rest := s[1..];
      assert Distinct(rest);
      DistinctCard(rest);
      assert (set d | d in s) == (set d | d in rest) + {s[0]};
      assert s[0] !in rest;
    }
  }

  /** The nodes of `order` that match `path`, in order (the `found` list). */
  method CollectMatches(f: Forest, order: seq<Node>, path: string) returns (found: seq<Node>)
    requires forall i :: 0 <= i < |order| ==> order[i] in f.absPath
    requires Distinct(order)
    ensures forall d :: d in found <==> d in order && d in f.absPath && MatchesRelPath(f, d, path)
    ensures Distinct(found)
  {
    found := [];
    var i := 0;
    while i < |order|
      invariant 0 <= i <= |order|
      invariant forall d :: d in found <==> d in order[..i] && d in f.absPath && MatchesRelPath(f, d, path)
      invariant Distinct(found)
    {
      assert order[..i + 1] == order[..i] + [order[i]];
      if MatchesRelPath(f, order[i], path) {
        assert order[i] !in order[..i];
        found := found + [order[i]];
      }
      i := i + 1;
    }
    assert order[..i] == order;
  }

  /** The nodes of a non-empty `found` at its smallest level (the tie the source sorts out). */
  method ShallowestOf(f: Forest, found: seq<Node>) returns (tied: seq<Node>)
    requires Valid(f) && |found| > 0 && Distinct(found)
    requires forall i :: 0 <= i < |found| ==> found[i] in f.ids
    ensures Distinct(tied)
    ensures forall d :: d in tied <==> d in Shallowest(f, set e | e in found)
  {
    var least := GetLevel(f, found[0]);
    var j := 1;
    while j < |found|
      invariant 1 <= j <= |found|
      invariant exists k :: 0 <= k < j && least == GetLevel(f, found[k])
      invariant forall k :: 0 <= k < j ==> least <= GetLevel(f, found[k])
    {
      if GetLevel(f, found[j]) < least {
        least := GetLevel(f, found[j]);
      }
      j := j + 1;
    }
    tied := [];
    j := 0;
    while j < |found|
      invariant 0 <= j <= |found|
      invariant forall d :: d in tied <==> d in found[..j] && GetLevel(f, d) == least
      invariant Distinct(tied)
    {
      assert found[..j + 1] == found[..j] + [found[j]];
      if GetLevel(f, found[j]) == least {
        assert found[j] !in found[..j];
        tied := tied + [found[j]];
      }
      j := j + 1;
    }
    assert found[..j] == found;
  }

  /** The matches collected along the walk are this level's `found`. */
  lemma WalkFound(f: Forest, a: Node, skip: Option<Node>, path: string, order: seq<Node>, found: seq<Node>)
    requires Valid(f)
    requires forall d :: d in order <==> d in Candidates(f, a, skip)
    requires forall d :: d in found <==> d in order && d in f.absPath && MatchesRelPath(f, d, path)
    ensures (set d | d in found) == Found(f, a, skip, path)
    ensures forall i :: 0 <= i < |found| ==> found[i] in f.ids
  {
    forall d
      ensures d in found <==> d in Found(f, a, skip, path)
    {
      if d in Candidates(f, a, skip) {
        assert d in f.absPath;
      }
    }
    forall i | 0 <= i < |found|
      ensures found[i] in f.ids
    {
      assert found[i] in found;
    }
  }

  /** A single match is the answer. */
  lemma OneResult(f: Forest, a: Node, skip: Option<Node>, path: string, found: seq<Node>)
    requires Valid(f) && a in f.ids
    requires (set d | d in found) == Found(f, a, skip, path) && |found| == 1
    ensures FuzzyAt(f, a, skip, path) == Ok(found[0])
  {
    assert (set d | d in found) == {found[0]};
    FuzzyAtOne(f, a, skip, path, found[0]);
  }

  /** Several matches: the shallowest answer alone, or tie as `AmbiguousPath`. */
  lemma ManyResult(f: Forest, a: Node, skip: Option<Node>, path: string, found: seq<Node>, tied: seq<Node>)
    requires Valid(f) && a in f.ids
    requires (set d | d in found) == Found(f, a, skip, path)
    requires Distinct(found) && |found| > 1 && Distinct(tied)
    requires forall d :: d in tied <==> d in Shallowest(f, set e | e in found)
    ensures FuzzyAt(f, a, skip, path) ==
      if |tied| == 1 then Ok(tied[0]) else Err(AmbiguousPath(path, set d | d in tied))
  {
    DistinctCard(found);
    DistinctCard(tied);
    var tiedSet := set d | d in tied;
    assert tiedSet == Shallowest(f, Found(f, a, skip, path));
    FuzzyAtMany(f, a, skip, path);
    if |tied| == 1 {
      assert tiedSet == {tied[0]};
    }
  }

  /**
    `a._navigateFuzzy(path, skip)`: walk the candidates, keep the matches;
    one match wins, several go to the shallowest, none moves the search to
    the parent.
   */
  method NavigateFuzzy(f: Forest, a: Node, path: string, skip: Option<Node>) returns (r: Result<Node, NavError>)
    requires Valid(f) && a in f.ids
    ensures r == FuzzyAt(f, a, skip, path)
    decreases |f.absPath[a]|
  {
    var order := DepthFirst(f, a, skip);
    forall i | 0 <= i < |order|
      ensures order[i] in f.absPath
    {
      var d := order[i];
      assert d in order;
      assert d in Candidates(f, a, skip);
    }
    var found := CollectMatches(f, order, path);
    WalkFound(f, a, skip, path, order, found);
    if |found| == 1 {
      OneResult(f, a, skip, path, found);
      r := Ok(found[0]);
    } else if |found| > 1 {
      var tied := ShallowestOf(f, found);
      ManyResult(f, a, skip, path, found, tied);
      if |tied| == 1 {
        r := Ok(tied[0]);
      } else {
        r := Err(AmbiguousPath(path, set d | d in tied));
      }
    } else {
      assert Found(f, a, skip, path) == {};
      if a in f.parent {
        r := NavigateFuzzy(f, f.parent[a], path, Some(a));
      } else {
        r := Err(NonexistentPath(path));
      }
    }
  }
}
