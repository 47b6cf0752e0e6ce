/**
  The `ReaderContext` of pmtk/ppl/reader.py: a dictionary of its own entries
  that, for a key it lacks, asks its parent context, up to the top one.
 */
module Reader {
  import opened Wrappers

  class ReaderContext<V> {
    /** The enclosing context, or `null` for the top one. */
    const parent: ReaderContext?<V>
    /** The entries of this context itself (the `dict` part). */
    var entries: map<string, V>
    /** The enclosing contexts, nearest first. */
    ghost const ancestors: seq<ReaderContext<V>>

    /** `ancestors` is the chain of parents, each context of it well formed. */
    ghost predicate Valid()
      decreases |ancestors|
    {
      if parent == null then ancestors == []
      else ancestors == [parent] + parent.ancestors && parent.Valid()
    }

    /** This context followed by its ancestors: the order in which a key is looked up. */
    ghost function Chain(): (c: seq<ReaderContext<V>>)
      ensures |c| >= 1 && c[0] == this
    {
      [this] + ancestors
    }

    /** `ReaderContext(parent=None, **kw)`: the parent link, and exactly `kw` as own entries. */
    constructor (parent: ReaderContext?<V> := null, kw: map<string, V> := map[])
      requires parent != null ==> parent.Valid()
      ensures Valid() && this.parent == parent && entries == kw
      ensures Chain() == if parent == null then [this] else [this] + parent.Chain()
    {
      this.parent := parent;
      entries := kw;
      ancestors := if parent == null then [] else [parent] + parent.ancestors;
    }

    /**
      `ctx[key]` and `ctx.__getitem__(key, default)`: the value of the first
      context of the chain that has the key; when none has it, the default,
      or `KeyError` when the default is `None`.
     */
    function Get(key: string, default: Option<V>): (r: Result<V, KeyError>)
      requires Valid()
      reads set c | c in Chain()
      ensures forall i :: (0 <= i < |Chain()| && key in Chain()[i].entries &&
        forall j :: 0 <= j < i ==> key !in Chain()[j].entries) ==> r == Ok(Chain()[i].entries[key])
      ensures (forall c :: c in Chain() ==> key !in c.entries) ==>
        r == if default.Some? then Ok(default.value) else Err(KeyError(key))
      decreases |ancestors|
    {
      if key in entries then Ok(entries[key])
      else if parent != null then
        assert Chain() == [this] + parent.Chain();
        assert forall j :: 0 <= j < |parent.Chain()| ==> parent.Chain()[j] == Chain()[j + 1];
        parent.Get(key, default)
      else if default.Some? then Ok(default.value)
      else Err(KeyError(key))
    }

    /** `ctx.get(key, default)`: the `dict` method, which looks at the own entries only. */
    function GetOwn(key: string, default: Option<V>): (r: Option<V>)
      reads this
      ensures key in entries ==> r == Some(entries[key])
      ensures key !in entries ==> r == default
    {
      if key in entries then Some(entries[key]) else default
    }
  }

  /** An own entry shadows the parents: `get` and lookup agree on it, whatever the defaults. */
  lemma OwnEntryShadows<V>(ctx: ReaderContext<V>, key: string, d1: Option<V>, d2: Option<V>)
    requires ctx.Valid() && key in ctx.entries
    ensures ctx.Get(key, d1) == Ok(ctx.entries[key])
    ensures ctx.Get(key, d1) == ctx.Get(key, d2) && ctx.GetOwn(key, d1) == Some(ctx.Get(key, d2).value)
  {
  }

  /** A key the context lacks is looked up in its parent, with the same default. */
  lemma MissingGoesToParent<V>(ctx: ReaderContext<V>, key: string, d: Option<V>)
    requires ctx.Valid() && key !in ctx.entries && ctx.parent != null
    ensures ctx.parent.Valid() && ctx.Get(key, d) == ctx.parent.Get(key, d)
  {
  }

  /** Lookup fails exactly when no context of the chain has the key and there is no default. */
  lemma {:induction false} GetFails<V>(ctx: ReaderContext<V>, key: string, d: Option<V>)
    requires ctx.Valid()
    ensures ctx.Get(key, d).Err? <==> d.None? && forall c :: c in ctx.Chain() ==> key !in c.entries
    ensures ctx.Get(key, d).Err? ==> ctx.Get(key, d).error == KeyError(key)
    decreases |ctx.ancestors|
  {
    if key !in ctx.entries && ctx.parent != null {
      GetFails(ctx.parent, key, d);
      assert ctx.Chain() == [ctx] + ctx.parent.Chain();
    }
  }

  /**
    The reader test: `a` holds x=1, y=2; `b` under `a` holds y=3, z=4; `c`
    under `b` holds z=5. Then `a`, `b` and `c` give x as 1, `a` gives y as
    2 and `b` and `c` give it as 3; `a.get('z', 6)` is 6 and `a['z']` is
    `KeyError`.
   */
  method ContextExample() returns (aX: Result<int, KeyError>, aY: Result<int, KeyError>,
                                   bX: Result<int, KeyError>, bY: Result<int, KeyError>,
                                   cX: Result<int, KeyError>, cY: Result<int, KeyError>,
                                   az: Option<int>, missing: Result<int, KeyError>)
    ensures aX == Ok(1) && aY == Ok(2) && bX == Ok(1) && bY == Ok(3) && cX == Ok(1) && cY == Ok(3)
    ensures az == Some(6) && missing == Err(KeyError("z"))
  {
    var a := new ReaderContext<int>(kw := map["x" := 1, "y" := 2]);
    var b := new ReaderContext<int>(parent := a, kw := map["y" := 3, "z" := 4]);
    var c := new ReaderContext<int>(parent := b, kw := map["z" := 5]);
    aX, aY := a.Get("x", None), a.Get("y", None);
    bX, bY := b.Get("x", None), b.Get("y", None);
    cX, cY := c.Get("x", None), c.Get("y", None);
    az := a.GetOwn("z", Some(6));
    missing := a.Get("z", None);
  }
}
