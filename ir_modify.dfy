/** The generic top-down rewrite of an IR tree, `IR::modify`. */
module IrModify {
  import opened IrModel

  /** A modifier looks at a node and either replaces it (`Some`) or lets the
      rewrite descend into it (`None`). */
  type Modifier = IR -> Option<IR>

  /** Offers `e` to `f`. A replacement is returned as it is, without looking
      inside it; otherwise the node is rebuilt from its rewritten children and
      keeps everything else it holds. A cache's IO is offered as a bare IO
      node, and is put back into the cache only if it is still an IO.
      A declined node keeps its own data (see KeepsNodeData). */
  function Modify(e: IR, f: Modifier): (r: IR)
    ensures f(e) == None ==> KeepsNodeData(e, r)
  {
    match f(e)
    case Some(replacement) => replacement
    case None =>
      match e
      case Pipe(first, second) => Pipe(Modify(first, f), Modify(second, f))
      case ContextPath(_) => e
      case Dynamic(_) => e
      case IO(_) => e
      case Cache(maxAge, io) =>
        // Modify(IR.IO(io), f), unfolded: a bare IO node has no children
        var offered := match f(IR.IO(io)) case Some(x) => x case None => IR.IO(io);
        if offered.IO? then Cache(maxAge, offered.io) else offered
      case Path(inner, path) => Path(Modify(inner, f), path)
      case Protect(auth, inner) => Protect(auth, Modify(inner, f))
      case Map(input, mapping) => Map(Modify(input, f), mapping)
      case Discriminate(d, inner) => Discriminate(d, Modify(inner, f))
      case Entity(m) => Entity(map k | k in m :: Modify(m[k], f))
      case Service(_) => e
      case Merge(irs) => Merge(seq(|irs|, i requires 0 <= i < |irs| => Modify(irs[i], f)))
  }

  /** The nodes `Modify(e, f)` hands to `f`: the node itself, and, when `f`
      declines it, the nodes offered while rewriting its children (for a
      cache, the bare IO node built from its IO). */
  ghost function Offered(e: IR, f: Modifier): set<IR>
  {
    {e} +
    if f(e).Some? then {} else
      match e
      case Pipe(first, second) => Offered(first, f) + Offered(second, f)
      case Cache(_, io) => {IR.IO(io)}
      case Path(inner, _) => Offered(inner, f)
      case Protect(_, inner) => Offered(inner, f)
      case Map(input, _) => Offered(input, f)
      case Discriminate(_, inner) => Offered(inner, f)
      case Entity(m) => set k, x | k in m && x in Offered(m[k], f) :: x
      case Merge(irs) => set i, x | 0 <= i < |irs| && x in Offered(irs[i], f) :: x
      case _ => {}
  }

  /** The data of node `e` other than its IR children survives in `r`. */
  ghost predicate KeepsNodeData(e: IR, r: IR)
  {
    match e
    case Dynamic(_) => r == e
    case IO(_) => r == e
    case ContextPath(_) => r == e
    case Service(_) => r == e
    case Cache(_, _) => true  // depends on what the modifier makes of the bare IO: see CacheOffersBareIo
    case Path(_, path) => r.Path? && r.path == path
    case Protect(auth, _) => r.Protect? && r.auth == auth
    case Map(_, mapping) => r.Map? && r.mapping == mapping
    case Pipe(_, _) => r.Pipe?
    case Discriminate(d, _) => r.Discriminate? && r.discriminator == d
    case Entity(m) => r.Entity? && r.entities.Keys == m.Keys
    case Merge(irs) => r.Merge? && |r.irs| == |irs|
  }

  /** A modifier that declines every node rewrites nothing: the tree comes
      back equal to the input, caches included. */
  lemma {:induction false} ModifyNothingIsIdentity(e: IR, f: Modifier)
    requires forall x :: f(x) == None
    ensures Modify(e, f) == e
  {
    match e
    case Pipe(first, second) =>
      ModifyNothingIsIdentity(first, f);
      ModifyNothingIsIdentity(second, f);
    case Path(inner, _) => ModifyNothingIsIdentity(inner, f);
    case Protect(_, inner) => ModifyNothingIsIdentity(inner, f);
    case Map(input, _) => ModifyNothingIsIdentity(input, f);
    case Discriminate(_, inner) => ModifyNothingIsIdentity(inner, f);
    case Entity(m) =>
      forall k | k in m ensures Modify(m[k], f) == m[k] {
        ModifyNothingIsIdentity(m[k], f);
      }
    case Merge(irs) =>
      forall i | 0 <= i < |irs| ensures Modify(irs[i], f) == irs[i] {
        ModifyNothingIsIdentity(irs[i], f);
      }
    case _ =>
  }

  /** A node the modifier replaces becomes exactly the replacement, and it is
      the only node offered: none of its children is looked at. */
  lemma ReplacedNodeIsNotEntered(e: IR, f: Modifier)
    requires f(e).Some?
    ensures Modify(e, f) == f(e).value
    ensures Offered(e, f) == {e}
  {
  }

  /** The result depends on the modifier only through its answers at the
      offered nodes: two modifiers that agree there rewrite alike (and offer
      the same nodes). */
  lemma {:induction false} ModifyDependsOnlyOnOffered(e: IR, f: Modifier, g: Modifier)
    requires forall x :: x in Offered(e, f) ==> f(x) == g(x)
    ensures Offered(e, g) == Offered(e, f)
    ensures Modify(e, g) == Modify(e, f)
    decreases e, 1
  {
    assert e in Offered(e, f);
    if f(e).None? {
      match e
      case Pipe(first, second) =>
        ModifyDependsOnlyOnOffered(first, f, g);
        ModifyDependsOnlyOnOffered(second, f, g);
      case Cache(_, io) =>
        assert IR.IO(io) in Offered(e, f);
      case Path(inner, _) => ModifyDependsOnlyOnOffered(inner, f, g);
      case Protect(_, inner) => ModifyDependsOnlyOnOffered(inner, f, g);
      case Map(input, _) => ModifyDependsOnlyOnOffered(input, f, g);
      case Discriminate(_, inner) => ModifyDependsOnlyOnOffered(inner, f, g);
      case Entity(m) => EntityDependsOnlyOnOffered(m, f, g);
      case Merge(irs) => MergeDependsOnlyOnOffered(irs, f, g);
      case _ =>
    }
  }

  lemma {:induction false} EntityDependsOnlyOnOffered(m: map<string, IR>, f: Modifier, g: Modifier)
    requires f(Entity(m)) == None
    requires forall x :: x in Offered(Entity(m), f) ==> f(x) == g(x)
    ensures Offered(Entity(m), g) == Offered(Entity(m), f)
    ensures Modify(Entity(m), g) == Modify(Entity(m), f)
    decreases Entity(m), 0
  {
    forall k | k in m
      ensures Offered(m[k], g) == Offered(m[k], f)
      ensures Modify(m[k], g) == Modify(m[k], f)
    {
      forall x | x in Offered(m[k], f) ensures f(x) == g(x) {
        assert x in Offered(Entity(m), f);
      }
      ModifyDependsOnlyOnOffered(m[k], f, g);
    }
  }

  lemma {:induction false} MergeDependsOnlyOnOffered(irs: seq<IR>, f: Modifier, g: Modifier)
    requires f(Merge(irs)) == None
    requires forall x :: x in Offered(Merge(irs), f) ==> f(x) == g(x)
    ensures Offered(Merge(irs), g) == Offered(Merge(irs), f)
    ensures Modify(Merge(irs), g) == Modify(Merge(irs), f)
    decreases Merge(irs), 0
  {
    forall i | 0 <= i < |irs|
      ensures Offered(irs[i], g) == Offered(irs[i], f)
      ensures Modify(irs[i], g) == Modify(irs[i], f)
    {
      forall x | x in Offered(irs[i], f) ensures f(x) == g(x) {
        assert x in Offered(Merge(irs), f);
      }
      ModifyDependsOnlyOnOffered(irs[i], f, g);
    }
  }

  /** When the modifier declines a node, each IR child is rewritten in its
      own place: a pipe's two stages, the inner IR of a path, protect,
      discriminate or map, every entity under its own key, and every merge
      element at its own index. */
  lemma ChildrenRewrittenInPlace(e: IR, f: Modifier)
    requires f(e) == None
    ensures e.Pipe? ==> Modify(e, f).first == Modify(e.first, f)
                        && Modify(e, f).second == Modify(e.second, f)
    ensures e.Path? || e.Protect? || e.Discriminate? ==> Modify(e, f).inner == Modify(e.inner, f)
    ensures e.Map? ==> Modify(e, f).input == Modify(e.input, f)
    ensures e.Entity? ==> forall k :: k in e.entities ==>
                            Modify(e, f).entities[k] == Modify(e.entities[k], f)
    ensures e.Merge? ==> forall i :: 0 <= i < |e.irs| ==>
                           Modify(e, f).irs[i] == Modify(e.irs[i], f)
  {
  }

  /** A declined cache is rewritten by offering its IO as a bare IO node: an
      IO that comes back is re-wrapped with the same max age; anything else
      replaces the cache. In particular, a cache whose IO is also declined is
      kept as it was. */
  lemma CacheOffersBareIo(maxAge: MaxAge, io: IO, f: Modifier)
    requires f(Cache(maxAge, io)) == None
    ensures var inner := Modify(IR.IO(io), f);
            Modify(Cache(maxAge, io), f) == if inner.IO? then Cache(maxAge, inner.io) else inner
    ensures f(IR.IO(io)) == None ==> Modify(Cache(maxAge, io), f) == Cache(maxAge, io)
  {
  }
}
