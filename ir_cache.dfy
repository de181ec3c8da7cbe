/** `Cache::wrap`: putting every IO of an IR tree behind a cache with a
    given max age. */
module IrCache {
  import opened IrModel
  import opened IrModify

  /** The modifier `wrap` uses: every IO node becomes a cache of that IO. */
  function CacheEveryIo(maxAge: MaxAge): Modifier
  {
    (x: IR) => if x.IO? then Some(IR.Cache(maxAge, x.io)) else None
  }

  /** After wrapping, no bare IO is left, every cache has the new max age,
      and apart from the caches the tree is the one given: every IO is where
      it was, and all other nodes and their data are unchanged. */
  function Wrap(maxAge: MaxAge, e: IR): (r: IR)
    ensures NoBareIo(r)
    ensures CachesAged(r, maxAge)
    ensures Strip(r) == Strip(e)
  {
    CachingSpec(maxAge, e);
    Modify(e, CacheEveryIo(maxAge))
  }

  /** `e` with every cache removed, its IO left in its place. */
  function Strip(e: IR): IR
  {
    match e
    case Cache(_, io) => IR.IO(io)
    case Pipe(first, second) => Pipe(Strip(first), Strip(second))
    case Path(inner, path) => Path(Strip(inner), path)
    case Protect(auth, inner) => Protect(auth, Strip(inner))
    case Map(input, mapping) => Map(Strip(input), mapping)
    case Discriminate(d, inner) => Discriminate(d, Strip(inner))
    case Entity(m) => Entity(map k | k in m :: Strip(m[k]))
    case Merge(irs) => Merge(seq(|irs|, i requires 0 <= i < |irs| => Strip(irs[i])))
    case _ => e
  }

  /** No IO node of `e` is outside a cache. */
  predicate NoBareIo(e: IR)
  {
    match e
    case IO(_) => false
    case Pipe(first, second) => NoBareIo(first) && NoBareIo(second)
    case Path(inner, _) => NoBareIo(inner)
    case Protect(_, inner) => NoBareIo(inner)
    case Map(input, _) => NoBareIo(input)
    case Discriminate(_, inner) => NoBareIo(inner)
    case Entity(m) => forall k :: k in m ==> NoBareIo(m[k])
    case Merge(irs) => forall i :: 0 <= i < |irs| ==> NoBareIo(irs[i])
    case _ => true
  }

  /** Every cache node of `e` has max age `maxAge`. */
  predicate CachesAged(e: IR, maxAge: MaxAge)
  {
    match e
    case Cache(age, _) => age == maxAge
    case Pipe(first, second) => CachesAged(first, maxAge) && CachesAged(second, maxAge)
    case Path(inner, _) => CachesAged(inner, maxAge)
    case Protect(_, inner) => CachesAged(inner, maxAge)
    case Map(input, _) => CachesAged(input, maxAge)
    case Discriminate(_, inner) => CachesAged(inner, maxAge)
    case Entity(m) => forall k :: k in m ==> CachesAged(m[k], maxAge)
    case Merge(irs) => forall i :: 0 <= i < |irs| ==> CachesAged(irs[i], maxAge)
    case _ => true
  }

  /** A bare IO becomes a cache of that IO; an existing cache gets the new
      max age and keeps its IO. */
  lemma WrapCachesIo(maxAge: MaxAge, oldAge: MaxAge, io: IO)
    ensures Wrap(maxAge, IR.IO(io)) == Cache(maxAge, io)
    ensures Wrap(maxAge, Cache(oldAge, io)) == Cache(maxAge, io)
  {
  }

  /** The properties of Wrap, stated on the rewrite it performs. */
  lemma {:induction false} CachingSpec(maxAge: MaxAge, e: IR)
    ensures var r := Modify(e, CacheEveryIo(maxAge));
            NoBareIo(r) && CachesAged(r, maxAge) && Strip(r) == Strip(e)
  {
    var f := CacheEveryIo(maxAge);
    match e
    case Pipe(first, second) =>
      CachingSpec(maxAge, first);
      CachingSpec(maxAge, second);
    case Path(inner, _) => CachingSpec(maxAge, inner);
    case Protect(_, inner) => CachingSpec(maxAge, inner);
    case Map(input, _) => CachingSpec(maxAge, input);
    case Discriminate(_, inner) => CachingSpec(maxAge, inner);
    case Entity(m) =>
      var r := Modify(e, f).entities;
      forall k | k in m
        ensures NoBareIo(r[k]) && CachesAged(r[k], maxAge) && Strip(r[k]) == Strip(m[k])
      {
        CachingSpec(maxAge, m[k]);
      }
      assert Strip(Modify(e, f)).entities == Strip(e).entities;
    case Merge(irs) =>
      var r := Modify(e, f).irs;
      forall i | 0 <= i < |irs|
        ensures NoBareIo(r[i]) && CachesAged(r[i], maxAge) && Strip(r[i]) == Strip(irs[i])
      {
        CachingSpec(maxAge, irs[i]);
      }
      assert Strip(Modify(e, f)).irs == Strip(e).irs;
    case _ =>
  }

  /** The three properties in Wrap's contract determine a tree: two trees without
      bare IOs whose caches all have the same max age and which strip to the
      same tree are equal. */
  lemma {:induction false} CachedTreeIsUnique(a: IR, b: IR, maxAge: MaxAge)
    requires NoBareIo(a) && NoBareIo(b)
    requires CachesAged(a, maxAge) && CachesAged(b, maxAge)
    requires Strip(a) == Strip(b)
    ensures a == b
  {
    match a
    case Pipe(first, second) =>
      CachedTreeIsUnique(first, b.first, maxAge);
      CachedTreeIsUnique(second, b.second, maxAge);
    case Path(inner, _) => CachedTreeIsUnique(inner, b.inner, maxAge);
    case Protect(_, inner) => CachedTreeIsUnique(inner, b.inner, maxAge);
    case Map(input, _) => CachedTreeIsUnique(input, b.input, maxAge);
    case Discriminate(_, inner) => CachedTreeIsUnique(inner, b.inner, maxAge);
    case Entity(m) =>
      assert b.Entity?;
      assert b.entities.Keys == Strip(b).entities.Keys == Strip(a).entities.Keys == m.Keys;
      forall k | k in m ensures m[k] == b.entities[k] {
        assert Strip(a).entities[k] == Strip(b).entities[k];
        CachedTreeIsUnique(m[k], b.entities[k], maxAge);
      }
    case Merge(irs) =>
      assert b.Merge? && |b.irs| == |irs|;
      forall i | 0 <= i < |irs| ensures irs[i] == b.irs[i] {
        assert Strip(a).irs[i] == Strip(b).irs[i];
        CachedTreeIsUnique(irs[i], b.irs[i], maxAge);
      }
    case _ =>
  }

  /** Wrapping twice with the same max age is wrapping once. */
  lemma WrapIsIdempotent(maxAge: MaxAge, e: IR)
    ensures Wrap(maxAge, Wrap(maxAge, e)) == Wrap(maxAge, e)
  {
    CachedTreeIsUnique(Wrap(maxAge, Wrap(maxAge, e)), Wrap(maxAge, e), maxAge);
  }

  /** Wrapping with a second max age overrides the first: the first wrap's
      caches are re-aged, none is nested. */
  lemma LastWrapWins(first: MaxAge, second: MaxAge, e: IR)
    ensures Wrap(second, Wrap(first, e)) == Wrap(second, e)
  {
    CachedTreeIsUnique(Wrap(second, Wrap(first, e)), Wrap(second, e), second);
  }
}
