/** `IR::modify_io`: an in-place traversal that hands every IO it can reach
    to a callback, which may change it. The tree is a value here, so the
    traversal returns the updated tree; the callback's own state is threaded
    through as a value of type S. */
module IrModifyIo {
  import opened IrModel

  /** A mutating callback on IOs with state S: from the state and the IO it
      gets, it yields its next state and the IO to leave in the tree. */
  type IoCallback<!S> = (S, IO) -> (S, IO)

  /** `b` is `a` with at most the IOs that modify_io reaches changed: every
      node, and all of its data other than an IO payload, is the same, and
      what modify_io does not enter (a merge, a dynamic value, a context path,
      a service) is identical. */
  ghost predicate OnlyIoChanged(a: IR, b: IR)
  {
    match a
    case IO(_) => b.IO?
    case Cache(maxAge, _) => b.Cache? && b.maxAge == maxAge
    case Path(inner, path) => b.Path? && b.path == path && OnlyIoChanged(inner, b.inner)
    case Protect(auth, inner) => b.Protect? && b.auth == auth && OnlyIoChanged(inner, b.inner)
    case Map(input, mapping) => b.Map? && b.mapping == mapping && OnlyIoChanged(input, b.input)
    case Discriminate(d, inner) =>
      b.Discriminate? && b.discriminator == d && OnlyIoChanged(inner, b.inner)
    case Pipe(first, second) =>
      b.Pipe? && OnlyIoChanged(first, b.first) && OnlyIoChanged(second, b.second)
    case Entity(m) =>
      && b.Entity? && b.entities.Keys == m.Keys
      && forall k :: k in m ==> OnlyIoChanged(m[k], b.entities[k])
    case Merge(_) => b == a
    case Dynamic(_) => b == a
    case ContextPath(_) => b == a
    case Service(_) => b == a
  }

  /** Every IO that modify_io reaches, replaced by its image under `g`. */
  function MapIo(e: IR, g: IO -> IO): IR
  {
    match e
    case IO(io) => IR.IO(g(io))
    case Cache(maxAge, io) => Cache(maxAge, g(io))
    case Discriminate(d, inner) => Discriminate(d, MapIo(inner, g))
    case Protect(auth, inner) => Protect(auth, MapIo(inner, g))
    case Path(inner, path) => Path(MapIo(inner, g), path)
    case Pipe(first, second) => Pipe(MapIo(first, g), MapIo(second, g))
    case Entity(m) => Entity(map k | k in m :: MapIo(m[k], g))
    case Map(input, mapping) => Map(MapIo(input, g), mapping)
    case _ => e
  }

  /** Whether modify_io, walking `e`, comes to an entity node, whose values it
      visits in an unspecified order. */
  predicate ReachesEntity(e: IR)
  {
    match e
    case Entity(_) => true
    case Discriminate(_, inner) => ReachesEntity(inner)
    case Protect(_, inner) => ReachesEntity(inner)
    case Path(inner, _) => ReachesEntity(inner)
    case Pipe(first, second) => ReachesEntity(first) || ReachesEntity(second)
    case Map(input, _) => ReachesEntity(input)
    case _ => false
  }

  /** modify_io on a tree whose traversal reaches no entity: the callback is
      applied to the reachable IOs from left to right (a pipe's first child
      before its second), its state carried from one call to the next. */
  function Thread<S>(e: IR, s: S, cb: IoCallback<S>): (IR, S)
    requires !ReachesEntity(e)
  {
    match e
    case IO(io) => var (s', io') := cb(s, io); (IR.IO(io'), s')
    case Cache(maxAge, io) => var (s', io') := cb(s, io); (Cache(maxAge, io'), s')
    case Discriminate(d, inner) => var (inner', s') := Thread(inner, s, cb); (Discriminate(d, inner'), s')
    case Protect(auth, inner) => var (inner', s') := Thread(inner, s, cb); (Protect(auth, inner'), s')
    case Path(inner, path) => var (inner', s') := Thread(inner, s, cb); (Path(inner', path), s')
    case Pipe(first, second) =>
      var (first', s1) := Thread(first, s, cb);
      var (second', s2) := Thread(second, s1, cb);
      (Pipe(first', second'), s2)
    case Map(input, mapping) => var (input', s') := Thread(input, s, cb); (Map(input', mapping), s')
    case _ => (e, s)
  }

  /** The IOs modify_io reaches in `e`, in the order it reaches them. */
  function ReachedIos(e: IR): seq<IO>
    requires !ReachesEntity(e)
  {
    match e
    case IO(io) => [io]
    case Cache(_, io) => [io]
    case Discriminate(_, inner) => ReachedIos(inner)
    case Protect(_, inner) => ReachedIos(inner)
    case Path(inner, _) => ReachedIos(inner)
    case Pipe(first, second) => ReachedIos(first) + ReachedIos(second)
    case Map(input, _) => ReachedIos(input)
    case _ => []
  }

  /** The callback's effect on IOs when run in state `s`. */
  function EffectAt<S>(cb: IoCallback<S>, s: S): IO -> IO
  {
    io => cb(s, io).1
  }

  /** The callback's effect on an IO does not depend on its state. */
  ghost predicate Stateless<S(!new)>(cb: IoCallback<S>)
  {
    forall s1, s2, io :: cb(s1, io).1 == cb(s2, io).1
  }

  /** A callback that records every IO it is given and changes none. */
  function Recorder(): IoCallback<seq<IO>>
  {
    (log: seq<IO>, io: IO) => (log + [io], io)
  }

  /** One call of the callback: the IO handed to it and the IO it left. */
  type Step = (IO, IO)

  /** The IOs handed to the callback, in call order. */
  function Inputs(steps: seq<Step>): seq<IO>
  {
    seq(|steps|, i requires 0 <= i < |steps| => steps[i].0)
  }

  /** The IOs the callback left, in call order. */
  function Outputs(steps: seq<Step>): seq<IO>
  {
    seq(|steps|, i requires 0 <= i < |steps| => steps[i].1)
  }

  /** Running `cb` from state `s` on the handed IOs of `steps`, one after the
      other, leaves the IOs recorded in `steps` and ends in state `s'`. */
  ghost predicate Ran<S>(cb: IoCallback<S>, s: S, steps: seq<Step>, s': S)
    decreases |steps|
  {
    if steps == [] then s' == s
    else
      var (next, out) := cb(s, steps[0].0);
      out == steps[0].1 && Ran(cb, next, steps[1..], s')
  }

  /** The calls made for the values of an entity, value after value. */
  function Flatten(visits: seq<(string, seq<Step>)>): seq<Step>
  {
    if visits == [] then [] else Flatten(visits[..|visits| - 1]) + visits[|visits| - 1].1
  }

  /** The keys of the entity values visited so far. */
  ghost function VisitedKeys(visits: seq<(string, seq<Step>)>): set<string>
  {
    set i | 0 <= i < |visits| :: visits[i].0
  }

  /** `steps` are the calls made while `e` became `r`: one call for each IO
      and each cache, a pipe's first stage before its second, the values of
      an entity one whole value after another in some order of its keys, and
      no call for anything else (in particular, none under a merge). */
  ghost predicate IsTrace(e: IR, r: IR, steps: seq<Step>)
    decreases e, 1
  {
    match e
    case IO(io) => r.IO? && steps == [(io, r.io)]
    case Cache(maxAge, io) => r.Cache? && r.maxAge == maxAge && steps == [(io, r.io)]
    case Discriminate(d, inner) =>
      r.Discriminate? && r.discriminator == d && IsTrace(inner, r.inner, steps)
    case Protect(auth, inner) => r.Protect? && r.auth == auth && IsTrace(inner, r.inner, steps)
    case Path(inner, path) => r.Path? && r.path == path && IsTrace(inner, r.inner, steps)
    case Map(input, mapping) => r.Map? && r.mapping == mapping && IsTrace(input, r.input, steps)
    case Pipe(first, second) =>
      && r.Pipe?
      && exists n :: 0 <= n <= |steps| && IsTrace(first, r.first, steps[..n])
                                       && IsTrace(second, r.second, steps[n..])
    case Entity(m) =>
      && r.Entity? && r.entities.Keys == m.Keys
      && exists visits :: EntityTraced(m, r.entities, steps, visits)
    case _ => r == e && steps == []
  }

  /** `visits` lists every key of `m` once, each with the calls made for its
      value, and `steps` are those calls in that order. */
  ghost predicate EntityTraced(m: map<string, IR>, values: map<string, IR>, steps: seq<Step>,
                               visits: seq<(string, seq<Step>)>)
    decreases Entity(m), 0
  {
    && VisitedKeys(visits) == m.Keys
    && (forall i, j :: 0 <= i < j < |visits| ==> visits[i].0 != visits[j].0)
    && (forall i :: 0 <= i < |visits| ==>
          visits[i].0 in m && visits[i].0 in values
          && IsTrace(m[visits[i].0], values[visits[i].0], visits[i].1))
    && steps == Flatten(visits)
  }

  /** Applies `cb` to every IO reachable through IO, Cache, Discriminate,
      Protect, Path, Pipe (first child first), Entity (its values, in no
      particular order) and Map nodes, and to no other IO: not to those under
      a Merge. The ghost `steps` are the calls made, in the order made. */
  method ModifyIo<S(!new)>(e: IR, s: S, cb: IoCallback<S>) returns (r: IR, s': S, ghost steps: seq<Step>)
    ensures IsTrace(e, r, steps)
    ensures Ran(cb, s, steps, s')
    ensures OnlyIoChanged(e, r)
    ensures Stateless(cb) ==> r == MapIo(e, EffectAt(cb, s))
    ensures !ReachesEntity(e) ==> (r, s') == Thread(e, s, cb)
    decreases e, 1
  {
    match e
    case IO(io) =>
      var io';
      s', io' := cb(s, io).0, cb(s, io).1;
      r := IR.IO(io');
      steps := [(io, io')];
    case Cache(maxAge, io) =>
      var io';
      s', io' := cb(s, io).0, cb(s, io).1;
      r := Cache(maxAge, io');
      steps := [(io, io')];
    case Discriminate(d, inner) =>
      var inner';
      inner', s', steps := ModifyIo(inner, s, cb);
      r := Discriminate(d, inner');
    case Protect(auth, inner) =>
      var inner';
      inner', s', steps := ModifyIo(inner, s, cb);
      r := Protect(auth, inner');
    case Path(inner, path) =>
      var inner';
      inner', s', steps := ModifyIo(inner, s, cb);
      r := Path(inner', path);
    case Pipe(first, second) =>
      var first', second', s1;
      ghost var steps1, steps2;
      first', s1, steps1 := ModifyIo(first, s, cb);
      second', s', steps2 := ModifyIo(second, s1, cb);
      if Stateless(cb) {
        MapIoIgnoresState(second, cb, s1, s);
      }
      r := Pipe(first', second');
      steps := steps1 + steps2;
      assert steps[..|steps1|] == steps1 && steps[|steps1|..] == steps2;
      RanAppend(cb, s, steps1, s1, steps2, s');
    case Entity(m) =>
      var values;
      ghost var visits;
      values, s', steps, visits := ModifyEntityIo(m, s, cb);
      r := Entity(values);
      assert Stateless(cb) ==> values == MapIo(e, EffectAt(cb, s)).entities;
    case Map(input, mapping) =>
      var input';
      input', s', steps := ModifyIo(input, s, cb);
      r := Map(input', mapping);
    case _ =>
      r, s', steps := e, s, [];
  }

  /** The entity case of ModifyIo: every value of `m` is traversed in turn,
      in an order of the keys the method picks, each with the state the
      previous one left. */
  method ModifyEntityIo<S(!new)>(m: map<string, IR>, s: S, cb: IoCallback<S>)
    returns (values: map<string, IR>, s': S, ghost steps: seq<Step>, ghost visits: seq<(string, seq<Step>)>)
    ensures EntityTraced(m, values, steps, visits)
    ensures Ran(cb, s, steps, s')
    ensures values.Keys == m.Keys && forall k :: k in m ==> OnlyIoChanged(m[k], values[k])
    ensures Stateless(cb) ==> forall k :: k in m ==> values[k] == MapIo(m[k], EffectAt(cb, s))
    decreases Entity(m), 0
  {
    values := m;
    var todo := m.Keys;
    visits := [];
    s', steps := s, [];
    while todo != {}
      invariant RewrittenSoFar(m, values, todo, cb, s)
      invariant VisitedSoFar(m, values, visits, m.Keys - todo)
      invariant steps == Flatten(visits)
      invariant Ran(cb, s, steps, s')
      decreases todo
    {
      var k :| k in todo;
      ghost var stepsK;
      var v, next;
      v, next, stepsK := ModifyIo(m[k], s', cb);
      if Stateless(cb) {
        MapIoIgnoresState(m[k], cb, s', s);
      }
      RanAppend(cb, s, steps, s', stepsK, next);
      RewriteOneMore(m, values, todo, cb, s, k, v);
      VisitOneMore(m, values, visits, m.Keys - todo, k, v, stepsK);
      values := values[k := v];
      s' := next;
      visits := visits + [(k, stepsK)];
      steps := steps + stepsK;
      todo := todo - {k};
    }
    assert m.Keys - todo == m.Keys;
  }

  /** The values of `m` outside `todo` have been rewritten by ModifyIo (by
      MapIo when the callback is stateless), those in `todo` not yet. */
  ghost predicate RewrittenSoFar<S(!new)>(m: map<string, IR>, values: map<string, IR>, todo: set<string>,
                                          cb: IoCallback<S>, s: S)
  {
    && todo <= m.Keys && values.Keys == m.Keys
    && (forall k :: k in todo ==> values[k] == m[k])
    && (forall k :: k in m && k !in todo ==> OnlyIoChanged(m[k], values[k]))
    && (Stateless(cb) ==> forall k :: k in m && k !in todo ==> values[k] == MapIo(m[k], EffectAt(cb, s)))
  }

  /** Rewriting one more value keeps RewrittenSoFar. */
  lemma RewriteOneMore<S(!new)>(m: map<string, IR>, values: map<string, IR>, todo: set<string>,
                                cb: IoCallback<S>, s: S, k: string, v: IR)
    requires RewrittenSoFar(m, values, todo, cb, s) && k in todo
    requires OnlyIoChanged(m[k], v)
    requires Stateless(cb) ==> v == MapIo(m[k], EffectAt(cb, s))
    ensures RewrittenSoFar(m, values[k := v], todo - {k}, cb, s)
  {
  }

  /** `visits` lists each key of `done` once, with the calls made for its
      value in `m`, which has become its value in `values`. */
  ghost predicate VisitedSoFar(m: map<string, IR>, values: map<string, IR>,
                               visits: seq<(string, seq<Step>)>, done: set<string>)
  {
    && VisitedKeys(visits) == done
    && (forall i, j :: 0 <= i < j < |visits| ==> visits[i].0 != visits[j].0)
    && (forall i :: 0 <= i < |visits| ==>
          visits[i].0 in m && visits[i].0 in values
          && IsTrace(m[visits[i].0], values[visits[i].0], visits[i].1))
  }

  /** Visiting one more key keeps VisitedSoFar and appends its calls. */
  lemma VisitOneMore(m: map<string, IR>, values: map<string, IR>, visits: seq<(string, seq<Step>)>,
                     done: set<string>, k: string, v: IR, stepsK: seq<Step>)
    requires VisitedSoFar(m, values, visits, done)
    requires k in m && k in values && k !in done
    requires IsTrace(m[k], v, stepsK)
    ensures VisitedSoFar(m, values[k := v], visits + [(k, stepsK)], done + {k})
    ensures Flatten(visits + [(k, stepsK)]) == Flatten(visits) + stepsK
  {
    var visits' := visits + [(k, stepsK)];
    assert visits'[..|visits|] == visits;
    assert visits'[|visits|].0 == k;
    assert VisitedKeys(visits') == VisitedKeys(visits) + {k};
    forall i | 0 <= i < |visits| ensures visits[i].0 != k {
      assert visits[i].0 in VisitedKeys(visits);
    }
  }

  /** Running the callback over two runs of calls in a row is one run over
      both. */
  lemma {:induction false} RanAppend<S>(cb: IoCallback<S>, s: S, a: seq<Step>, s1: S, b: seq<Step>, s2: S)
    requires Ran(cb, s, a, s1) && Ran(cb, s1, b, s2)
    ensures Ran(cb, s, a + b, s2)
    decreases |a|
  {
    if a == [] {
      assert a + b == b;
    } else {
      RanAppend(cb, cb(s, a[0].0).0, a[1..], s1, b, s2);
      assert (a + b)[1..] == a[1..] + b;
    }
  }

  /** For a callback whose effect does not depend on its state, the state the
      traversal starts in does not matter. */
  lemma MapIoIgnoresState<S(!new)>(e: IR, cb: IoCallback<S>, s1: S, s2: S)
    requires Stateless(cb)
    ensures MapIo(e, EffectAt(cb, s1)) == MapIo(e, EffectAt(cb, s2))
  {
    MapIoExtensional(e, EffectAt(cb, s1), EffectAt(cb, s2));
  }

  /** MapIo depends only on what `g` does to each IO. */
  lemma {:induction false} MapIoExtensional(e: IR, g: IO -> IO, h: IO -> IO)
    requires forall io :: g(io) == h(io)
    ensures MapIo(e, g) == MapIo(e, h)
  {
    match e
    case Discriminate(_, inner) => MapIoExtensional(inner, g, h);
    case Protect(_, inner) => MapIoExtensional(inner, g, h);
    case Path(inner, _) => MapIoExtensional(inner, g, h);
    case Pipe(first, second) =>
      MapIoExtensional(first, g, h);
      MapIoExtensional(second, g, h);
    case Entity(m) =>
      forall k | k in m ensures MapIo(m[k], g) == MapIo(m[k], h) {
        MapIoExtensional(m[k], g, h);
      }
    case Map(input, _) => MapIoExtensional(input, g, h);
    case _ =>
  }

  /** A callback that leaves every IO as it is leaves the tree as it is. */
  lemma {:induction false} MapIoIdentity(e: IR, g: IO -> IO)
    requires forall io :: g(io) == io
    ensures MapIo(e, g) == e
  {
    match e
    case Discriminate(_, inner) => MapIoIdentity(inner, g);
    case Protect(_, inner) => MapIoIdentity(inner, g);
    case Path(inner, _) => MapIoIdentity(inner, g);
    case Pipe(first, second) =>
      MapIoIdentity(first, g);
      MapIoIdentity(second, g);
    case Entity(m) =>
      forall k | k in m ensures MapIo(m[k], g) == m[k] {
        MapIoIdentity(m[k], g);
      }
    case Map(input, _) => MapIoIdentity(input, g);
    case _ =>
  }

  /** Two traversals in a row are one traversal with the composed callback. */
  lemma {:induction false} MapIoComposes(e: IR, g: IO -> IO, h: IO -> IO, gh: IO -> IO)
    requires forall io :: gh(io) == h(g(io))
    ensures MapIo(MapIo(e, g), h) == MapIo(e, gh)
  {
    match e
    case Discriminate(_, inner) => MapIoComposes(inner, g, h, gh);
    case Protect(_, inner) => MapIoComposes(inner, g, h, gh);
    case Path(inner, _) => MapIoComposes(inner, g, h, gh);
    case Pipe(first, second) =>
      MapIoComposes(first, g, h, gh);
      MapIoComposes(second, g, h, gh);
    case Entity(m) =>
      forall k | k in m ensures MapIo(MapIo(e, g), h).entities[k] == MapIo(m[k], gh) {
        MapIoComposes(m[k], g, h, gh);
      }
    case Map(input, _) => MapIoComposes(input, g, h, gh);
    case _ =>
  }

  /** The callback sees the reachable IOs one by one, in traversal order: a
      recording callback ends up with exactly ReachedIos(e) appended to its
      log, and the tree is unchanged. */
  lemma {:induction false} ThreadVisitsInOrder(e: IR, log: seq<IO>)
    requires !ReachesEntity(e)
    ensures Thread(e, log, Recorder()) == (e, log + ReachedIos(e))
  {
    assert log + [] == log;
    match e
    case Discriminate(_, inner) => ThreadVisitsInOrder(inner, log);
    case Protect(_, inner) => ThreadVisitsInOrder(inner, log);
    case Path(inner, _) => ThreadVisitsInOrder(inner, log);
    case Pipe(first, second) =>
      ThreadVisitsInOrder(first, log);
      ThreadVisitsInOrder(second, log + ReachedIos(first));
      assert log + ReachedIos(first) + ReachedIos(second) == log + ReachedIos(e);
    case Map(input, _) => ThreadVisitsInOrder(input, log);
    case IO(io) => assert Recorder()(log, io) == (log + [io], io);
    case Cache(_, io) => assert Recorder()(log, io) == (log + [io], io);
    case _ =>
  }

  /** In `a.pipe(b)` the IOs of `a` are reached before those of `b`. */
  lemma PipeVisitsFirstThenNext(a: IR, b: IR)
    requires !ReachesEntity(a) && !ReachesEntity(b)
    ensures !ReachesEntity(a.PipeWith(b))
    ensures ReachedIos(a.PipeWith(b)) == ReachedIos(a) + ReachedIos(b)
  {
  }

  /** IOs under a merge are out of modify_io's reach. */
  lemma MergeIsNotEntered<S>(irs: seq<IR>, s: S, cb: IoCallback<S>)
    ensures Thread(Merge(irs), s, cb) == (Merge(irs), s)
    ensures ReachedIos(Merge(irs)) == []
  {
  }

  /** A recording callback's log grows by exactly the IOs handed to it, in
      call order, and every IO it is handed stays as it was. */
  lemma {:induction false} RecorderLogsCalls(log: seq<IO>, steps: seq<Step>, log': seq<IO>)
    requires Ran(Recorder(), log, steps, log')
    ensures log' == log + Inputs(steps)
    ensures Outputs(steps) == Inputs(steps)
    decreases |steps|
  {
    if steps != [] {
      RecorderStep(log, steps, log');
      RecorderLogsCalls(log + [steps[0].0], steps[1..], log');
      assert Inputs(steps) == [steps[0].0] + Inputs(steps[1..]);
      assert Outputs(steps) == [steps[0].1] + Outputs(steps[1..]);
    }
  }

  /** The first call of a recording callback. */
  lemma RecorderStep(log: seq<IO>, steps: seq<Step>, log': seq<IO>)
    requires Ran(Recorder(), log, steps, log') && steps != []
    ensures steps[0].1 == steps[0].0
    ensures Ran(Recorder(), log + [steps[0].0], steps[1..], log')
  {
    assert Recorder()(log, steps[0].0) == (log + [steps[0].0], steps[0].0);
  }

  /** On a tree whose traversal reaches no entity, the IOs handed to the
      callback are exactly ReachedIos(e), in that order. */
  lemma {:induction false} TraceOfEntityFree(e: IR, r: IR, steps: seq<Step>)
    requires !ReachesEntity(e) && IsTrace(e, r, steps)
    ensures Inputs(steps) == ReachedIos(e)
  {
    match e
    case Discriminate(_, inner) => TraceOfEntityFree(inner, r.inner, steps);
    case Protect(_, inner) => TraceOfEntityFree(inner, r.inner, steps);
    case Path(inner, _) => TraceOfEntityFree(inner, r.inner, steps);
    case Map(input, _) => TraceOfEntityFree(input, r.input, steps);
    case Pipe(first, second) =>
      var n :| 0 <= n <= |steps| && IsTrace(first, r.first, steps[..n])
                                 && IsTrace(second, r.second, steps[n..]);
      var before, after := steps[..n], steps[n..];
      TraceOfEntityFree(first, r.first, before);
      TraceOfEntityFree(second, r.second, after);
      assert before + after == steps;
      InputsAppend(before, after);
    case IO(io) =>
    case Cache(_, io) =>
    case _ =>
  }

  /** Whatever the second stage of a pipe is (entities included), the IOs of
      an entity-free first stage are handed over first: a recording callback
      run by ModifyIo on `a.pipe(b)` has them at the head of what it logged. */
  lemma PipeFirstStageRecordedFirst(a: IR, b: IR, r: IR, steps: seq<Step>, log: seq<IO>, log': seq<IO>)
    requires !ReachesEntity(a)
    requires IsTrace(a.PipeWith(b), r, steps)
    requires Ran(Recorder(), log, steps, log')
    ensures |log| + |ReachedIos(a)| <= |log'|
    ensures log'[..|log| + |ReachedIos(a)|] == log + ReachedIos(a)
  {
    var n :| 0 <= n <= |steps| && IsTrace(a, r.first, steps[..n]) && IsTrace(b, r.second, steps[n..]);
    TraceOfEntityFree(a, r.first, steps[..n]);
    RecorderLogsCalls(log, steps, log');
    LogStartsWithFirstCalls(log, steps, n, log');
  }

  /** A log extended by the inputs of a run of calls starts with the inputs
      of the run's first `n` calls. */
  lemma LogStartsWithFirstCalls(log: seq<IO>, steps: seq<Step>, n: nat, log': seq<IO>)
    requires n <= |steps| && log' == log + Inputs(steps)
    ensures |log| + |Inputs(steps[..n])| <= |log'|
    ensures log'[..|log| + |Inputs(steps[..n])|] == log + Inputs(steps[..n])
  {
    var before, after := steps[..n], steps[n..];
    assert before + after == steps;
    InputsAppend(before, after);
    var head := log + Inputs(before);
    assert log' == head + Inputs(after);
    assert log'[..|head|] == head;
  }

  /** A node modify_io does not enter, and an entity without keys, makes no
      call: the tree and the callback's state come back as they were. */
  lemma {:induction false} NoCallForUnenteredNode<S>(e: IR, r: IR, steps: seq<Step>, cb: IoCallback<S>, s: S, s': S)
    requires e.Merge? || e.Dynamic? || e.ContextPath? || e.Service? || e == Entity(map[])
    requires IsTrace(e, r, steps) && Ran(cb, s, steps, s')
    ensures steps == [] && r == e && s' == s
  {
    if e.Entity? {
      var visits: seq<(string, seq<Step>)> :| EntityTraced(map[], r.entities, steps, visits);
      NoVisitedKeysNoVisits(visits);
    }
  }

  /** A list of visits is empty exactly when it visits no key. */
  lemma NoVisitedKeysNoVisits(visits: seq<(string, seq<Step>)>)
    ensures VisitedKeys(visits) == {} <==> visits == []
  {
    if visits != [] {
      assert visits[0].0 in VisitedKeys(visits);
    }
  }

  /** The IOs modify_io reaches in `e`, counted with repetition but in no
      order: entities included, whose values it visits in an order of its
      own. */
  ghost function ReachableIos(e: IR): multiset<IO>
    decreases e, 1
  {
    match e
    case IO(io) => multiset{io}
    case Cache(_, io) => multiset{io}
    case Discriminate(_, inner) => ReachableIos(inner)
    case Protect(_, inner) => ReachableIos(inner)
    case Path(inner, _) => ReachableIos(inner)
    case Pipe(first, second) => ReachableIos(first) + ReachableIos(second)
    case Map(input, _) => ReachableIos(input)
    case Entity(m) => EntityIos(m, m.Keys)
    case _ => multiset{}
  }

  /** The IOs reachable in the values of `m` under the keys `keys`. */
  ghost function EntityIos(m: map<string, IR>, keys: set<string>): multiset<IO>
    requires keys <= m.Keys
    decreases Entity(m), 0, |keys|
  {
    if keys == {} then multiset{}
    else
      var k :| k in keys;
      ReachableIos(m[k]) + EntityIos(m, keys - {k})
  }

  /** EntityIos does not depend on which key is taken first. */
  lemma {:induction false} EntityIosTakeAny(m: map<string, IR>, keys: set<string>, k: string)
    requires keys <= m.Keys && k in keys
    ensures EntityIos(m, keys) == ReachableIos(m[k]) + EntityIos(m, keys - {k})
    decreases |keys|
  {
    var j :| j in keys && EntityIos(m, keys) == ReachableIos(m[j]) + EntityIos(m, keys - {j});
    if j != k {
      EntityIosTakeAny(m, keys - {j}, k);
      EntityIosTakeAny(m, keys - {k}, j);
      assert keys - {j} - {k} == keys - {k} - {j};
    }
  }

  /** Every IO modify_io can reach is handed to the callback exactly once:
      for every tree, entities included, the IOs in the trace are those of
      ReachableIos(e), with the same multiplicities. */
  lemma {:induction false} TraceHandsOverEachIoOnce(e: IR, r: IR, steps: seq<Step>)
    requires IsTrace(e, r, steps)
    ensures multiset(Inputs(steps)) == ReachableIos(e)
    decreases e, 2
  {
    match e
    case Discriminate(_, inner) => TraceHandsOverEachIoOnce(inner, r.inner, steps);
    case Protect(_, inner) => TraceHandsOverEachIoOnce(inner, r.inner, steps);
    case Path(inner, _) => TraceHandsOverEachIoOnce(inner, r.inner, steps);
    case Map(input, _) => TraceHandsOverEachIoOnce(input, r.input, steps);
    case Pipe(first, second) =>
      var n :| 0 <= n <= |steps| && IsTrace(first, r.first, steps[..n])
                                 && IsTrace(second, r.second, steps[n..]);
      PipeHandsOverEachIoOnce(first, second, r, steps, n);
    case Entity(m) => EntityHandsOverEachIoOnce(m, r, steps);
    case IO(_) =>
    case Cache(_, _) =>
    case _ =>
  }

  /** The pipe case of TraceHandsOverEachIoOnce: the calls of the two
      stages, one run after the other. */
  lemma {:induction false} PipeHandsOverEachIoOnce(first: IR, second: IR, r: IR, steps: seq<Step>, n: nat)
    requires n <= |steps| && r.Pipe?
    requires IsTrace(first, r.first, steps[..n]) && IsTrace(second, r.second, steps[n..])
    ensures multiset(Inputs(steps)) == ReachableIos(first) + ReachableIos(second)
    decreases Pipe(first, second), 0
  {
    var before, after := steps[..n], steps[n..];
    TraceHandsOverEachIoOnce(first, r.first, before);
    TraceHandsOverEachIoOnce(second, r.second, after);
    InputsOfSplit(steps, n);
  }

  /** The IOs handed over in a run of calls are those of its two parts. */
  lemma InputsOfSplit(steps: seq<Step>, n: nat)
    requires n <= |steps|
    ensures multiset(Inputs(steps)) == multiset(Inputs(steps[..n])) + multiset(Inputs(steps[n..]))
  {
    assert steps[..n] + steps[n..] == steps;
    InputsAppend(steps[..n], steps[n..]);
  }

  /** The entity case of TraceHandsOverEachIoOnce. */
  lemma {:induction false} EntityHandsOverEachIoOnce(m: map<string, IR>, r: IR, steps: seq<Step>)
    requires IsTrace(Entity(m), r, steps)
    ensures multiset(Inputs(steps)) == EntityIos(m, m.Keys)
    decreases Entity(m), 1
  {
    var visits :| EntityTraced(m, r.entities, steps, visits);
    VisitsHandOverEachIoOnce(m, r.entities, visits);
  }

  /** The entity case of TraceHandsOverEachIoOnce, one visited key at a
      time from the last. */
  lemma {:induction false} VisitsHandOverEachIoOnce(m: map<string, IR>, values: map<string, IR>,
                                                    visits: seq<(string, seq<Step>)>)
    requires VisitedSoFar(m, values, visits, VisitedKeys(visits))
    ensures VisitedKeys(visits) <= m.Keys
    ensures multiset(Inputs(Flatten(visits))) == EntityIos(m, VisitedKeys(visits))
    decreases Entity(m), 0, |visits|
  {
    if visits != [] {
      var init := visits[..|visits| - 1];
      var (k, stepsK) := visits[|visits| - 1];
      DropLastVisit(m, values, visits);
      VisitsHandOverEachIoOnce(m, values, init);
      TraceHandsOverEachIoOnce(m[k], values[k], stepsK);
      EntityIosTakeAny(m, VisitedKeys(visits), k);
      InputsAppend(Flatten(init), stepsK);
    } else {
      assert VisitedKeys(visits) == {};
    }
  }

  /** Splitting the last visit off a VisitedSoFar record. */
  lemma DropLastVisit(m: map<string, IR>, values: map<string, IR>, visits: seq<(string, seq<Step>)>)
    requires VisitedSoFar(m, values, visits, VisitedKeys(visits)) && visits != []
    ensures var init, k := visits[..|visits| - 1], visits[|visits| - 1].0;
            && VisitedSoFar(m, values, init, VisitedKeys(init))
            && k in m && k in values && IsTrace(m[k], values[k], visits[|visits| - 1].1)
            && k !in VisitedKeys(init) && VisitedKeys(visits) - {k} == VisitedKeys(init)
            && VisitedKeys(visits) <= m.Keys
            && Flatten(visits) == Flatten(init) + visits[|visits| - 1].1
  {
    var init, k := visits[..|visits| - 1], visits[|visits| - 1].0;
    assert VisitedKeys(visits) == VisitedKeys(init) + {k} by {
      assert visits == init + [visits[|visits| - 1]];
    }
    forall i | 0 <= i < |init| ensures init[i].0 != k {
      assert init[i] == visits[i];
    }
  }

  /** The inputs of two runs of calls in a row. */
  lemma InputsAppend(a: seq<Step>, b: seq<Step>)
    ensures Inputs(a + b) == Inputs(a) + Inputs(b)
  {
    assert forall i :: 0 <= i < |a + b| ==> Inputs(a + b)[i] == (Inputs(a) + Inputs(b))[i];
  }
}
