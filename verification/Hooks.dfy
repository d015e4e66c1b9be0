/** `withHooks` of core/ent/ent.go: hooks wrapped around the execution of a builder.

    A mutator is a function of the world it runs in (the builder's own mutation and everything else)
    and of the mutation it is handed; it returns the new world and a value or an error. */
module Hooks {

  import opened Options

  datatype Error =
    | UninitializedHook
    | UnexpectedMutation(name: string)
    | UnexpectedNode(name: string)
    | Other(message: string)

  datatype Result<V> = Ok(value: V) | Err(error: Error)

  /** The builder's mutation object, and all other state. */
  datatype World<S, M> = World(own: M, rest: S)

  /** An interface value: of the builder's own mutation type, or of some other type. */
  datatype AnyMutation<M> = Own(m: M) | Foreign(name: string)

  datatype AnyValue<V> = Node(v: V) | OtherValue(name: string)

  type Mutator<!S, !M, !V> = (World<S, M>, AnyMutation<M>) -> (World<S, M>, Result<AnyValue<V>>)

  type Hook<!S, !M, !V> = Mutator<S, M, V> -> Mutator<S, M, V>

  /** The innermost mutator: it puts the mutation it was handed into the builder and executes. */
  function Innermost<S, M, V>(exec: World<S, M> -> (World<S, M>, Result<V>)): Mutator<S, M, V> {
    (w: World<S, M>, m: AnyMutation<M>) =>
      match m
      case Foreign(name) => (w, Err(UnexpectedMutation(name)))
      case Own(own) =>
        var (after, r) := exec(w.(own := own));
        (after, if r.Ok? then Ok(Node(r.value)) else Err(r.error))
  }

  /** hooks[0](hooks[1](... mut)) */
  function Nest<S, M, V>(hooks: seq<Hook<S, M, V>>, mut: Mutator<S, M, V>): Mutator<S, M, V> {
    if hooks == [] then mut else hooks[0](Nest(hooks[1..], mut))
  }

  function Unwrap<S, M, V>(out: (World<S, M>, Result<AnyValue<V>>)): (World<S, M>, Result<V>) {
    (out.0,
     match out.1
     case Err(e) => Err(e)
     case Ok(Node(v)) => Ok(v)
     case Ok(OtherValue(name)) => Err(UnexpectedNode(name)))
  }

  predicate Initialized<S, M, V>(hooks: seq<Option<Hook<S, M, V>>>) {
    forall i :: 0 <= i < |hooks| ==> hooks[i].Some?
  }

  function Values<S, M, V>(hooks: seq<Option<Hook<S, M, V>>>): (r: seq<Hook<S, M, V>>)
    requires Initialized(hooks)
    ensures |r| == |hooks|
  {
    if hooks == [] then [] else [hooks[0].value] + Values(hooks[1..])
  }

  method WithHooks<S, M, V>(exec: World<S, M> -> (World<S, M>, Result<V>),
                            hooks: seq<Option<Hook<S, M, V>>>,
                            w: World<S, M>)
    returns (out: (World<S, M>, Result<V>))
    ensures !Initialized(hooks) ==> out == (w, Err(UninitializedHook))
    ensures Initialized(hooks) ==> out == Unwrap(Nest(Values(hooks), Innermost(exec))(w, Own(w.own)))
  {
    if |hooks| == 0 {
      out := exec(w);
      assert w.(own := w.own) == w;
      return;
    }
    var mut := Innermost(exec);
    var i := |hooks|;
    while i > 0
      invariant 0 <= i <= |hooks|
      invariant Initialized(hooks[i..]) && mut == Nest(Values(hooks[i..]), Innermost(exec))
    {
      i := i - 1;
      if hooks[i] == None {
        return (w, Err(UninitializedHook));
      }
      assert hooks[i..][1..] == hooks[i + 1..];
      mut := hooks[i].value(mut);
      assert Values(hooks[i..])[1..] == Values(hooks[i + 1..]);
    }
    assert hooks[0..] == hooks;
    out := Unwrap(mut(w, Own(w.own)));
  }

  // ---------------------------------------------------------------- hooks that act before and after

  /** What a hook does before the next mutator: hand a mutation on, or end the chain. */
  datatype Before<S, M, V> =
    | Proceed(w: World<S, M>, m: AnyMutation<M>)
    | Stop(w: World<S, M>, r: Result<AnyValue<V>>)

  /** A hook in two parts; what it does around the next mutator is up to it. */
  datatype Around<!S, !M, !V> = Around(
    before: (World<S, M>, AnyMutation<M>) -> Before<S, M, V>,
    after: (World<S, M>, Result<AnyValue<V>>) -> (World<S, M>, Result<AnyValue<V>>))
  {
    function AsHook(): Hook<S, M, V> {
      (next: Mutator<S, M, V>) =>
        (w: World<S, M>, m: AnyMutation<M>) =>
          match before(w, m)
          case Stop(w', r) => (w', r)
          case Proceed(w', m') => var out := next(w', m'); after(out.0, out.1)
    }
  }

  function AsHooks<S, M, V>(arounds: seq<Around<S, M, V>>): (r: seq<Hook<S, M, V>>)
    ensures |r| == |arounds|
  {
    if arounds == [] then [] else [arounds[0].AsHook()] + AsHooks(arounds[1..])
  }

  /** How far the first parts get, run in list order: the number of hooks passed, and what came out
      of the last one run. */
  function Enter<S, M, V>(arounds: seq<Around<S, M, V>>, w: World<S, M>, m: AnyMutation<M>): (int, Before<S, M, V>)
    decreases |arounds|
  {
    if arounds == [] then (0, Proceed(w, m)) else
      match arounds[0].before(w, m)
      case Stop(w', r) => (0, Stop(w', r))
      case Proceed(w', m') => var (k, b) := Enter(arounds[1..], w', m'); (k + 1, b)
  }

  lemma {:induction false} EnterBound<S, M, V>(arounds: seq<Around<S, M, V>>, w: World<S, M>, m: AnyMutation<M>)
    ensures var (k, b) := Enter(arounds, w, m); 0 <= k <= |arounds| && (b.Proceed? <==> k == |arounds|)
    decreases |arounds|
  {
    if arounds != [] {
      match arounds[0].before(w, m)
      case Stop(_, _) =>
      case Proceed(w', m') => EnterBound(arounds[1..], w', m');
    }
  }

  /** The second parts, run in reverse list order. */
  function Leave<S, M, V>(arounds: seq<Around<S, M, V>>, out: (World<S, M>, Result<AnyValue<V>>))
    : (World<S, M>, Result<AnyValue<V>>)
  {
    if arounds == [] then out else
      var last := arounds[|arounds| - 1].after(out.0, out.1);
      Leave(arounds[..|arounds| - 1], last)
  }

  /** A chain in three phases: first parts in order, the innermost mutator exactly once if no hook
      stopped and never otherwise, second parts of the hooks that were passed in reverse order. */
  function Phases<S, M, V>(arounds: seq<Around<S, M, V>>, mut: Mutator<S, M, V>, w: World<S, M>, m: AnyMutation<M>)
    : (World<S, M>, Result<AnyValue<V>>)
  {
    var (k, b) := Enter(arounds, w, m);
    EnterBound(arounds, w, m);
    match b
    case Proceed(w', m') => Leave(arounds, mut(w', m'))
    case Stop(w', r) => Leave(arounds[..k], (w', r))
  }

  lemma {:induction false} LeaveFirst<S, M, V>(first: Around<S, M, V>, rest: seq<Around<S, M, V>>,
                                               out: (World<S, M>, Result<AnyValue<V>>))
    ensures var inner := Leave(rest, out);
            Leave([first] + rest, out) == first.after(inner.0, inner.1)
    decreases |rest|
  {
    var all := [first] + rest;
    if rest == [] {
      assert all[..|all| - 1] == [];
    } else {
      assert all[..|all| - 1] == [first] + rest[..|rest| - 1];
      LeaveFirst(first, rest[..|rest| - 1], rest[|rest| - 1].after(out.0, out.1));
    }
  }

  /** The phases of a chain, seen from its first hook. */
  lemma PhasesFirst<S, M, V>(arounds: seq<Around<S, M, V>>, mut: Mutator<S, M, V>, w: World<S, M>, m: AnyMutation<M>)
    requires arounds != [] && arounds[0].before(w, m).Proceed?
    ensures var b := arounds[0].before(w, m);
            var inner := Phases(arounds[1..], mut, b.w, b.m);
            Phases(arounds, mut, w, m) == arounds[0].after(inner.0, inner.1)
  {
    var first, rest := arounds[0], arounds[1..];
    var (k, b) := Enter(rest, first.before(w, m).w, first.before(w, m).m);
    EnterBound(rest, first.before(w, m).w, first.before(w, m).m);
    match b {
      case Proceed(w', m') =>
        LeaveFirst(first, rest, mut(w', m'));
        assert arounds == [first] + rest;
      case Stop(w', r) =>
        LeaveFirst(first, rest[..k], (w', r));
        assert arounds[..k + 1] == [first] + rest[..k];
    }
  }

  /** Nesting closures from the last hook to the first runs the chain in those three phases. */
  lemma {:induction false} NestRunsPhases<S, M, V>(arounds: seq<Around<S, M, V>>, mut: Mutator<S, M, V>,
                                                   w: World<S, M>, m: AnyMutation<M>)
    ensures Nest(AsHooks(arounds), mut)(w, m) == Phases(arounds, mut, w, m)
    decreases |arounds|
  {
    if arounds != [] {
      assert AsHooks(arounds)[1..] == AsHooks(arounds[1..]);
      match arounds[0].before(w, m) {
        case Stop(_, _) =>
          assert arounds[..0] == [];
        case Proceed(w', m') =>
          NestRunsPhases(arounds[1..], mut, w', m');
          PhasesFirst(arounds, mut, w, m);
      }
    }
  }

  /** What the caller gets of what a chain leaves: its node, its error, or an error if the value is no node. */
  ghost predicate Delivered<S, M, V>(out: (World<S, M>, Result<V>), left: (World<S, M>, Result<AnyValue<V>>)) {
    && out.0 == left.0
    && (left.1.Err? ==> out.1 == Err(left.1.error))
    && (left.1.Ok? && left.1.value.Node? ==> out.1 == Ok(left.1.value.v))
    && (left.1.Ok? && left.1.value.OtherValue? ==> out.1 == Err(UnexpectedNode(left.1.value.name)))
  }

  /** A whole chain: the mutation that the hooks hand down is put into the builder and executed there; a mutation
      of another type is an error and executes nothing, as does a hook that stops. */
  lemma ChainExecutes<S, M, V>(exec: World<S, M> -> (World<S, M>, Result<V>), arounds: seq<Around<S, M, V>>,
                               w: World<S, M>)
    ensures var (k, b) := Enter(arounds, w, Own(w.own));
            var out := Unwrap(Nest(AsHooks(arounds), Innermost(exec))(w, Own(w.own)));
            && 0 <= k <= |arounds|
            && (b.Stop? ==> Delivered(out, Leave(arounds[..k], (b.w, b.r))))
            && (b.Proceed? && b.m.Foreign? ==>
                  Delivered(out, Leave(arounds, (b.w, Err(UnexpectedMutation(b.m.name))))))
            && (b.Proceed? && b.m.Own? ==>
                  var (after, r) := exec(World(b.m.m, b.w.rest));
                  && (r.Ok? ==> Delivered(out, Leave(arounds, (after, Ok(Node(r.value))))))
                  && (r.Err? ==> Delivered(out, Leave(arounds, (after, Err(r.error))))))
  {
    EnterBound(arounds, w, Own(w.own));
    NestRunsPhases(arounds, Innermost(exec), w, Own(w.own));
  }

  /** A hook whose mutator does what the next one does, be it that mutator or one that calls it. */
  ghost predicate PassesOn<S(!new), M(!new), V(!new)>(hook: Hook<S, M, V>) {
    forall next: Mutator<S, M, V>, w, m :: hook(next)(w, m) == next(w, m)
  }

  /** Hooks that only pass on change nothing: the result is that of the path without hooks. */
  lemma {:induction false} PassingHooks<S(!new), M(!new), V(!new)>(
      exec: World<S, M> -> (World<S, M>, Result<V>), hooks: seq<Hook<S, M, V>>, w: World<S, M>)
    requires forall i :: 0 <= i < |hooks| ==> PassesOn(hooks[i])
    ensures Unwrap(Nest(hooks, Innermost(exec))(w, Own(w.own))) == exec(w)
  {
    if hooks == [] {
      assert w.(own := w.own) == w;
    } else {
      PassingHooks(exec, hooks[1..], w);
      var next := Nest(hooks[1..], Innermost(exec));
      assert PassesOn(hooks[0]);
      assert hooks[0](next)(w, Own(w.own)) == next(w, Own(w.own));
    }
  }

  /** The pass-through hook as it is written: a new mutator that calls the next one. */
  function Calling<S, M, V>(): Hook<S, M, V> {
    (next: Mutator<S, M, V>) => (w: World<S, M>, m: AnyMutation<M>) => next(w, m)
  }

  lemma CallingPassesOn<S(!new), M(!new), V(!new)>()
    ensures PassesOn<S, M, V>(Calling())
  {
  }
}
