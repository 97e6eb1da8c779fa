/**
 * A total dispatcher over the lifecycle: every (state, operation) pair is
 * classified as legal or illegal. An illegal pair is one the typed API
 * rejects before the program runs; here `Step` answers `None` for it.
 */
module Dispatch {
  import opened Wrappers
  import Lifecycle

  type State = Lifecycle.State
  type Node = Lifecycle.Node

  /** The transitions a caller can request. */
  datatype Op = Start | Run | Stop | Remove | Fail(reason: string)

  /** The transition table: the states from which each operation is defined. */
  predicate Legal(s: State, op: Op) {
    match op
    case Start => s == Lifecycle.New
    case Run => s == Lifecycle.Syncing
    case Stop => s == Lifecycle.Running
    case Remove => s == Lifecycle.Leaving || s.Failed?
    case Fail(_) => s == Lifecycle.New || s == Lifecycle.Syncing || s == Lifecycle.Running || s == Lifecycle.Leaving
  }

  /** The state each operation leads to; every operation has exactly one target. */
  function Target(op: Op): State {
    match op
    case Start => Lifecycle.Syncing
    case Run => Lifecycle.Running
    case Stop => Lifecycle.Leaving
    case Remove => Lifecycle.Removed
    case Fail(reason) => Lifecycle.Failed(reason)
  }

  /**
   * Applies one operation by dispatching on the current state to the
   * transition defined for it; `None` when no such transition exists.
   * It agrees with the table: defined exactly on the legal pairs, landing
   * in the operation's target with the context unchanged.
   */
  function Step(n: Node, op: Op): (r: Option<Node>)
    ensures r == if Legal(n.state, op) then Some(Lifecycle.Node(n.ctx, Target(op))) else None
  {
    match n.state
    case New =>
      (match op
       case Start => Some(Lifecycle.Start(n).value)
       case Fail(reason) => Some(Lifecycle.Fail(n, reason))
       case _ => None)
    case Syncing =>
      (match op
       case Run => Some(Lifecycle.Run(n).value)
       case Fail(reason) => Some(Lifecycle.Fail(n, reason))
       case _ => None)
    case Running =>
      (match op
       case Stop => Some(Lifecycle.Stop(n).value)
       case Fail(reason) => Some(Lifecycle.Fail(n, reason))
       case _ => None)
    case Leaving =>
      (match op
       case Remove => Some(Lifecycle.Remove(n).value)
       case Fail(reason) => Some(Lifecycle.Fail(n, reason))
       case _ => None)
    case Failed(_) =>
      (match op
       case Remove => Some(Lifecycle.Remove(n).value)
       case _ => None)
    case Removed => None
  }

  /** Applies a sequence of operations in order; `None` as soon as one is illegal. */
  function Exec(n: Node, ops: seq<Op>): Option<Node>
    decreases |ops|
  {
    if ops == [] then Some(n)
    else match Step(n, ops[0])
      case None => None
      case Some(m) => Exec(m, ops[1..])
  }

  /** `fail` is defined exactly on the active states. */
  lemma FailExactlyOnActive(n: Node, reason: string)
    ensures Step(n, Fail(reason)).Some? <==> Lifecycle.IsActive(n.state)
    ensures Step(n, Fail(reason)).Some? ==> Step(n, Fail(reason)).value == Lifecycle.Fail(n, reason)
  {
  }

  /** A failed node cannot be failed again. */
  lemma FailOfFailRejected(n: Node, first: string, second: string)
    requires Lifecycle.IsActive(n.state)
    ensures Step(Lifecycle.Fail(n, first), Fail(second)) == None
  {
  }

  /** Every legal step moves strictly forward along the lifecycle. */
  lemma StepAdvances(n: Node, op: Op)
    requires Step(n, op).Some?
    ensures Lifecycle.Rank(Step(n, op).value.state) > Lifecycle.Rank(n.state)
  {
  }

  /** Splitting a run: executing `a + b` is executing `a`, then `b` from where it ended. */
  lemma {:induction false} ExecAppend(n: Node, a: seq<Op>, b: seq<Op>)
    ensures Exec(n, a + b) == if Exec(n, a).Some? then Exec(Exec(n, a).value, b) else None
    decreases |a|
  {
    if a != [] {
      assert (a + b)[0] == a[0];
      assert (a + b)[1..] == a[1..] + b;
      match Step(n, a[0])
      case None =>
      case Some(m) => ExecAppend(m, a[1..], b);
    } else {
      assert a + b == b;
    }
  }

  /** The context after any legal run equals the context it started with. */
  lemma {:induction false} ExecPreservesCtx(n: Node, ops: seq<Op>)
    requires Exec(n, ops).Some?
    ensures Exec(n, ops).value.ctx == n.ctx
    decreases |ops|
  {
    if ops != [] {
      var m := Step(n, ops[0]).value;
      ExecPreservesCtx(m, ops[1..]);
    }
  }

  /** Every prefix of a legal run is legal. */
  lemma ExecPrefix(n: Node, ops: seq<Op>, k: nat)
    requires Exec(n, ops).Some?
    requires k <= |ops|
    ensures Exec(n, ops[..k]).Some?
  {
    assert ops == ops[..k] + ops[k..];
    ExecAppend(n, ops[..k], ops[k..]);
  }

  /** Along a legal run, the context observed after every step is the original one. */
  lemma CtxAtEveryStep(n: Node, ops: seq<Op>)
    requires Exec(n, ops).Some?
    ensures forall k :: 0 <= k <= |ops| ==> Exec(n, ops[..k]).Some? && Exec(n, ops[..k]).value.ctx == n.ctx
  {
    forall k | 0 <= k <= |ops|
      ensures Exec(n, ops[..k]).Some? && Exec(n, ops[..k]).value.ctx == n.ctx
    {
      ExecPrefix(n, ops, k);
      ExecPreservesCtx(n, ops[..k]);
    }
  }

  /**
   * Each operation of a legal run advances the rank by at least one, so a
   * run never revisits a state and no run is longer than five operations.
   */
  lemma {:induction false} ExecAdvances(n: Node, ops: seq<Op>)
    requires Exec(n, ops).Some?
    ensures Lifecycle.Rank(Exec(n, ops).value.state) >= Lifecycle.Rank(n.state) + |ops|
    decreases |ops|
  {
    if ops != [] {
      var m := Step(n, ops[0]).value;
      StepAdvances(n, ops[0]);
      ExecAdvances(m, ops[1..]);
    }
  }

  /** No legal run is longer than the five steps from `New` to `Removed`. */
  lemma ExecLengthBound(n: Node, ops: seq<Op>)
    requires Exec(n, ops).Some?
    ensures |ops| <= 5 - Lifecycle.Rank(n.state)
  {
    ExecAdvances(n, ops);
  }

  /** A non-empty legal run never returns to the state it started from. */
  lemma NoReentry(n: Node, ops: seq<Op>)
    requires Exec(n, ops).Some?
    requires ops != []
    ensures Exec(n, ops).value.state != n.state
  {
    ExecAdvances(n, ops);
  }

  /** `Removed` is terminal: no operation is defined from it, alone or in a run. */
  lemma RemovedIsTerminal(n: Node, ops: seq<Op>)
    requires n.state == Lifecycle.Removed
    ensures forall op :: Step(n, op) == None
    ensures Exec(n, ops).Some? <==> ops == []
  {
  }

  /**
   * A run that ends in `Failed` ended with the `fail` that put it there,
   * and the recorded reason is the one that `fail` was given.
   */
  lemma {:induction false} FailedReasonFromLastFail(n: Node, ops: seq<Op>)
    requires ops != []
    requires Exec(n, ops).Some? && Exec(n, ops).value.state.Failed?
    ensures ops[|ops| - 1] == Fail(Lifecycle.Reason(Exec(n, ops).value))
    decreases |ops|
  {
    var m := Step(n, ops[0]).value;
    if |ops| > 1 {
      FailedReasonFromLastFail(m, ops[1..]);
    }
  }

  /** Running one operation and then the rest of a run. */
  lemma ExecCons(n: Node, op: Op, rest: seq<Op>)
    ensures Exec(n, [op] + rest) == if Step(n, op).Some? then Exec(Step(n, op).value, rest) else None
  {
    assert ([op] + rest)[0] == op;
    assert ([op] + rest)[1..] == rest;
  }

  /**
   * Every state is reachable from a freshly created node: for each state
   * there is a legal run from `Create(ctx)` that ends in it.
   */
  lemma EveryStateReachable(ctx: Lifecycle.NodeContext, s: State)
    ensures exists ops :: Exec(Lifecycle.Create(ctx), ops) == Some(Lifecycle.Node(ctx, s))
  {
    var n0 := Lifecycle.Create(ctx);
    var n1 := Lifecycle.Node(ctx, Lifecycle.Syncing);
    var n2 := Lifecycle.Node(ctx, Lifecycle.Running);
    var n3 := Lifecycle.Node(ctx, Lifecycle.Leaving);
    match s
    case New =>
      assert Exec(n0, []) == Some(Lifecycle.Node(ctx, s));
    case Syncing =>
      ExecCons(n0, Start, []);
      assert Exec(n0, [Start]) == Some(Lifecycle.Node(ctx, s));
    case Running =>
      ExecCons(n1, Run, []);
      ExecCons(n0, Start, [Run]);
      assert Exec(n0, [Start, Run]) == Some(Lifecycle.Node(ctx, s));
    case Leaving =>
      ExecCons(n2, Stop, []);
      ExecCons(n1, Run, [Stop]);
      ExecCons(n0, Start, [Run, Stop]);
      assert Exec(n0, [Start, Run, Stop]) == Some(Lifecycle.Node(ctx, s));
    case Failed(reason) =>
      ExecCons(n0, Fail(reason), []);
      assert Exec(n0, [Fail(reason)]) == Some(Lifecycle.Node(ctx, s));
    case Removed =>
      ExecCons(n3, Remove, []);
      ExecCons(n2, Stop, [Remove]);
      ExecCons(n1, Run, [Stop, Remove]);
      ExecCons(n0, Start, [Run, Stop, Remove]);
      assert Exec(n0, [Start, Run, Stop, Remove]) == Some(Lifecycle.Node(ctx, s));
  }

  /**
   * Every node value is the result of a legal run from a freshly created
   * node with the same context, so a node assembled directly offers nothing
   * that `Create` followed by transitions does not.
   */
  lemma EveryNodeReachable(n: Node)
    ensures exists ops :: Exec(Lifecycle.Create(n.ctx), ops) == Some(n)
  {
    EveryStateReachable(n.ctx, n.state);
  }

  /** The shutdown path: start, run, stop, remove, with the context unchanged at each step. */
  lemma ShutdownScenario(name: string)
    ensures var c := Lifecycle.NewContext(name);
      var ops := [Start, Run, Stop, Remove];
      Exec(Lifecycle.Create(c), ops) == Some(Lifecycle.Node(c, Lifecycle.Removed))
      && forall k :: 0 <= k <= |ops| ==>
           (Exec(Lifecycle.Create(c), ops[..k]).Some? && Exec(Lifecycle.Create(c), ops[..k]).value.ctx == c)
  {
    var c := Lifecycle.NewContext(name);
    var ops := [Start, Run, Stop, Remove];
    ExecCons(Lifecycle.Node(c, Lifecycle.Leaving), Remove, []);
    ExecCons(Lifecycle.Node(c, Lifecycle.Running), Stop, [Remove]);
    ExecCons(Lifecycle.Node(c, Lifecycle.Syncing), Run, [Stop, Remove]);
    ExecCons(Lifecycle.Create(c), Start, [Run, Stop, Remove]);
    assert Exec(Lifecycle.Create(c), ops) == Some(Lifecycle.Node(c, Lifecycle.Removed));
    CtxAtEveryStep(Lifecycle.Create(c), ops);
  }

  /** Failing from `Syncing` and then removing completes in `Removed`. */
  lemma FailFromSyncingScenario(ctx: Lifecycle.NodeContext, reason: string)
    ensures Exec(Lifecycle.Create(ctx), [Start, Fail(reason)]) == Some(Lifecycle.Node(ctx, Lifecycle.Failed(reason)))
    ensures Exec(Lifecycle.Create(ctx), [Start, Fail(reason), Remove]) == Some(Lifecycle.Node(ctx, Lifecycle.Removed))
  {
    var n0 := Lifecycle.Create(ctx);
    var n1 := Lifecycle.Node(ctx, Lifecycle.Syncing);
    var f := Lifecycle.Node(ctx, Lifecycle.Failed(reason));
    ExecCons(f, Remove, []);
    ExecCons(n1, Fail(reason), [Remove]);
    ExecCons(n0, Start, [Fail(reason), Remove]);
    ExecCons(n1, Fail(reason), []);
    ExecCons(n0, Start, [Fail(reason)]);
  }
}
