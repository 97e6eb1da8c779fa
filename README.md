# Node lifecycle typestate, modelled in Dafny

The repository demonstrates a typestate node lifecycle in Rust. A `Node`
pairs a shared `NodeContext` (a name) with one of six lifecycle states:
`New`, `Syncing`, `Running`, `Leaving`, `Failed` (which carries a reason
string) and `Removed`. Rust makes the state a type parameter, so each
transition exists only on the states that may take it:

- `start`: `New` to `Syncing`.
- `run`: `Syncing` to `Running`.
- `stop`: `Running` to `Leaving`.
- `remove`: `Leaving` or `Failed` to `Removed`.
- `fail(reason)`: any active state (`New`, `Syncing`, `Running`, `Leaving`) to `Failed`.

`Removed` has no transitions. Every transition copies the context forward
unchanged. `start`, `run`, `stop` and `remove` return a `Result` that is
always `Ok`; `fail` returns a node directly.

The model has three modules:

- `Wrappers` (`wrappers.dfy`) holds `Option` and a `Result` whose `Err` arm
  stands for the boxed error of `NodeResult`.
- `Lifecycle` (`lifecycle.dfy`) models `src/lib.rs` state by state. The
  states are a closed datatype, as the sealed trait makes them in Rust.
  Each transition is a function whose `requires` names the states it is
  defined on; a call the Rust compiler rejects is a call whose precondition
  fails. `Rank` is a linear order on the states,
  `New < Syncing < Running < Leaving < Failed < Removed`, that every
  transition increases; the lifecycle itself branches, since `Failed` is
  reached from each active state.
- `Dispatch` (`dispatch.dfy`) classifies every (state, operation) pair.
  `Legal` and `Target` form the transition table. `Step` dispatches to the
  per-state functions and is proved equal to the table. `Exec` runs a
  sequence of operations. The lemmas cover whole runs: the context is kept,
  the lifecycle only moves forward, runs are short, `Removed` is terminal,
  and a final `Failed` state keeps the reason of the last `fail`.

The accessor `ctx()` is the datatype destructor `Node.ctx`. The state
constructor `Failed::new` and its accessor `Failed::reason` are the
constructor `State.Failed` and its destructor `.reason`.

## Model

| member | source | states |
|---|---|---|
| `Lifecycle.NewContext` | src/lib.rs:12-18 | the built context holds exactly the given name |
| `Lifecycle.IsActive` | src/lib.rs:153-158 | a state is active iff it is neither `Failed` nor `Removed`, i.e. exactly `New`, `Syncing`, `Running`, `Leaving` |
| `Lifecycle.Create` | src/lib.rs:79-86 | a new node is in `New` and carries the supplied context |
| `Lifecycle.Start` | src/lib.rs:88-94 | defined only on `New`; always `Ok`; lands in `Syncing` with the context unchanged, one step forward |
| `Lifecycle.Run` | src/lib.rs:97-105 | defined only on `Syncing`; always `Ok`; lands in `Running` with the context unchanged, one step forward |
| `Lifecycle.Stop` | src/lib.rs:107-115 | defined only on `Running`; always `Ok`; lands in `Leaving` with the context unchanged, one step forward |
| `Lifecycle.Remove` | src/lib.rs:117-134 | defined on exactly `Leaving` and `Failed`; always `Ok`; lands in `Removed` with the context unchanged |
| `Lifecycle.Reason` | src/lib.rs:136-138 | defined only on failed nodes; returns the reason stored in the `Failed` state |
| `Lifecycle.Fail` | src/lib.rs:160-168 | defined on the active states; infallible; the result is `Failed` and `reason()` returns the supplied string verbatim; context unchanged |
| `Dispatch.Step` | src/lib.rs:88-168 | the per-state transitions agree with the transition table: a step is defined exactly on the legal (state, operation) pairs and then lands in the operation's target with the context unchanged |
| `Dispatch.FailExactlyOnActive` | src/lib.rs:153-168 | `fail` is available from a state iff the state is active, and then it is the `Fail` transition |
| `Dispatch.FailOfFailRejected` | tests/node_management.rs:27-30 | a node that was just failed cannot be failed again |
| `Dispatch.StepAdvances` | src/lib.rs:88-168 | every legal step moves strictly forward along the lifecycle order |
| `Dispatch.ExecPreservesCtx` | src/lib.rs:89-168 | after any legal run of operations the context equals the original one |
| `Dispatch.CtxAtEveryStep` | tests/node_management.rs:33-53 | along a legal run every intermediate node is defined and carries the original context |
| `Dispatch.ExecAdvances` | src/lib.rs:88-168 | each operation of a legal run advances the lifecycle rank by at least one |
| `Dispatch.ExecLengthBound` | src/lib.rs:88-168 | no legal run has more operations than remain before `Removed` (at most five from `New`) |
| `Dispatch.NoReentry` | src/lib.rs:88-168 | a non-empty legal run never returns to the state it started in |
| `Dispatch.RemovedIsTerminal` | src/lib.rs:141-151 | no operation is defined from `Removed`; the only legal run from it is the empty one |
| `Dispatch.FailedReasonFromLastFail` | src/lib.rs:127-168 | if a run ends in `Failed`, its last operation was the `fail` whose reason the node now reports |
| `Dispatch.EveryStateReachable` | src/lib.rs:79-168 | every one of the six states is reached by some legal run from a freshly created node with the context kept |
| `Dispatch.EveryNodeReachable` | src/lib.rs:74-86 | every node value equals the end of some legal run from `Create` with its context, so building a node directly gives nothing a legal run could not |
| `Dispatch.ShutdownScenario` | tests/node_management.rs:33-53 | create, start, run, stop, remove ends in `Removed` and the context is the original one after every step |
| `Dispatch.FailFromSyncingScenario` | tests/node_management.rs:21-25 | start then fail lands in `Failed` with the reason, and a following remove lands in `Removed` |

## Left out

- Move semantics: Rust consumes the old node on each transition. The model's transitions are pure functions, and a stale node value cannot be observed.
- The sealed-trait machinery (`NodeState`, `private::Sealed`): the closed Dafny datatype `State` gives the same guarantee that no outside state can exist.
- The contents of the boxed error in `NodeResult`: no transition builds one, so `Err` carries only an abstract message. The source does not say what happens to a node on an error path, and neither does the model: `Step` and `Exec` use the `Ok` value, which every transition is proved to return.
- The private fields of `Node`: in Rust, `Node::new` is the only way to build a node, and it builds only `New`. The Dafny constructor `Lifecycle.Node` is public, so the model does not forbid building a node in another state directly; `Dispatch.EveryNodeReachable` shows that every such node is also the end of a legal run from `Create`.
- The derived `Debug`, `Default`, `Clone` and `PartialEq` implementations: contexts are plain values with structural equality. `NodeContext::default()` is `NewContext("")`.
