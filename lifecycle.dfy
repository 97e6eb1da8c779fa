/**
 * The node lifecycle state machine. A node pairs a shared context with one
 * of six lifecycle states; each transition is defined only on the states
 * that may take it (its `requires`), copies the context forward unchanged
 * and yields a fresh node in the successor state.
 */
module Lifecycle {
  import opened Wrappers

  /** Shared, state-independent data carried by every node. */
  datatype NodeContext = NodeContext(name: string)

  /** Builds a context from a name. */
  function NewContext(name: string): (c: NodeContext)
    ensures c.name == name
  {
    NodeContext(name)
  }

  /**
   * The closed set of lifecycle states. Only `Failed` carries data: the
   * reason the node failed.
   */
  datatype State = New | Syncing | Running | Leaving | Failed(reason: string) | Removed

  /**
   * The active states: those from which a node may be failed. Exactly the
   * states that are neither the failure state nor the terminal one.
   */
  predicate IsActive(s: State)
    ensures IsActive(s) <==> !(s.Failed? || s.Removed?)
  {
    s == New || s == Syncing || s == Running || s == Leaving
  }

  /**
   * A linear order on the states that every transition increases:
   * New < Syncing < Running < Leaving < Failed < Removed. The lifecycle
   * branches (`Failed` is reached from each active state), and this order
   * is one that all of its edges respect.
   */
  function Rank(s: State): (r: nat)
    ensures r <= 5
    ensures r == 0 <==> s == New
    ensures r == 5 <==> s == Removed
    ensures r == 4 <==> s.Failed?
  {
    match s
    case New => 0
    case Syncing => 1
    case Running => 2
    case Leaving => 3
    case Failed(_) => 4
    case Removed => 5
  }

  /** A node: its context and its current lifecycle state. */
  datatype Node = Node(ctx: NodeContext, state: State)

  /** Builds a fresh node in `New` with the given context. */
  function Create(ctx: NodeContext): (n: Node)
    ensures n.state == New && n.ctx == ctx
  {
    Node(ctx, New)
  }

  /** `New` -> `Syncing`; always succeeds. */
  function Start(n: Node): (r: Result<Node>)
    requires n.state == New
    ensures r.Ok? && r.value.state == Syncing && r.value.ctx == n.ctx
    ensures Rank(r.value.state) == Rank(n.state) + 1
  {
    Ok(Node(n.ctx, Syncing))
  }

  /** `Syncing` -> `Running`; always succeeds. */
  function Run(n: Node): (r: Result<Node>)
    requires n.state == Syncing
    ensures r.Ok? && r.value.state == Running && r.value.ctx == n.ctx
    ensures Rank(r.value.state) == Rank(n.state) + 1
  {
    Ok(Node(n.ctx, Running))
  }

  /** `Running` -> `Leaving`; always succeeds. */
  function Stop(n: Node): (r: Result<Node>)
    requires n.state == Running
    ensures r.Ok? && r.value.state == Leaving && r.value.ctx == n.ctx
    ensures Rank(r.value.state) == Rank(n.state) + 1
  {
    Ok(Node(n.ctx, Leaving))
  }

  /**
   * `Leaving` -> `Removed` and `Failed` -> `Removed`; always succeeds.
   * The two source-level `remove`s have the same effect, so one function
   * defined on both states models them.
   */
  function Remove(n: Node): (r: Result<Node>)
    requires n.state == Leaving || n.state.Failed?
    ensures r.Ok? && r.value.state == Removed && r.value.ctx == n.ctx
    ensures Rank(r.value.state) > Rank(n.state)
  {
    Ok(Node(n.ctx, Removed))
  }

  /** The failure reason of a failed node. */
  function Reason(n: Node): (r: string)
    requires n.state.Failed?
    ensures n.state == Failed(r)
  {
    n.state.reason
  }

  /**
   * Any active state -> `Failed(reason)`. Infallible: it yields a node, not
   * a `Result`, and the reason is kept verbatim.
   */
  function Fail(n: Node, reason: string): (r: Node)
    requires IsActive(n.state)
    ensures r.state.Failed? && Reason(r) == reason
    ensures r.ctx == n.ctx
    ensures Rank(r.state) > Rank(n.state)
  {
    Node(n.ctx, Failed(reason))
  }
}
