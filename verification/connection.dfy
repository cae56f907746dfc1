/**
 * The canvas's `validateConnection` hook, consulted while the user drags a
 * new edge: only an `output` port may be joined to an `input` port, and an
 * input port that already has an incoming edge refuses a second one.
 */
module Connection {
  import opened Wrappers
  import opened Text
  import opened Seqs
  import opened Graph

  /**
   * A drag the canvas asks about. A port is absent when the mouse is not
   * over one; the canvas only ever offers a target cell.
   */
  datatype Attempt = Attempt(sourceCell: string, sourcePort: Option<string>, targetCell: string, targetPort: Option<string>)

  /** `sourcePort?.includes('output') && targetPort?.includes('input') || false`. */
  predicate Directed(a: Attempt) {
    a.sourcePort.Some? && Contains(a.sourcePort.value, "output")
    && a.targetPort.Some? && Contains(a.targetPort.value, "input")
  }

  /** An incoming edge of `cell` whose target port id is `port`. */
  predicate Occupies(e: Edge, cell: string, port: string) {
    e.tgtCell == cell && e.tgtPort == port
  }

  /** `validateConnection`: the direction check, then the occupied-port check. */
  function ValidateConnection(es: seq<Edge>, a: Attempt): (ok: bool)
    ensures ok ==> a.sourcePort.Some? && a.targetPort.Some?
  {
    if !Directed(a) then false
    else !Any(es, (e: Edge) => Occupies(e, a.targetCell, a.targetPort.value))
  }

  /** Exactly the drags from an output-named port to a free input-named port are accepted. */
  lemma ValidateConnectionSpec(es: seq<Edge>, a: Attempt)
    ensures ValidateConnection(es, a) <==>
      Directed(a) && forall i :: 0 <= i < |es| ==> !Occupies(es[i], a.targetCell, a.targetPort.value)
  {
    if Directed(a) {
      AnySpec(es, (e: Edge) => Occupies(e, a.targetCell, a.targetPort.value));
    }
  }

  /** The edge an accepted drag adds. */
  function EdgeOfAttempt(a: Attempt): Edge
    requires a.sourcePort.Some? && a.targetPort.Some?
  {
    Edge(a.sourceCell, a.sourcePort.value, a.targetCell, a.targetPort.value)
  }

  /** The edge list after one drag: the drag's edge is appended when the hook accepts it. */
  function Connect(es: seq<Edge>, a: Attempt): (r: seq<Edge>)
    ensures |r| <= |es| + 1
  {
    if ValidateConnection(es, a) then es + [EdgeOfAttempt(a)] else es
  }

  /** The edge list after a series of drags. */
  function ConnectAll(es: seq<Edge>, drags: seq<Attempt>): seq<Edge>
    decreases |drags|
  {
    if |drags| == 0 then es else ConnectAll(Connect(es, drags[0]), drags[1..])
  }

  /** No two edges end at the same port of the same cell. */
  predicate SingleFanIn(es: seq<Edge>) {
    forall i, j :: 0 <= i < j < |es| && es[i].tgtCell == es[j].tgtCell ==> es[i].tgtPort != es[j].tgtPort
  }

  /** Every edge leaves an output-named port and enters an input-named port. */
  predicate Directional(es: seq<Edge>) {
    forall i :: 0 <= i < |es| ==> Contains(es[i].srcPort, "output") && Contains(es[i].tgtPort, "input")
  }

  /** One guarded drag keeps both the single-fan-in and the direction invariant. */
  lemma ConnectKeepsInvariants(es: seq<Edge>, a: Attempt)
    requires SingleFanIn(es) && Directional(es)
    ensures SingleFanIn(Connect(es, a)) && Directional(Connect(es, a))
  {
    ValidateConnectionSpec(es, a);
  }

  /**
   * Edges drawn only through the hook, starting from edges that satisfy the
   * invariants (none at all, for instance), never give an input port two
   * incoming edges and always run from an output port to an input port.
   */
  lemma {:induction false} ConnectAllKeepsInvariants(es: seq<Edge>, drags: seq<Attempt>)
    requires SingleFanIn(es) && Directional(es)
    ensures SingleFanIn(ConnectAll(es, drags)) && Directional(ConnectAll(es, drags))
    decreases |drags|
  {
    if |drags| > 0 {
      ConnectKeepsInvariants(es, drags[0]);
      ConnectAllKeepsInvariants(Connect(es, drags[0]), drags[1..]);
    }
  }

  /** A drag with no port at either end is refused, whatever the edges. */
  lemma MissingPortRejected(es: seq<Edge>, a: Attempt)
    requires a.sourcePort.None? || a.targetPort.None?
    ensures Connect(es, a) == es
  {
  }

  /** A drag into an input port that already has an incoming edge is refused. */
  lemma OccupiedPortRejected(es: seq<Edge>, a: Attempt, i: int)
    requires 0 <= i < |es| && a.targetPort.Some?
    requires Occupies(es[i], a.targetCell, a.targetPort.value)
    ensures !ValidateConnection(es, a)
  {
    ValidateConnectionSpec(es, a);
  }
}
