/** The values that flow between the stages of the computation. */
module Records {
  import opened Wrappers

  /** The value `(old_weight, weight, targets)` held for one node id. The
      targets are `Some(s)` for the frozenset `s`; `None` stands for the empty
      list `[]` that `collect_weights` leaves when no frozenset reaches it. */
  datatype Node = Node(oldWeight: real, weight: real, targets: Option<set<int>>)

  /** The keyed collection of nodes: one record per node id. */
  type Graph = map<int, Node>

  /** The value part `(old_contrib, weight_contrib, targets_carry)` of one
      tuple emitted by `distribute_weights`; `carry == None` is the `[]`
      placeholder of the forward and dangling tuples. */
  datatype Payload = Payload(oldContrib: real, weightContrib: real, carry: Option<set<int>>)

  /** One emitted tuple: the node it is addressed to and its payload. */
  datatype Message = Message(dest: int, payload: Payload)

  /** The amount a payload adds to its recipient's new weight. */
  function Contrib(p: Payload): real
  {
    p.weightContrib
  }

  /** The amount a message adds to its recipient's new weight. */
  function MessageContrib(m: Message): real
  {
    m.payload.weightContrib
  }

  /** The recipients of a list of messages, in order. */
  function Destinations(ms: seq<Message>): (ds: seq<int>)
    ensures |ds| == |ms|
    ensures forall j :: 0 <= j < |ms| ==> ds[j] == ms[j].dest
  {
    if ms == [] then [] else Destinations(ms[..|ms| - 1]) + [ms[|ms| - 1].dest]
  }
}
