/** `collect_weights`, the reduce phase of one round: the values grouped
    under one node id are folded into that node's next
    `(old_weight, weight, targets)`. */
module Collection {
  import opened Wrappers
  import opened Sequences
  import opened Records

  /** What `v[i]` holds at run time, as far as the type tests of
      `collect_weights` can tell: a number, a frozenset, or the `[]` list
      that is neither. */
  datatype Field = Number(x: real) | Frozen(s: set<int>) | ListValue

  /** Component `i` of a value `(old_contrib, weight_contrib, carry)`. */
  function Slot(v: Payload, i: int): (f: Field)
    requires 0 <= i <= 2
    ensures i == 0 ==> f == Number(v.oldContrib)
    ensures i == 1 ==> f == Number(v.weightContrib)
    ensures i == 2 ==> (f.Frozen? <==> v.carry.Some?) && (f.Frozen? ==> f.s == v.carry.value)
  {
    if i == 0 then Number(v.oldContrib)
    else if i == 1 then Number(v.weightContrib)
    else match v.carry
      case Some(s) => Frozen(s)
      case None => ListValue
  }

  /** The value `old` is last assigned: the last nonzero first component,
      or None while it is still unbound. */
  function LastOld(values: seq<Payload>): Option<real>
  {
    if values == [] then None
    else if values[|values| - 1].oldContrib != 0.0 then Some(values[|values| - 1].oldContrib)
    else LastOld(values[..|values| - 1])
  }

  /** The value `tar` ends with: the last frozenset among the values, or
      None for the initial `[]`. */
  function LastCarry(values: seq<Payload>): Option<set<int>>
  {
    if values == [] then None
    else if values[|values| - 1].carry.Some? then values[|values| - 1].carry
    else LastCarry(values[..|values| - 1])
  }

  /** What `collect_weights` returns for one group, None being the
      UnboundLocalError raised when `old` was never assigned. */
  function Collect(values: seq<Payload>): Option<Node>
  {
    match LastOld(values)
    case None => None
    case Some(o) => Some(Node(o, SumOf(values, Contrib), LastCarry(values)))
  }

  /** The loops of `collect_weights`: every value, and within it every
      component `i <= 2`, has its type inspected; a frozenset replaces
      `tar`, a nonzero number at `i == 0` replaces `old`, and a number at
      `i >= 1` is added to `sumw`. */
  method CollectWeights(values: seq<Payload>) returns (r: Option<Node>)
    ensures r == Collect(values)
  {
    var sumw := 0.0;
    var tar: Option<set<int>> := None;
    var oldWeight: Option<real> := None;
    var j := 0;
    while j < |values|
      invariant 0 <= j <= |values|
      invariant oldWeight == LastOld(values[..j])
      invariant sumw == SumOf(values[..j], Contrib)
      invariant tar == LastCarry(values[..j])
    {
      var v := values[j];
      assert values[..j + 1][..j] == values[..j];
      assert values[..j + 1][j] == v;
      var i := 0;
      while i <= 2
        invariant 0 <= i <= 3
        invariant oldWeight == if i == 0 then LastOld(values[..j]) else LastOld(values[..j + 1])
        invariant sumw == SumOf(values[..j], Contrib) + (if i >= 2 then v.weightContrib else 0.0)
        invariant tar == if i <= 2 then LastCarry(values[..j]) else LastCarry(values[..j + 1])
      {
        match Slot(v, i) {
          case Frozen(s) =>
            tar := Some(s);
          case Number(x) =>
            if i == 0 {
              if x != 0.0 {
                oldWeight := Some(x);
              }
            } else {
              sumw := sumw + x;
            }
          case ListValue =>
        }
        i := i + 1;
      }
      j := j + 1;
    }
    assert values[..j] == values;
    match oldWeight {
      case None =>
        r := None;
      case Some(o) =>
        r := Some(Node(o, sumw, tar));
    }
  }

  /** `collect_weights` fails exactly when every value of the group has a
      zero first component. */
  lemma {:induction false} CollectFails(values: seq<Payload>)
    ensures Collect(values).None? <==> forall v :: v in values ==> v.oldContrib == 0.0
  {
    if values != [] {
      var init := values[..|values| - 1];
      assert values == init + [values[|values| - 1]];
      CollectFails(init);
    }
  }

  /** `self` is the one value of the group that can set `old` or `tar`:
      every other value has a zero first component and carries `[]`. */
  ghost predicate SingleSource(values: seq<Payload>, self: Payload)
  {
    self in values && self.oldContrib != 0.0 &&
    forall v :: v in values && v != self ==> v.oldContrib == 0.0 && v.carry.None?
  }

  lemma {:induction false} LastOldOfSource(values: seq<Payload>, self: Payload)
    requires self.oldContrib != 0.0
    requires forall v :: v in values && v != self ==> v.oldContrib == 0.0
    ensures LastOld(values) == if self in values then Some(self.oldContrib) else None
  {
    if values != [] {
      var init := values[..|values| - 1];
      assert values == init + [values[|values| - 1]];
      LastOldOfSource(init, self);
    }
  }

  lemma {:induction false} LastCarryOfSource(values: seq<Payload>, self: Payload)
    requires forall v :: v in values && v != self ==> v.carry.None?
    ensures LastCarry(values) == if self in values then self.carry else None
  {
    if values != [] {
      var init := values[..|values| - 1];
      assert values == init + [values[|values| - 1]];
      LastCarryOfSource(init, self);
    }
  }

  /** A group with a single source yields that source's first component as
      the old weight and its targets, and the sum of all second components
      as the new weight. */
  lemma CollectSingleSource(values: seq<Payload>, self: Payload)
    requires SingleSource(values, self)
    ensures Collect(values) == Some(Node(self.oldContrib, SumOf(values, Contrib), self.carry))
  {
    LastOldOfSource(values, self);
    LastCarryOfSource(values, self);
  }

  /** `groupByKey` hands a group over in no particular order; with a single
      source the result does not depend on that order. */
  lemma CollectOrderFree(a: seq<Payload>, b: seq<Payload>, self: Payload)
    requires SingleSource(a, self)
    requires multiset(a) == multiset(b)
    ensures Collect(a) == Collect(b)
  {
    assert forall v :: v in a <==> v in b by {
      forall v ensures v in a <==> v in b {
        assert v in a <==> v in multiset(a);
        assert v in b <==> v in multiset(b);
      }
    }
    CollectSingleSource(a, self);
    CollectSingleSource(b, self);
    SumOfPermutation(a, b, Contrib);
  }
}
