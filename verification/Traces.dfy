/**
 The operations of an eviction algorithm (pkg/eviction/eviction.go) and what a sequence of them says
 about a key, without looking at any algorithm's state.
 */
module Traces {
  import opened Items

  type Value = string

  datatype Op = GetOp(k: string) | SetOp(k: string, v: Value) | DeleteOp(k: string) | EvictOp

  predicate Accesses(op: Op, k: string) {
    op == GetOp(k) || (op.SetOp? && op.k == k)
  }

  /** The value of the latest Set of `k`. */
  function LastSet(ops: seq<Op>, k: string): Option<Value> {
    if ops == [] then None
    else
      var op := ops[|ops| - 1];
      if op.SetOp? && op.k == k then Some(op.v) else LastSet(ops[..|ops| - 1], k)
  }

  /** One past the position of the latest operation that accesses `k`, 0 when there is none. */
  function LastUse(ops: seq<Op>, k: string): nat {
    if ops == [] then 0
    else if Accesses(ops[|ops| - 1], k) then |ops|
    else LastUse(ops[..|ops| - 1], k)
  }

  lemma LastUseBelow(ops: seq<Op>, k: string)
    ensures LastUse(ops, k) <= |ops|
  {
  }

  /** The latest operation's key is the most recently used one, strictly. */
  lemma LastUseIsLatest(ops: seq<Op>, k: string)
    requires ops != []
    ensures LastUse(ops, k) <= |ops| && (LastUse(ops, k) == |ops| <==> Accesses(ops[|ops| - 1], k))
  {
    LastUseBelow(ops[..|ops| - 1], k);
  }

  lemma Snoc(ops: seq<Op>, op: Op, k: string)
    ensures !Accesses(op, k) ==> LastUse(ops + [op], k) == LastUse(ops, k) && LastSet(ops + [op], k) == LastSet(ops, k)
    ensures Accesses(op, k) ==> LastUse(ops + [op], k) == |ops| + 1
    ensures LastUse(ops, k) <= |ops|
    ensures LastSet(ops + [op], k) == if op.SetOp? && op.k == k then Some(op.v) else LastSet(ops, k)
  {
    assert (ops + [op])[..|ops|] == ops;
    LastUseBelow(ops, k);
  }
}
