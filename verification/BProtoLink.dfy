/** A message from the writer to the parser. */
module BProtoLink {
  import opened BProto
  import opened BProtoWriter
  import opened BProtoParser

  /**
   What Writer_Finish hands out, Parser_Init of the same schema accepts, and every entry then has exactly the
   written values to be got.
   */
  method Transfer(w: Writer, p: Parser)
    requires w.Valid() && p.schema == w.schema
    requires forall k :: 0 <= k < |w.schema| ==> CountOk(w.schema[k].cardinality, w.count[k])
    modifies p
    ensures p.Valid() && p.items == old(w.items)
    ensures forall k :: 0 <= k < |p.schema| ==> p.Left(k) == Values(p.schema, p.items, k)
  {
    var n := w.Finish();
    var ok := p.Init(w.out[..n]);
  }

  /** Getting an entry until Get finds nothing more returns all that was left of it, in order, and nothing else. */
  method Drain(p: Parser, k: nat) returns (values: seq<Value>)
    requires p.Valid() && k < |p.schema|
    modifies p`pos, p`next
    ensures p.Valid() && values == old(p.Left(k)) && p.Left(k) == [] && p.pos[k] == p.span[k]
    ensures forall j :: 0 <= j < |p.schema| && j != k ==> p.Left(j) == old(p.Left(j))
  {
    values := [];
    var found, v := p.Get(k);
    while found
      invariant p.Valid() && values + (if found then [v] else []) + p.Left(k) == old(p.Left(k))
      invariant !found ==> p.Left(k) == [] && p.pos[k] == p.span[k]
      invariant forall j :: 0 <= j < |p.schema| && j != k ==> p.Left(j) == old(p.Left(j))
      decreases (if found then 1 else 0) + |p.Left(k)|
    {
      values := values + [v];
      found, v := p.Get(k);
    }
  }
}
