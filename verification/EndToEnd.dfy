/** From the arguments of a remote emit to the arguments of the handler in the other process. */
module EndToEnd {
  import opened Bytes
  import opened Marshal
  import opened Copying
  import opened Packing
  import C = Connection
  import W = Worlds

  /** When a send whose payload is a packed argument list is reported as a success, its stage at the destination it was
      meant for has accepted one event for it, which is pending, loaded or started there, exactly once, and which
      unpacks, in whatever heap the handler has by then, to the same arguments up to the length that Lua gives their
      table, and so to all of them when none is nil. */
  lemma SuccessDelivers(w: W.World, actions: seq<W.Action>, v: W.World, j: nat,
                        h: Heap, args: seq<Val>, entries: seq<(Val, Val)>, dst: nat, stage: nat, d: Heap, n: nat)
    requires W.Start(w) && W.Run(w, actions, v) && j < |W.Sends(actions)|
    requires HeapOk(h) && AllOk(h, args) && ArgTable(args, entries) && |h| + 1 < INT_LIMIT
    requires Pack(h, args, entries).Encoded?
    requires W.Sends(actions)[j] == (dst, C.Frame(stage, Pack(h, args, entries).bytes))
    ensures |v.net.sends| == |W.Sends(actions)| && dst < |v.nodes|
    ensures var x := v.net.sends[j];
            && (x.place.At? ==>
                  x.place.conn < |v.net.conns| && x.place.index < |v.net.conns[x.place.conn].verdicts|)
            && (W.Told(v.net, x) == C.Success ==>
                  && W.LabelOf(v, x).Some? && W.HeldOnce(v.nodes[dst], stage, W.LabelOf(v, x).value)
                  && x.place.At? && x.place.index < |v.net.conns[x.place.conn].handled|
                  && Arrives(v.net.conns[x.place.conn].handled[x.place.index].frame.payload, h, args, d, n))
  {
    hide HeapOk, AllOk, ArgTable, Pack, Unpacked, Delivered, KeepsSharing, Border, W.Run, W.Start, W.HeldOnce;
    W.SuccessIsHeld(w, actions, v, j);
    PackedDelivers(h, args, entries, d, n);
  }

  /** These bytes hand over the arguments, up to a length that Lua may take for their table. */
  ghost predicate Arrives(bytes: seq<byte>, h: Heap, args: seq<Val>, d: Heap, n: nat) {
    var r := Unpacked(bytes, d, n);
    && r.Arrived? && (Border(bytes, d, n) <==> ArgBorder(args, n))
    && (ArgBorder(args, n) ==> Delivered(h, args[..n], r.heap, r.vals) && KeepsSharing(args[..n], r.vals))
    && (ArgBorder(args, n) && NoNil(args) ==> n == |args|)
  }
}
