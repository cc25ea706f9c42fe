/** The three spellings of a node id: the one of the UA SDK, the one of the internal interface
    and the one of the binary protocol. */
module NodeIds {
  import opened Wrappers
  import opened CTypes

  datatype Identifier = Numeric(n: nat) | Text(s: string) | Guid(g: nat) | Opaque(bytes: seq<nat>)

  datatype UaNodeId = UaNodeId(ns: nat, id: Identifier)
  {
    /** The SDK answers 0 for an id that is not numeric. */
    function IdentifierNumeric(): nat {
      if id.Numeric? then id.n else 0
    }
  }

  datatype PlainIdentifier = Number(n: nat) | Name(s: string)

  /** Node id of the internal interface. */
  datatype IoNodeId = IoNodeId(ns: int, id: PlainIdentifier)

  /** Node id of the binary protocol; a negative namespace means "the namespace of the receiver". */
  datatype ParamId = ParamId(ns: int, id: PlainIdentifier)

  function UaId2Io(t: UaNodeId): Result<IoNodeId> {
    match t.id
    case Numeric(n) => Success(IoNodeId(t.ns, Number(n)))
    case Text(s) => Success(IoNodeId(t.ns, Name(CString(s))))
    case _ => Failure
  }

  function IoId2Ua(n: IoNodeId): UaNodeId {
    UaNodeId(ToUnsigned(n.ns, U16), match n.id case Number(k) => Numeric(k) case Name(s) => Text(CString(s)))
  }

  function IoId2Bin(n: IoNodeId): ParamId {
    ParamId(n.ns, n.id)
  }

  function BinId2Io(p: ParamId, destNs: int): IoNodeId {
    IoNodeId(if p.ns >= 0 then p.ns else destNs, p.id)
  }

  /** A UA node id survives the trip to the binary protocol and back exactly when it is numeric or
      a string id without an embedded NUL. */
  lemma NodeIdRoundTrip(t: UaNodeId, destNs: int)
    requires t.ns < U16
    ensures (UaId2Io(t).Success? && IoId2Ua(BinId2Io(IoId2Bin(UaId2Io(t).value), destNs)) == t)
      <==> (t.id.Numeric? || (t.id.Text? && NulFree(t.id.s)))
  {
  }

  /** No id on either side of the internal interface holds a NUL. */
  lemma TextsAreCut(t: UaNodeId, n: IoNodeId)
    ensures UaId2Io(t).Success? && t.id.Text? ==>
      UaId2Io(t).value.id.Name? && NulFree(UaId2Io(t).value.id.s) && UaId2Io(t).value.id.s <= t.id.s
    ensures n.id.Name? ==> IoId2Ua(n).id.Text? && NulFree(IoId2Ua(n).id.s) && IoId2Ua(n).id.s <= n.id.s
  {
  }
}
