/**
 * The managed side's choice of codec: a protocol and whether the payload is marshaled
 * (carries its own protocol header) select one of six serializers.
 */
module SerializerFactory {
  import opened Wrappers

  /** The protocols of the codec; the factory knows three of them. */
  datatype ProtocolType = CompactProtocol | FastProtocol | SimpleProtocol | OtherProtocol(code: int)

  predicate Supported(p: ProtocolType)
  {
    p.CompactProtocol? || p.FastProtocol? || p.SimpleProtocol?
  }

  /** The six serializers: one plain and one marshaling per supported protocol. */
  datatype Serializer =
    | CompactBinarySerializer | FastBinarySerializer | SimpleBinarySerializer
    | CompactBinaryMarshaler | FastBinaryMarshaler | SimpleBinaryMarshaler
  {
    /** The ProtocolType getter: fixed per serializer. */
    function Protocol(): (p: ProtocolType)
      ensures Supported(p)
    {
      match this
      case CompactBinarySerializer | CompactBinaryMarshaler => CompactProtocol
      case FastBinarySerializer | FastBinaryMarshaler => FastProtocol
      case SimpleBinarySerializer | SimpleBinaryMarshaler => SimpleProtocol
    }

    /** The IsMarshaled getter: true exactly for the marshalers. */
    predicate IsMarshaled()
    {
      CompactBinaryMarshaler? || FastBinaryMarshaler? || SimpleBinaryMarshaler?
    }
  }

  /** SerializerFactory.Create: the serializer for a supported protocol, else "Unknown protocol.". */
  function Create(protocol: ProtocolType, marshal: bool): (r: Result<Serializer>)
    ensures r.Ok? <==> Supported(protocol)
    ensures r.Err? ==> r.error == UnknownProtocol
  {
    match protocol
    case CompactProtocol => Ok(if marshal then CompactBinaryMarshaler else CompactBinarySerializer)
    case FastProtocol => Ok(if marshal then FastBinaryMarshaler else FastBinarySerializer)
    case SimpleProtocol => Ok(if marshal then SimpleBinaryMarshaler else SimpleBinarySerializer)
    case OtherProtocol(_) => Err(UnknownProtocol)
  }

  /** What Create returns reports the protocol and the marshal flag it was asked for. */
  lemma CreateReportsRequest(protocol: ProtocolType, marshal: bool)
    requires Supported(protocol)
    ensures Create(protocol, marshal).Ok?
    ensures Create(protocol, marshal).value.Protocol() == protocol
    ensures Create(protocol, marshal).value.IsMarshaled() == marshal
  {
  }

  /** Every serializer is the one Create selects for its own protocol and flag. */
  lemma CreateSelectsEach(s: Serializer)
    ensures Create(s.Protocol(), s.IsMarshaled()) == Ok(s)
  {
  }

  /** Distinct requests give distinct serializers. */
  lemma CreateInjective(p1: ProtocolType, m1: bool, p2: ProtocolType, m2: bool)
    requires Create(p1, m1).Ok? && Create(p1, m1) == Create(p2, m2)
    ensures p1 == p2 && m1 == m2
  {
    CreateReportsRequest(p1, m1);
    CreateReportsRequest(p2, m2);
  }
}
