/** The conversions of the UA client, composed of the two converters. */
module ClientConversion {
  import opened Wrappers
  import opened CTypes
  import opened NodeIds
  import opened UaValues
  import opened UaConversion
  import opened BinaryConversion
  import opened RoundTrips
  import ConverterUa2IO
  import ConverterBin2IO
  import I = IoValues
  import B = BinaryValues

  ghost function Ua2Bin(env: TypeEnv, v: Value, t: UaNodeId): Result<B.Value> {
    var x :- Ua2Io(env, v, t);
    Io2Bin(x)
  }

  ghost function Bin2Ua(env: TypeEnv, b: B.Value, t: UaNodeId, ns: int): Result<Value> {
    var x :- Bin2Io(b, ns);
    Io2Ua(env, x, t)
  }

  method ConvertUa2Bin(env: TypeEnv, v: Value, t: UaNodeId) returns (r: Result<B.Value>)
    ensures r == Ua2Bin(env, v, t)
  {
    var x := ConverterUa2IO.ConvertUa2Io(env, v, t);
    if x.Failure? {
      return Failure;
    }
    r := ConverterBin2IO.ConvertIo2Bin(x.value);
  }

  method ConvertBin2Ua(env: TypeEnv, b: B.Value, t: UaNodeId, ns: int) returns (r: Result<Value>)
    ensures r == Bin2Ua(env, b, t, ns)
  {
    var x := ConverterBin2IO.ConvertBin2Io(b, ns);
    if x.Failure? {
      return Failure;
    }
    r := ConverterUa2IO.ConvertIo2Ua(env, x.value, t);
  }

  /** Main result: reading a value from the server and writing it back through the binary protocol
      writes the same value exactly when it is safe for the wire; otherwise the write is refused or
      writes something else. */
  lemma ReadThenWrite(env: TypeEnv, v: Value, t: UaNodeId, ns: int)
    requires WellFormedEnv(env) && Holds(v)
    ensures (Ua2Bin(env, v, t).Success? && Bin2Ua(env, Ua2Bin(env, v, t).value, t, ns) == Success(v))
      <==> Safe(OverWire(ns), env, v, t)
  {
    UaRoundTrip(OverWire(ns), env, v, t);
  }

  /** The checks of the unsigned destinations, written with the exponents 15 and 31, enforce no
      upper bound: every non-negative number is accepted, and it is kept exactly when it fits the
      destination type. A 32 bit number is not even checked before it becomes a `UInt32`: a negative
      one wraps around. */
  lemma UnsignedDestinations(i: int)
    ensures IoScalar2Ua(I.Long(i), UINT16).Success? <==> i >= 0
    ensures IoScalar2Ua(I.Long(i), UINT16) == Success(UInt16(i)) <==> 0 <= i < U16
    ensures IoScalar2Ua(I.LLong(i), UINT32).Success? <==> i >= 0
    ensures IoScalar2Ua(I.LLong(i), UINT32) == Success(UInt32(i)) <==> 0 <= i < U32
    ensures IoScalar2Ua(I.Long(i), UINT32).Success?
    ensures IoScalar2Ua(I.Long(i), UINT32) == Success(UInt32(i)) <==> 0 <= i < U32
    ensures -U32 <= i < 0 ==> IoScalar2Ua(I.Long(i), UINT32) == Success(UInt32(i + U32))
    ensures IoScalar2Ua(I.Long(0x8000), UINT16) == Success(UInt16(0x8000))
    ensures IoScalar2Ua(I.Long(U16), UINT16) == Success(UInt16(0))
  {
    BoundNeverRejects(i);
    BoundNeverRejects(0x8000);
    BoundNeverRejects(U16);
  }
}
