/** What the converter between the internal interface and the binary protocol computes. The
    methods that compute it step by step are in `ConverterBin2IO`. */
module BinaryConversion {
  import opened Wrappers
  import opened CTypes
  import opened NodeIds
  import Decimals
  import I = IoValues
  import B = BinaryValues

  // ---- Internal interface to binary ----

  const NODE_ID_LABEL := "IODataProviderNamespace::NodeId[type="

  /** What a string stream holds after the parts have been put into it. */
  function Streamed(parts: seq<string>): string {
    if parts == [] then "" else parts[0] + Streamed(parts[1..])
  }

  /** `NodeId::toString` of the internal interface, the text a node id is sent as. */
  function IoIdText(n: IoNodeId): string {
    Streamed([NODE_ID_LABEL] +
      (match n.id
       case Number(k) => ["numeric,ns=", Decimals.Print(n.ns), ",value=", Decimals.Print(k)]
       case Name(s) => ["string,ns=", Decimals.Print(n.ns), ",value=", CString(s)]) +
      ["]"])
  }

  /** NULL texts and byte strings become empty. */
  function OrEmpty<T>(s: Option<seq<T>>): seq<T> {
    if s.None? then [] else s.value
  }

  function IoArrayType2Bin(t: I.Type): Result<B.Type> {
    match t
    case TBool => Success(B.TBoolean)
    case TSChar => Success(B.TByte)
    case TInt => Success(B.TShort)
    case TUInt => Success(B.TInt)
    case TLong => Success(B.TInt)
    case TULong => Success(B.TLong)
    case TLLong => Success(B.TLong)
    case TFloat => Success(B.TFloat)
    case TDouble => Success(B.TDouble)
    case TString => Success(B.TArray)
    case TByteString => Success(B.TArray)
    case TLocalizedText => Success(B.TArray)
    case TVariant => Success(B.TArray)
    case TStructure => Success(B.TStruct)
    case _ => Failure
  }

  function Io2Bin(x: I.Value): Result<B.Value> {
    match x
    case Bool(b) => Success(B.Boolean(b))
    case SChar(i) => Success(B.Byte(i))
    case Char(c) => Success(B.Char(c))
    case Int(i) => Success(B.Short(i))
    case UInt(i) => Success(B.Int(i))
    case Long(i) => Success(B.Int(i))
    case ULong(i) => Success(B.Long(ToSigned(i, U64)))
    case LLong(i) => Success(B.Long(i))
    case ULLong(_) => Failure
    case Float(f) => Success(B.Float(f))
    case Double(f) => Success(B.Double(f))
    case String(s) => Success(B.CharArray(OrEmpty(s)))
    case ByteString(s) => Success(B.ByteArray(OrEmpty(s)))
    case LocalizedText(_, text) => Success(B.CharArray(OrEmpty(text)))
    case NodeIdValue(n) => Success(B.CharArray(IoIdText(n)))
    case Array(t, elems) =>
      var bt :- IoArrayType2Bin(t);
      if forall i | 0 <= i < |elems| :: Io2Bin(elems[i]).Success? then
        Success(B.Array(bt, seq(|elems|, i requires 0 <= i < |elems| => Io2Bin(elems[i]).value)))
      else Failure
    case Structure(id, fields) =>
      if forall k | k in fields :: Io2Bin(fields[k]).Success? then
        Success(B.Struct(IoId2Bin(id), map k | k in fields :: Io2Bin(fields[k]).value))
      else Failure
    case NullArray(_) => Failure
    case Other => Failure
  }

  // ---- Binary to internal interface ----

  function BinArrayType2Io(t: B.Type): Result<I.Type> {
    match t
    case TBoolean => Success(I.TBool)
    case TShort => Success(I.TInt)
    case TInt => Success(I.TLong)
    case TLong => Success(I.TLLong)
    case TFloat => Success(I.TFloat)
    case TDouble => Success(I.TDouble)
    case TArray => Success(I.TArray)
    case TStruct => Success(I.TStructure)
    case _ => Failure
  }

  /** The array type after the element loop: an array of arrays takes the type of its first element
      that has become a scalar. */
  function Retag(t: I.Type, elems: seq<I.Value>): I.Type {
    if elems == [] then t
    else
      var r := Retag(t, elems[..|elems| - 1]);
      if r == I.TArray && I.IsScalar(elems[|elems| - 1]) then I.TypeOf(elems[|elems| - 1]) else r
  }

  function Bin2Io(b: B.Value, destNs: int): Result<I.Value> {
    match b
    case Boolean(v) => Success(I.Bool(v))
    case Byte(i) => Success(I.SChar(i))
    case Char(c) => Success(I.Char(c))
    case Short(i) => Success(I.Int(i))
    case Int(i) => Success(I.Long(i))
    case Long(i) => Success(I.LLong(i))
    case Float(f) => Success(I.Float(f))
    case Double(f) => Success(I.Double(f))
    case Array(t, elems) =>
      if t == B.TChar then Success(I.String(Some(CString(B.CharsOf(elems)))))
      else if t == B.TByte then Success(I.ByteString(Some(B.BytesOf(elems))))
      else
        var it :- BinArrayType2Io(t);
        if forall i | 0 <= i < |elems| :: Bin2Io(elems[i], destNs).Success? then
          var ios := seq(|elems|, i requires 0 <= i < |elems| => Bin2Io(elems[i], destNs).value);
          Success(I.Array(Retag(it, ios), ios))
        else Failure
    case Struct(id, fields) =>
      if forall k | k in fields :: Bin2Io(fields[k], destNs).Success? then
        Success(I.Structure(BinId2Io(id, destNs), map k | k in fields :: Bin2Io(fields[k], destNs).value))
      else Failure
  }
}
