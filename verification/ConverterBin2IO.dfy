/** The converter between the internal interface and the binary protocol, with the loops that fill
    its vectors and maps and pick the type of nested arrays. Each method computes what
    `BinaryConversion` specifies. */
module ConverterBin2IO {
  import opened Wrappers
  import opened CTypes
  import opened NodeIds
  import opened BinaryConversion
  import I = IoValues
  import B = BinaryValues

  // ---- Binary to internal interface ----

  method ConvertBin2Io(b: B.Value, destNs: int) returns (r: Result<I.Value>)
    ensures r == Bin2Io(b, destNs)
    decreases b, 1
  {
    match b
    case Array(_, _) => r := ConvertBin2IoArrayValue(b, destNs);
    case Struct(_, _) => r := ConvertBin2IoStructureValue(b, destNs);
    case _ => r := Bin2Io(b, destNs);
  }

  /** Characters are copied into a buffer that is then read as a NUL-terminated string. */
  method CopyChars(elems: seq<B.Value>) returns (str: string)
    ensures str == CString(B.CharsOf(elems))
    ensures NulFree(str)
  {
    var buffer: string := [];
    for i := 0 to |elems|
      invariant buffer == B.CharsOf(elems)[..i]
    {
      buffer := buffer + [if elems[i].Char? then elems[i].c else '\0'];
    }
    str := CString(buffer);
  }

  method CopyBytes(elems: seq<B.Value>) returns (bytes: seq<int>)
    ensures bytes == B.BytesOf(elems)
  {
    bytes := [];
    for i := 0 to |elems|
      invariant bytes == B.BytesOf(elems)[..i]
    {
      bytes := bytes + [if elems[i].Byte? then elems[i].i else 0];
    }
  }

  /** One round of the retagging. */
  lemma RetagNext(t: I.Type, elems: seq<I.Value>, x: I.Value)
    ensures Retag(t, elems + [x]) ==
      if Retag(t, elems) == I.TArray && I.IsScalar(x) then I.TypeOf(x) else Retag(t, elems)
  {
    assert (elems + [x])[..|elems|] == elems;
  }

  method ConvertBin2IoArrayValue(b: B.Value, destNs: int) returns (r: Result<I.Value>)
    requires b.Array?
    ensures r == Bin2Io(b, destNs)
    decreases b, 0
  {
    if b.elemType == B.TChar {
      var str := CopyChars(b.elems);
      return Success(I.String(Some(str)));
    }
    if b.elemType == B.TByte {
      var bytes := CopyBytes(b.elems);
      return Success(I.ByteString(Some(bytes)));
    }
    if BinArrayType2Io(b.elemType).Failure? {
      return Failure;
    }
    var arrayType := BinArrayType2Io(b.elemType).value;
    var elems: seq<I.Value> := [];
    for i := 0 to |b.elems|
      invariant |elems| == i
      invariant forall j | 0 <= j < i :: Bin2Io(b.elems[j], destNs) == Success(elems[j])
      invariant arrayType == Retag(BinArrayType2Io(b.elemType).value, elems)
    {
      var x := ConvertBin2Io(b.elems[i], destNs);
      if x.Failure? {
        return Failure;
      }
      RetagNext(BinArrayType2Io(b.elemType).value, elems, x.value);
      if arrayType == I.TArray && I.IsScalar(x.value) {
        arrayType := I.TypeOf(x.value);
      }
      elems := elems + [x.value];
    }
    r := Success(I.Array(arrayType, elems));
    assert elems == Bin2Io(b, destNs).value.elems;
  }

  method ConvertBin2IoStructureValue(b: B.Value, destNs: int) returns (r: Result<I.Value>)
    requires b.Struct?
    ensures r == Bin2Io(b, destNs)
    decreases b, 0
  {
    var fieldData: map<string, I.Value> := map[];
    var rest := b.fields.Keys;
    while rest != {}
      invariant rest <= b.fields.Keys && fieldData.Keys == b.fields.Keys - rest
      invariant forall k | k in fieldData :: Bin2Io(b.fields[k], destNs) == Success(fieldData[k])
      decreases |rest|
    {
      var name :| name in rest;
      var x := ConvertBin2Io(b.fields[name], destNs);
      if x.Failure? {
        return Failure;
      }
      fieldData := fieldData[name := x.value];
      rest := rest - {name};
    }
    r := Success(I.Structure(BinId2Io(b.typeId, destNs), fieldData));
    assert fieldData == Bin2Io(b, destNs).value.fields;
  }

  // ---- Internal interface to binary ----

  method ConvertIo2Bin(x: I.Value) returns (r: Result<B.Value>)
    ensures r == Io2Bin(x)
    decreases x, 1
  {
    match x
    case Array(_, _) => r := ConvertIo2BinArrayValue(x);
    case Structure(_, _) => r := ConvertIo2BinStructureValue(x);
    case String(s) =>
      var chars := NewCharArray(OrEmpty(s));
      r := Success(chars);
    case LocalizedText(_, text) =>
      var chars := NewCharArray(OrEmpty(text));
      r := Success(chars);
    case NodeIdValue(n) =>
      var chars := NewCharArray(IoIdText(n));
      r := Success(chars);
    case ByteString(s) =>
      var bytes := NewByteArray(OrEmpty(s));
      r := Success(bytes);
    case _ => r := Io2Bin(x);
  }

  method NewCharArray(str: string) returns (b: B.Value)
    ensures b == B.CharArray(str)
    ensures B.WellFormed(b) && B.CharsOf(b.elems) == str
  {
    var elements: seq<B.Value> := [];
    for i := 0 to |str|
      invariant |elements| == i && forall j | 0 <= j < i :: elements[j] == B.Char(str[j])
    {
      elements := elements + [B.Char(str[i])];
    }
    b := B.Array(B.TChar, elements);
  }

  method NewByteArray(bytes: seq<int>) returns (b: B.Value)
    ensures b == B.ByteArray(bytes)
    ensures B.WellFormed(b) && B.BytesOf(b.elems) == bytes
  {
    var elements: seq<B.Value> := [];
    for i := 0 to |bytes|
      invariant |elements| == i && forall j | 0 <= j < i :: elements[j] == B.Byte(bytes[j])
    {
      elements := elements + [B.Byte(bytes[i])];
    }
    b := B.Array(B.TByte, elements);
  }

  method ConvertIo2BinArrayValue(x: I.Value) returns (r: Result<B.Value>)
    requires x.Array?
    ensures r == Io2Bin(x)
    decreases x, 0
  {
    if IoArrayType2Bin(x.elemType).Failure? {
      return Failure;
    }
    var elements: seq<B.Value> := [];
    for i := 0 to |x.elems|
      invariant |elements| == i && forall j | 0 <= j < i :: Io2Bin(x.elems[j]) == Success(elements[j])
    {
      var b := ConvertIo2Bin(x.elems[i]);
      if b.Failure? {
        return Failure;
      }
      elements := elements + [b.value];
    }
    r := Success(B.Array(IoArrayType2Bin(x.elemType).value, elements));
    assert elements == Io2Bin(x).value.elems;
  }

  method ConvertIo2BinStructureValue(x: I.Value) returns (r: Result<B.Value>)
    requires x.Structure?
    ensures r == Io2Bin(x)
    decreases x, 0
  {
    var fieldData: map<string, B.Value> := map[];
    var rest := x.fields.Keys;
    while rest != {}
      invariant rest <= x.fields.Keys && fieldData.Keys == x.fields.Keys - rest
      invariant forall k | k in fieldData :: Io2Bin(x.fields[k]) == Success(fieldData[k])
      decreases |rest|
    {
      var name :| name in rest;
      var b := ConvertIo2Bin(x.fields[name]);
      if b.Failure? {
        return Failure;
      }
      fieldData := fieldData[name := b.value];
      rest := rest - {name};
    }
    r := Success(B.Struct(IoId2Bin(x.typeId), fieldData));
    assert fieldData == Io2Bin(x).value.fields;
  }
}
