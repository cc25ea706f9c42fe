/** Which values survive the trip over the binary protocol, and as what. */
module BinaryRoundTrip {
  import opened Wrappers
  import opened CTypes
  import opened NodeIds
  import opened BinaryConversion
  import I = IoValues
  import B = BinaryValues

  predicate SendableTag(t: I.Type) {
    t !in {I.TChar, I.TULLong, I.TArray, I.TNodeId, I.TOther}
  }

  /** What the protocol can carry: no unsigned 64 bit integer, no NULL array, no array of
      characters, of unsigned 64 bit integers, of arrays or of node ids. */
  predicate Sendable(x: I.Value) {
    match x
    case ULLong(_) => false
    case NullArray(_) => false
    case Other => false
    case Array(t, elems) => SendableTag(t) && forall i | 0 <= i < |elems| :: Sendable(elems[i])
    case Structure(_, fields) => forall k | k in fields :: Sendable(fields[k])
    case _ => true
  }

  /** An array of signed characters holds signed characters. */
  predicate WellFormed(x: I.Value) {
    match x
    case Array(t, elems) =>
      forall i | 0 <= i < |elems| :: WellFormed(elems[i]) && (t == I.TSChar ==> elems[i].SChar?)
    case Structure(_, fields) => forall k | k in fields :: WellFormed(fields[k])
    case _ => true
  }

  function NormalArrayType(t: I.Type): I.Type {
    match t
    case TUInt => I.TLong
    case TULong => I.TLLong
    case TString => I.TArray
    case TByteString => I.TArray
    case TLocalizedText => I.TArray
    case TVariant => I.TArray
    case _ => t
  }

  function NormalId(n: IoNodeId, destNs: int): IoNodeId {
    if n.ns >= 0 then n else IoNodeId(destNs, n.id)
  }

  /** What the receiver sees of a value: unsigned integers are widened, localized texts keep only
      their text, node ids become text, NULL becomes empty, strings end at the first NUL, arrays of
      signed characters become byte strings, and arrays of texts, byte strings or Variants take the
      type of their first scalar. */
  function Normal(x: I.Value, destNs: int): I.Value {
    match x
    case UInt(i) => I.Long(i)
    case ULong(i) => I.LLong(ToSigned(i, U64))
    case String(s) => I.String(Some(CString(OrEmpty(s))))
    case ByteString(s) => I.ByteString(Some(OrEmpty(s)))
    case LocalizedText(_, text) => I.String(Some(CString(OrEmpty(text))))
    case NodeIdValue(n) => I.String(Some(CString(IoIdText(n))))
    case Array(t, elems) =>
      if t == I.TSChar then I.ByteString(Some(SCharsOf(elems)))
      else
        var ns := seq(|elems|, i requires 0 <= i < |elems| => Normal(elems[i], destNs));
        I.Array(Retag(NormalArrayType(t), ns), ns)
    case Structure(id, fields) => I.Structure(NormalId(id, destNs), map k | k in fields :: Normal(fields[k], destNs))
    case _ => x
  }

  function SCharsOf(elems: seq<I.Value>): seq<int> {
    seq(|elems|, i requires 0 <= i < |elems| => if elems[i].SChar? then elems[i].i else 0)
  }

  lemma CharArrayBack(s: string, destNs: int)
    ensures Bin2Io(B.CharArray(s), destNs) == Success(I.String(Some(CString(s))))
  {
    assert B.CharsOf(B.CharArray(s).elems) == s;
  }

  lemma ByteArrayBack(s: seq<int>, destNs: int)
    ensures Bin2Io(B.ByteArray(s), destNs) == Success(I.ByteString(Some(s)))
  {
    assert B.BytesOf(B.ByteArray(s).elems) == s;
  }

  /** Main result: the sender refuses exactly the values that are not sendable, and whatever it
      sends arrives as the normal form. */
  lemma {:induction false} ArrivesAsNormal(x: I.Value, destNs: int)
    requires WellFormed(x)
    ensures Io2Bin(x).Success? <==> Sendable(x)
    ensures Sendable(x) ==> Bin2Io(Io2Bin(x).value, destNs) == Success(Normal(x, destNs))
    decreases x, 1
  {
    match x
    case String(s) => CharArrayBack(OrEmpty(s), destNs);
    case ByteString(s) => ByteArrayBack(OrEmpty(s), destNs);
    case LocalizedText(_, text) => CharArrayBack(OrEmpty(text), destNs);
    case NodeIdValue(n) => CharArrayBack(IoIdText(n), destNs);
    case Array(t, elems) => ArrayArrivesAsNormal(x, destNs);
    case Structure(id, fields) => StructureArrivesAsNormal(x, destNs);
    case _ =>
  }

  lemma {:induction false} StructureArrivesAsNormal(x: I.Value, destNs: int)
    requires x.Structure? && WellFormed(x)
    ensures Io2Bin(x).Success? <==> Sendable(x)
    ensures Sendable(x) ==> Bin2Io(Io2Bin(x).value, destNs) == Success(Normal(x, destNs))
    decreases x, 0
  {
    forall k | k in x.fields
      ensures Io2Bin(x.fields[k]).Success? <==> Sendable(x.fields[k])
      ensures Sendable(x.fields[k]) ==>
        Bin2Io(Io2Bin(x.fields[k]).value, destNs) == Success(Normal(x.fields[k], destNs))
    {
      ArrivesAsNormal(x.fields[k], destNs);
    }
    if Sendable(x) {
      FieldsArriveAsNormal(x, Io2Bin(x).value.fields, destNs);
    }
  }

  lemma FieldsArriveAsNormal(x: I.Value, sent: map<string, B.Value>, destNs: int)
    requires x.Structure? && sent.Keys == x.fields.Keys
    requires forall k | k in x.fields :: Bin2Io(sent[k], destNs) == Success(Normal(x.fields[k], destNs))
    ensures Bin2Io(B.Struct(IoId2Bin(x.typeId), sent), destNs) == Success(Normal(x, destNs))
  {
    var b := B.Struct(IoId2Bin(x.typeId), sent);
    assert Bin2Io(b, destNs).Success?;
    assert Bin2Io(b, destNs).value.fields == Normal(x, destNs).fields;
  }

  lemma {:induction false} ArrayArrivesAsNormal(x: I.Value, destNs: int)
    requires x.Array? && WellFormed(x)
    ensures Io2Bin(x).Success? <==> Sendable(x)
    ensures Sendable(x) ==> Bin2Io(Io2Bin(x).value, destNs) == Success(Normal(x, destNs))
    decreases x, 0
  {
    forall i | 0 <= i < |x.elems|
      ensures Io2Bin(x.elems[i]).Success? <==> Sendable(x.elems[i])
      ensures Sendable(x.elems[i]) ==> Bin2Io(Io2Bin(x.elems[i]).value, destNs) == Success(Normal(x.elems[i], destNs))
    {
      ArrivesAsNormal(x.elems[i], destNs);
    }
    if Sendable(x) {
      var b := Io2Bin(x).value;
      assert forall i | 0 <= i < |x.elems| :: b.elems[i] == Io2Bin(x.elems[i]).value;
      if x.elemType == I.TSChar {
        assert B.BytesOf(b.elems) == SCharsOf(x.elems);
      } else {
        assert Bin2Io(b, destNs).value.elems == Normal(x, destNs).elems;
      }
    }
  }

  // ---- Normal forms ----

  predicate PlainArrayType(t: I.Type) {
    t.TBool? || t.TInt? || t.TLong? || t.TLLong? || t.TFloat? || t.TDouble? || t.TStructure?
  }

  predicate TextType(t: I.Type) {
    t.TString? || t.TByteString?
  }

  /** The types of the scalars that binary values become. */
  predicate ReceivedScalarType(t: I.Type) {
    TextType(t) || t.TSChar? || t.TChar? || (PlainArrayType(t) && !t.TStructure?)
  }

  /** The values the protocol does not change. */
  predicate IsNormal(x: I.Value, destNs: int) {
    match x
    case Bool(_) => true
    case SChar(_) => true
    case Char(_) => true
    case Int(_) => true
    case Long(_) => true
    case LLong(_) => true
    case Float(_) => true
    case Double(_) => true
    case String(s) => s.Some? && NulFree(s.value)
    case ByteString(s) => s.Some?
    case Array(t, elems) =>
      && (forall i | 0 <= i < |elems| :: IsNormal(elems[i], destNs))
      && (PlainArrayType(t) || (TextType(t) && Retag(I.TArray, elems) == t))
    case Structure(id, fields) =>
      && (id.ns >= 0 || id.ns == destNs)
      && forall k | k in fields :: IsNormal(fields[k], destNs)
    case _ => false
  }

  /** A tag other than "array of arrays" is never replaced. */
  lemma {:induction false} RetagKeeps(t: I.Type, elems: seq<I.Value>)
    requires t != I.TArray
    ensures Retag(t, elems) == t
  {
    if elems != [] {
      RetagKeeps(t, elems[..|elems| - 1]);
    }
  }

  /** An array of arrays that is retagged takes the type of one of its scalars. */
  lemma {:induction false} RetagOfArrays(elems: seq<I.Value>)
    ensures Retag(I.TArray, elems) == I.TArray <==> forall i | 0 <= i < |elems| :: !I.IsScalar(elems[i])
    ensures Retag(I.TArray, elems) == I.TArray
      || exists i :: 0 <= i < |elems| && I.IsScalar(elems[i]) && I.TypeOf(elems[i]) == Retag(I.TArray, elems)
  {
    if elems != [] {
      var rest := elems[..|elems| - 1];
      RetagOfArrays(rest);
      if Retag(I.TArray, rest) == I.TArray {
        assert forall i | 0 <= i < |rest| :: !I.IsScalar(elems[i]);
        if I.IsScalar(elems[|elems| - 1]) {
          assert I.TypeOf(elems[|elems| - 1]) == Retag(I.TArray, elems);
        }
      } else {
        var i :| 0 <= i < |rest| && I.IsScalar(rest[i]) && I.TypeOf(rest[i]) == Retag(I.TArray, rest);
        assert elems[i] == rest[i];
      }
    }
  }

  /** Main result: the normal values are exactly the fixed points of the trip. */
  lemma {:induction false} NormalIffUnchanged(x: I.Value, destNs: int)
    ensures IsNormal(x, destNs) <==> Sendable(x) && Normal(x, destNs) == x
  {
    match x
    case Array(t, elems) =>
      forall i | 0 <= i < |elems|
        ensures IsNormal(elems[i], destNs) <==> Sendable(elems[i]) && Normal(elems[i], destNs) == elems[i]
      {
        NormalIffUnchanged(elems[i], destNs);
      }
      NormalArrayIffUnchanged(x, destNs);
    case Structure(id, fields) =>
      forall k | k in fields
        ensures IsNormal(fields[k], destNs) <==> Sendable(fields[k]) && Normal(fields[k], destNs) == fields[k]
      {
        NormalIffUnchanged(fields[k], destNs);
      }
      assert (forall k | k in fields :: Normal(fields[k], destNs) == fields[k])
        <==> Normal(x, destNs).fields == fields;
    case _ =>
  }

  /** When the tag of an array is not changed, its elements being normal. */
  lemma TagUnchanged(t: I.Type, elems: seq<I.Value>, destNs: int)
    requires t != I.TSChar && forall i | 0 <= i < |elems| :: IsNormal(elems[i], destNs)
    ensures PlainArrayType(t) || (TextType(t) && Retag(I.TArray, elems) == t)
      <==> IoArrayType2Bin(t).Success? && Retag(NormalArrayType(t), elems) == t
  {
    if NormalArrayType(t) == I.TArray {
      RetagOfArrays(elems);
      assert forall i | 0 <= i < |elems| :: IsNormal(elems[i], destNs) && I.TypeOf(elems[i]) != I.TLocalizedText;
    } else {
      RetagKeeps(NormalArrayType(t), elems);
    }
  }

  lemma NormalArrayIffUnchanged(x: I.Value, destNs: int)
    requires x.Array?
    requires forall i | 0 <= i < |x.elems| ::
      IsNormal(x.elems[i], destNs) <==> Sendable(x.elems[i]) && Normal(x.elems[i], destNs) == x.elems[i]
    ensures IsNormal(x, destNs) <==> Sendable(x) && Normal(x, destNs) == x
  {
    if x.elemType != I.TSChar {
      var n := Normal(x, destNs);
      assert (forall i | 0 <= i < |x.elems| :: Normal(x.elems[i], destNs) == x.elems[i]) <==> n.elems == x.elems;
      if forall i | 0 <= i < |x.elems| :: IsNormal(x.elems[i], destNs) {
        assert n.elems == x.elems;
        TagUnchanged(x.elemType, x.elems, destNs);
      }
    }
  }

  /** A type that a received array can have and that is sent as it is. */
  predicate ArrayTag(t: I.Type) {
    PlainArrayType(t) || TextType(t)
  }

  /** Elements that arrive as scalars: scalars, node ids, and arrays of signed characters. */
  predicate ArrivesScalar(e: I.Value) {
    I.IsScalar(e) || e.NodeIdValue? || (e.Array? && e.elemType == I.TSChar)
  }

  /** The first element that arrives as a scalar exists and is no single character. */
  predicate FirstShowsType(elems: seq<I.Value>) {
    exists i :: 0 <= i < |elems| && ArrivesScalar(elems[i]) && !elems[i].SChar? && !elems[i].Char?
      && forall j | 0 <= j < i :: !ArrivesScalar(elems[j])
  }

  /** Each array of texts, byte strings or Variants shows a type that arrays may have. */
  predicate Settles(x: I.Value) {
    match x
    case Array(t, elems) =>
      t == I.TSChar ||
      (&& (forall i | 0 <= i < |elems| :: Settles(elems[i]))
       && (NormalArrayType(t) == I.TArray ==> FirstShowsType(elems)))
    case Structure(_, fields) => forall k | k in fields :: Settles(fields[k])
    case _ => true
  }

  predicate ArrivedKind(e: I.Value, n: I.Value) {
    && (I.IsScalar(n) <==> ArrivesScalar(e))
    && (ArrivesScalar(e) ==> (ArrayTag(I.TypeOf(n)) <==> !e.SChar? && !e.Char?) && I.TypeOf(n) != I.TArray)
  }

  lemma NormalKind(e: I.Value, destNs: int)
    requires Sendable(e)
    ensures ArrivedKind(e, Normal(e, destNs))
  {
  }

  lemma FirstArrivedScalar(elems: seq<I.Value>) returns (i: nat)
    requires exists i :: 0 <= i < |elems| && ArrivesScalar(elems[i])
    ensures i < |elems| && ArrivesScalar(elems[i]) && forall j | 0 <= j < i :: !ArrivesScalar(elems[j])
  {
    i := 0;
    while !ArrivesScalar(elems[i])
      invariant i < |elems| && forall j | 0 <= j < i :: !ArrivesScalar(elems[j])
      decreases |elems| - i
    {
      i := i + 1;
    }
  }

  /** The tag of the array that arrives is one that arrays may have exactly if its first scalar
      shows one. */
  lemma ArrivedTag(elems: seq<I.Value>, ns: seq<I.Value>)
    requires |ns| == |elems| && forall i | 0 <= i < |elems| :: ArrivedKind(elems[i], ns[i])
    ensures ArrayTag(Retag(I.TArray, ns)) <==> FirstShowsType(elems)
  {
    if exists i :: 0 <= i < |elems| && ArrivesScalar(elems[i]) {
      var i := FirstArrivedScalar(elems);
      assert forall j | 0 <= j < i :: ArrivedKind(elems[j], ns[j]);
      RetagIsFirstScalar(ns, i);
      assert FirstShowsType(elems) <==> !elems[i].SChar? && !elems[i].Char?;
    } else {
      RetagOfArrays(ns);
    }
  }

  /** The tag of a received array is a plain one, or comes from its first scalar. */
  lemma NormalTag(x: I.Value, destNs: int)
    requires x.Array? && Sendable(x) && x.elemType != I.TSChar
    ensures NormalArrayType(x.elemType) != I.TArray ==> PlainArrayType(Normal(x, destNs).elemType)
    ensures NormalArrayType(x.elemType) == I.TArray ==>
      && Normal(x, destNs).elemType == Retag(I.TArray, Normal(x, destNs).elems)
      && (ArrayTag(Normal(x, destNs).elemType) <==> FirstShowsType(x.elems))
  {
    var ns := Normal(x, destNs).elems;
    if NormalArrayType(x.elemType) != I.TArray {
      RetagKeeps(NormalArrayType(x.elemType), ns);
    } else {
      forall i | 0 <= i < |x.elems|
        ensures ArrivedKind(x.elems[i], ns[i])
      {
        NormalKind(x.elems[i], destNs);
      }
      ArrivedTag(x.elems, ns);
    }
  }

  lemma ArrayNormalFormIsNormal(x: I.Value, destNs: int)
    requires x.Array? && Sendable(x) && x.elemType != I.TSChar
    requires forall i | 0 <= i < |x.elems| :: IsNormal(Normal(x.elems[i], destNs), destNs) <==> Settles(x.elems[i])
    ensures IsNormal(Normal(x, destNs), destNs) <==> Settles(x)
  {
    var n := Normal(x, destNs);
    assert forall i | 0 <= i < |x.elems| :: n.elems[i] == Normal(x.elems[i], destNs);
    assert (forall i | 0 <= i < |x.elems| :: IsNormal(n.elems[i], destNs))
      <==> forall i | 0 <= i < |x.elems| :: Settles(x.elems[i]);
    NormalTag(x, destNs);
  }

  lemma StructureNormalFormIsNormal(x: I.Value, destNs: int)
    requires x.Structure?
    requires forall k | k in x.fields :: IsNormal(Normal(x.fields[k], destNs), destNs) <==> Settles(x.fields[k])
    ensures IsNormal(Normal(x, destNs), destNs) <==> Settles(x)
  {
    var n := Normal(x, destNs);
    assert forall k | k in x.fields :: n.fields[k] == Normal(x.fields[k], destNs);
  }

  /** Main result: a second trip changes nothing exactly for the values that settle, which a sender
      sees from the value alone. */
  lemma {:induction false} NormalFormIsNormal(x: I.Value, destNs: int)
    requires Sendable(x)
    ensures IsNormal(Normal(x, destNs), destNs) <==> Settles(x)
  {
    match x
    case Array(t, elems) =>
      if t != I.TSChar {
        forall i | 0 <= i < |elems|
          ensures IsNormal(Normal(elems[i], destNs), destNs) <==> Settles(elems[i])
        {
          NormalFormIsNormal(elems[i], destNs);
        }
        ArrayNormalFormIsNormal(x, destNs);
      }
    case Structure(id, fields) =>
      forall k | k in fields
        ensures IsNormal(Normal(fields[k], destNs), destNs) <==> Settles(fields[k])
      {
        NormalFormIsNormal(fields[k], destNs);
      }
      StructureNormalFormIsNormal(x, destNs);
    case _ =>
  }

  // ---- From the binary protocol to the internal interface and back ----

  predicate IsTextArray(b: B.Value) {
    b.Array? && (b.elemType == B.TChar || b.elemType == B.TByte)
  }

  predicate BecomesScalar(b: B.Value) {
    IsTextArray(b) || !(b.Array? || b.Struct?)
  }

  /** The first element that becomes a scalar is a character or byte array. */
  predicate FirstScalarIsText(elems: seq<B.Value>) {
    exists i :: 0 <= i < |elems| && IsTextArray(elems[i]) && forall j | 0 <= j < i :: !BecomesScalar(elems[j])
  }

  /** Binary values without arrays of an unknown type, but for what is inside a text or byte string. */
  predicate Receivable(b: B.Value) {
    match b
    case Array(t, elems) =>
      t == B.TChar || t == B.TByte || (!t.TUnknown? && forall i | 0 <= i < |elems| :: Receivable(elems[i]))
    case Struct(_, fields) => forall k | k in fields :: Receivable(fields[k])
    case _ => true
  }

  /** The receiver refuses exactly the other ones. */
  lemma {:induction false} ReceivedExactly(b: B.Value, destNs: int)
    ensures Bin2Io(b, destNs).Success? <==> Receivable(b)
  {
    match b
    case Array(t, elems) =>
      forall i | 0 <= i < |elems|
        ensures Bin2Io(elems[i], destNs).Success? <==> Receivable(elems[i])
      {
        ReceivedExactly(elems[i], destNs);
      }
    case Struct(_, fields) =>
      forall k | k in fields
        ensures Bin2Io(fields[k], destNs).Success? <==> Receivable(fields[k])
      {
        ReceivedExactly(fields[k], destNs);
      }
    case _ =>
  }

  /** Binary values that come back unchanged. */
  predicate Stable(b: B.Value, destNs: int) {
    match b
    case Array(t, elems) =>
      if t == B.TChar then NulFree(B.CharsOf(elems))
      else if t == B.TByte then true
      else
        && !t.TUnknown?
        && (forall i | 0 <= i < |elems| :: Stable(elems[i], destNs))
        && (t == B.TArray ==> FirstScalarIsText(elems))
    case Struct(id, fields) =>
      && (id.ns >= 0 || id.ns == destNs)
      && forall k | k in fields :: Stable(fields[k], destNs)
    case _ => true
  }

  ghost function ThereAndBack(b: B.Value, destNs: int): Result<B.Value> {
    var x :- Bin2Io(b, destNs);
    Io2Bin(x)
  }

  /** The retagging loop takes the type of the first element that became a scalar. */
  lemma {:induction false} RetagIsFirstScalar(elems: seq<I.Value>, i: nat)
    requires i < |elems| && I.IsScalar(elems[i]) && forall j | 0 <= j < i :: !I.IsScalar(elems[j])
    requires I.TypeOf(elems[i]) != I.TArray
    ensures Retag(I.TArray, elems) == I.TypeOf(elems[i])
  {
    var rest := elems[..|elems| - 1];
    if i == |elems| - 1 {
      RetagOfArrays(rest);
    } else {
      RetagIsFirstScalar(rest, i);
    }
  }

  /** A converted value is a scalar of a received type, a text type if it was a text array. */
  predicate SameKind(b: B.Value, x: I.Value) {
    && (I.IsScalar(x) <==> BecomesScalar(b))
    && (BecomesScalar(b) ==> ReceivedScalarType(I.TypeOf(x)) && (TextType(I.TypeOf(x)) <==> IsTextArray(b)))
  }

  lemma ConvertedKind(b: B.Value, destNs: int)
    requires Bin2Io(b, destNs).Success?
    ensures SameKind(b, Bin2Io(b, destNs).value)
  {
  }

  /** An array of arrays keeps its tag exactly when the loop picked a text type. */
  lemma NestedTagBack(elems: seq<B.Value>, ios: seq<I.Value>)
    requires |ios| == |elems| && forall i | 0 <= i < |elems| :: SameKind(elems[i], ios[i])
    ensures IoArrayType2Bin(Retag(I.TArray, ios)) == Success(B.TArray) <==> FirstScalarIsText(elems)
  {
    if exists i :: 0 <= i < |elems| && BecomesScalar(elems[i]) {
      var i := FirstScalar(elems);
      assert forall j | 0 <= j < i :: SameKind(elems[j], ios[j]);
      RetagIsFirstScalar(ios, i);
      assert FirstScalarIsText(elems) <==> IsTextArray(elems[i]);
    } else {
      RetagOfArrays(ios);
    }
  }

  lemma FirstScalar(elems: seq<B.Value>) returns (i: nat)
    requires exists i :: 0 <= i < |elems| && BecomesScalar(elems[i])
    ensures i < |elems| && BecomesScalar(elems[i]) && forall j | 0 <= j < i :: !BecomesScalar(elems[j])
  {
    i := 0;
    while !BecomesScalar(elems[i])
      invariant i < |elems| && forall j | 0 <= j < i :: !BecomesScalar(elems[j])
      decreases |elems| - i
    {
      i := i + 1;
    }
  }

  /** Main result: a well-formed binary value comes back unchanged exactly when it is stable. */
  lemma {:induction false} BinaryThereAndBack(b: B.Value, destNs: int)
    requires B.WellFormed(b)
    ensures ThereAndBack(b, destNs) == Success(b) <==> Stable(b, destNs)
    decreases b, 1
  {
    match b
    case Array(t, elems) =>
      if t == B.TChar {
        assert b == B.CharArray(B.CharsOf(elems));
      } else if t == B.TByte {
        assert b == B.ByteArray(B.BytesOf(elems));
      } else {
        ArrayThereAndBack(b, destNs);
      }
    case Struct(id, fields) =>
      forall k | k in fields
        ensures ThereAndBack(fields[k], destNs) == Success(fields[k]) <==> Stable(fields[k], destNs)
      {
        BinaryThereAndBack(fields[k], destNs);
      }
      StructThereAndBack(b, destNs);
    case _ =>
  }

  lemma {:induction false} StructThereAndBack(b: B.Value, destNs: int)
    requires b.Struct?
    requires forall k | k in b.fields ::
      ThereAndBack(b.fields[k], destNs) == Success(b.fields[k]) <==> Stable(b.fields[k], destNs)
    ensures ThereAndBack(b, destNs) == Success(b) <==> Stable(b, destNs)
  {
    StructComesBack(b, destNs);
  }

  /** A structure comes back if its id and all its fields do. */
  lemma StructComesBack(b: B.Value, destNs: int)
    requires b.Struct?
    ensures ThereAndBack(b, destNs) == Success(b) <==>
      && IoId2Bin(BinId2Io(b.typeId, destNs)) == b.typeId
      && forall k | k in b.fields :: ThereAndBack(b.fields[k], destNs) == Success(b.fields[k])
  {
    if ThereAndBack(b, destNs).Success? {
      var x := Bin2Io(b, destNs).value;
      var r := Io2Bin(x).value;
      assert forall k | k in b.fields :: Success(r.fields[k]) == ThereAndBack(b.fields[k], destNs);
      assert r.fields == b.fields <==> forall k | k in b.fields :: r.fields[k] == b.fields[k];
    }
  }

  lemma ArrayTagBack(b: B.Value, x: I.Value, destNs: int)
    requires b.Array? && b.elemType != B.TChar && b.elemType != B.TByte
    requires Bin2Io(b, destNs) == Success(x)
    ensures IoArrayType2Bin(x.elemType) == Success(b.elemType) <==>
      (b.elemType == B.TArray ==> FirstScalarIsText(b.elems))
  {
    var it := BinArrayType2Io(b.elemType).value;
    if it == I.TArray {
      forall i | 0 <= i < |b.elems|
        ensures SameKind(b.elems[i], x.elems[i])
      {
        ConvertedKind(b.elems[i], destNs);
      }
      NestedTagBack(b.elems, x.elems);
    } else {
      RetagKeeps(it, x.elems);
    }
  }

  lemma {:induction false} ArrayThereAndBack(b: B.Value, destNs: int)
    requires b.Array? && B.WellFormed(b) && b.elemType != B.TChar && b.elemType != B.TByte
    ensures ThereAndBack(b, destNs) == Success(b) <==> Stable(b, destNs)
    decreases b, 0
  {
    forall i | 0 <= i < |b.elems|
      ensures ThereAndBack(b.elems[i], destNs) == Success(b.elems[i]) <==> Stable(b.elems[i], destNs)
    {
      BinaryThereAndBack(b.elems[i], destNs);
    }
    if Bin2Io(b, destNs).Success? {
      var x := Bin2Io(b, destNs).value;
      ArrayTagBack(b, x, destNs);
      if Io2Bin(x).Success? {
        var r := Io2Bin(x).value;
        assert forall i | 0 <= i < |b.elems| :: Success(r.elems[i]) == ThereAndBack(b.elems[i], destNs);
        assert r.elems == b.elems <==> forall i | 0 <= i < |b.elems| :: r.elems[i] == b.elems[i];
      }
    }
  }
}
