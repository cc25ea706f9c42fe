/** The text of a binary-protocol node id. */
module ParamIds {
  import opened Wrappers
  import opened CTypes
  import opened NodeIds
  import opened Decimals

  /** `ParamId::toString`. The string passes through a `const char*`. */
  function ToString(p: ParamId): string {
    "NS" + Print(p.ns) + "|" +
    match p.id
    case Number(n) => "Numeric|" + Digits(n)
    case Name(s) => "String|" + CString(s)
  }

  /** Index of the first delimiter, or the length of the text. */
  function Find(s: string, d: char): (k: nat)
    ensures k <= |s|
    ensures forall i | 0 <= i < k :: s[i] != d
    ensures k < |s| ==> s[k] == d
  {
    if s == [] || s[0] == d then 0 else 1 + Find(s[1..], d)
  }

  /** The tokens that `getline` reads: none after a delimiter that ends the text. */
  function Tokens(s: string, d: char): seq<string>
    decreases |s|
  {
    if s == [] then []
    else
      var k := Find(s, d);
      if k == |s| then [s] else [s[..k]] + Tokens(s[k + 1..], d)
  }

  /** The parts of an id that the string constructor sets; `None` where it leaves one undefined. */
  datatype Parsed = Parsed(ns: Option<int>, id: Option<PlainIdentifier>)

  /** The id a text stands for: nothing is set unless there are three parts, and the namespace not
      without an 'S' in the first part. */
  function Parse(s: string): Parsed {
    var v := Tokens(s, '|');
    if |v| <= 2 then Parsed(None, None)
    else
      var vns := Tokens(v[0], 'S');
      Parsed(if |vns| > 1 then Some(Read(vns[1])) else None,
        Some(if v[1] == "Numeric" then Number(ReadNat(v[2])) else Name(v[2])))
  }

  /** `ParamId::split`. */
  method Split(s: string, d: char) returns (res: seq<string>)
    ensures res == Tokens(s, d)
  {
    res := [];
    var position := 0;
    while position < |s|
      invariant position <= |s|
      invariant Tokens(s, d) == res + Tokens(s[position..], d)
    {
      var rest := s[position..];
      var k := Find(rest, d);
      res := res + [rest[..k]];
      assert rest[..k] == rest || rest[k + 1..] == s[position + k + 1..];
      position := if k == |rest| then |s| else position + k + 1;
    }
  }

  /** The string constructor. */
  method ParseParamId(s: string) returns (r: Parsed)
    ensures r == Parse(s)
  {
    var v := Split(s, '|');
    r := Parsed(None, None);
    if |v| > 2 {
      var vns := Split(v[0], 'S');
      if |vns| > 1 {
        var ns := Read(vns[1]);
        r := r.(ns := Some(ns));
      }
      if v[1] == "Numeric" {
        r := r.(id := Some(Number(ReadNat(v[2]))));
      } else {
        r := r.(id := Some(Name(v[2])));
      }
    }
  }

  lemma FindFirst(a: string, d: char, rest: string)
    requires d !in a
    ensures Find(a + [d] + rest, d) == |a|
  {
    var s := a + [d] + rest;
    assert s[|a|] == d;
    assert forall i | 0 <= i < |a| :: s[i] == a[i];
  }

  /** Reading one token off a text. */
  lemma FirstToken(a: string, d: char, rest: string)
    requires d !in a
    ensures Tokens(a + [d] + rest, d) == [a] + Tokens(rest, d)
  {
    FindFirst(a, d, rest);
    var s := a + [d] + rest;
    assert s[..|a|] == a && s[|a| + 1..] == rest;
  }

  lemma LastToken(a: string, d: char)
    requires d !in a
    ensures Tokens(a, d) == if a == [] then [] else [a]
  {
  }

  function Kind(p: ParamId): string {
    if p.id.Number? then "Numeric" else "String"
  }

  function Body(p: ParamId): string {
    match p.id case Number(n) => Digits(n) case Name(s) => CString(s)
  }

  /** The three parts of a printed id. */
  lemma Parts(p: ParamId)
    ensures ToString(p) == ("NS" + Print(p.ns)) + "|" + (Kind(p) + "|" + Body(p))
    ensures '|' !in "NS" + Print(p.ns) && '|' !in Kind(p) && 'S' !in Print(p.ns)
  {
    assert "Numeric|" == "Numeric" + "|";
    assert "String|" == "String" + "|";
  }

  lemma ThreeTokens(a: string, b: string, c: string)
    requires '|' !in a && '|' !in b
    ensures Tokens(a + "|" + (b + "|" + c), '|') == [a, b] + Tokens(c, '|')
  {
    FirstToken(a, '|', b + "|" + c);
    FirstToken(b, '|', c);
  }

  lemma NamespaceTokens(n: string)
    requires n != [] && 'S' !in n
    ensures Tokens("NS" + n, 'S') == ["N", n]
  {
    assert "NS" + n == "N" + ['S'] + n;
    FirstToken("N", 'S', n);
    LastToken(n, 'S');
  }

  lemma TokensOfPrinted(p: ParamId)
    ensures Tokens(ToString(p), '|') == ["NS" + Print(p.ns), Kind(p)] + Tokens(Body(p), '|')
    ensures Tokens("NS" + Print(p.ns), 'S') == ["N", Print(p.ns)]
  {
    Parts(p);
    ThreeTokens("NS" + Print(p.ns), Kind(p), Body(p));
    NamespaceTokens(Print(p.ns));
  }

  /** What parsing makes of any printed id: a name is cut at the first separator. */
  lemma ParseAnyPrinted(p: ParamId)
    ensures Parse(ToString(p)) ==
      if p.id.Number? then Parsed(Some(p.ns), Some(p.id))
      else if CString(p.id.s) == "" then Parsed(None, None)
      else Parsed(Some(p.ns), Some(Name(CString(p.id.s)[..Find(CString(p.id.s), '|')])))
  {
    TokensOfPrinted(p);
    ReadPrint(p.ns);
    var body := Body(p);
    var v, rest := Tokens(ToString(p), '|'), Tokens(body, '|');
    assert |v| == 2 + |rest| && v[0] == "NS" + Print(p.ns) && v[1] == Kind(p);
    assert Tokens(v[0], 'S')[1] == Print(p.ns);
    if p.id.Number? {
      LastToken(body, '|');
      ReadPrint(p.id.n);
      assert v[2] == body;
    } else if body != "" {
      assert v[2] == rest[0];
      assert body[..|body|] == body;
    }
  }

  /** What parsing makes of any text of three parts: the second part tells numbers from names. */
  lemma ParseText(a: string, b: string, c: string)
    requires '|' !in a && '|' !in b && '|' !in c && c != ""
    ensures var p := Parse(a + "|" + (b + "|" + c));
      && p.id == Some(if b == "Numeric" then Number(ReadNat(c)) else Name(c))
      && p.ns == if |Tokens(a, 'S')| > 1 then Some(Read(Tokens(a, 'S')[1])) else None
  {
    ThreeTokens(a, b, c);
    LastToken(c, '|');
  }

  /** The namespace is what stands after the first 'S' of the first part, up to the next one. */
  lemma ParseNamespace(x: string, y: string, z: string, b: string, c: string)
    requires '|' !in x && '|' !in y && '|' !in z && '|' !in b && '|' !in c && c != ""
    requires 'S' !in x && 'S' !in y && y != "" && (z == "" || z[0] == 'S')
    ensures Parse(x + "|" + (b + "|" + c)).ns == None
    ensures Parse((x + "S" + (y + z)) + "|" + (b + "|" + c)).ns == Some(Read(y))
  {
    ParseText(x, b, c);
    ParseText(x + "S" + (y + z), b, c);
    LastToken(x, 'S');
    SecondToken(x, y, z);
  }

  lemma SecondToken(x: string, y: string, z: string)
    requires 'S' !in x && 'S' !in y && y != "" && (z == "" || z[0] == 'S')
    ensures |Tokens(x + "S" + (y + z), 'S')| > 1 && Tokens(x + "S" + (y + z), 'S')[1] == y
  {
    FirstToken(x, 'S', y + z);
    TokenUpTo(y, z);
  }

  lemma TokenUpTo(y: string, z: string)
    requires 'S' !in y && y != "" && (z == "" || z[0] == 'S')
    ensures Tokens(y + z, 'S') != [] && Tokens(y + z, 'S')[0] == y
  {
    if z == "" {
      assert y + z == y;
      LastToken(y, 'S');
    } else {
      assert y + z == y + "S" + z[1..];
      FirstToken(y, 'S', z[1..]);
    }
  }

  /** A text of fewer parts sets nothing. */
  lemma ParseShortText(a: string, b: string)
    requires '|' !in a && '|' !in b
    ensures Parse(a) == Parse(a + "|" + b) == Parsed(None, None)
  {
    LastToken(a, '|');
    LastToken(b, '|');
    FirstToken(a, '|', b);
  }

  /** Text ids that the printed form can carry. */
  predicate Printable(p: ParamId) {
    p.id.Name? ==> p.id.s != "" && '|' !in p.id.s && NulFree(p.id.s)
  }

  /** Parsing undoes printing exactly for numeric ids and for string ids that are not empty and
      have neither a separator nor a NUL. */
  lemma ParsePrinted(p: ParamId)
    ensures Parse(ToString(p)) == Parsed(Some(p.ns), Some(p.id)) <==> Printable(p)
  {
    ParseAnyPrinted(p);
    if p.id.Name? {
      var s, cut := p.id.s, CString(p.id.s);
      var k := Find(cut, '|');
      assert s == cut[..k] <==> k == |s|;
      assert k == |s| ==> '|' !in s && cut == s;
    }
  }

  lemma SameCut(a: string, x: string, b: string, y: string)
    requires '|' !in a && '|' !in b && a + "|" + x == b + "|" + y
    ensures a == b && x == y
  {
    FindFirst(a, '|', x);
    FindFirst(b, '|', y);
    var s := a + "|" + x;
    assert a == s[..|a|] && b == s[..|b|];
    assert x == s[|a| + 1..] && y == s[|b| + 1..];
  }

  function Cut(p: ParamId): ParamId {
    match p.id case Number(_) => p case Name(s) => ParamId(p.ns, Name(CString(s)))
  }

  /** Two ids print alike only if they are equal up to what follows a NUL. So the text of ids
      without NUL is a sound key. */
  lemma PrintedAlike(p: ParamId, q: ParamId)
    ensures ToString(p) == ToString(q) <==> Cut(p) == Cut(q)
  {
    if ToString(p) == ToString(q) {
      Parts(p);
      Parts(q);
      SameCut("NS" + Print(p.ns), Kind(p) + "|" + Body(p), "NS" + Print(q.ns), Kind(q) + "|" + Body(q));
      SameCut(Kind(p), Body(p), Kind(q), Body(q));
      assert Print(p.ns) == ("NS" + Print(p.ns))[2..] == Print(q.ns);
      ReadPrint(p.ns);
      ReadPrint(q.ns);
      assert Kind(p)[0] == Kind(q)[0];
      if p.id.Number? {
        ValueOfDigits(p.id.n);
        ValueOfDigits(q.id.n);
      }
    }
  }
}
