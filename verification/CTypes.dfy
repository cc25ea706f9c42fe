/** The C++ scalar conventions the converters rely on: NUL-terminated strings and integer
    conversions that truncate to a width. Widths follow an LP64 platform. */
module CTypes {

  const U8 := 0x100
  const U16 := 0x1_0000
  const U32 := 0x1_0000_0000
  const U64 := 0x1_0000_0000_0000_0000

  /** Conversion to an unsigned integer type with `modulus` values. */
  function ToUnsigned(n: int, modulus: nat): (r: nat)
    requires modulus > 0
    ensures r < modulus
    ensures 0 <= n < modulus ==> r == n
  {
    n % modulus
  }

  /** Conversion to a two's complement integer type with `modulus` values. */
  function ToSigned(n: int, modulus: nat): (r: int)
    requires modulus > 0 && modulus % 2 == 0
    ensures -(modulus / 2) <= r < modulus / 2
    ensures -(modulus / 2) <= n < modulus / 2 ==> r == n
  {
    if -(modulus / 2) <= n < modulus / 2 then n
    else if n % modulus < modulus / 2 then n % modulus
    else n % modulus - modulus
  }

  predicate InUnsigned(n: int, modulus: nat) {
    0 <= n < modulus
  }

  predicate InSigned(n: int, modulus: nat) {
    -(modulus / 2) <= n < modulus / 2
  }

  /** An octet survives the trip through a signed `char`. */
  lemma OctetRoundTrip(n: int)
    requires InUnsigned(n, U8)
    ensures ToUnsigned(ToSigned(n, U8), U8) == n
  {
  }

  predicate NulFree(s: string) {
    '\0' !in s
  }

  /** What remains of a string that passes through a `const char*`: the part before the first NUL. */
  function CString(s: string): (r: string)
    ensures r <= s
    ensures NulFree(r)
    ensures r != s ==> |r| < |s| && s[|r|] == '\0'
    ensures r == s <==> NulFree(s)
  {
    if s == [] || s[0] == '\0' then
      []
    else
      assert s == [s[0]] + s[1..];
      [s[0]] + CString(s[1..])
  }
}
