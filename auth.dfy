/** Secure identifiers (server/internal/auth/crypto.go): eight random bytes,
    encoded with the standard base64 alphabet of section 4 of RFC 4648, with
    the symbols '+', '/' and '=' then filtered out. The random bytes are a
    parameter. */
module Auth {
  newtype byte = x: int | 0 <= x < 256

  /** The padding character of section 4 of RFC 4648. */
  const Pad: char := '='

  predicate IsAlphanumeric(c: char) {
    ('A' <= c <= 'Z') || ('a' <= c <= 'z') || ('0' <= c <= '9')
  }

  /** The characters `NewSecureID` removes. */
  predicate IsSymbol(c: char) {
    c == '+' || c == '/' || c == '='
  }

  predicate NoSymbols(s: string) {
    forall i | 0 <= i < |s| :: !IsSymbol(s[i])
  }

  /** The base64 alphabet of section 4 of RFC 4648: 'A'..'Z' for 0..25,
      'a'..'z' for 26..51, '0'..'9' for 52..61, then '+' and '/'. */
  function Digit(v: int): (c: char)
    requires 0 <= v < 64
    ensures v < 62 <==> IsAlphanumeric(c)
    ensures v == 62 <==> c == '+'
    ensures v == 63 <==> c == '/'
  {
    if v < 26 then ('A' as int + v) as char
    else if v < 52 then ('a' as int + (v - 26)) as char
    else if v < 62 then ('0' as int + (v - 52)) as char
    else if v == 62 then '+'
    else '/'
  }

  predicate IsDigitChar(c: char) {
    IsAlphanumeric(c) || c == '+' || c == '/'
  }

  /** One base64 quantum: 1 to 3 bytes become four characters, padded with
      one '=' per missing byte. */
  function Quantum(data: seq<byte>): (r: string)
    requires 1 <= |data| <= 3
    ensures |r| == 4
    ensures forall i | 0 <= i < 4 :: r[i] == Pad <==> i > |data|
    ensures forall i | 0 <= i < 4 && r[i] != Pad :: IsDigitChar(r[i])
  {
    var a := data[0] as int;
    var b := if |data| > 1 then data[1] as int else 0;
    var c := if |data| > 2 then data[2] as int else 0;
    [Digit(a / 4),
     Digit((a % 4) * 16 + b / 16),
     if |data| > 1 then Digit((b % 16) * 4 + c / 64) else Pad,
     if |data| > 2 then Digit(c % 64) else Pad]
  }

  /** Standard base64 with padding (`base64.StdEncoding`), quantum by
      quantum. */
  function Encode(data: seq<byte>): (r: string)
    ensures |r| == 4 * ((|data| + 2) / 3)
    ensures forall i | 0 <= i < |r| :: r[i] == Pad || IsDigitChar(r[i])
    decreases |data|
  {
    if |data| == 0 then ""
    else if |data| <= 3 then Quantum(data)
    else Quantum(data[..3]) + Encode(data[3..])
  }

  /** Eight bytes encode to twelve characters of which the last, and only
      the last, is the pad. */
  lemma EncodeEightBytes(data: seq<byte>)
    requires |data| == 8
    ensures |Encode(data)| == 12
    ensures Encode(data)[11] == Pad
    ensures NoSymbols(Encode(data)[..11]) <==> '+' !in Encode(data) && '/' !in Encode(data)
    ensures Pad !in Encode(data)[..11]
  {
    var q0, q1, q2 := Quantum(data[..3]), Quantum(data[3..6]), Quantum(data[6..]);
    EncodeEightQuanta(data);
    var r := Encode(data);
    assert r[11] == q2[3];
    forall i | 0 <= i < 11 ensures r[..11][i] != Pad {
      if i < 4 { assert r[i] == q0[i]; }
      else if i < 8 { assert r[i] == q1[i - 4]; }
      else { assert r[i] == q2[i - 8]; }
    }
    PadOnlyLast(r);
  }

  /** Eight bytes are two full quanta and one of two bytes. */
  lemma EncodeEightQuanta(data: seq<byte>)
    requires |data| == 8
    ensures Encode(data) == Quantum(data[..3]) + Quantum(data[3..6]) + Quantum(data[6..])
  {
    assert data[3..][..3] == data[3..6];
    assert data[3..][3..] == data[6..];
    assert Encode(data[3..]) == Quantum(data[3..6]) + Quantum(data[6..]);
  }

  /** When the pad occurs only at the end, the rest is free of symbols
      exactly when neither '+' nor '/' occurs. */
  lemma PadOnlyLast(r: string)
    requires |r| == 12 && r[11] == Pad && Pad !in r[..11]
    ensures NoSymbols(r[..11]) <==> '+' !in r && '/' !in r
  {
    if NoSymbols(r[..11]) {
      forall i | 0 <= i < 12 ensures r[i] != '+' && r[i] != '/' {
        if i < 11 { assert r[i] == r[..11][i]; }
      }
    }
    if '+' !in r && '/' !in r {
      forall i | 0 <= i < 11 ensures !IsSymbol(r[..11][i]) {
        assert r[..11][i] == r[i];
        assert r[..11][i] in r[..11];
      }
    }
  }

  /** The encoded string with every '+', '/' and '=' deleted. */
  function WithoutSymbols(s: string): (r: string)
    decreases |s|
  {
    if s == [] then []
    else if IsSymbol(s[0]) then WithoutSymbols(s[1..])
    else [s[0]] + WithoutSymbols(s[1..])
  }

  /** The symbol-removal loop of `NewSecureID`: copies the characters of the
      encoded string in order, skipping the three symbols. */
  method RemoveSymbols(encoded: string) returns (result: string)
    ensures result == WithoutSymbols(encoded)
  {
    result := [];
    for i := 0 to |encoded|
      invariant result + WithoutSymbols(encoded[i..]) == WithoutSymbols(encoded)
    {
      assert encoded[i..][1..] == encoded[i + 1..];
      if IsSymbol(encoded[i]) {
        continue;
      }
      result := result + [encoded[i]];
    }
  }

  lemma NoSymbolsCons(s: string)
    requires s != []
    ensures NoSymbols(s) <==> !IsSymbol(s[0]) && NoSymbols(s[1..])
  {
    if !IsSymbol(s[0]) && NoSymbols(s[1..]) {
      forall i | 1 <= i < |s| ensures !IsSymbol(s[i]) {
        assert s[i] == s[1..][i - 1];
      }
    }
  }

  /** No symbol survives. */
  lemma {:induction false} WithoutSymbolsHasNone(s: string)
    ensures NoSymbols(WithoutSymbols(s))
    decreases |s|
  {
    if s != [] {
      WithoutSymbolsHasNone(s[1..]);
      if !IsSymbol(s[0]) {
        NoSymbolsCons(WithoutSymbols(s));
      }
    }
  }

  /** Filtering distributes over concatenation: the kept characters stay in
      their original order. */
  lemma {:induction false} WithoutSymbolsAppend(a: string, b: string)
    ensures WithoutSymbols(a + b) == WithoutSymbols(a) + WithoutSymbols(b)
    decreases |a|
  {
    if a != [] {
      assert (a + b)[0] == a[0];
      assert (a + b)[1..] == a[1..] + b;
      WithoutSymbolsAppend(a[1..], b);
    } else {
      assert a + b == b;
    }
  }

  /** Every non-symbol character is kept as often as it occurs, every symbol
      is dropped. */
  lemma {:induction false} WithoutSymbolsCounts(s: string)
    ensures forall c | !IsSymbol(c) :: multiset(WithoutSymbols(s))[c] == multiset(s)[c]
    ensures forall c | IsSymbol(c) :: multiset(WithoutSymbols(s))[c] == 0
    decreases |s|
  {
    if s != [] {
      WithoutSymbolsCounts(s[1..]);
      assert s == [s[0]] + s[1..];
    }
  }

  /** The result is never longer than the input. */
  lemma {:induction false} WithoutSymbolsShorter(s: string)
    ensures |WithoutSymbols(s)| <= |s|
    ensures !NoSymbols(s) ==> |WithoutSymbols(s)| < |s|
    decreases |s|
  {
    if s != [] {
      WithoutSymbolsShorter(s[1..]);
      NoSymbolsCons(s);
    }
  }

  /** A string without symbols passes unchanged. */
  lemma {:induction false} WithoutSymbolsKeeps(s: string)
    requires NoSymbols(s)
    ensures WithoutSymbols(s) == s
    decreases |s|
  {
    if s != [] {
      NoSymbolsCons(s);
      WithoutSymbolsKeeps(s[1..]);
    }
  }

  /** The lengths agree exactly when there was nothing to remove. */
  lemma WithoutSymbolsLength(s: string)
    ensures |WithoutSymbols(s)| <= |s|
    ensures |WithoutSymbols(s)| == |s| <==> NoSymbols(s)
  {
    WithoutSymbolsShorter(s);
    if NoSymbols(s) {
      WithoutSymbolsKeeps(s);
    }
  }

  /** Filtering twice is filtering once. */
  lemma WithoutSymbolsIdempotent(s: string)
    ensures WithoutSymbols(WithoutSymbols(s)) == WithoutSymbols(s)
  {
    WithoutSymbolsHasNone(s);
    WithoutSymbolsKeeps(WithoutSymbols(s));
  }

  /** `NewSecureID` with the eight random bytes as a parameter: exactly the
      encoding with its symbols deleted, so at most 11 characters, all
      letters and digits, and exactly 11 when the encoding holds no '+' or
      '/'. */
  method NewSecureId(data: seq<byte>) returns (id: string)
    requires |data| == 8
    ensures id == WithoutSymbols(Encode(data))
    ensures |id| <= 11
    ensures |id| == 11 <==> '+' !in Encode(data) && '/' !in Encode(data)
    ensures forall i | 0 <= i < |id| :: IsAlphanumeric(id[i])
  {
    var encoded := Encode(data);
    id := RemoveSymbols(encoded);
    EncodeEightBytes(data);
    assert encoded == encoded[..11] + [Pad];
    WithoutSymbolsAppend(encoded[..11], [Pad]);
    assert WithoutSymbols([Pad]) == [];
    WithoutSymbolsLength(encoded[..11]);
    WithoutSymbolsHasNone(encoded);
    WithoutSymbolsCounts(encoded);
    forall i | 0 <= i < |id| ensures IsAlphanumeric(id[i]) {
      var c := id[i];
      assert c in multiset(id);
      assert c in multiset(encoded);
      var j :| 0 <= j < |encoded| && encoded[j] == c;
    }
  }
}
