/** The base64 coding of stored passwords, on bytes. */
module Base64 {

  type Bytes = seq<bv8>

  const PAD: bv8 := 61   // '='

  /** The symbol of a six-bit value. */
  function Symbol(x: bv8): bv8
    requires x < 64
  {
    if x < 26 then 65 + x else if x < 52 then 71 + x else if x < 62 then x - 4 else if x == 62 then 43 else 47
  }

  /** The decoding table: the value of a symbol, 0 for the pad; 0x80 marks a byte that is skipped. */
  function Value(c: bv8): bv8 {
    if 65 <= c <= 90 then c - 65
    else if 97 <= c <= 122 then c - 71
    else if 48 <= c <= 57 then c + 4
    else if c == 43 then 62
    else if c == 47 then 63
    else if c == PAD then 0
    else 0x80
  }

  lemma SymbolValue(x: bv8)
    requires x < 64
    ensures Value(Symbol(x)) == x && Symbol(x) != PAD && Symbol(x) != 0 && Symbol(x) < 128
  {
  }

  function Six0(x: bv8): (r: bv8) ensures r < 64 { x >> 2 }
  function Six1(x: bv8, y: bv8): (r: bv8) ensures r < 64 { ((x & 3) << 4) | (y >> 4) }
  function Six2(y: bv8, z: bv8): (r: bv8) ensures r < 64 { ((y & 15) << 2) | (z >> 6) }
  function Six3(z: bv8): (r: bv8) ensures r < 64 { z & 63 }

  /** base64Encode: groups of three bytes, the last one padded. */
  function Encode(s: Bytes): Bytes {
    if s == [] then []
    else if |s| == 1 then [Symbol(Six0(s[0])), Symbol(Six1(s[0], 0)), PAD, PAD]
    else if |s| == 2 then [Symbol(Six0(s[0])), Symbol(Six1(s[0], s[1])), Symbol(Six2(s[1], 0)), PAD]
    else [Symbol(Six0(s[0])), Symbol(Six1(s[0], s[1])), Symbol(Six2(s[1], s[2])), Symbol(Six3(s[2]))] + Encode(s[3..])
  }

  /** The bytes of a text that the decoder does not skip. */
  function Valid(s: Bytes): Bytes {
    if s == [] then [] else (if Value(s[0]) & 0x80 != 0 then [] else [s[0]]) + Valid(s[1..])
  }

  function Byte0(a: bv8, b: bv8): bv8 { (a << 2) | (b >> 4) }
  function Byte1(b: bv8, c: bv8): bv8 { (b << 4) | (c >> 2) }
  function Byte2(c: bv8, d: bv8): bv8 { (c << 6) | d }

  /** The decoding loop on valid symbols: it stops at a padded group and drops an incomplete one. */
  function Groups(v: Bytes): Bytes {
    if |v| < 4 then []
    else
      var o0, o1 := Byte0(Value(v[0]), Value(v[1])), Byte1(Value(v[1]), Value(v[2]));
      if v[2] == PAD then [o0]
      else if v[3] == PAD then [o0, o1]
      else [o0, o1, Byte2(Value(v[2]), Value(v[3]))] + Groups(v[4..])
  }

  /** The contents of a buffer as a C string. */
  function CStr(s: Bytes): (r: Bytes)
    ensures |r| <= |s| && r == s[..|r|] && (forall i :: 0 <= i < |r| ==> r[i] != 0) && (|r| < |s| ==> s[|r|] == 0)
  {
    if s == [] || s[0] == 0 then [] else [s[0]] + CStr(s[1..])
  }

  /** base64Decode: the decoded buffer is returned as a C string. */
  function Decode(s: Bytes): Bytes {
    CStr(Groups(Valid(s)))
  }

  lemma SixBack(x: bv8, y: bv8, z: bv8)
    ensures Byte0(Six0(x), Six1(x, y)) == x
    ensures Byte1(Six1(x, y), Six2(y, z)) == y
    ensures Byte2(Six2(y, z), Six3(z)) == z
  {
    assert Byte0(Six0(x), Six1(x, y)) == x;
    assert Byte1(Six1(x, y), Six2(y, z)) == y;
    assert Byte2(Six2(y, z), Six3(z)) == z;
  }

  lemma Symbols(x: bv8, y: bv8, z: bv8)
    ensures Value(Symbol(Six0(x))) == Six0(x) && Value(Symbol(Six1(x, y))) == Six1(x, y)
    ensures Value(Symbol(Six2(y, z))) == Six2(y, z) && Value(Symbol(Six3(z))) == Six3(z)
    ensures Symbol(Six2(y, z)) != PAD && Symbol(Six3(z)) != PAD
    ensures Six0(x) & 0x80 == 0 && Six1(x, y) & 0x80 == 0 && Six2(y, z) & 0x80 == 0 && Six3(z) & 0x80 == 0
  {
    hide Symbol, Value;
    SymbolValue(Six0(x));
    SymbolValue(Six1(x, y));
    SymbolValue(Six2(y, z));
    SymbolValue(Six3(z));
  }

  lemma {:induction false} EncodeValid(s: Bytes)
    ensures Valid(Encode(s)) == Encode(s)
  {
    if s != [] {
      hide Symbol, Value, Six0, Six1, Six2, Six3;
      var y, z := if |s| > 1 then s[1] else 0, if |s| > 2 then s[2] else 0;
      Symbols(s[0], y, z);
      PadValue();
      var rest := if |s| < 3 then [] else Encode(s[3..]);
      if |s| >= 3 { EncodeValid(s[3..]); }
      var e := Encode(s);
      ValidFour(e[0], e[1], e[2], e[3], rest);
      assert e == [e[0], e[1], e[2], e[3]] + rest;
    }
  }

  lemma PadValue()
    ensures Value(PAD) == 0 && (0 as bv8) & 0x80 == 0
  {
  }

  lemma ValidFour(a: bv8, b: bv8, c: bv8, d: bv8, rest: Bytes)
    requires Value(a) & 0x80 == 0 && Value(b) & 0x80 == 0 && Value(c) & 0x80 == 0 && Value(d) & 0x80 == 0
    ensures Valid([a, b, c, d] + rest) == [a, b, c, d] + Valid(rest)
  {
    hide Value, Valid;
    ValidOne(d, rest);
    ValidOne(c, [d] + rest);
    ValidOne(b, [c, d] + rest);
    ValidOne(a, [b, c, d] + rest);
    assert [a] + ([b, c, d] + rest) == [a, b, c, d] + rest && [b] + ([c, d] + rest) == [b, c, d] + rest;
    assert [c] + ([d] + rest) == [c, d] + rest;
  }

  lemma ValidOne(a: bv8, rest: Bytes)
    requires Value(a) & 0x80 == 0
    ensures Valid([a] + rest) == [a] + Valid(rest)
  {
    hide Value;
    assert ([a] + rest)[1..] == rest;
  }

  /** Decoding undoes encoding, for any bytes. */
  lemma {:induction false} GroupsEncode(s: Bytes)
    ensures Groups(Encode(s)) == s
  {
    if s != [] {
      hide Symbol, Value, Six0, Six1, Six2, Six3, Byte0, Byte1, Byte2;
      var y, z := if |s| > 1 then s[1] else 0, if |s| > 2 then s[2] else 0;
      Symbols(s[0], y, z);
      SixBack(s[0], y, z);
      PadValue();
      if |s| >= 3 {
        GroupsEncode(s[3..]);
        assert Encode(s)[4..] == Encode(s[3..]);
        assert s == [s[0], s[1], s[2]] + s[3..];
      }
    }
  }

  /** A C string ends at the first NUL. */
  lemma {:induction false} CStrAt(s: Bytes, n: nat)
    requires n <= |s| && (forall i :: 0 <= i < n ==> s[i] != 0) && (n < |s| ==> s[n] == 0)
    ensures CStr(s) == s[..n]
  {
    if n > 0 {
      CStrAt(s[1..], n - 1);
      assert s[..n] == [s[0]] + s[1..][..n - 1];
    }
  }

  /** As C strings: decoding undoes encoding exactly when the text has no NUL. */
  lemma DecodeEncodeIff(s: Bytes)
    ensures Decode(Encode(s)) == s <==> forall i :: 0 <= i < |s| ==> s[i] != 0
  {
    hide CStr, Encode, Groups, Valid;
    EncodeValid(s);
    GroupsEncode(s);
    if forall i :: 0 <= i < |s| ==> s[i] != 0 { CStrAt(s, |s|); }
  }
}
