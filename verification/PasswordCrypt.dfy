/** The transform of stored passwords: XOR with a keyed hash, then base64. */
module PasswordCrypt {
  import opened Base64

  /** "none" as bytes. */
  const NONE: Bytes := [110, 111, 110, 101]

  type Hash = h: Bytes | |h| == 16 witness [0, 0, 0, 0, 0, 0, 0, 0, 0, 0, 0, 0, 0, 0, 0, 0]

  /** The hash of the key followed by the per-user key. */
  type Digest = (Bytes, Bytes) -> Hash

  /** Every byte with the hash byte of its place in its block of 16. */
  function Xored(d: Bytes, h: Hash): (r: Bytes)
    ensures |r| == |d|
  {
    seq(|d|, i requires 0 <= i < |d| => d[i] ^ h[i % 16])
  }

  /** The transform is its own inverse. */
  lemma XoredTwice(d: Bytes, h: Hash)
    ensures Xored(Xored(d, h), h) == d
  {
    forall i | 0 <= i < |d| ensures Xored(Xored(d, h), h)[i] == d[i] { XorBack(d[i], h[i % 16]); }
  }

  lemma XorBack(a: bv8, b: bv8)
    ensures (a ^ b) ^ b == a && (a ^ b == 0 <==> a == b)
  {
  }

  /** Position of the first byte that equals its hash byte. */
  function Clash(p: Bytes, h: Hash): (k: nat)
    ensures k <= |p| && (k < |p| ==> p[k] == h[k % 16]) && forall i :: 0 <= i < k ==> p[i] != h[i % 16]
  {
    ClashFrom(p, h, 0)
  }

  function ClashFrom(p: Bytes, h: Hash, i: nat): (k: nat)
    requires i <= |p|
    ensures i <= k <= |p| && (k < |p| ==> p[k] == h[k % 16]) && forall j :: i <= j < k ==> p[j] != h[j % 16]
    decreases |p| - i
  {
    if i == |p| || p[i] == h[i % 16] then i else ClashFrom(p, h, i + 1)
  }

  /** Each quote and backslash behind a backslash, for the SQL server. */
  function Escaped(p: Bytes): Bytes {
    if p == [] then []
    else (if p[0] == 92 || p[0] == 39 || p[0] == 34 then [92, p[0]] else [p[0]]) + Escaped(p[1..])
  }

  /** Without a key only 32 bytes are looked at. */
  function Front(p: Bytes): Bytes {
    if |p| <= 32 then p else p[..32]
  }

  /** What encrypt stores for a password. */
  function Stored(p: Bytes, key: Bytes, h: Hash): Bytes {
    if key == NONE then Escaped(Front(p)) else Encode(CStr(Xored(p, h)))
  }

  /** What decrypt makes of a stored text. */
  function Recovered(s: Bytes, key: Bytes, h: Hash): Bytes {
    if key == NONE then s else CStr(Xored(Decode(s), h))
  }

  lemma EscapedAt(p: Bytes, i: nat)
    requires i < |p|
    ensures Escaped(p[i..]) ==
            (if p[i] == 92 || p[i] == 39 || p[i] == 34 then [92, p[i]] else [p[i]]) + Escaped(p[i + 1..])
  {
    assert p[i..][1..] == p[i + 1..];
  }

  lemma EscapedNone()
    ensures Escaped([]) == []
  {
  }

  predicate NoNul(p: Bytes) {
    forall i :: 0 <= i < |p| ==> p[i] != 0
  }

  lemma CStrXored(p: Bytes, h: Hash)
    ensures CStr(Xored(p, h)) == Xored(p[..Clash(p, h)], h)
  {
    hide CStr;
    var k := Clash(p, h);
    forall i | 0 <= i < |p| ensures Xored(p, h)[i] == 0 <==> p[i] == h[i % 16] { XorBack(p[i], h[i % 16]); }
    CStrAt(Xored(p, h), k);
  }

  /** Under a real key a password comes back up to its first byte that equals its hash byte. */
  lemma ComesBack(p: Bytes, key: Bytes, h: Hash)
    requires NoNul(p) && key != NONE
    ensures Recovered(Stored(p, key, h), key, h) == p[..Clash(p, h)]
  {
    hide Xored, Clash, Encode, Decode, CStr;
    var x, q := CStr(Xored(p, h)), p[..Clash(p, h)];
    CStrXored(p, h);
    DecodeEncodeIff(x);
    XoredTwice(q, h);
    assert CStr(q) == q;
  }

  lemma {:induction false} EscapedLonger(p: Bytes)
    ensures |Escaped(p)| >= |p|
    ensures Escaped(p) == p <==> forall i :: 0 <= i < |p| ==> p[i] != 92 && p[i] != 39 && p[i] != 34
  {
    if p != [] {
      EscapedLonger(p[1..]);
      assert p == [p[0]] + p[1..];
      if p[0] != 92 && p[0] != 39 && p[0] != 34 {
        assert Escaped(p)[1..] == Escaped(p[1..]);
      }
    }
  }

  /** A password comes back whole exactly when no byte equals its hash byte, or, with no key, when none is escaped. */
  lemma RoundTripIff(p: Bytes, key: Bytes, h: Hash)
    requires NoNul(p) && (key == NONE ==> |p| <= 32)
    ensures Recovered(Stored(p, key, h), key, h) == p <==>
            (if key == NONE then forall i :: 0 <= i < |p| ==> p[i] != 92 && p[i] != 39 && p[i] != 34
             else forall i :: 0 <= i < |p| ==> p[i] != h[i % 16])
  {
    hide Encode, Decode, Escaped;
    if key == NONE { EscapedLonger(p); } else { ComesBack(p, key, h); }
  }

  /** How the SQL server reads an escaped text: the byte behind a backslash stands for itself. */
  function Unescaped(s: Bytes): Bytes {
    if s == [] then []
    else if s[0] == 92 && |s| > 1 then [s[1]] + Unescaped(s[2..])
    else [s[0]] + Unescaped(s[1..])
  }

  /** The server reads what was escaped. */
  lemma {:induction false} EscapedReads(p: Bytes)
    ensures Unescaped(Escaped(p)) == p
  {
    if p != [] {
      EscapedReads(p[1..]);
      var e, more := Escaped(p), Escaped(p[1..]);
      assert p == [p[0]] + p[1..];
      if p[0] == 92 || p[0] == 39 || p[0] == 34 { assert e[2..] == more; } else { assert e[1..] == more; }
    }
  }

  /** Two passwords are stored alike exactly when they agree up to the first clash of each, or, with no key, in their
      first 32 bytes. */
  lemma StoredAlikeIff(p: Bytes, q: Bytes, key: Bytes, h: Hash)
    requires NoNul(p) && NoNul(q)
    ensures Stored(p, key, h) == Stored(q, key, h) <==>
            if key != NONE then p[..Clash(p, h)] == q[..Clash(q, h)]
            else p == q || (|p| >= 32 && |q| >= 32 && p[..32] == q[..32])
  {
    hide Xored, Clash, Encode, Decode, CStr, Escaped;
    if key == NONE {
      EscapedReads(Front(p));
      EscapedReads(Front(q));
      assert |p| == 32 ==> p[..32] == p;
      assert |q| == 32 ==> q[..32] == q;
    } else {
      CStrXored(p, h);
      CStrXored(q, h);
      ComesBack(p, key, h);
      ComesBack(q, key, h);
    }
  }

  method StrLen(buf: array<bv8>) returns (n: nat)
    ensures n == |CStr(buf[..])|
  {
    n := 0;
    while n < buf.Length && buf[n] != 0
      invariant n <= buf.Length && forall i :: 0 <= i < n ==> buf[i] != 0
    {
      n := n + 1;
    }
    CStrAt(buf[..], n);
  }

  /** A buffer whose C string s has been overwritten by its XOR up to position n. */
  ghost predicate XoredUpTo(now: Bytes, was: Bytes, s: Bytes, h: Hash, n: nat) {
    |now| == |was| && |s| <= |was| && s == was[..|s|] &&
    forall k :: 0 <= k < |was| ==> now[k] == if k < n && k < |s| then s[k] ^ h[k % 16] else was[k]
  }

  lemma DecodedNoNul(str: Bytes)
    ensures NoNul(Decode(str))
  {
    hide CStr, Groups, Valid;
  }

  lemma XorNone(was: Bytes, s: Bytes, h: Hash)
    requires |s| <= |was| && s == was[..|s|]
    ensures XoredUpTo(was, was, s, h, 0)
  {
  }

  lemma XorNext(now: Bytes, was: Bytes, s: Bytes, h: Hash, n: nat)
    requires XoredUpTo(now, was, s, h, n) && n < |s|
    ensures |s| <= |now| && XoredUpTo(now[n := now[n] ^ h[n % 16]], was, s, h, n + 1)
  {
  }

  lemma XorPast(now: Bytes, was: Bytes, s: Bytes, h: Hash, n: nat, m: nat)
    requires XoredUpTo(now, was, s, h, n) && n >= |s| && m >= n
    ensures XoredUpTo(now, was, s, h, m)
  {
  }

  lemma XorAll(now: Bytes, was: Bytes, s: Bytes, h: Hash, n: nat)
    requires XoredUpTo(now, was, s, h, n) && n >= |s|
    ensures now == Xored(s, h) + was[|s|..]
  {
  }

  class DbModule {
    const cryptokey: Bytes
    const digest: Digest

    constructor (key: Bytes, d: Digest)
      ensures cryptokey == key && digest == d
    {
      cryptokey, digest := key, d;
    }

    /** One block of md5_xor, at most up to the end of the string. */
    method XorBlock(data: array<bv8>, hash: Hash, dataLen: nat, i: nat, ghost was: Bytes, ghost s: Bytes)
      requires i % 16 == 0 && dataLen == |s| && i < dataLen && XoredUpTo(data[..], was, s, hash, i)
      modifies data
      ensures XoredUpTo(data[..], was, s, hash, i + 16)
    {
      hide XoredUpTo;
      var j := 0;
      while j < 16 && i + j < dataLen
        invariant 0 <= j <= 16 && i + j <= dataLen && XoredUpTo(data[..], was, s, hash, i + j)
      {
        assert (i + j) % 16 == j;
        ghost var now := data[..];
        XorNext(now, was, s, hash, i + j);
        data[i + j] := data[i + j] ^ hash[j];
        assert data[..] == now[i + j := now[i + j] ^ hash[(i + j) % 16]];
        j := j + 1;
      }
      if j < 16 { XorPast(data[..], was, s, hash, i + j, i + 16); }
    }

    /** md5_xor: the C string in data is overwritten in place, in blocks of 16. */
    method Md5Xor(data: array<bv8>, varkey: Bytes)
      modifies data
      ensures var s := old(CStr(data[..]));
              data[..] == (if cryptokey == NONE then s else Xored(s, digest(cryptokey, varkey))) + old(data[..])[|s|..]
    {
      hide CStr, XoredUpTo, Xored;
      ghost var was, s := data[..], CStr(data[..]);
      if cryptokey != NONE {
        var dataLen := StrLen(data);
        var hash := digest(cryptokey, varkey);
        var i := 0;
        XorNone(was, s, hash);
        while i < dataLen
          invariant 0 <= i && i % 16 == 0 && dataLen == |s| && XoredUpTo(data[..], was, s, hash, i)
        {
          XorBlock(data, hash, dataLen, i, was, s);
          i := i + 16;
        }
        XorAll(data[..], was, s, hash, i);
      } else {
        assert was == s + was[|s|..];
      }
    }

    /** Copy of a C string into a zeroed buffer. */
    method Load(s: Bytes, size: nat) returns (buf: array<bv8>)
      requires |s| <= size
      ensures fresh(buf) && buf.Length == size && buf[..] == s + seq(size - |s|, _ => 0)
    {
      buf := new bv8[size](_ => 0);
      var i := 0;
      while i < |s|
        invariant i <= |s| && forall k :: 0 <= k < size ==> buf[k] == if k < i then s[k] else 0
      {
        buf[i] := s[i];
        i := i + 1;
      }
    }

    /** The copying loop without a key. */
    method Escape(str: Bytes) returns (out: Bytes)
      ensures out == Escaped(Front(str))
    {
      hide Escaped;
      out := [];
      var i := 0;
      ghost var f := Front(str);
      assert f[0..] == f;
      while i < |str| && i < 32
        invariant i <= |f| && out + Escaped(f[i..]) == Escaped(f)
      {
        EscapedAt(f, i);
        if str[i] == 92 || str[i] == 39 || str[i] == 34 {
          out := out + [92, str[i]];
        } else {
          out := out + [str[i]];
        }
        i := i + 1;
      }
      EscapedNone();
      assert f[i..] == [] && out + [] == out;
    }

    method Encrypt(str: Bytes, varkey: Bytes) returns (out: Bytes)
      requires NoNul(str) && if cryptokey == NONE then |Escaped(Front(str))| <= 63 else |str| <= 31
      ensures out == Stored(str, cryptokey, digest(cryptokey, varkey))
    {
      if cryptokey == NONE {
        out := Escape(str);
        return;
      }
      hide Encode, CStr, Xored;
      var s := Load(str, 32);
      LoadedCStr(str, 32);
      Md5Xor(s, varkey);
      var n := StrLen(s);
      var ret := s[..n];
      TailNul(Xored(str, digest(cryptokey, varkey)), 32);
      out := Encode(ret);
    }

    method Decrypt(str: Bytes, varkey: Bytes) returns (out: Bytes)
      requires cryptokey != NONE ==> |str| <= 62 && |Decode(str)| <= 31
      ensures out == Recovered(str, cryptokey, digest(cryptokey, varkey))
    {
      if cryptokey == NONE { return str; }
      hide Decode, CStr, Xored;
      DecodedNoNul(str);
      var s := Decode(str);
      var r := Load(s, 64);
      LoadedCStr(s, 64);
      Md5Xor(r, varkey);
      var n := StrLen(r);
      TailNul(Xored(s, digest(cryptokey, varkey)), 64);
      out := r[..n];
    }
  }

  lemma LoadedCStr(s: Bytes, size: nat)
    requires NoNul(s) && |s| < size
    ensures CStr(s + seq(size - |s|, _ => 0)) == s
  {
    hide CStr;
    CStrAt(s + seq(size - |s|, _ => 0), |s|);
  }

  /** Zeros after a buffer's contents do not change its C string. */
  lemma TailNul(x: Bytes, size: nat)
    requires |x| < size
    ensures CStr(x + seq(size - |x|, _ => 0)) == CStr(x)
  {
    hide CStr;
    CStrAt(x + seq(size - |x|, _ => 0), |CStr(x)|);
  }
}
