/** convert2WF of the XML file database: five replacement passes over one string (db/xml-db.cc). */
module XmlEscape {
  import opened Text

  /** Every c of s replaced by t, in one sweep. */
  function Subst(s: string, c: char, t: string): string {
    if s == [] then [] else (if s[0] == c then t else [s[0]]) + Subst(s[1..], c, t)
  }

  /** The entity reference of a special character; any other character stands for itself. */
  function Entity(c: char): string {
    match c
    case '&' => "&amp;"
    case '>' => "&gt;"
    case '<' => "&lt;"
    case '\'' => "&apos;"
    case '\"' => "&quot;"
    case _ => [c]
  }

  /** The simultaneous substitution: each character on its own. */
  function Encode(s: string): string {
    if s == [] then [] else Entity(s[0]) + Encode(s[1..])
  }

  // ----- lemmas about Subst

  lemma SubstAppend(a: string, b: string, c: char, t: string)
    ensures Subst(a + b, c, t) == Subst(a, c, t) + Subst(b, c, t)
  {
    if a == [] {
      assert a + b == b;
    } else {
      assert (a + b)[1..] == a[1..] + b;
      SubstAppend(a[1..], b, c, t);
    }
  }

  lemma SubstWithout(s: string, c: char, t: string)
    requires c !in s
    ensures Subst(s, c, t) == s
  {
    if s != [] { SubstWithout(s[1..], c, t); }
  }

  lemma SubstRemoves(s: string, c: char, t: string)
    requires c !in t
    ensures c !in Subst(s, c, t)
  {
    if s != [] { SubstRemoves(s[1..], c, t); }
  }

  /** One round of a pass: the first c of the rest is replaced and the swept part grows past it. */
  lemma SubstGrows(orig: string, k: nat, p: nat, c: char, t: string)
    requires k <= p < |orig| && orig[p] == c && c !in orig[k..p]
    ensures Subst(orig[..p + 1], c, t) == Subst(orig[..k], c, t) + orig[k..p] + t
  {
    var a, b := orig[..k], orig[k..p];
    assert orig[..p + 1] == (a + b) + [c];
    SubstAppend(a + b, [c], c, t);
    SubstAppend(a, b, c, t);
    SubstWithout(b, c, t);
    assert Subst([c], c, t) == t + Subst([], c, t) == t;
  }

  /** str is the sweep of orig[..k] followed by the rest of orig; the swept part has length done. */
  ghost predicate Swept(orig: string, k: nat, c: char, t: string, str: string, done: nat) {
    k <= |orig| && str == Subst(orig[..k], c, t) + orig[k..] && done == |Subst(orig[..k], c, t)|
  }

  /** Replacing the first unswept c, at pos, sweeps up to and including it. */
  lemma ReplaceRound(orig: string, k: nat, c: char, t: string, str: string, done: nat, pos: nat,
                     str': string, k': nat, done': nat)
    requires Swept(orig, k, c, t, str, done)
    requires done <= pos < |str| && str[pos] == c
    requires forall m :: done <= m < pos ==> str[m] != c
    requires str' == str[..pos] + t + str[pos + 1..] && k' == k + (pos - done) + 1 && done' == pos + |t|
    ensures Swept(orig, k', c, t, str', done')
  {
    var p := k + (pos - done);
    assert forall m :: k <= m < |orig| ==> orig[m] == str[done + (m - k)];
    SubstGrows(orig, k, p, c, t);
    assert str[..pos] == Subst(orig[..k], c, t) + orig[k..p];
    assert str[pos + 1..] == orig[p + 1..];
  }

  /** When no c is left in the unswept rest, the whole string is swept. */
  lemma ReplaceDone(orig: string, k: nat, c: char, t: string, str: string, done: nat)
    requires Swept(orig, k, c, t, str, done)
    requires forall m :: done <= m < |str| ==> str[m] != c
    ensures str == Subst(orig, c, t)
  {
    hide Subst;
    var rest := orig[k..];
    forall m | 0 <= m < |rest| ensures rest[m] != c { assert str[done + m] == rest[m]; }
    SubstAppend(orig[..k], rest, c, t);
    SubstWithout(rest, c, t);
    assert orig == orig[..k] + rest;
  }

  lemma SweptHasNone(orig: string, k: nat, c: char, t: string, str: string, done: nat)
    requires Swept(orig, k, c, t, str, done) && c !in t
    ensures done <= |str| && forall m :: 0 <= m < done ==> str[m] != c
  {
    SubstRemoves(orig[..k], c, t);
    assert forall m :: 0 <= m < done ==> str[m] == Subst(orig[..k], c, t)[m];
  }

  /** A pass for a character that its own replacement does not contain: every search starts at 0. */
  method ReplacePass(orig: string, c: char, t: string) returns (str: string)
    requires c !in t
    ensures str == Subst(orig, c, t)
  {
    str := orig;
    ghost var k: nat, done: nat := 0, 0;
    var pos := Find(str, c, 0);
    while pos != -1
      invariant Swept(orig, k, c, t, str, done)
      invariant pos == Find(str, c, 0)
      decreases |orig| - k
    {
      SweptHasNone(orig, k, c, t, str, done);
      ghost var k0, done0, str0 := k, done, str;
      k, done := k + (pos - done) + 1, pos + |t|;
      str := str[..pos] + t + str[pos + 1..];
      ReplaceRound(orig, k0, c, t, str0, done0, pos, str, k, done);
      pos := Find(str, c, 0);
    }
    ReplaceDone(orig, k, c, t, str, done);
  }

  ghost predicate Clear(s: string, c: char, lo: nat, hi: nat) {
    lo <= hi <= |s| && c !in s[lo..hi]
  }

  /** After the round, the rest of the replacement text is free of c. */
  lemma HeadRound(str: string, c: char, t: string, pos: nat)
    requires pos < |str| && |t| > 0 && c !in t[1..]
    ensures Clear(str[..pos] + t + str[pos + 1..], c, pos + 1, pos + |t|)
  {
    assert (str[..pos] + t + str[pos + 1..])[pos + 1..pos + |t|] == t[1..];
  }

  lemma HeadHit(str: string, c: char, from: nat, done: nat, pos: nat)
    requires Clear(str, c, from, done) && pos == Find(str, c, from)
    ensures done <= pos < |str| && str[pos] == c && forall m :: done <= m < pos ==> str[m] != c
  {
  }

  /** The pass for '&', which starts its own replacement: the search resumes one past each hit. */
  method ReplaceHeadPass(orig: string, c: char, t: string) returns (str: string)
    requires |t| > 0 && t[0] == c && c !in t[1..]
    ensures str == Subst(orig, c, t)
  {
    str := orig;
    ghost var k: nat, done: nat := 0, 0;
    var from := 0;
    var pos := Find(str, c, from);
    while pos != -1
      invariant Swept(orig, k, c, t, str, done)
      invariant Clear(str, c, from, done)
      invariant pos == Find(str, c, from)
      decreases |orig| - k
    {
      HeadHit(str, c, from, done, pos);
      HeadRound(str, c, t, pos);
      ghost var k0, done0, str0 := k, done, str;
      k, done := k + (pos - done) + 1, pos + |t|;
      str, from := str[..pos] + t + str[pos + 1..], pos + 1;
      ReplaceRound(orig, k0, c, t, str0, done0, pos, str, k, done);
      pos := Find(str, c, from);
    }
    ReplaceDone(orig, k, c, t, str, done);
  }

  /** The five passes one after the other. */
  function FivePasses(s: string): string {
    Subst(Subst(Subst(Subst(Subst(s, '&', "&amp;"), '>', "&gt;"), '<', "&lt;"), '\'', "&apos;"), '\"', "&quot;")
  }

  /** A pass acts on a first block and on the rest independently. */
  lemma FivePassesSplit(a: string, b: string)
    ensures FivePasses(a + b) == FivePasses(a) + FivePasses(b)
  {
    var a1, b1 := Subst(a, '&', "&amp;"), Subst(b, '&', "&amp;");
    var a2, b2 := Subst(a1, '>', "&gt;"), Subst(b1, '>', "&gt;");
    var a3, b3 := Subst(a2, '<', "&lt;"), Subst(b2, '<', "&lt;");
    var a4, b4 := Subst(a3, '\'', "&apos;"), Subst(b3, '\'', "&apos;");
    SubstAppend(a, b, '&', "&amp;");
    SubstAppend(a1, b1, '>', "&gt;");
    SubstAppend(a2, b2, '<', "&lt;");
    SubstAppend(a3, b3, '\'', "&apos;");
    SubstAppend(a4, b4, '\"', "&quot;");
  }

  /** The passes for the characters of S have been made on the one-character string c. */
  function Stage(c: char, S: set<char>): string {
    if c in S then Entity(c) else [c]
  }

  /** A later pass leaves the output of the earlier ones alone. */
  lemma StageStep(c: char, S: set<char>, d: char)
    requires d in {'&', '>', '<', '\'', '\"'} && d !in S && (d == '&' ==> S == {})
    ensures Subst(Stage(c, S), d, Entity(d)) == Stage(c, S + {d})
  {
    if c in S {
      SubstWithout(Entity(c), d, Entity(d));
    } else {
      assert Subst([c], d, Entity(d)) == (if c == d then Entity(d) else [c]) + Subst([], d, Entity(d));
    }
  }

  /** On a single character the five passes amount to its entity. */
  lemma FivePassesOne(c: char)
    ensures FivePasses([c]) == Entity(c)
  {
    StageStep(c, {}, '&');
    StageStep(c, {'&'}, '>');
    StageStep(c, {'&', '>'}, '<');
    StageStep(c, {'&', '>', '<'}, '\'');
    StageStep(c, {'&', '>', '<', '\''}, '\"');
  }

  /** The sequential passes equal the simultaneous substitution. */
  lemma {:induction false} FivePassesAreEncode(s: string)
    ensures FivePasses(s) == Encode(s)
  {
    if s == [] {
    } else {
      assert s == [s[0]] + s[1..];
      FivePassesSplit([s[0]], s[1..]);
      FivePassesOne(s[0]);
      FivePassesAreEncode(s[1..]);
    }
  }

  /** convert2WF: terminates on every string and computes the simultaneous substitution. */
  method Convert2WF(s: string) returns (str: string)
    ensures str == Encode(s)
  {
    str := ReplaceHeadPass(s, '&', "&amp;");
    str := ReplacePass(str, '>', "&gt;");
    str := ReplacePass(str, '<', "&lt;");
    str := ReplacePass(str, '\'', "&apos;");
    str := ReplacePass(str, '\"', "&quot;");
    FivePassesAreEncode(s);
  }

  /** The escaped text can stand in a quoted attribute value. */
  lemma {:induction false} EncodeIsQuotable(s: string)
    ensures forall k :: 0 <= k < |Encode(s)| ==> Encode(s)[k] !in {'<', '>', '\'', '\"'}
    ensures (forall k :: 0 <= k < |s| ==> s[k] !in {'\t', '\n', '\r'}) ==>
            forall k :: 0 <= k < |Encode(s)| ==> Encode(s)[k] !in {'\t', '\n', '\r'}
  {
    if s != [] { EncodeIsQuotable(s[1..]); }
  }
}
