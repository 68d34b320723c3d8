/** A reference reader for the XML the database file contains: what Expat reports for it.
    It covers tags, attributes with the five predefined entities, comments, processing instructions and
    document type declarations; all positions are absolute, as XML_GetCurrentByteIndex gives them. */
module XmlReader {
  import opened Text
  import E = XmlEscape

  datatype Option<T> = None | Some(value: T)
  datatype Attr = Attr(name: string, value: string)

  datatype Markup =
    | Misc                                       // comment, declaration, processing instruction
    | Open(name: string, attrs: seq<Attr>)
    | Close(name: string)
    | Empty(name: string, attrs: seq<Attr>)

  /** A row element is one unit: its start tag has length openLen, its end tag closeLen (0 for an empty tag). */
  datatype Kind =
    | Tag(markup: Markup)
    | Row(name: string, attrs: seq<Attr>, openLen: nat, closeLen: nat)

  predicate IsWs(c: char) {
    c in {' ', '\t', '\n', '\r'}
  }

  predicate IsNameChar(c: char) {
    'a' <= c <= 'z' || 'A' <= c <= 'Z' || '0' <= c <= '9' || c in {'_', '-', '.', ':'}
  }

  function SkipWs(s: string, i: nat): (j: nat)
    ensures i <= j && (i <= |s| ==> j <= |s|)
    ensures j < |s| ==> !IsWs(s[j])
    decreases |s| - i
  {
    if i < |s| && IsWs(s[i]) then SkipWs(s, i + 1) else i
  }

  function NameEnd(s: string, i: nat): (j: nat)
    ensures i <= j && (i <= |s| ==> j <= |s|)
    ensures forall k :: i <= k < j ==> k < |s| && IsNameChar(s[k])
    ensures j < |s| ==> !IsNameChar(s[j])
    decreases |s| - i
  {
    if i < |s| && IsNameChar(s[i]) then NameEnd(s, i + 1) else i
  }

  /** The predefined entity reference at i and its length, 0 if there is none (section 4.6 of XML 1.0). */
  function EntityAt(s: string, i: nat): (r: (char, nat))
    requires i < |s| && s[i] == '&'
    ensures r.1 > 0 ==> i + r.1 <= |s| && !IsWs(r.0)
  {
    if At(s, i, "&amp;") then ('&', 5)
    else if At(s, i, "&gt;") then ('>', 4)
    else if At(s, i, "&lt;") then ('<', 4)
    else if At(s, i, "&apos;") then ('\'', 6)
    else if At(s, i, "&quot;") then ('\"', 6)
    else (' ', 0)
  }

  /** The predefined entities of section 4.6 of XML 1.0. */
  lemma Predefined()
    ensures EntityAt("&lt;", 0) == ('<', 4) && EntityAt("&gt;", 0) == ('>', 4) && EntityAt("&amp;", 0) == ('&', 5)
    ensures EntityAt("&apos;", 0) == ('\'', 6) && EntityAt("&quot;", 0) == ('\"', 6)
  {
    Apart("&lt;", "&gt;", 1);
    Apart("&apos;", "&amp;", 2);
    Apart("&apos;", "&gt;", 1);
    Apart("&apos;", "&lt;", 1);
    Apart("&quot;", "&amp;", 1);
    Apart("&quot;", "&gt;", 1);
    Apart("&quot;", "&lt;", 1);
    Apart("&quot;", "&apos;", 1);
  }

  lemma Apart(s: string, t: string, k: nat)
    requires k < |s| && k < |t| && s[k] != t[k]
    ensures !At(s, 0, t)
  {
    assert s[0 + k] != t[k];
  }

  /** An attribute value up to its closing quote q: entities decoded, white space read as a blank
      (section 3.3.3 of XML 1.0). */
  function ReadValue(s: string, i: nat, q: char): (r: Option<(string, nat)>)
    ensures r.Some? ==> i < r.value.1 <= |s|
    decreases |s| - i
  {
    if i >= |s| || s[i] == '<' then None
    else if s[i] == q then Some(("", i + 1))
    else
      var (c, n) := if s[i] == '&' then EntityAt(s, i) else (if IsWs(s[i]) then ' ' else s[i], 1);
      if n == 0 then None
      else
        match ReadValue(s, i + n, q)
        case None => None
        case Some((v, j)) => Some(([c] + v, j))
  }

  datatype TagRest = TagRest(attrs: seq<Attr>, empty: bool, end: nat)

  /** name = 'value' at a, which is not white space. */
  function ReadAttr(s: string, a: nat): (r: Option<(Attr, nat)>)
    ensures r.Some? ==> a < r.value.1 <= |s|
  {
    var b := NameEnd(s, a);
    var c := SkipWs(s, b);
    if b == a || c >= |s| || s[c] != '=' then None
    else
      var d := SkipWs(s, c + 1);
      if d >= |s| || s[d] !in {'\'', '\"'} then None
      else
        match ReadValue(s, d + 1, s[d])
        case None => None
        case Some((v, e)) => Some((Attr(s[a..b], v), e))
  }

  /** The attributes of a tag and its closing bracket. */
  function ReadAttrs(s: string, i: nat): (r: Option<TagRest>)
    ensures r.Some? ==> i < r.value.end <= |s| && s[r.value.end - 1] == '>'
    decreases |s| - i, 1
  {
    var a := SkipWs(s, i);
    if a >= |s| then None
    else if s[a] == '>' then Some(TagRest([], false, a + 1))
    else if s[a] == '/' then (if a + 1 < |s| && s[a + 1] == '>' then Some(TagRest([], true, a + 2)) else None)
    else AttrsFrom(s, a, ReadAttr(s, a))
  }

  /** The attributes from the one on that was read at a. */
  function AttrsFrom(s: string, a: nat, x: Option<(Attr, nat)>): (r: Option<TagRest>)
    requires x.Some? ==> a < x.value.1 <= |s|
    ensures r.Some? ==> a < r.value.end <= |s| && s[r.value.end - 1] == '>'
    decreases |s| - a, 0
  {
    if x.None? then None
    else
      var rest := ReadAttrs(s, x.value.1);
      if rest.None? then None
      else Some(TagRest([x.value.0] + rest.value.attrs, rest.value.empty, rest.value.end))
  }

  /** Position just after the first occurrence of t at or after i. */
  function After(s: string, i: nat, t: string): (r: Option<nat>)
    requires |t| > 0
    ensures r.Some? ==> i < r.value <= |s| && s[r.value - 1] == t[|t| - 1]
    decreases |s| - i
  {
    if i >= |s| then None else if At(s, i, t) then Some(i + |t|) else After(s, i + 1, t)
  }

  /** End of a declaration; its internal subset stands between square brackets. */
  function DeclEnd(s: string, i: nat, depth: nat): (r: Option<nat>)
    ensures r.Some? ==> i < r.value <= |s| && s[r.value - 1] == '>'
    decreases |s| - i
  {
    if i >= |s| then None
    else if s[i] == '>' && depth == 0 then Some(i + 1)
    else if s[i] == '[' then DeclEnd(s, i + 1, depth + 1)
    else if s[i] == ']' && depth > 0 then DeclEnd(s, i + 1, depth - 1)
    else DeclEnd(s, i + 1, depth)
  }

  /** End of a comment, declaration or processing instruction that starts at i. */
  function MiscEnd(s: string, i: nat): (r: Option<nat>)
    requires i + 1 < |s|
    ensures r.Some? ==> i + 2 < r.value <= |s| && s[r.value - 1] == '>'
  {
    if s[i + 1] == '?' then After(s, i + 2, "?>")
    else if At(s, i, "<!--") then After(s, i + 4, "-->")
    else DeclEnd(s, i + 2, 0)
  }

  function ReadClose(s: string, i: nat): (r: Option<(Markup, nat)>)
    ensures r.Some? ==> i + 2 < r.value.1 <= |s| && s[r.value.1 - 1] == '>'
  {
    var b := NameEnd(s, i + 2);
    var c := SkipWs(s, b);
    if c < |s| && s[c] == '>' then Some((Close(s[i + 2..b]), c + 1)) else None
  }

  function ReadOpen(s: string, i: nat): (r: Option<(Markup, nat)>)
    ensures r.Some? ==> i + 1 < r.value.1 <= |s| && s[r.value.1 - 1] == '>'
  {
    var b := NameEnd(s, i + 1);
    match ReadAttrs(s, b)
    case None => None
    case Some(rest) =>
      Some((if rest.empty then Empty(s[i + 1..b], rest.attrs) else Open(s[i + 1..b], rest.attrs), rest.end))
  }

  function ReadMarkup(s: string, i: nat): (r: Option<(Markup, nat)>)
    ensures r.Some? ==> i < r.value.1 <= |s| && s[i] == '<' && s[r.value.1 - 1] == '>'
  {
    if i + 1 >= |s| || s[i] != '<' then None
    else if s[i + 1] in {'?', '!'} then
      match MiscEnd(s, i) case None => None case Some(j) => Some((Misc, j))
    else if s[i + 1] == '/' then ReadClose(s, i)
    else ReadOpen(s, i)
  }

  /** Character data: the position of the next '<', or the end. */
  function TextEnd(s: string, i: nat): (j: nat)
    requires i <= |s|
    ensures i <= j <= |s| && '<' !in s[i..j] && (j < |s| ==> s[j] == '<')
    decreases |s| - i
  {
    if i < |s| && s[i] != '<' then
      var j := TextEnd(s, i + 1);
      assert s[i..j] == [s[i]] + s[i + 1..j];
      j
    else i
  }

  /** A piece of markup that was read at i, and its end. */
  predicate Within(s: string, i: nat, r: Option<(Markup, nat)>) {
    r.Some? ==> i < r.value.1 <= |s| && s[i] == '<' && s[r.value.1 - 1] == '>'
  }

  /** Content of a non-empty row: comments and character data, then the end tag (its start and end). */
  function ReadRowBody(s: string, i: nat): (r: Option<(nat, nat)>)
    requires i <= |s|
    ensures r.Some? ==> i <= r.value.0 < r.value.1 <= |s| && s[r.value.1 - 1] == '>'
    decreases |s| - i, 1
  {
    var a := TextEnd(s, i);
    BodyFrom(s, a, ReadMarkup(s, a))
  }

  function BodyFrom(s: string, a: nat, r: Option<(Markup, nat)>): (b: Option<(nat, nat)>)
    requires a <= |s| && Within(s, a, r)
    ensures b.Some? ==> a <= b.value.0 < b.value.1 <= |s| && s[b.value.1 - 1] == '>'
    decreases |s| - a, 0
  {
    if r.None? then None
    else
      var (m, j) := r.value;
      if m.Misc? then ReadRowBody(s, j)
      else if m.Close? && EqNoCase(m.name, "row") then Some((a, j))
      else None
  }

  /** One unit of the document: a tag, or a whole row element. */
  function ReadNode(s: string, i: nat): (r: Option<(Kind, nat)>)
    ensures r.Some? ==> i < r.value.1 <= |s| && s[i] == '<' && s[r.value.1 - 1] == '>'
    ensures r.Some? && r.value.0.Row? ==> r.value.0.openLen + r.value.0.closeLen <= r.value.1 - i
  {
    NodeFrom(s, i, ReadMarkup(s, i))
  }

  function NodeFrom(s: string, i: nat, r: Option<(Markup, nat)>): (n: Option<(Kind, nat)>)
    requires Within(s, i, r)
    ensures n.Some? ==> i < n.value.1 <= |s| && s[i] == '<' && s[n.value.1 - 1] == '>'
    ensures n.Some? && n.value.0.Row? ==> n.value.0.openLen + n.value.0.closeLen <= n.value.1 - i
  {
    if r.None? then None
    else
      var (m, j) := r.value;
      if !(m.Open? || m.Empty?) || !EqNoCase(m.name, "row") then Some((Tag(m), j))
      else if m.Empty? then Some((Row(m.name, m.attrs, j - i, 0), j))
      else
        var body := ReadRowBody(s, j);
        if body.None? then None
        else Some((Row(m.name, m.attrs, j - i, body.value.1 - body.value.0), body.value.1))
  }

  /** s1[lo..hi] stands in s2, d positions further on. */
  ghost predicate Same(s1: string, lo: nat, hi: nat, s2: string, d: int) {
    lo <= hi <= |s1| && 0 <= lo + d && hi + d <= |s2| &&
    forall k {:trigger s1[k]} :: lo <= k < hi ==> s1[k] == s2[k + d]
  }

  lemma SameSlice(s1: string, lo: nat, hi: nat, s2: string, d: int, a: nat, b: nat)
    requires Same(s1, lo, hi, s2, d) && lo <= a <= b <= hi
    ensures s1[a..b] == s2[a + d..b + d]
  {
  }

  lemma SameAt(s1: string, lo: nat, hi: nat, s2: string, d: int, i: nat, t: string)
    requires Same(s1, lo, hi, s2, d) && lo <= i && i + |t| <= hi
    ensures At(s1, i, t) == At(s2, i + d, t)
  {
  }

  lemma SkipWsSame(s1: string, i: nat, hi: nat, s2: string, d: int)
    requires Same(s1, i, hi, s2, d) && SkipWs(s1, i) < hi
    ensures SkipWs(s2, i + d) == SkipWs(s1, i) + d
    decreases |s1| - i
  {
    if i < hi { assert s1[i] == s2[i + d]; }
    if IsWs(s1[i]) { SkipWsSame(s1, i + 1, hi, s2, d); }
  }

  lemma NameEndSame(s1: string, i: nat, hi: nat, s2: string, d: int)
    requires Same(s1, i, hi, s2, d) && NameEnd(s1, i) < hi
    ensures NameEnd(s2, i + d) == NameEnd(s1, i) + d
    decreases |s1| - i
  {
    if i < hi { assert s1[i] == s2[i + d]; }
    if IsNameChar(s1[i]) { NameEndSame(s1, i + 1, hi, s2, d); }
  }

  lemma EntityAtSame(s1: string, i: nat, hi: nat, s2: string, d: int)
    requires Same(s1, i, hi, s2, d) && i < hi && s1[i] == '&' && s2[i + d] == '&'
    requires EntityAt(s1, i).1 > 0 && i + EntityAt(s1, i).1 <= hi
    ensures EntityAt(s2, i + d) == EntityAt(s1, i)
  {
    var n := EntityAt(s1, i).1;
    assert s1[i + 1] == s2[i + 1 + d] && s1[i + 2] == s2[i + 2 + d];
    assert At(s1, i, "&amp;") ==> s1[i + 1] == "&amp;"[1] && s1[i + 2] == "&amp;"[2];
    assert At(s2, i + d, "&amp;") ==> s2[i + d + 1] == "&amp;"[1] && s2[i + d + 2] == "&amp;"[2];
    assert At(s1, i, "&gt;") ==> s1[i + 1] == "&gt;"[1];
    assert At(s2, i + d, "&gt;") ==> s2[i + d + 1] == "&gt;"[1];
    assert At(s1, i, "&lt;") ==> s1[i + 1] == "&lt;"[1];
    assert At(s2, i + d, "&lt;") ==> s2[i + d + 1] == "&lt;"[1];
    assert At(s1, i, "&apos;") ==> s1[i + 1] == "&apos;"[1] && s1[i + 2] == "&apos;"[2];
    assert At(s2, i + d, "&apos;") ==> s2[i + d + 1] == "&apos;"[1] && s2[i + d + 2] == "&apos;"[2];
    assert At(s1, i, "&quot;") ==> s1[i + 1] == "&quot;"[1];
    SameAt(s1, i, hi, s2, d, i, if n == 5 then "&amp;" else if s1[i + 1] == 'g' then "&gt;"
      else if s1[i + 1] == 'l' then "&lt;" else if s1[i + 1] == 'a' then "&apos;" else "&quot;");
  }

  lemma ReadValueSame(s1: string, i: nat, q: char, s2: string, d: int)
    requires ReadValue(s1, i, q).Some? && Same(s1, i, ReadValue(s1, i, q).value.1, s2, d)
    ensures ReadValue(s2, i + d, q) == Some((ReadValue(s1, i, q).value.0, ReadValue(s1, i, q).value.1 + d))
    decreases |s1| - i
  {
    hide EntityAt;
    var hi := ReadValue(s1, i, q).value.1;
    assert s1[i] == s2[i + d];
    if s1[i] != q {
      var n := if s1[i] == '&' then EntityAt(s1, i).1 else 1;
      if s1[i] == '&' { EntityAtSame(s1, i, hi, s2, d); }
      ReadValueSame(s1, i + n, q, s2, d);
    }
  }

  lemma {:induction false} ReadAttrSame(s1: string, a: nat, x: Attr, hi: nat, s2: string, d: int)
    requires ReadAttr(s1, a) == Some((x, hi)) && Same(s1, a, hi, s2, d)
    ensures ReadAttr(s2, a + d) == Some((x, hi + d))
  {
    hide ReadValue, NameEnd, SkipWs;
    var b := NameEnd(s1, a);
    var c := SkipWs(s1, b);
    var e := SkipWs(s1, c + 1);
    NameEndSame(s1, a, hi, s2, d);
    SkipWsSame(s1, b, hi, s2, d);
    SkipWsSame(s1, c + 1, hi, s2, d);
    assert s1[c] == s2[c + d] && s1[e] == s2[e + d];
    ReadValueSame(s1, e + 1, s1[e], s2, d);
    SameSlice(s1, a, hi, s2, d, a, b);
  }

  lemma {:induction false} ReadAttrsSame(s1: string, i: nat, r: TagRest, s2: string, d: int)
    requires ReadAttrs(s1, i) == Some(r) && Same(s1, i, r.end, s2, d)
    ensures ReadAttrs(s2, i + d) == Some(TagRest(r.attrs, r.empty, r.end + d))
    decreases |s1| - i
  {
    hide ReadAttr, SkipWs;
    var a := SkipWs(s1, i);
    SkipWsSame(s1, i, r.end, s2, d);
    assert s1[a] == s2[a + d];
    if s1[a] == '>' {
    } else if s1[a] == '/' {
      assert s1[a + 1] == s2[a + 1 + d];
    } else {
      var (x, e) := ReadAttr(s1, a).value;
      var rest := ReadAttrs(s1, e).value;
      ReadAttrSame(s1, a, x, e, s2, d);
      ReadAttrsSame(s1, e, rest, s2, d);
    }
  }

  lemma {:induction false} AfterSame(s1: string, i: nat, t: string, s2: string, d: int)
    requires |t| > 0 && After(s1, i, t).Some? && Same(s1, i, After(s1, i, t).value, s2, d)
    ensures After(s2, i + d, t) == Some(After(s1, i, t).value + d)
    decreases |s1| - i
  {
    var hi := After(s1, i, t).value;
    AfterLong(s1, i, t);
    SameAt(s1, i, hi, s2, d, i, t);
    if !At(s1, i, t) { AfterSame(s1, i + 1, t, s2, d); }
  }

  lemma AfterLong(s: string, i: nat, t: string)
    requires |t| > 0 && After(s, i, t).Some?
    ensures i + |t| <= After(s, i, t).value
    decreases |s| - i
  {
    if !At(s, i, t) { AfterLong(s, i + 1, t); }
  }

  lemma {:induction false} DeclEndSame(s1: string, i: nat, depth: nat, s2: string, d: int)
    requires DeclEnd(s1, i, depth).Some? && Same(s1, i, DeclEnd(s1, i, depth).value, s2, d)
    ensures DeclEnd(s2, i + d, depth) == Some(DeclEnd(s1, i, depth).value + d)
    decreases |s1| - i
  {
    assert s1[i] == s2[i + d];
    if s1[i] == '>' && depth == 0 {
    } else if s1[i] == '[' {
      DeclEndSame(s1, i + 1, depth + 1, s2, d);
    } else if s1[i] == ']' && depth > 0 {
      DeclEndSame(s1, i + 1, depth - 1, s2, d);
    } else {
      DeclEndSame(s1, i + 1, depth, s2, d);
    }
  }

  /** Whether "<!--" starts at i is settled within the declaration that is read there. */
  lemma {:induction false} CommentStartSame(s1: string, i: nat, hi: nat, s2: string, d: int)
    requires Same(s1, i, hi, s2, d) && i + 3 <= hi && s1[i] == '<' && s1[i + 1] == '!' && s1[hi - 1] == '>'
    ensures At(s1, i, "<!--") == At(s2, i + d, "<!--")
  {
    var t := "<!--";
    assert s1[i + 2] == s2[i + 2 + d] && s1[hi - 1] == s2[hi - 1 + d];
    assert t[2] == '-' && t[3] == '-';
    if i + 4 <= hi { SameAt(s1, i, hi, s2, d, i, t); }
  }

  lemma {:induction false} MiscEndSame(s1: string, i: nat, hi: nat, s2: string, d: int)
    requires i + 1 < |s1| && s1[i] == '<' && s1[i + 1] in {'?', '!'}
    requires MiscEnd(s1, i) == Some(hi) && Same(s1, i, hi, s2, d)
    ensures MiscEnd(s2, i + d) == Some(hi + d)
  {
    hide After, DeclEnd, At;
    assert s1[i + 1] == s2[i + 1 + d];
    if s1[i + 1] == '?' {
      AfterSame(s1, i + 2, "?>", s2, d);
    } else {
      CommentStartSame(s1, i, hi, s2, d);
      if At(s1, i, "<!--") { AfterSame(s1, i + 4, "-->", s2, d); } else { DeclEndSame(s1, i + 2, 0, s2, d); }
    }
  }

  lemma {:induction false} ReadCloseSame(s1: string, i: nat, m: Markup, hi: nat, s2: string, d: int)
    requires ReadClose(s1, i) == Some((m, hi)) && Same(s1, i, hi, s2, d)
    ensures ReadClose(s2, i + d) == Some((m, hi + d))
  {
    hide NameEnd, SkipWs;
    var b := NameEnd(s1, i + 2);
    NameEndSame(s1, i + 2, hi, s2, d);
    SkipWsSame(s1, b, hi, s2, d);
    assert s1[hi - 1] == s2[hi - 1 + d];
    SameSlice(s1, i, hi, s2, d, i + 2, b);
  }

  lemma {:induction false} ReadOpenSame(s1: string, i: nat, m: Markup, hi: nat, s2: string, d: int)
    requires ReadOpen(s1, i) == Some((m, hi)) && Same(s1, i, hi, s2, d)
    ensures ReadOpen(s2, i + d) == Some((m, hi + d))
  {
    hide ReadAttrs, NameEnd;
    var b := NameEnd(s1, i + 1);
    var rest := ReadAttrs(s1, b).value;
    NameEndSame(s1, i + 1, hi, s2, d);
    ReadAttrsSame(s1, b, rest, s2, d);
    SameSlice(s1, i, hi, s2, d, i + 1, b);
  }

  lemma {:induction false} ReadMarkupSame(s1: string, i: nat, m: Markup, hi: nat, s2: string, d: int)
    requires ReadMarkup(s1, i) == Some((m, hi)) && Same(s1, i, hi, s2, d)
    ensures ReadMarkup(s2, i + d) == Some((m, hi + d))
  {
    hide MiscEnd, ReadClose, ReadOpen;
    assert s1[i] == s2[i + d] && s1[i + 1] == s2[i + 1 + d];
    if s1[i + 1] in {'?', '!'} {
      MiscEndSame(s1, i, hi, s2, d);
    } else if s1[i + 1] == '/' {
      ReadCloseSame(s1, i, m, hi, s2, d);
    } else {
      ReadOpenSame(s1, i, m, hi, s2, d);
    }
  }

  lemma TextEndSame(s1: string, i: nat, hi: nat, s2: string, d: int)
    requires Same(s1, i, hi, s2, d) && TextEnd(s1, i) < hi
    ensures TextEnd(s2, i + d) == TextEnd(s1, i) + d
    decreases |s1| - i
  {
    assert s1[i] == s2[i + d];
    if s1[i] != '<' { TextEndSame(s1, i + 1, hi, s2, d); }
  }

  lemma {:induction false} ReadRowBodySame(s1: string, i: nat, c: nat, hi: nat, s2: string, d: int)
    requires i <= |s1| && ReadRowBody(s1, i) == Some((c, hi)) && Same(s1, i, hi, s2, d)
    ensures ReadRowBody(s2, i + d) == Some((c + d, hi + d))
    decreases |s1| - i
  {
    hide ReadMarkup, TextEnd, EqNoCase;
    var a := TextEnd(s1, i);
    TextEndSame(s1, i, hi, s2, d);
    var (m, j) := ReadMarkup(s1, a).value;
    ReadMarkupSame(s1, a, m, j, s2, d);
    if m.Misc? { ReadRowBodySame(s1, j, c, hi, s2, d); }
  }

  /** Reading a unit depends on the unit's own text only. */
  lemma {:induction false} ReadNodeSame(s1: string, i: nat, k: Kind, hi: nat, s2: string, d: int)
    requires ReadNode(s1, i) == Some((k, hi)) && Same(s1, i, hi, s2, d)
    ensures ReadNode(s2, i + d) == Some((k, hi + d))
  {
    hide ReadMarkup, ReadRowBody, EqNoCase;
    var (m, j) := ReadMarkup(s1, i).value;
    ReadMarkupSame(s1, i, m, j, s2, d);
    if m.Open? && EqNoCase(m.name, "row") {
      var (c, e) := ReadRowBody(s1, j).value;
      ReadRowBodySame(s1, j, c, e, s2, d);
    }
  }
}
