/** The splitter of command lines into words: quotes, backslash escapes, trailing comments. */
module LineSplitter {

  /** vt_line has room for 300 characters and snprintf is given one less, for 298 and the end mark. */
  const LINE_MAX: nat := 298

  function Cut(line: string): (s: string)
    ensures |s| <= LINE_MAX && s <= line
  {
    if |line| <= LINE_MAX then line else line[..LINE_MAX]
  }

  datatype Span = Span(first: nat, len: nat)

  predicate IsQuote(c: char) {
    c == '\'' || c == '\"'
  }

  predicate IsCommentSign(c: char) {
    c == '!' || c == '#' || c == ';'
  }

  /** Position after the character at pos, or after the escaped pair that starts there. */
  function Next(s: string, pos: nat): (n: nat)
    requires pos < |s|
    ensures pos < n <= |s|
  {
    if s[pos] == '\\' && pos + 1 < |s| then pos + 2 else pos + 1
  }

  /** End of a word that is closed by delim: the first unescaped delim, or the end of the line. */
  function WordEnd(s: string, pos: nat, delim: char): (e: nat)
    requires pos <= |s|
    ensures pos <= e <= |s|
    ensures e < |s| ==> s[e] == delim
    decreases |s| - pos
  {
    if pos == |s| || (s[pos] != '\\' && s[pos] == delim) then pos else WordEnd(s, Next(s, pos), delim)
  }

  function WordStart(s: string, pos: nat): nat
    requires pos < |s|
  {
    if IsQuote(s[pos]) then pos + 1 else pos
  }

  /** End of the word whose first character or opening quote is at pos. */
  function WordStop(s: string, pos: nat): (e: nat)
    requires pos < |s|
    ensures pos < e <= |s| && WordStart(s, pos) <= e
    ensures e < |s| ==> s[e] == ' ' || IsQuote(s[e])
  {
    if IsQuote(s[pos]) then WordEnd(s, pos + 1, s[pos]) else WordEnd(s, Next(s, pos), ' ')
  }

  /** The words of s from pos on, where pos stands between words. */
  function Words(s: string, pos: nat): seq<Span>
    requires pos <= |s|
    decreases |s| - pos
  {
    if pos == |s| || IsCommentSign(s[pos]) then []
    else if s[pos] == ' ' then Words(s, pos + 1)
    else
      var start, e := WordStart(s, pos), WordStop(s, pos);
      [Span(start, e - start)] + (if e < |s| then Words(s, e + 1) else [])
  }

  /** Where the trailing comment starts; the end of the line if there is none. */
  function CommentStart(s: string, pos: nat): (c: nat)
    requires pos <= |s|
    ensures pos <= c <= |s|
    decreases |s| - pos
  {
    if pos == |s| || IsCommentSign(s[pos]) then pos
    else if s[pos] == ' ' then CommentStart(s, pos + 1)
    else
      var e := WordStop(s, pos);
      if e < |s| then CommentStart(s, e + 1) else e
  }

  class VtyLineSplitter {
    var splitLine: seq<Span>
    var comment: (int, int)

    constructor ()
      ensures splitLine == [] && comment == (0, 0)
    {
      splitLine, comment := [], (0, 0);
    }

    /** split: one pass over the line; a word is entered with length 0 and gets its length when it is closed. */
    method Split(line: string)
      modifies this
      ensures splitLine == Words(Cut(line), 0)
      ensures var c := CommentStart(Cut(line), 0); comment == if c < |Cut(line)| then (1, c) else old(comment)
    {
      hide Words, CommentStart, WordEnd, WithLast;
      var vt_line := Cut(line);
      var pos := 0;
      splitLine := [];
      var inside := false;
      var delim := ' ';
      ghost var seen := false;
      assert [] + Words(vt_line, 0) == Words(vt_line, 0);
      while pos < |vt_line|
        invariant pos <= |vt_line| && (!inside ==> delim == ' ')
        invariant inside ==> splitLine != [] && splitLine[|splitLine| - 1].first <= pos
        invariant Total(splitLine, inside, vt_line, pos, delim) == Words(vt_line, 0)
        invariant !seen ==> comment == old(comment)
        invariant !seen ==> CommentFrom(inside, vt_line, pos, delim) == CommentStart(vt_line, 0)
        invariant seen ==> pos == |vt_line| && !inside && CommentStart(vt_line, 0) < |vt_line|
        invariant seen ==> comment == (1, CommentStart(vt_line, 0))
      {
        var c := vt_line[pos];
        if inside { InWord(vt_line, pos, delim); } else { BetweenWords(splitLine, vt_line, pos); }
        if c == '\\' {
          if !inside {
            splitLine := splitLine + [Span(pos, 0)];
            inside := true;
          }
          pos := if pos + 1 < |vt_line| then pos + 2 else pos + 1;
        } else if !inside && IsCommentSign(c) {
          comment := (1, pos);
          seen := true;
          pos := |vt_line|;
        } else if c == delim {
          if inside {
            var last := splitLine[|splitLine| - 1];
            splitLine := WithLast(splitLine, Span(last.first, pos - last.first));
            inside := false;
            delim := ' ';
          }
          pos := pos + 1;
        } else if IsQuote(c) || c == ' ' {
          if !inside {
            splitLine := splitLine + [Span(pos + 1, 0)];
            delim := c;
            inside := true;
          }
          pos := pos + 1;
        } else {
          if !inside {
            splitLine := splitLine + [Span(pos, 0)];
            inside := true;
          }
          pos := pos + 1;
        }
      }
      LineEnd(vt_line, delim);
      if inside {
        var last := splitLine[|splitLine| - 1];
        splitLine := WithLast(splitLine, Span(last.first, pos - last.first));
        assert splitLine + [] == splitLine;
      } else {
        assert splitLine + [] == splitLine;
      }
    }
  }

  function WithLast(spans: seq<Span>, last: Span): seq<Span>
    requires spans != []
  {
    spans[..|spans| - 1] + [last]
  }

  /** All words of the line, from those entered so far and the place the scan has reached. */
  function Total(spans: seq<Span>, inside: bool, s: string, pos: nat, delim: char): seq<Span>
    requires pos <= |s| && (inside ==> spans != [] && spans[|spans| - 1].first <= pos)
  {
    if inside then Closed(spans, s, WordEnd(s, pos, delim)) else spans + Words(s, pos)
  }

  /** The words once the open one, the last of spans, is closed at e. */
  function Closed(spans: seq<Span>, s: string, e: nat): seq<Span>
    requires spans != [] && spans[|spans| - 1].first <= e <= |s|
  {
    var first := spans[|spans| - 1].first;
    WithLast(spans, Span(first, e - first)) + (if e < |s| then Words(s, e + 1) else [])
  }

  function CommentFrom(inside: bool, s: string, pos: nat, delim: char): nat
    requires pos <= |s|
  {
    if inside then CommentAfter(s, WordEnd(s, pos, delim)) else CommentStart(s, pos)
  }

  function CommentAfter(s: string, e: nat): nat
    requires e <= |s|
  {
    if e < |s| then CommentStart(s, e + 1) else e
  }

  lemma InWord(s: string, pos: nat, delim: char)
    requires pos < |s|
    ensures WordEnd(s, pos, delim) == if s[pos] != '\\' && s[pos] == delim then pos else WordEnd(s, Next(s, pos), delim)
  {
  }

  function WordsAfter(s: string, e: nat): seq<Span>
    requires e <= |s|
  {
    if e < |s| then Words(s, e + 1) else []
  }

  lemma WordsStep(s: string, pos: nat, w: Span, e: nat)
    requires pos < |s| && !IsCommentSign(s[pos]) && s[pos] != ' '
    requires e == WordStop(s, pos) && w == Span(WordStart(s, pos), e - WordStart(s, pos))
    ensures Words(s, pos) == [w] + WordsAfter(s, e) && CommentStart(s, pos) == CommentAfter(s, e)
  {
    hide WordStop, WordStart;
  }

  /** A new word is entered with length 0 and will be closed at e. */
  lemma NewWord(spans: seq<Span>, s: string, pos: nat, first: nat, e: nat)
    requires pos < |s| && !IsCommentSign(s[pos]) && s[pos] != ' '
    requires first == WordStart(s, pos) && e == WordStop(s, pos)
    ensures spans + Words(s, pos) == Closed(spans + [Span(first, 0)], s, e)
    ensures CommentStart(s, pos) == CommentAfter(s, e)
  {
    hide WordStop, WordStart, Words, CommentStart;
    WordsStep(s, pos, Span(first, e - first), e);
    assert WithLast(spans + [Span(first, 0)], Span(first, e - first)) == spans + [Span(first, e - first)];
  }

  /** The four things that can stand between words. */
  lemma BetweenWords(spans: seq<Span>, s: string, pos: nat)
    requires pos < |s|
    ensures IsCommentSign(s[pos]) ==> CommentStart(s, pos) == pos && spans + Words(s, pos) == spans + Words(s, |s|)
    ensures s[pos] == ' ' ==> Words(s, pos) == Words(s, pos + 1) && CommentStart(s, pos) == CommentStart(s, pos + 1)
    ensures IsQuote(s[pos]) ==>
              spans + Words(s, pos) == Closed(spans + [Span(pos + 1, 0)], s, WordEnd(s, pos + 1, s[pos])) &&
              CommentStart(s, pos) == CommentAfter(s, WordEnd(s, pos + 1, s[pos]))
    ensures !IsCommentSign(s[pos]) && s[pos] != ' ' && !IsQuote(s[pos]) ==>
              spans + Words(s, pos) == Closed(spans + [Span(pos, 0)], s, WordEnd(s, Next(s, pos), ' ')) &&
              CommentStart(s, pos) == CommentAfter(s, WordEnd(s, Next(s, pos), ' '))
  {
    hide WordEnd, Next, Closed;
    if IsQuote(s[pos]) {
      NewWord(spans, s, pos, pos + 1, WordStop(s, pos));
    } else if !IsCommentSign(s[pos]) && s[pos] != ' ' {
      NewWord(spans, s, pos, pos, WordStop(s, pos));
    }
  }

  lemma LineEnd(s: string, delim: char)
    ensures WordEnd(s, |s|, delim) == |s| && Words(s, |s|) == [] && CommentStart(s, |s|) == |s|
  {
  }

  // ----- what the words are

  /** In bounds from lo on, in order, at least one character between a word and the next. */
  ghost predicate Apart(spans: seq<Span>, s: string, lo: nat) {
    (forall k :: 0 <= k < |spans| ==> lo <= spans[k].first && spans[k].first + spans[k].len <= |s|) &&
    (forall j, k :: 0 <= j < k < |spans| ==> spans[j].first + spans[j].len + 1 <= spans[k].first)
  }

  lemma ApartCons(w: Span, more: seq<Span>, s: string, lo: nat)
    requires lo <= w.first && w.first + w.len <= |s| && Apart(more, s, w.first + w.len + 1)
    ensures Apart([w] + more, s, lo)
  {
    var all := [w] + more;
    assert forall k :: 0 < k < |all| ==> all[k] == more[k - 1];
  }

  lemma ApartFrom(spans: seq<Span>, s: string, lo: nat, lo': nat)
    requires Apart(spans, s, lo) && lo' <= lo
    ensures Apart(spans, s, lo')
  {
  }

  lemma {:induction false} WordsApart(s: string, pos: nat)
    requires pos <= |s|
    ensures Apart(Words(s, pos), s, pos)
    decreases |s| - pos
  {
    hide WordStop, Apart;
    if pos == |s| || IsCommentSign(s[pos]) {
      NoWordsApart(s, pos);
    } else if s[pos] == ' ' {
      WordsApart(s, pos + 1);
      ApartFrom(Words(s, pos + 1), s, pos + 1, pos);
    } else {
      hide Words;
      var e := WordStop(s, pos);
      var w := Span(WordStart(s, pos), e - WordStart(s, pos));
      WordsStep(s, pos, w, e);
      if e < |s| { WordsApart(s, e + 1); } else { NoWordsApart(s, e + 1); }
      ApartCons(w, WordsAfter(s, e), s, pos);
    }
  }

  lemma NoWordsApart(s: string, lo: nat)
    ensures Apart([], s, lo)
  {
  }

  predicate Covers(w: Span, k: nat) {
    w.first <= k < w.first + w.len
  }

  /** A character that belongs to no word: a blank, a quote directly before or behind a word, or the comment. */
  ghost predicate Accounted(spans: seq<Span>, s: string, k: nat, comment: nat)
    requires k < |s|
  {
    (exists w :: w in spans && Covers(w, k)) || s[k] == ' ' || k >= comment ||
    (IsQuote(s[k]) && exists w :: w in spans && (w.first == k + 1 || w.first + w.len == k))
  }

  lemma AccountedMore(w: Span, spans: seq<Span>, s: string, k: nat, comment: nat)
    requires k < |s| && Accounted(spans, s, k, comment)
    ensures Accounted([w] + spans, s, k, comment)
  {
    if x :| x in spans && (Covers(x, k) || x.first == k + 1 || x.first + x.len == k) {
      assert x in [w] + spans;
    }
  }

  lemma {:induction false} WordsCover(s: string, pos: nat, k: nat)
    requires pos <= k < |s|
    ensures Accounted(Words(s, pos), s, k, CommentStart(s, pos))
    decreases |s| - pos
  {
    hide WordStop, Accounted, Covers;
    if IsCommentSign(s[pos]) {
      CommentAccounted([], s, k, pos);
    } else if s[pos] == ' ' {
      if k > pos { WordsCover(s, pos + 1, k); } else { BlankAccounted(Words(s, pos), s, k, CommentStart(s, pos)); }
    } else {
      hide Words, CommentStart;
      var e := WordStop(s, pos);
      var w := Span(WordStart(s, pos), e - WordStart(s, pos));
      WordsStep(s, pos, w, e);
      if k <= e {
        HereAccounted(w, Words(s, pos), s, k, CommentStart(s, pos), pos);
      } else {
        WordsCover(s, e + 1, k);
        AccountedMore(w, Words(s, e + 1), s, k, CommentStart(s, pos));
      }
    }
  }

  lemma CommentAccounted(spans: seq<Span>, s: string, k: nat, comment: nat)
    requires comment <= k < |s|
    ensures Accounted(spans, s, k, comment)
  {
  }

  lemma BlankAccounted(spans: seq<Span>, s: string, k: nat, comment: nat)
    requires k < |s| && s[k] == ' '
    ensures Accounted(spans, s, k, comment)
  {
  }

  lemma HereAccounted(w: Span, spans: seq<Span>, s: string, k: nat, comment: nat, pos: nat)
    requires pos <= k <= w.first + w.len && k < |s| && spans != [] && spans[0] == w
    requires w.first == pos || (w.first == pos + 1 && IsQuote(s[pos]))
    requires k == w.first + w.len ==> s[k] == ' ' || IsQuote(s[k])
    ensures Accounted(spans, s, k, comment)
  {
    assert w in spans;
    if Covers(w, k) {}
  }

  /** The comment starts with a comment sign, behind all words and what closes them. */
  ghost predicate CommentBehind(spans: seq<Span>, s: string, c: nat) {
    c < |s| ==> s[c] in {'!', '#', ';'} && forall w :: w in spans ==> w.first + w.len < c
  }

  lemma {:induction false} WordsBehind(s: string, pos: nat)
    requires pos <= |s|
    ensures CommentBehind(Words(s, pos), s, CommentStart(s, pos))
    decreases |s| - pos
  {
    hide WordStop;
    if pos < |s| && !IsCommentSign(s[pos]) {
      if s[pos] == ' ' {
        WordsBehind(s, pos + 1);
      } else {
        hide Words, CommentStart;
        var e := WordStop(s, pos);
        WordsStep(s, pos, Span(WordStart(s, pos), e - WordStart(s, pos)), e);
        if e < |s| { WordsBehind(s, e + 1); }
      }
    }
  }

  /** For every line: the words lie within it, in order and apart, the trailing comment behind them, and nothing but
      blanks, quotes around words and that comment lies outside them. */
  lemma SplitAccounts(line: string)
    ensures Apart(Words(Cut(line), 0), Cut(line), 0)
    ensures CommentBehind(Words(Cut(line), 0), Cut(line), CommentStart(Cut(line), 0))
    ensures forall k :: 0 <= k < |Cut(line)| ==>
              Accounted(Words(Cut(line), 0), Cut(line), k, CommentStart(Cut(line), 0))
  {
    hide Words, CommentStart, Accounted, CommentBehind;
    var s := Cut(line);
    WordsApart(s, 0);
    WordsBehind(s, 0);
    forall k | 0 <= k < |s| ensures Accounted(Words(s, 0), s, k, CommentStart(s, 0)) { WordsCover(s, 0, k); }
  }

  // ----- escaped characters

  /** How many backslashes stand directly before k, from lo on. */
  function Slashes(s: string, lo: nat, k: nat): nat
    requires k <= |s|
  {
    if k > lo && s[k - 1] == '\\' then 1 + Slashes(s, lo, k - 1) else 0
  }

  /** In the word that starts at lo, an odd number of backslashes stands directly before k. */
  predicate Escaped(s: string, lo: nat, k: nat)
    requires k <= |s|
  {
    Slashes(s, lo, k) % 2 == 1
  }

  lemma {:induction false} SlashesMore(s: string, pos: nat, n: nat, k: nat)
    requires pos <= n <= k <= |s|
    ensures Slashes(s, pos, k) == Slashes(s, n, k) + if Slashes(s, n, k) == k - n then Slashes(s, pos, n) else 0
    ensures Slashes(s, n, k) <= k - n
  {
    if k > n { SlashesMore(s, pos, n, k - 1); }
  }

  /** Starting further on, behind a character or an escaped pair, the same characters are escaped. */
  lemma SlashesFrom(s: string, pos: nat, k: nat)
    requires pos < |s| && Next(s, pos) <= k < |s|
    ensures Escaped(s, pos, k) <==> Escaped(s, Next(s, pos), k)
  {
    SlashesMore(s, pos, Next(s, pos), k);
    assert Slashes(s, pos, pos) == 0;
  }

  /** A word ends at the first delimiter that is not escaped, or else with the line. */
  lemma {:induction false} WordEndIs(s: string, pos: nat, delim: char)
    requires pos <= |s| && delim != '\\'
    ensures var e := WordEnd(s, pos, delim);
            (e < |s| ==> s[e] == delim && !Escaped(s, pos, e)) &&
            forall k :: pos <= k < e && s[k] == delim ==> Escaped(s, pos, k)
    decreases |s| - pos
  {
    hide Escaped;
    var e := WordEnd(s, pos, delim);
    if pos < e {
      var n := Next(s, pos);
      WordEndIs(s, n, delim);
      if e < |s| { SlashesFrom(s, pos, e); }
      forall k | pos <= k < e && s[k] == delim ensures Escaped(s, pos, k) {
        if k >= n { SlashesFrom(s, pos, k); } else { PairEscapes(s, pos, k); }
      }
    } else {
      NotEscapedFirst(s, pos);
    }
  }

  lemma PairEscapes(s: string, pos: nat, k: nat)
    requires pos <= k < |s| && k < Next(s, pos) && s[k] != '\\'
    ensures k == pos || Escaped(s, pos, k)
  {
    assert Slashes(s, pos, pos) == 0;
  }

  lemma NotEscapedFirst(s: string, pos: nat)
    requires pos <= |s|
    ensures !Escaped(s, pos, pos)
  {
  }

  /** The only place where a word can end as WordEndIs says. */
  lemma EndIs(s: string, pos: nat, delim: char, e: nat)
    requires pos <= e <= |s| && delim != '\\'
    requires e < |s| ==> s[e] == delim && !Escaped(s, pos, e)
    requires forall k :: pos <= k < e && s[k] == delim ==> Escaped(s, pos, k)
    ensures WordEnd(s, pos, delim) == e
  {
    hide WordEnd, Escaped;
    WordEndIs(s, pos, delim);
  }

  /** The first word of what stands between words: it starts behind an opening quote or right here, and goes up to the
      first such quote, or blank, that has an even number of backslashes before it. */
  lemma FirstWord(s: string, pos: nat)
    requires pos < |s| && s[pos] !in {' ', '!', '#', ';'}
    ensures var quoted := s[pos] in {'\'', '\"'};
            var start, delim := if quoted then pos + 1 else pos, if quoted then s[pos] else ' ';
            Words(s, pos) != [] && var w := Words(s, pos)[0]; var e := w.first + w.len;
            w.first == start && e <= |s| && (e < |s| ==> s[e] == delim && !Escaped(s, start, e)) &&
            (forall k :: start <= k < e && s[k] == delim ==> Escaped(s, start, k)) &&
            Words(s, pos)[1..] == if e < |s| then Words(s, e + 1) else []
  {
    hide Words, WordEnd, Escaped;
    var e := WordStop(s, pos);
    WordsStep(s, pos, Span(WordStart(s, pos), e - WordStart(s, pos)), e);
    if IsQuote(s[pos]) {
      WordEndIs(s, pos + 1, s[pos]);
    } else {
      InWord(s, pos, ' ');
      WordEndIs(s, pos, ' ');
    }
  }

  lemma {:induction false} SlashesWithin(s: string, t: string, lo: nat, k: nat)
    requires lo + |t| <= |s| && s[lo..lo + |t|] == t && k <= |t|
    ensures Slashes(s, lo, lo + k) == Slashes(t, 0, k)
  {
    if k > 0 {
      assert t[k - 1] == s[lo + k - 1];
      SlashesWithin(s, t, lo, k - 1);
    }
  }

  /** Text in quotes comes back as exactly one word, whatever else it holds, if and only if every copy of the quote in
      it is escaped and the closing one is not. */
  lemma QuotedIff(t: string, q: char)
    requires IsQuote(q) && |t| + 2 <= LINE_MAX
    ensures Words(Cut([q] + t + [q]), 0) == [Span(1, |t|)] <==>
            (forall k :: 0 <= k < |t| && t[k] == q ==> Escaped(t, 0, k)) && !Escaped(t, 0, |t|)
  {
    hide Words, WordEnd, Slashes;
    var s, n := [q] + t + [q], |t| + 1;
    assert s[0] == q && s[1..1 + |t|] == t && s[n] == q && |s| == n + 1;
    FirstWord(s, 0);
    assert WordStop(s, 0) == WordEnd(s, 1, q);
    WordsStep(s, 0, Span(1, WordEnd(s, 1, q) - 1), WordEnd(s, 1, q));
    LineEnd(s, q);
    forall k | 0 <= k <= |t| ensures Escaped(s, 1, 1 + k) <==> Escaped(t, 0, k) { SlashesWithin(s, t, 1, k); }
    forall k | 0 <= k < |t| ensures t[k] == s[1 + k] {}
    if (forall k :: 0 <= k < |t| && t[k] == q ==> Escaped(t, 0, k)) && !Escaped(t, 0, |t|) {
      forall k | 1 <= k < n && s[k] == q ensures Escaped(s, 1, k) { assert t[k - 1] == q; }
      EndIs(s, 1, q, n);
      assert [Span(1, |t|)] + [] == [Span(1, |t|)];
    }
  }

  // ----- a word without quotes

  /** A text that the splitter reads as one word as it stands: every blank in it is escaped. */
  predicate Plain(p: string) {
    p != "" && p[0] !in {' ', '\'', '\"', '!', '#', ';'} &&
    forall k :: 0 <= k < |p| && p[k] == ' ' ==> Escaped(p, 0, k)
  }

  /** The rest of a line is one unquoted word exactly if it is plain. */
  lemma PlainIffWord(s: string, pre: nat, p: string)
    requires |s| == pre + |p| && s[pre..] == p
    ensures Words(s, pre) == [Span(pre, |p|)] <==> Plain(p)
  {
    hide WordEnd, Words, Slashes;
    if p == "" {
      LineEnd(s, ' ');
    } else {
      assert s[pre] == p[0] && s[pre..pre + |p|] == p;
      forall k | 0 <= k < |p| ensures Escaped(s, pre, pre + k) <==> Escaped(p, 0, k) && p[k] == s[pre + k] {
        SlashesWithin(s, p, pre, k);
      }
      if IsCommentSign(p[0]) {
        NoWordsHere(s, pre);
      } else if p[0] == ' ' || IsQuote(p[0]) {
        LaterWord(s, pre);
      } else {
        FirstWord(s, pre);
        PlainWord(s, pre, p);
      }
    }
  }

  lemma NoWordsHere(s: string, pos: nat)
    requires pos < |s| && IsCommentSign(s[pos])
    ensures Words(s, pos) == []
  {
  }

  lemma PlainWord(s: string, pre: nat, p: string)
    requires |s| == pre + |p| && p != "" && s[pre] !in {' ', '\'', '\"', '!', '#', ';'}
    requires (forall k :: pre <= k < |s| && s[k] == ' ' ==> Escaped(s, pre, k)) <==> Plain(p)
    ensures Words(s, pre) == [Span(pre, |p|)] <==> Plain(p)
  {
    hide WordEnd, Words, Escaped, Plain;
    FirstWord(s, pre);
    var ws := Words(s, pre);
    var e := ws[0].first + ws[0].len;
    assert ws == [ws[0]] + ws[1..];
  }

  lemma LaterWord(s: string, pre: nat)
    requires pre < |s| && (s[pre] == ' ' || IsQuote(s[pre]))
    ensures Words(s, pre) == [] || Words(s, pre)[0].first > pre
  {
    hide WordEnd;
    if s[pre] == ' ' { WordsApart(s, pre + 1); }
  }
}
