/** Completion of a command word: which text the terminal inserts for a list of candidates. */
module Completion {
  import opened Text

  /** How a command matches the words typed so far. */
  datatype Status = NotCompleted | Completed | CompletedByPart | ParamEncountered

  /** A candidate word and how many of its characters are typed already. */
  datatype Cand = Cand(cmd: string, typed: nat)

  datatype Answer = Answer(status: Status, cand: Cand)

  predicate Offers(a: Answer) {
    a.status == Completed || a.status == CompletedByPart
  }

  /** The offered candidates in order, each word once, as first offered. */
  function Collected(answers: seq<Answer>): (list: seq<Cand>) {
    if answers == [] then []
    else
      var front, a := Collected(answers[..|answers| - 1]), answers[|answers| - 1];
      if Offers(a) && !HasWord(front, a.cand.cmd) then front + [a.cand] else front
  }

  predicate HasWord(list: seq<Cand>, w: string) {
    exists i :: 0 <= i < |list| && list[i].cmd == w
  }

  ghost predicate Apart(list: seq<Cand>) {
    forall i, j :: 0 <= i < j < |list| ==> list[i].cmd != list[j].cmd
  }

  ghost predicate Offered(answers: seq<Answer>, c: Cand) {
    exists k :: 0 <= k < |answers| && answers[k].status in {Completed, CompletedByPart} && answers[k].cand == c
  }

  lemma ApartMore(list: seq<Cand>, c: Cand)
    requires Apart(list) && !HasWord(list, c.cmd)
    ensures Apart(list + [c])
  {
    var more := list + [c];
    forall i, j | 0 <= i < j < |more| ensures more[i].cmd != more[j].cmd {
      assert more[i] == list[i];
      if j < |list| { assert more[j] == list[j]; } else { assert more[j] == c; }
    }
  }

  lemma HasMore(list: seq<Cand>, c: Cand, w: string)
    ensures HasWord(list + [c], w) <==> HasWord(list, w) || c.cmd == w
  {
    var more := list + [c];
    assert more[|list|] == c;
    if HasWord(list, w) {
      var i :| 0 <= i < |list| && list[i].cmd == w;
      assert more[i] == list[i];
    }
  }

  /** Each offered word is collected, once, and nothing else is. */
  lemma {:induction false} CollectedIs(answers: seq<Answer>)
    ensures var list := Collected(answers);
            Apart(list) &&
            (forall k :: 0 <= k < |answers| && answers[k].status in {Completed, CompletedByPart} ==>
               HasWord(list, answers[k].cand.cmd)) &&
            (forall c :: c in list ==> Offered(answers, c))
  {
    hide Apart, HasWord;
    if answers == [] {
      NoneApart();
    } else {
      var n := |answers| - 1;
      var a, front, list := answers[n], Collected(answers[..n]), Collected(answers);
      CollectedIs(answers[..n]);
      assert forall k :: 0 <= k < n ==> answers[..n][k] == answers[k];
      if Offers(a) && !HasWord(front, a.cand.cmd) {
        ApartMore(front, a.cand);
        forall w: string ensures HasWord(list, w) <==> HasWord(front, w) || a.cand.cmd == w {
          HasMore(front, a.cand, w);
        }
      }
      forall c | c in list ensures Offered(answers, c) {
        if c in front {
          assert Offered(answers[..n], c);
          var k :| 0 <= k < n && Offers(answers[..n][k]) && answers[..n][k].cand == c;
          assert Offers(answers[k]) && answers[k].cand == c;
        } else {
          assert Offers(answers[n]) && answers[n].cand == c;
        }
      }
    }
  }

  /** More answers only add candidates at the end: a word keeps its place and what was first offered for it. */
  lemma {:induction false} CollectedPrefix(a: seq<Answer>, b: seq<Answer>)
    ensures Collected(a) <= Collected(a + b)
    decreases |b|
  {
    if b == [] {
      assert a + b == a;
    } else {
      var n := |b| - 1;
      assert (a + b)[..|a + b| - 1] == a + b[..n];
      CollectedPrefix(a, b[..n]);
    }
  }

  lemma NoneApart()
    ensures Apart([])
  {
  }

  /** The collecting loop; a parameter in one command silences the others unless a word is partly typed. */
  method Collect(answers: seq<Answer>) returns (status: Status, list: seq<Cand>)
    ensures var stop := (exists k :: 0 <= k < |answers| && answers[k].status == ParamEncountered) &&
                        (forall k :: 0 <= k < |answers| ==> answers[k].status != CompletedByPart);
            list == (if stop then [] else Collected(answers)) &&
            status == (if stop then ParamEncountered else if list == [] then NotCompleted else Completed)
  {
    var byPart, param := false, false;
    list := [];
    var n := 0;
    while n < |answers|
      invariant n <= |answers| && list == Collected(answers[..n])
      invariant byPart <==> exists k :: 0 <= k < n && answers[k].status == CompletedByPart
      invariant param <==> exists k :: 0 <= k < n && answers[k].status == ParamEncountered
    {
      var a := answers[n];
      assert answers[..n + 1][..n] == answers[..n];
      if a.status == ParamEncountered { param := true; }
      if a.status == CompletedByPart { byPart := true; }
      if Offers(a) {
        var seen := false;
        for i := 0 to |list|
          invariant seen <==> exists j :: 0 <= j < i && list[j].cmd == a.cand.cmd
        {
          if list[i].cmd == a.cand.cmd { seen := true; }
        }
        if !seen { list := list + [a.cand]; }
      }
      n := n + 1;
    }
    assert answers[..n] == answers;
    if param && !byPart { return ParamEncountered, []; }
    status := if list == [] then NotCompleted else Completed;
  }

  /** What is left to type of a candidate, in lower case. */
  function Rest(c: Cand): string
    requires c.typed <= |c.cmd|
  {
    Lower(c.cmd)[c.typed..]
  }

  ghost predicate Typed(list: seq<Cand>) {
    forall i :: 0 <= i < |list| ==> list[i].typed <= |list[i].cmd|
  }

  ghost predicate Common(list: seq<Cand>, p: string)
    requires Typed(list)
  {
    forall i :: 0 <= i < |list| ==> p <= Rest(list[i])
  }

  /** All candidates go on with c after the text p. */
  ghost predicate GoOn(list: seq<Cand>, p: string, c: char)
    requires Typed(list)
  {
    forall i :: 0 <= i < |list| ==> |p| < |Rest(list[i])| && Rest(list[i])[|p|] == c
  }

  /** One turn of the inserting loop: whether every candidate has the same next character. */
  method Agree(list: seq<Cand>, inserted: string, current: char) returns (isOneMore: bool)
    requires Typed(list) && Common(list, inserted)
    ensures isOneMore == GoOn(list, inserted, current)
  {
    var pos := |inserted|;
    var k := 0;
    while k < |list|
      invariant k <= |list|
      invariant forall j :: 0 <= j < k ==> pos < |Rest(list[j])| && Rest(list[j])[pos] == current
    {
      assert inserted <= Rest(list[k]);
      if list[k].typed + pos != |list[k].cmd| {
        assert Rest(list[k])[pos] == Lower(list[k].cmd)[list[k].typed + pos];
        if current != Lower(list[k].cmd)[list[k].typed + pos] { return false; }
      } else {
        return false;
      }
      k := k + 1;
    }
    return true;
  }

  lemma Longer(list: seq<Cand>, p: string, c: char)
    requires Typed(list) && list != [] && Common(list, p) && |p| < |Rest(list[0])| && c == Rest(list[0])[|p|]
    ensures GoOn(list, p, c) ==> Common(list, p + [c])
    ensures !GoOn(list, p, c) ==> forall q :: Common(list, q) ==> |q| <= |p|
  {
    hide Rest;
    if GoOn(list, p, c) {
      forall i | 0 <= i < |list| ensures p + [c] <= Rest(list[i]) {
        assert p <= Rest(list[i]);
      }
    } else {
      var k :| 0 <= k < |list| && !(|p| < |Rest(list[k])| && Rest(list[k])[|p|] == c);
      forall q | Common(list, q) ensures |q| <= |p| {
        assert q <= Rest(list[k]) && q <= Rest(list[0]);
      }
    }
  }

  /** What is typed of a candidate and what is inserted make up its beginning. */
  lemma TypedAndMore(list: seq<Cand>, p: string)
    requires Typed(list) && Common(list, p)
    ensures forall i :: 0 <= i < |list| ==> Lower(list[i].cmd[..list[i].typed]) + p <= Lower(list[i].cmd)
  {
    forall i | 0 <= i < |list| ensures Lower(list[i].cmd[..list[i].typed]) + p <= Lower(list[i].cmd) {
      var c := list[i];
      assert p <= Rest(c);
      assert Lower(c.cmd) == Lower(c.cmd[..c.typed]) + Rest(c);
    }
  }

  lemma NoCapitals(c: Cand, p: string)
    requires c.typed <= |c.cmd| && p <= Rest(c)
    ensures forall k :: 0 <= k < |p| ==> p[k] !in UPPER
  {
    forall k | 0 <= k < |p| ensures p[k] !in UPPER {
      assert p[k] == Rest(c)[k] == LowerChar(c.cmd[c.typed + k]);
      OthersStay(c.cmd[c.typed + k]);
    }
  }

  /** The inserting loop: the inserted text is the longest common prefix of what is left of all candidates. */
  method InsertCommon(list: seq<Cand>) returns (inserted: string)
    requires list != [] && Typed(list)
    ensures Common(list, inserted) && forall p :: Common(list, p) ==> p <= inserted
    ensures forall k :: 0 <= k < |inserted| ==> inserted[k] !in UPPER
    ensures forall i :: 0 <= i < |list| ==> Lower(list[i].cmd[..list[i].typed]) + inserted <= Lower(list[i].cmd)
  {
    hide GoOn;
    inserted := "";
    var isOneMore := true;
    var first := list[0];
    while first.typed + |inserted| < |first.cmd| && isOneMore
      invariant Common(list, inserted)
      invariant !isOneMore ==> forall p :: Common(list, p) ==> |p| <= |inserted|
      decreases |first.cmd| - |inserted|, isOneMore
    {
      var current := Lower(first.cmd)[first.typed + |inserted|];
      assert current == Rest(list[0])[|inserted|];
      isOneMore := Agree(list, inserted, current);
      Longer(list, inserted, current);
      if isOneMore { inserted := inserted + [current]; }
    }
    forall p | Common(list, p) ensures p <= inserted {
      assert p <= Rest(list[0]) && inserted <= Rest(list[0]);
    }
    NoCapitals(first, inserted);
    TypedAndMore(list, inserted);
  }

  /** The listing loop after the insertion. */
  method Show(list: seq<Cand>, inserted: string) returns (shown: seq<string>)
    requires Typed(list) && Common(list, inserted)
    ensures shown == Unfinished(list, inserted)
  {
    hide Unfinished, Common;
    shown := [];
    var k := 0;
    assert list[0..] == list;
    while k < |list|
      invariant k <= |list| && shown + Unfinished(list[k..], inserted) == Unfinished(list, inserted)
    {
      UnfinishedFrom(list, k, inserted);
      if list[k].typed + |inserted| != |list[k].cmd| { shown := shown + [Lower(list[k].cmd)]; }
      k := k + 1;
    }
    UnfinishedNone(inserted);
    assert list[k..] == [] && shown + [] == shown;
  }

  lemma UnfinishedFrom(list: seq<Cand>, k: nat, inserted: string)
    requires k < |list|
    ensures Unfinished(list[k..], inserted) ==
            (if list[k].typed + |inserted| != |list[k].cmd| then [Lower(list[k].cmd)] else []) +
            Unfinished(list[k + 1..], inserted)
  {
    assert list[k..][1..] == list[k + 1..];
  }

  lemma UnfinishedNone(inserted: string)
    ensures Unfinished([], inserted) == []
  {
  }

  /** The candidates the inserted text does not finish, as they are listed. */
  function Unfinished(list: seq<Cand>, inserted: string): seq<string> {
    if list == [] then []
    else
      (if list[0].typed + |inserted| != |list[0].cmd| then [Lower(list[0].cmd)] else []) +
      Unfinished(list[1..], inserted)
  }

  /** Of the candidates, in order, those that the inserted text does not finish are listed, in small letters. */
  lemma {:induction false} ListedInOrder(list: seq<Cand>, c: Cand, inserted: string)
    requires c.typed <= |c.cmd| && inserted <= Rest(c)
    ensures Unfinished(list + [c], inserted) ==
            Unfinished(list, inserted) + if inserted == Rest(c) then [] else [Lower(c.cmd)]
  {
    if list == [] {
      assert list + [c] == [c] && [c][1..] == [];
    } else {
      assert (list + [c])[1..] == list[1..] + [c];
      ListedInOrder(list[1..], c, inserted);
    }
  }

  /** Completing again inserts nothing: the typed words have become as long as their common part. */
  lemma NothingMore(list: seq<Cand>, inserted: string, p: string)
    requires list != [] && Typed(list) && Common(list, inserted) && forall q :: Common(list, q) ==> q <= inserted
    requires var grown := seq(|list|, i requires 0 <= i < |list| => list[i].(typed := list[i].typed + |inserted|));
             Typed(grown) && Common(grown, p)
    ensures p == ""
  {
    var grown := seq(|list|, i requires 0 <= i < |list| => list[i].(typed := list[i].typed + |inserted|));
    forall i | 0 <= i < |list| ensures inserted + p <= Rest(list[i]) {
      assert inserted <= Rest(list[i]) && p <= Rest(grown[i]);
      assert Rest(grown[i]) == Rest(list[i])[|inserted|..];
    }
    assert Common(list, inserted + p);
  }

  /** A single candidate is completed whole. */
  lemma SingleIsWhole(c: Cand, inserted: string)
    requires c.typed <= |c.cmd| && Common([c], inserted) && forall q :: Common([c], q) ==> q <= inserted
    ensures Lower(c.cmd[..c.typed]) + inserted == Lower(c.cmd) && Unfinished([c], inserted) == []
  {
    assert [c][0] == c;
    assert Common([c], Rest(c));
    assert inserted == Rest(c);
    assert Lower(c.cmd) == Lower(c.cmd[..c.typed]) + Rest(c);
  }
}
