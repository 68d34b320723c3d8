/** The database file as a list of units: each tag or whole row element, with the character data after it. */
module XmlDoc {
  import opened Text
  import opened XmlReader

  datatype Node = Node(raw: string, kind: Kind, tail: string)
  datatype Doc = Doc(head: string, nodes: seq<Node>)

  /** A unit that reads as itself, followed by character data. */
  predicate NodeOk(n: Node) {
    '<' !in n.tail && ReadNode(n.raw, 0) == Some((n.kind, |n.raw|))
  }

  ghost predicate AllOk(nodes: seq<Node>) {
    forall k :: 0 <= k < |nodes| ==> NodeOk(nodes[k])
  }

  ghost predicate Wf(d: Doc) {
    '<' !in d.head && AllOk(d.nodes)
  }

  function NodeText(n: Node): string {
    n.raw + n.tail
  }

  function Flat(nodes: seq<Node>): string {
    if nodes == [] then "" else NodeText(nodes[0]) + Flat(nodes[1..])
  }

  function DocText(d: Doc): string {
    d.head + Flat(d.nodes)
  }

  function ScanFrom(s: string, i: nat): Option<seq<Node>>
    requires i <= |s|
    decreases |s| - i
  {
    if i == |s| then Some([])
    else
      match ReadNode(s, i)
      case None => None
      case Some((k, j)) =>
        var t := TextEnd(s, j);
        match ScanFrom(s, t)
        case None => None
        case Some(rest) => Some([Node(s[i..j], k, s[j..t])] + rest)
  }

  /** What the parser makes of a whole file; None stands for a parse error. */
  function Scan(s: string): Option<Doc> {
    var t := TextEnd(s, 0);
    match ScanFrom(s, t)
    case None => None
    case Some(nodes) => Some(Doc(s[..t], nodes))
  }

  lemma FlatAppend(a: seq<Node>, b: seq<Node>)
    ensures Flat(a + b) == Flat(a) + Flat(b)
  {
    if a == [] {
      assert a + b == b;
    } else {
      assert (a + b)[1..] == a[1..] + b;
      FlatAppend(a[1..], b);
    }
  }

  lemma FlatOne(n: Node)
    ensures Flat([n]) == NodeText(n)
  {
    assert Flat([n]) == NodeText(n) + Flat([n][1..]);
  }

  lemma NodeOkBrackets(n: Node)
    requires NodeOk(n)
    ensures |n.raw| > 0 && n.raw[0] == '<' && n.raw[|n.raw| - 1] == '>'
    ensures n.kind.Row? ==> n.kind.openLen + n.kind.closeLen <= |n.raw|
  {
    hide NodeText;
    assert ReadNode(n.raw, 0).Some?;
  }

  lemma FlatStart(nodes: seq<Node>)
    requires AllOk(nodes) && nodes != []
    ensures |Flat(nodes)| > 0 && Flat(nodes)[0] == '<'
  {
    NodeOkBrackets(nodes[0]);
  }

  lemma TextEndIs(s: string, j: nat, t: nat)
    requires j <= t <= |s| && '<' !in s[j..t] && (t < |s| ==> s[t] == '<')
    ensures TextEnd(s, j) == t
    decreases t - j
  {
    if j < t {
      assert s[j..t][0] == s[j];
      assert s[j + 1..t] == s[j..t][1..];
      TextEndIs(s, j + 1, t);
    }
  }

  /** A scanned unit reads as itself outside its context. */
  lemma ScannedNodeOk(s: string, i: nat, k: Kind, j: nat)
    requires i <= |s| && ReadNode(s, i) == Some((k, j))
    ensures ReadNode(s[i..j], 0) == Some((k, j - i))
  {
    hide ReadNode;
    var d: int := 0 - (i as int);
    ReadNodeSame(s, i, k, j, s[i..j], d);
  }

  /** Scanning loses nothing and yields units that stand on their own. */
  lemma {:induction false} ScanFromSound(s: string, i: nat, nodes: seq<Node>)
    requires i <= |s| && ScanFrom(s, i) == Some(nodes)
    ensures AllOk(nodes) && Flat(nodes) == s[i..]
    decreases |s| - i
  {
    hide ReadNode, TextEnd;
    if i < |s| {
      var (k, j) := ReadNode(s, i).value;
      var t := TextEnd(s, j);
      var rest := ScanFrom(s, t).value;
      assert nodes == [Node(s[i..j], k, s[j..t])] + rest;
      ScannedNodeOk(s, i, k, j);
      ScanFromSound(s, t, rest);
      assert nodes[1..] == rest;
    }
  }

  lemma ScanSound(s: string, d: Doc)
    requires Scan(s) == Some(d)
    ensures Wf(d) && DocText(d) == s
  {
    hide ScanFrom;
    var t := TextEnd(s, 0);
    ScanFromSound(s, t, d.nodes);
    assert s[..t] == s[0..t] && s == s[..t] + s[t..];
  }

  lemma UnitReads(s: string, i: nat, n: Node, j: nat)
    requires i <= j <= |s| && s[i..j] == n.raw && NodeOk(n)
    ensures ReadNode(s, i) == Some((n.kind, j))
  {
    hide ReadNode;
    forall k | 0 <= k < |n.raw| ensures n.raw[k] == s[k + i] { assert s[i..j][k] == s[k + i]; }
    ReadNodeSame(n.raw, 0, n.kind, |n.raw|, s, i);
  }

  /** Where the first unit and its character data stand, and that they are read there. */
  lemma FirstUnit(s: string, i: nat, n: Node, rest: seq<Node>, j: nat, t: nat)
    requires i <= |s| && s[i..] == NodeText(n) + Flat(rest) && NodeOk(n) && AllOk(rest)
    requires j == i + |n.raw| && t == j + |n.tail|
    ensures i < j <= t <= |s| && s[i..j] == n.raw && s[j..t] == n.tail && s[t..] == Flat(rest)
    ensures ReadNode(s, i) == Some((n.kind, j)) && TextEnd(s, j) == t
  {
    hide ReadNode, TextEnd, Flat;
    Cut3(s, i, n.raw, n.tail, Flat(rest));
    NodeOkBrackets(n);
    UnitReads(s, i, n, j);
    if rest != [] {
      FlatStart(rest);
      assert s[t] == s[t..][0];
    } else {
      FlatEmpty();
    }
    TextEndIs(s, j, t);
  }

  lemma FlatEmpty()
    ensures Flat([]) == ""
  {
  }

  /** Units that stand on their own are found again by scanning their concatenation. */
  lemma {:induction false} ScanFromComplete(s: string, i: nat, nodes: seq<Node>)
    requires i <= |s| && s[i..] == Flat(nodes) && AllOk(nodes)
    ensures ScanFrom(s, i) == Some(nodes)
    decreases |nodes|
  {
    hide ReadNode, TextEnd;
    if nodes != [] {
      var n, rest := nodes[0], nodes[1..];
      var j: nat, t: nat := i + |n.raw|, i + |n.raw| + |n.tail|;
      FirstUnit(s, i, n, rest, j, t);
      ScanFromComplete(s, t, rest);
      assert n == Node(s[i..j], n.kind, s[j..t]);
      assert nodes == [n] + rest;
    }
  }

  lemma ScanComplete(d: Doc)
    requires Wf(d)
    ensures Scan(DocText(d)) == Some(d)
  {
    hide ScanFrom, TextEnd;
    var s := DocText(d);
    var t := |d.head|;
    assert s[t..] == Flat(d.nodes) && s[..t] == d.head && s[0..t] == d.head;
    if d.nodes != [] {
      FlatStart(d.nodes);
      assert s[t] == s[t..][0];
    }
    TextEndIs(s, 0, t);
    ScanFromComplete(s, t, d.nodes);
  }

  /** The file and its list of units determine each other. */
  lemma ScanIff(s: string, d: Doc)
    ensures Scan(s) == Some(d) <==> Wf(d) && DocText(d) == s
  {
    if Scan(s) == Some(d) { ScanSound(s, d); }
    if Wf(d) && DocText(d) == s { ScanComplete(d); }
  }
}
