/** The numbers of the driver's connections: how db_open picks them, and when two connections get the same one. */
module ConNumbers {

  function MaxNum(nums: seq<int>): (m: int)
    ensures m >= 0 && forall j :: 0 <= j < |nums| ==> nums[j] <= m
  {
    if nums == [] then 0 else if nums[0] > MaxNum(nums[1..]) then nums[0] else MaxNum(nums[1..])
  }

  /** The first connection is compared with 1 only. */
  function Base(nums: seq<int>): int
    requires nums != []
  {
    if nums[0] == 1 then 2 else 1
  }

  /** Smallest number from n on that is not in the list. */
  function Least(nums: seq<int>, n: int): (r: int)
    ensures r >= n && r !in nums && forall j :: n <= j < r ==> j in nums
    decreases MaxNum(nums) + 1 - n
  {
    if n in nums then Least(nums, n + 1) else n
  }

  lemma LeastIs(nums: seq<int>, n: int, r: int)
    requires r >= n && r !in nums && forall j :: n <= j < r ==> j in nums
    ensures Least(nums, n) == r
  {
  }

  /** The number db_open finds. */
  function NextNum(nums: seq<int>): int {
    if nums == [] then 1 else Least(nums[1..], Base(nums))
  }

  /** The scan of db_open, past the first connection. */
  ghost predicate NumScan(nums: seq<int>, i: nat, num: int)
    requires nums != []
  {
    num >= Base(nums) && (forall j :: Base(nums) <= j < num ==> j in nums[1..]) &&
    forall j :: 1 <= j < i && j < |nums| ==> nums[j] != num
  }

  lemma ScanStep(nums: seq<int>, i: nat, num: int)
    requires i < |nums| && if i == 0 then num == 1 else NumScan(nums, i, num)
    ensures nums[i] == num ==> NumScan(nums, 1, num + 1) && num <= MaxNum(nums)
    ensures nums[i] != num ==> NumScan(nums, i + 1, num)
  {
    if i > 0 && nums[i] == num { assert nums[1..][i - 1] == num; }
  }

  lemma ScanEnds(nums: seq<int>, num: int)
    requires nums != [] && NumScan(nums, |nums|, num)
    ensures NextNum(nums) == num
  {
    assert forall j :: 0 <= j < |nums| - 1 ==> nums[1..][j] == nums[j + 1];
    LeastIs(nums[1..], Base(nums), num);
  }

  /** db_open hands out a number already in use exactly when the oldest connection's number k is above 1, no later
      connection has it, and later connections hold all of 1..k-1. */
  lemma OpenCollidesIff(nums: seq<int>)
    requires nums != []
    ensures var k := nums[0];
            NextNum(nums) in nums <==> k > 1 && k !in nums[1..] && forall j :: 1 <= j < k ==> j in nums[1..]
  {
    var k, r := nums[0], NextNum(nums);
    assert nums == [k] + nums[1..];
    if k > 1 && k !in nums[1..] && forall j :: 1 <= j < k ==> j in nums[1..] { LeastIs(nums[1..], 1, k); }
  }

  /** Opening and closing connections, by their numbers. */
  datatype ConOp = Opens | Closes(num: int)

  /** Position of the first connection with a number. */
  function FirstAt(nums: seq<int>, num: int): (k: nat)
    ensures k <= |nums| && (k < |nums| ==> nums[k] == num) && forall j :: 0 <= j < k ==> nums[j] != num
  {
    if nums == [] || nums[0] == num then 0 else 1 + FirstAt(nums[1..], num)
  }

  lemma {:induction false} FirstIs(nums: seq<int>, num: int, k: nat)
    requires k <= |nums| && (k < |nums| ==> nums[k] == num) && forall j :: 0 <= j < k ==> nums[j] != num
    ensures FirstAt(nums, num) == k
  {
    if k > 0 { FirstIs(nums[1..], num, k - 1); }
  }

  function Closed(nums: seq<int>, num: int): seq<int> {
    var k := FirstAt(nums, num);
    if k < |nums| then nums[..k] + nums[k + 1..] else nums
  }

  function NumStep(nums: seq<int>, op: ConOp): seq<int> {
    match op case Opens => nums + [NextNum(nums)] case Closes(n) => Closed(nums, n)
  }

  function RunNums(ops: seq<ConOp>): seq<int> {
    if ops == [] then [] else NumStep(RunNums(ops[..|ops| - 1]), ops[|ops| - 1])
  }

  lemma RunNext(ops: seq<ConOp>, op: ConOp)
    ensures RunNums(ops + [op]) == NumStep(RunNums(ops), op)
  {
    assert (ops + [op])[..|ops|] == ops;
  }

  predicate Unalike(nums: seq<int>) {
    forall i, j :: 0 <= i < j < |nums| ==> nums[i] != nums[j]
  }

  /** The oldest open connection has a number above 1, and all smaller numbers are open too. */
  predicate OldestOnTop(nums: seq<int>) {
    nums != [] && nums[0] > 1 && forall j :: 1 <= j < nums[0] ==> j in nums
  }

  lemma ClosedWithin(nums: seq<int>, num: int)
    requires Unalike(nums)
    ensures Unalike(Closed(nums, num))
  {
    hide FirstAt;
  }

  lemma OpenUnalikeIff(nums: seq<int>)
    requires Unalike(nums)
    ensures Unalike(nums + [NextNum(nums)]) <==> !OldestOnTop(nums)
  {
    var n := NextNum(nums);
    if nums != [] {
      OpenCollidesIff(nums);
      assert nums == [nums[0]] + nums[1..] && nums[0] !in nums[1..];
      assert forall j :: j in nums <==> j == nums[0] || j in nums[1..];
    }
    var grown := nums + [n];
    if n in nums {
      var i :| 0 <= i < |nums| && nums[i] == n;
      assert grown[i] == grown[|nums|];
    }
  }

  /** Over any run of opens and closes: connection numbers stay distinct if and only if no connection is opened while
      the oldest one has a number above 1 and all smaller numbers are open. */
  lemma {:induction false} NumbersIff(ops: seq<ConOp>)
    ensures (forall i :: 0 <= i <= |ops| ==> Unalike(RunNums(ops[..i]))) <==>
            (forall i :: 0 <= i < |ops| && ops[i].Opens? ==> !OldestOnTop(RunNums(ops[..i])))
  {
    hide RunNums, Unalike, OldestOnTop;
    if ops == [] {
      NoNumbers();
    } else {
      var n := |ops| - 1;
      var front := ops[..n];
      assert forall i :: 0 <= i <= n ==> front[..i] == ops[..i];
      assert forall i :: 0 <= i < n ==> front[i] == ops[i];
      assert ops[..|ops|] == ops;
      NumbersIff(front);
      assert (forall i :: 0 <= i <= |ops| ==> Unalike(RunNums(ops[..i]))) <==>
             ((forall i :: 0 <= i <= n ==> Unalike(RunNums(front[..i]))) && Unalike(RunNums(ops)));
      LastNumber(ops);
    }
  }

  lemma NoNumbers()
    ensures RunNums([]) == [] && Unalike(RunNums([]))
  {
  }

  lemma LastNumber(ops: seq<ConOp>)
    requires ops != []
    ensures var n := |ops| - 1;
            var nums := RunNums(ops[..n]);
            Unalike(nums) ==> (Unalike(RunNums(ops)) <==> (ops[n].Opens? ==> !OldestOnTop(nums)))
  {
    var n := |ops| - 1;
    var nums := RunNums(ops[..n]);
    if Unalike(nums) {
      if ops[n].Opens? { OpenUnalikeIff(nums); } else { ClosedWithin(nums, ops[n].num); }
    }
  }

  /** The numbers given in the run below. */
  lemma Given()
    ensures NumStep([], Opens) == [1] && NumStep([1], Opens) == [1, 2] && NumStep([1, 2], Closes(1)) == [2]
    ensures NumStep([2], Opens) == [2, 1] && NumStep([2, 1], Opens) == [2, 1, 2]
  {
    LeastIs([1][1..], 2, 2);
    FirstIs([1, 2], 1, 0);
    LeastIs([2][1..], 1, 1);
    LeastIs([2, 1][1..], 1, 2);
  }

  /** Two connections, the first is closed, and two more are opened: the last one gets the number of the second. */
  lemma NumberTwice()
    ensures RunNums([Opens, Opens, Closes(1), Opens, Opens]) == [2, 1, 2]
  {
    hide RunNums, NumStep, Unalike;
    NoNumbers();
    Given();
    var a: seq<ConOp> := [];
    RunNext(a, Opens);
    RunNext(a + [Opens], Opens);
    RunNext(a + [Opens] + [Opens], Closes(1));
    RunNext(a + [Opens] + [Opens] + [Closes(1)], Opens);
    RunNext(a + [Opens] + [Opens] + [Closes(1)] + [Opens], Opens);
    assert a + [Opens] + [Opens] + [Closes(1)] + [Opens] + [Opens] == [Opens, Opens, Closes(1), Opens, Opens];
  }
}
