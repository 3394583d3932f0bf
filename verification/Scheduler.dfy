/**
 Picking nodes: every pick removes what it returns, so retries visit each node at most once
 and end, whatever the nodes' status does in between.
*/
module Scheduler {
  import opened Bytes

  type Client = nat

  /** What GetInfo says about a node at one moment. */
  datatype Info = Info(disabled: bool, throttled: bool, paused: bool, isPublic: bool, firstBlock: int, score: int)

  /** The status of all nodes during one pick. */
  type Status = Client -> Info

  datatype NodeFilter = NodeFilter(minBlock: int, forcePublic: bool, forcePrivate: bool)

  type Slots = seq<Option<Client>>

  // ----- one pick on values

  predicate Alive(info: Info) {
    !info.disabled && !info.throttled && !info.paused
  }

  predicate Passes(f: NodeFilter, info: Info) {
    && Alive(info)
    && !(info.isPublic && f.forcePrivate)
    && !(!info.isPublic && f.forcePublic)
    && !(f.minBlock > -1 && f.minBlock <= info.firstBlock)
  }

  predicate Eligible(slots: Slots, status: Status, f: NodeFilter, i: int) {
    0 <= i < |slots| && slots[i].Some? && Passes(f, status(slots[i].value))
  }

  /** Every slot left is empty or fails the filters. */
  ghost predicate NoneEligible(slots: Slots, status: Status, f: NodeFilter) {
    forall i :: !Eligible(slots, status, f, i)
  }

  function Score(slots: Slots, status: Status, i: nat): int
    requires i < |slots| && slots[i].Some?
  {
    status(slots[i].value).score
  }

  /** The slot that is picked; a least score so far of -1 reads as none. */
  function Best(slots: Slots, status: Status, f: NodeFilter): (r: int)
    ensures r == -1 || Eligible(slots, status, f, r)
    ensures r == -1 ==> forall i :: !Eligible(slots, status, f, i)
  {
    if slots == [] then -1
    else
      var n := |slots| - 1;
      var b := Best(slots[..n], status, f);
      assert forall i :: i != n ==> (Eligible(slots, status, f, i) <==> Eligible(slots[..n], status, f, i));
      if Eligible(slots, status, f, n) &&
         (b == -1 || Score(slots, status, b) == -1 || Score(slots, status, n) < Score(slots, status, b))
      then n else b
  }

  /** The slots after a pick: nodes that are not alive and the picked one are dropped. */
  function After(slots: Slots, status: Status, f: NodeFilter): (r: Slots)
    ensures |r| == |slots|
  {
    var b := Best(slots, status, f);
    seq(|slots|, i requires 0 <= i < |slots| =>
          if i == b || (slots[i].Some? && !Alive(status(slots[i].value))) then None else slots[i])
  }

  function Picked(slots: Slots, status: Status, f: NodeFilter): Option<Client> {
    var b := Best(slots, status, f);
    if b == -1 then None else slots[b]
  }

  // ----- which score is picked

  function LastEligible(slots: Slots, status: Status, f: NodeFilter): (r: int)
    ensures r == -1 || Eligible(slots, status, f, r)
    ensures forall i :: Eligible(slots, status, f, i) ==> i <= r
  {
    if slots == [] then -1
    else if Eligible(slots, status, f, |slots| - 1) then |slots| - 1
    else
      var r := LastEligible(slots[..|slots| - 1], status, f);
      assert forall i :: i != |slots| - 1 ==>
        (Eligible(slots, status, f, i) <==> Eligible(slots[..|slots| - 1], status, f, i));
      r
  }

  ghost predicate Least(slots: Slots, status: Status, f: NodeFilter, k: nat)
    requires Eligible(slots, status, f, k)
  {
    forall i :: Eligible(slots, status, f, i) ==> Score(slots, status, k) <= Score(slots, status, i)
  }

  /** Some eligible node has the score. */
  ghost predicate HasScore(slots: Slots, status: Status, f: NodeFilter, score: int) {
    exists i :: Eligible(slots, status, f, i) && Score(slots, status, i) == score
  }

  ghost predicate HasScoreBelow(slots: Slots, status: Status, f: NodeFilter, score: int) {
    exists i :: Eligible(slots, status, f, i) && Score(slots, status, i) < score
  }

  /**
   The pick is least, unless -1 is the least eligible score and the last eligible node has
   another; then it is above -1.
  */
  lemma {:induction false} BestScore(slots: Slots, status: Status, f: NodeFilter)
    requires Best(slots, status, f) != -1
    ensures LastEligible(slots, status, f) != -1
    ensures var b, last := Best(slots, status, f), LastEligible(slots, status, f);
            if HasScore(slots, status, f, -1) && !HasScoreBelow(slots, status, f, -1) && Score(slots, status, last) != -1
            then Score(slots, status, b) > -1
            else Least(slots, status, f, b)
  {
    var n := |slots| - 1;
    var front := slots[..n];
    assert forall i :: i != n ==> (Eligible(slots, status, f, i) <==> Eligible(front, status, f, i));
    assert forall i :: Eligible(front, status, f, i) ==> Score(front, status, i) == Score(slots, status, i);
    if Best(front, status, f) != -1 {
      BestScore(front, status, f);
    }
  }

  /** The pick has the least eligible score exactly when -1 does not get in the way. */
  lemma PickIsLeastIff(slots: Slots, status: Status, f: NodeFilter)
    requires Best(slots, status, f) != -1
    ensures LastEligible(slots, status, f) != -1
    ensures Least(slots, status, f, Best(slots, status, f)) <==>
            || !HasScore(slots, status, f, -1)
            || HasScoreBelow(slots, status, f, -1)
            || Score(slots, status, LastEligible(slots, status, f)) == -1
  {
    BestScore(slots, status, f);
  }

  /** With scores -1 and 5 the second is picked. */
  lemma MinusOneIsPassedOver(a: Client, b: Client)
    requires a != b
    ensures var slots: Slots := [Some(a), Some(b)];
            var f := NodeFilter(-1, false, false);
            var status: Status := c => Info(false, false, false, true, 0, if c == a then -1 else 5);
            Best(slots, status, f) == 1 && Score(slots, status, 1) == 5
            && Eligible(slots, status, f, 0) && Score(slots, status, 0) == -1
  {
    var slots: Slots := [Some(a), Some(b)];
    var f := NodeFilter(-1, false, false);
    var status: Status := c => Info(false, false, false, true, 0, if c == a then -1 else 5);
    assert slots[..1][0] == Some(a) && slots[..1][..0] == [];
    assert Best(slots[..1][..0], status, f) == -1;
    assert Eligible(slots[..1], status, f, 0) && Best(slots[..1], status, f) == 0;
    assert Eligible(slots, status, f, 1);
  }

  /** What a picked node is like, in all that the filters look at; without a pick no node left is like that. */
  lemma PickMeans(slots: Slots, status: Status, f: NodeFilter)
    ensures match Picked(slots, status, f)
            case Some(c) =>
              && Some(c) in slots
              && !status(c).disabled && !status(c).throttled && !status(c).paused
              && (f.forcePublic ==> status(c).isPublic) && (f.forcePrivate ==> !status(c).isPublic)
              && (f.minBlock > -1 ==> status(c).firstBlock < f.minBlock)
            case None =>
              forall c :: Some(c) in slots ==>
                || status(c).disabled || status(c).throttled || status(c).paused
                || (f.forcePublic && !status(c).isPublic) || (f.forcePrivate && status(c).isPublic)
                || (f.minBlock > -1 && f.minBlock <= status(c).firstBlock)
  {
    if Best(slots, status, f) == -1 {
      forall c | Some(c) in slots ensures !Passes(f, status(c)) {
        var i :| 0 <= i < |slots| && slots[i] == Some(c);
        assert !Eligible(slots, status, f, i);
      }
    }
  }

  /** A pick empties only the slot picked and those of nodes that are disabled, throttled or paused. */
  lemma AfterMeans(slots: Slots, status: Status, f: NodeFilter, i: nat)
    requires i < |slots| && slots[i].Some?
    ensures var info := status(slots[i].value);
            && (After(slots, status, f)[i].Some? ==> After(slots, status, f)[i] == slots[i])
            && (info.disabled || info.throttled || info.paused ==> After(slots, status, f)[i].None?)
            && (After(slots, status, f)[i].None? ==>
                  info.disabled || info.throttled || info.paused || Picked(slots, status, f) == slots[i])
  {
  }

  /** At some moment the node was disabled, throttled or paused. */
  ghost predicate WasDown(status: nat -> Status, c: Client) {
    exists t :: status(t)(c).disabled || status(t)(c).throttled || status(t)(c).paused
  }

  /** Every node that has left its slot was picked, or down at some moment. */
  ghost predicate Accountable(before: Slots, after: Slots, status: nat -> Status, picked: seq<Client>)
    requires |after| == |before|
  {
    forall i :: 0 <= i < |before| && before[i].Some? ==>
      after[i] == before[i] || before[i].value in picked || WasDown(status, before[i].value)
  }

  lemma AfterAccountable(slots: Slots, status: nat -> Status, t: nat, f: NodeFilter)
    ensures Accountable(slots, After(slots, status(t), f), status,
                        match Picked(slots, status(t), f) case None => [] case Some(c) => [c])
  {
    hide After, Picked;
    AfterLength(slots, status(t), f);
    forall i | 0 <= i < |slots| && slots[i].Some?
      ensures After(slots, status(t), f)[i] == slots[i] || Picked(slots, status(t), f) == slots[i] || WasDown(status, slots[i].value)
    {
      AfterMeans(slots, status(t), f, i);
    }
  }

  lemma AfterLength(slots: Slots, status: Status, f: NodeFilter)
    ensures |After(slots, status, f)| == |slots|
  {
  }

  // ----- slots only empty

  function Count(slots: Slots): nat {
    if slots == [] then 0 else Count(slots[..|slots| - 1]) + if slots[|slots| - 1].Some? then 1 else 0
  }

  predicate Shrunk(before: Slots, after: Slots) {
    |after| == |before| && forall i :: 0 <= i < |before| ==> after[i].None? || after[i] == before[i]
  }

  lemma {:induction false} CountShrunk(before: Slots, after: Slots)
    requires Shrunk(before, after)
    ensures Count(after) <= Count(before) <= |before|
    ensures (exists k :: 0 <= k < |before| && before[k].Some? && after[k].None?) ==> Count(after) < Count(before)
  {
    if before != [] {
      var n := |before| - 1;
      CountShrunk(before[..n], after[..n]);
      if k :| 0 <= k < |before| && before[k].Some? && after[k].None? {
        if k < n { assert before[..n][k].Some? && after[..n][k].None?; }
      }
    }
  }

  lemma AfterShrinks(slots: Slots, status: Status, f: NodeFilter)
    ensures Shrunk(slots, After(slots, status, f))
    ensures Count(After(slots, status, f)) <= Count(slots)
    ensures Picked(slots, status, f).Some? ==> Count(After(slots, status, f)) < Count(slots)
  {
    var b, after := Best(slots, status, f), After(slots, status, f);
    CountShrunk(slots, after);
    assert b != -1 ==> slots[b].Some? && after[b].None?;
  }

  predicate Distinct(slots: Slots) {
    forall i, j :: 0 <= i < j < |slots| && slots[i].Some? && slots[j].Some? ==> slots[i] != slots[j]
  }

  class NodeScheduler {
    const clients: array<Option<Client>>
    var minBlockNo: int
    var forcePublic: bool
    var forcePrivate: bool

    constructor (all: seq<Client>)
      ensures fresh(clients) && clients.Length == |all| && NotBoth()
      ensures forall i :: 0 <= i < |all| ==> clients[i] == Some(all[i])
      ensures minBlockNo == -1 && !forcePublic && !forcePrivate
    {
      clients := new Option<Client>[|all|](i requires 0 <= i < |all| => Some(all[i]));
      minBlockNo, forcePublic, forcePrivate := -1, false, false;
    }

    function Filter(): NodeFilter
      reads this
    {
      NodeFilter(minBlockNo, forcePublic, forcePrivate)
    }

    /** A scheduler never insists on public and private nodes at once. */
    predicate NotBoth()
      reads this
    {
      !(forcePublic && forcePrivate)
    }

    method SetMinBlock(no: int)
      modifies this`minBlockNo
      ensures minBlockNo == no
    {
      minBlockNo := no;
    }

    /** Insisting on both cancels both. */
    method ForcePublic(f: bool)
      modifies this`forcePublic, this`forcePrivate
      ensures NotBoth()
      ensures if f && old(forcePrivate) then !forcePublic && !forcePrivate
              else forcePublic == f && forcePrivate == old(forcePrivate)
    {
      forcePublic := f;
      if forcePublic && forcePrivate { forcePublic, forcePrivate := false, false; }
    }

    method ForcePrivate(f: bool)
      modifies this`forcePublic, this`forcePrivate
      ensures NotBoth()
      ensures if f && old(forcePublic) then !forcePublic && !forcePrivate
              else forcePrivate == f && forcePublic == old(forcePublic)
    {
      forcePrivate := f;
      if forcePublic && forcePrivate { forcePublic, forcePrivate := false, false; }
    }

    method PickNext(status: Status) returns (r: Option<Client>)
      modifies clients
      ensures r == Picked(old(clients[..]), status, Filter())
      ensures clients[..] == After(old(clients[..]), status, Filter())
      ensures r.Some? ==>
                var info := status(r.value);
                && !info.disabled && !info.throttled && !info.paused
                && (forcePublic ==> info.isPublic) && (forcePrivate ==> !info.isPublic)
                && (minBlockNo > -1 ==> info.firstBlock < minBlockNo)
    {
      ghost var slots, f := clients[..], Filter();
      var min: int, minPos: int := -1, -1;
      var num := 0;
      while num < clients.Length
        invariant 0 <= num <= clients.Length
        invariant minPos == Best(slots[..num], status, f)
        invariant min == if minPos == -1 then -1 else Score(slots, status, minPos)
        invariant forall i :: 0 <= i < num ==>
          clients[i] == if slots[i].Some? && !Alive(status(slots[i].value)) then None else slots[i]
        invariant forall i :: num <= i < clients.Length ==> clients[i] == slots[i]
      {
        assert slots[..num + 1][..num] == slots[..num];
        num := num + 1;
        var v := clients[num - 1];
        if v.None? { continue; }
        var info := status(v.value);
        if info.disabled || info.throttled || info.paused {
          clients[num - 1] := None;
          continue;
        }
        if info.isPublic && forcePrivate { continue; }
        if !info.isPublic && forcePublic { continue; }
        if minBlockNo > -1 && minBlockNo <= info.firstBlock { continue; }
        if min == -1 || info.score < min {
          min, minPos := info.score, num - 1;
        }
      }
      assert slots[..num] == slots;
      if minPos == -1 { return None; }
      r := clients[minPos];
      clients[minPos] := None;
      PickMeans(slots, status, f);
    }

    method GetAnyClient(status: Status) returns (r: Option<Client>)
      modifies clients
      ensures r == Picked(old(clients[..]), status, Filter())
      ensures clients[..] == After(old(clients[..]), status, Filter())
    {
      r := PickNext(status);
    }

    /** Only public nodes, unless something is forced already. */
    method GetPublicClient(status: Status) returns (r: Option<Client>)
      modifies clients, this`forcePublic
      ensures Filter() == old(Filter())
      ensures var f := old(Filter());
              var g := if f.forcePublic || f.forcePrivate then f else f.(forcePublic := true);
              r == Picked(old(clients[..]), status, g) && clients[..] == After(old(clients[..]), status, g)
      ensures r.Some? && !forcePublic && !forcePrivate ==> status(r.value).isPublic
    {
      if forcePublic || forcePrivate {
        r := PickNext(status);
        return;
      }
      forcePublic := true;
      r := PickNext(status);
      forcePublic := false;
    }

    /** A public node if there is one that suits, else any. */
    method NextForRetry(status: nat -> Status, t: nat) returns (r: Option<Client>)
      modifies clients, this`forcePublic
      ensures Filter() == old(Filter())
      ensures Shrunk(old(clients[..]), clients[..]) && Count(clients[..]) <= Count(old(clients[..]))
      ensures r.Some? ==> Count(clients[..]) < Count(old(clients[..]))
      ensures r.Some? ==> r in old(clients[..])
      ensures r.Some? && Distinct(old(clients[..])) ==> r !in clients[..]
      ensures r.None? ==>
                forall c :: Some(c) in clients[..] ==>
                  var info := status(2 * t + 1)(c);
                  || info.disabled || info.throttled || info.paused
                  || (forcePublic && !info.isPublic) || (forcePrivate && info.isPublic)
                  || (minBlockNo > -1 && minBlockNo <= info.firstBlock)
      ensures !forcePublic && !forcePrivate ==>
                forall c :: Some(c) in old(clients[..]) ==>
                  var info := status(2 * t)(c);
                  !info.disabled && !info.throttled && !info.paused && info.isPublic
                  && (minBlockNo > -1 ==> info.firstBlock < minBlockNo) ==>
                    r.Some? && status(2 * t)(r.value).isPublic
      ensures Accountable(old(clients[..]), clients[..], status, match r case None => [] case Some(c) => [c])
    {
      hide After, Best, Picked, Count, NoneEligible;
      ghost var slots := clients[..];
      ghost var f := Filter();
      ghost var g := if f.forcePublic || f.forcePrivate then f else f.(forcePublic := true);
      PickMeans(slots, status(2 * t), g);
      AfterAccountable(slots, status, 2 * t, g);
      r := GetPublicClient(status(2 * t));
      AfterShrinks(slots, status(2 * t), g);
      PickedIsGone(slots, status(2 * t), g);
      if r.None? {
        ghost var mid := clients[..];
        PickMeans(mid, status(2 * t + 1), f);
        AfterAccountable(mid, status, 2 * t + 1, f);
        r := GetAnyClient(status(2 * t + 1));
        AfterShrinks(mid, status(2 * t + 1), f);
        PickedIsGone(mid, status(2 * t + 1), f);
        ShrunkTwice(slots, mid, clients[..]);
      }
    }

    /**
     Runs a call on nodes until one succeeds; `works` decides the n-th attempt and `status`
     the status of the nodes at the n-th moment. No node is called twice, and no more calls
     are made than there are nodes. Without success every node was called, or was down at some
     moment, or is left and at the last moment down or filtered out.
    */
    method CallWithRetries(status: nat -> Status, works: (nat, Client) -> bool, minBlock: Option<int>)
      returns (r: Option<Client>, called: seq<Client>)
      requires Distinct(clients[..])
      modifies clients, this`forcePublic, this`minBlockNo
      ensures |called| <= Count(old(clients[..])) <= clients.Length
      ensures forall i, j :: 0 <= i < j < |called| ==> called[i] != called[j]
      ensures forall i :: 0 <= i < |called| ==> Some(called[i]) in old(clients[..])
      ensures forall i :: 0 <= i < |called| - 1 ==> !works(i, called[i])
      ensures r.Some? ==> called != [] && r.value == called[|called| - 1] && works(|called| - 1, r.value)
      ensures r.None? && called != [] ==> !works(|called| - 1, called[|called| - 1])
      ensures r.None? ==> exists t ::
                forall c :: Some(c) in clients[..] ==>
                  var info := status(t)(c);
                  || info.disabled || info.throttled || info.paused
                  || (forcePublic && !info.isPublic) || (forcePrivate && info.isPublic)
                  || (minBlockNo > -1 && minBlockNo <= info.firstBlock)
      ensures Accountable(old(clients[..]), clients[..], status, called)
    {
      hide After, Best, Picked, Count, Accountable, Shrunk, CallsOk;
      ghost var all := clients[..];
      PickMeans(all, status(0), Filter());
      AfterAccountable(all, status, 0, Filter());
      AfterShrinks(all, status(0), Filter());
      PickedIsGone(all, status(0), Filter());
      called := [];
      NoCalls(all);
      var cl := GetAnyClient(status(0));
      if cl.None? { return None, called; }
      CallsNext(all, all, clients[..], status, called, cl.value);
      if minBlock.Some? { SetMinBlock(minBlock.value); }
      called := called + [cl.value];
      while !works(|called| - 1, called[|called| - 1])
        invariant called != [] && CallsOk(all, clients[..], status, called)
        invariant forall i :: 0 <= i < |called| - 1 ==> !works(i, called[i])
        decreases Count(clients[..])
      {
        ghost var slots := clients[..];
        cl := NextForRetry(status, |called|);
        if cl.None? {
          NoMoreCalls(all, slots, clients[..], status, called);
          return None, called;
        }
        CallsNext(all, slots, clients[..], status, called, cl.value);
        called := called + [cl.value];
      }
      CallsDone(all, clients[..], status, called);
      r := Some(called[|called| - 1]);
    }
  }

  /** What holds after the calls made so far. */
  ghost predicate CallsOk(all: Slots, slots: Slots, status: nat -> Status, called: seq<Client>) {
    && Distinct(all) && Shrunk(all, slots) && |called| + Count(slots) <= Count(all) <= |all|
    && (forall i, j :: 0 <= i < j < |called| ==> called[i] != called[j])
    && (forall i :: 0 <= i < |called| ==> Some(called[i]) in all && Some(called[i]) !in slots)
    && Accountable(all, slots, status, called)
  }

  lemma NoCalls(all: Slots)
    requires Distinct(all)
    ensures Shrunk(all, all) && Count(all) <= |all|
    ensures forall status :: CallsOk(all, all, status, [])
  {
    CountShrunk(all, all);
  }

  lemma CallsNext(all: Slots, slots: Slots, next: Slots, status: nat -> Status, called: seq<Client>, c: Client)
    requires CallsOk(all, slots, status, called)
    requires Shrunk(slots, next) && Count(next) < Count(slots) && Some(c) in slots
    requires Distinct(slots) ==> Some(c) !in next
    requires Accountable(slots, next, status, [c])
    ensures CallsOk(all, next, status, called + [c])
  {
    hide Count;
    ShrunkTwice(all, slots, next);
    forall i | 0 <= i < |called| ensures Some(called[i]) !in next && called[i] != c {
      assert Some(called[i]) !in slots;
    }
  }

  lemma NoMoreCalls(all: Slots, slots: Slots, next: Slots, status: nat -> Status, called: seq<Client>)
    requires CallsOk(all, slots, status, called) && Shrunk(slots, next) && Accountable(slots, next, status, [])
    ensures |called| <= Count(all) <= |all| && Accountable(all, next, status, called)
    ensures forall i, j :: 0 <= i < j < |called| ==> called[i] != called[j]
    ensures forall i :: 0 <= i < |called| ==> Some(called[i]) in all
  {
    hide Count;
  }

  lemma CallsDone(all: Slots, slots: Slots, status: nat -> Status, called: seq<Client>)
    requires CallsOk(all, slots, status, called)
    ensures |called| <= Count(all) <= |all| && Accountable(all, slots, status, called)
    ensures forall i, j :: 0 <= i < j < |called| ==> called[i] != called[j]
    ensures forall i :: 0 <= i < |called| ==> Some(called[i]) in all
  {
    hide Count;
  }

  lemma PickedIsGone(slots: Slots, status: Status, f: NodeFilter)
    ensures var r, after := Picked(slots, status, f), After(slots, status, f);
            && (r.Some? ==> r in slots)
            && (r.Some? && Distinct(slots) ==> r !in after)
            && (r.None? ==> NoneEligible(after, status, f))
  {
    var b, after := Best(slots, status, f), After(slots, status, f);
    if b == -1 {
      forall i ensures !Eligible(after, status, f, i) { assert !Eligible(slots, status, f, i); }
    }
  }

  lemma ShrunkTwice(a: Slots, b: Slots, c: Slots)
    requires Shrunk(a, b) && Shrunk(b, c)
    ensures Shrunk(a, c) && (Distinct(a) ==> Distinct(b) && Distinct(c))
    ensures forall x: Option<Client> :: x.Some? && x in b ==> x in a
    ensures forall x: Option<Client> :: x.Some? && x in c ==> x in b
  {
    forall x: Option<Client> | x.Some? && x in b ensures x in a {
      var i :| 0 <= i < |b| && b[i] == x;
      assert a[i] == x;
    }
    forall x: Option<Client> | x.Some? && x in c ensures x in b {
      var i :| 0 <= i < |c| && c[i] == x;
      assert b[i] == x;
    }
  }
}
