/** Writing a history to a text file: the paging loop, and the wrapping of long lines. */
module HistoryExport {
  import opened EventLine
  import opened HistoryFile
  import opened HistoryStore
  import opened Lists

  // ---- paging ----

  /** There is an event with `page` lines or more before it, since the event before or the start, that
      are none. */
  ghost predicate HasGap(h: History, page: nat) {
    exists i: nat :: IsEvent(h, i) && GapBefore(h, i, page)
  }

  ghost predicate GapBefore(h: History, i: nat, page: nat) {
    i >= page && forall k | i - page <= k < i :: !IsEvent(h, k)
  }

  /** One line that is no event, and a page of one line: the export stops before it has visited anything. */
  lemma GapHides(e: Event)
    ensures var h: History := [None, Some(e)];
            HasGap(h, 1) && All(h) == [ItemAt(h, 1)] && Page(h, 0, Forward, 1) == []
  {
    var h: History := [None, Some(e)];
    assert IsEvent(h, 1) && GapBefore(h, 1, 1);
    assert Page(h, 2, Forward, 0) == [];
    assert Page(h, 1, Forward, 1) == [ItemAt(h, 1)];
    assert Page(h, 1, Forward, 0) == [];
  }

  /** All events of a history, in order. */
  function All(h: History): seq<Item> {
    Page(h, 0, Forward, |h|)
  }

  lemma AllMeaning(h: History)
    ensures Holds(All(h), h, 0, |h|, true)
  {
    PageHolds(h, 0, Forward, |h|, 0, |h|);
  }

  lemma {:induction false} PageSplit(h: History, id: int, n: nat, m: nat)
    ensures Page(h, id, Forward, n + m) == Page(h, id, Forward, n) + Page(h, id + n, Forward, m)
    decreases n
  {
    if n > 0 {
      PageSplit(h, id + 1, n - 1, m);
    }
  }

  lemma {:induction false} PageEmpty(h: History, id: int, n: int)
    ensures Page(h, id, Forward, n) == [] <==> forall k | id <= k < id + n :: !IsEvent(h, k)
    decreases n
  {
    if n > 0 {
      PageEmpty(h, id + 1, n - 1);
    }
  }

  lemma PageClamp(h: History, id: nat, page: nat)
    ensures Page(h, id, Forward, Clamp(|h|, id, Forward, page)) == Page(h, id, Forward, page)
  {
    if id > |h| {
      PageEmpty(h, id, page);
    } else if page > |h| - id {
      PageSplit(h, id, |h| - id, page - (|h| - id));
      PageEmpty(h, |h|, page - (|h| - id));
    }
  }

  /** A page ends with its last event. */
  lemma LastOfPage(h: History, id: nat, page: nat)
    requires Page(h, id, Forward, page) != []
    ensures var items := Page(h, id, Forward, page);
            var last := items[|items| - 1];
            && id <= last.id < id + page && IsEvent(h, last.id) && last == ItemAt(h, last.id)
            && Page(h, id, Forward, last.id + 1 - id) == items
  {
    hide Page;
    PageMeaning(h, id, Forward, page);
    var items := Page(h, id, Forward, page);
    var last := items[|items| - 1];
    assert InPage(h, id, Forward, page, last.id);
    var n := last.id + 1 - id;
    forall k | last.id < k < id + page
      ensures !IsEvent(h, k)
    {
      assert InPage(h, id, Forward, page, k) <==> IsEvent(h, k);
    }
    PageSplit(h, id, n, page - n);
    PageEmpty(h, last.id + 1, page - n);
  }

  ghost predicate NoGapUpTo(h: History, n: nat, page: nat) {
    forall i: nat | i < n && IsEvent(h, i) :: !GapBefore(h, i, page)
  }

  lemma {:induction false} GapFound(h: History, id: nat, page: nat, i: nat)
    requires page >= 1 && IsEvent(h, i) && i >= id + page && forall k | id <= k < id + page :: !IsEvent(h, k)
    ensures !NoGapUpTo(h, i + 1, page)
    decreases i
  {
    if !GapBefore(h, i, page) {
      var k :| i - page <= k < i && IsEvent(h, k);
      GapFound(h, id, page, k);
    }
  }

  /** What a page that is not empty adds to the events visited. */
  lemma PageVisited(h: History, n: nat, page: nat)
    requires n <= |h| && Page(h, n, Forward, page) != [] && NoGapUpTo(h, n, page) && (n > 0 ==> IsEvent(h, n - 1))
    ensures var items := Page(h, n, Forward, page);
            var m := items[|items| - 1].id + 1;
            && n < m <= |h| && IsEvent(h, m - 1) && items[|items| - 1].next == (if m < |h| then Some(m) else None)
            && Page(h, 0, Forward, m) == Page(h, 0, Forward, n) + items && NoGapUpTo(h, m, page)
  {
    var items := Page(h, n, Forward, page);
    var m := items[|items| - 1].id + 1;
    hide Page;
    LastOfPage(h, n, page);
    PageSplit(h, 0, n, m - n);
    forall i: nat | n <= i < m && IsEvent(h, i)
      ensures !GapBefore(h, i, page)
    {
    }
  }

  /** The events are those of the history, in order, up to the first gap: all of them exactly if there is
      none, and each exactly if none lies before it. */
  ghost predicate Visits(visited: seq<Item>, h: History, page: nat) {
    visited <= All(h) && (visited == All(h) <==> !HasGap(h, page)) && VisitsEach(visited, h, page)
  }

  ghost predicate VisitsEach(visited: seq<Item>, h: History, page: nat) {
    forall i: nat | IsEvent(h, i) :: ItemAt(h, i) in visited <==> NoGapUpTo(h, i + 1, page)
  }

  lemma GapIn(h: History, n: nat, page: nat)
    ensures !NoGapUpTo(h, n, page) ==> HasGap(h, page)
    ensures HasGap(h, page) && NoGapUpTo(h, n, page) ==> exists i: nat :: i >= n && IsEvent(h, i)
  {
    hide GapBefore;
  }

  lemma GapBetween(h: History, n: nat, page: nat, i: nat)
    requires page >= 1 && NoGapUpTo(h, n, page) && IsEvent(h, i)
    requires n == |h| || Page(h, n, Forward, page) == []
    ensures i < n <==> NoGapUpTo(h, i + 1, page)
  {
    PageEmpty(h, n, page);
    hide Page, GapBefore;
    if i >= n {
      GapFound(h, n, page, i);
    }
  }

  lemma MissesIffGap(h: History, n: nat, page: nat)
    requires page >= 1 && n <= |h| && NoGapUpTo(h, n, page)
    requires n == |h| || Page(h, n, Forward, page) == []
    ensures Page(h, n, Forward, |h| - n) == [] <==> !HasGap(h, page)
  {
    PageEmpty(h, n, |h| - n);
    GapIn(h, n, page);
    hide Page, HasGap, NoGapUpTo;
    if i: nat :| i >= n && IsEvent(h, i) {
      GapBetween(h, n, page, i);
      GapIn(h, i + 1, page);
    }
  }

  lemma EachBeforeGap(h: History, n: nat, page: nat)
    requires page >= 1 && NoGapUpTo(h, n, page)
    requires n == |h| || Page(h, n, Forward, page) == []
    ensures VisitsEach(Page(h, 0, Forward, n), h, page)
  {
    hide Page, NoGapUpTo;
    forall i: nat | IsEvent(h, i)
      ensures ItemAt(h, i) in Page(h, 0, Forward, n) <==> NoGapUpTo(h, i + 1, page)
    {
      InFirst(h, n, i);
      GapBetween(h, n, page, i);
    }
  }

  /** An empty page ends an export just as the end of the history does. */
  lemma EmptyPage(h: History, n: nat, page: nat)
    requires page >= 1 && n <= |h| && NoGapUpTo(h, n, page)
    requires n == |h| || Page(h, n, Forward, page) == []
    ensures Visits(Page(h, 0, Forward, n), h, page)
  {
    hide Page, HasGap, NoGapUpTo, VisitsEach;
    EachBeforeGap(h, n, page);
    MissesIffGap(h, n, page);
    PageSplit(h, 0, n, |h| - n);
  }

  lemma InFirst(h: History, n: nat, i: nat)
    requires IsEvent(h, i)
    ensures ItemAt(h, i) in Page(h, 0, Forward, n) <==> i < n
  {
    PageMeaning(h, 0, Forward, n);
    assert InPage(h, 0, Forward, n, i) <==> i < n;
    hide Page;
  }

  /** What a history without gaps had is visited, however it has grown. */
  lemma OldEventsVisited(visited: seq<Item>, before: History, h: History, page: nat)
    requires before <= h && !HasGap(before, page) && Visits(visited, h, page)
    ensures forall i: nat | IsEvent(before, i) :: ItemAt(h, i) in visited
  {
    forall i: nat | IsEvent(before, i)
      ensures ItemAt(h, i) in visited
    {
      assert IsEvent(h, i);
      forall e: nat | e <= i && IsEvent(h, e)
        ensures !GapBefore(h, e, page)
      {
        assert IsEvent(before, e) && !GapBefore(before, e, page);
        if e >= page {
          var k :| e - page <= k < e && IsEvent(before, k);
          assert IsEvent(h, k);
        }
      }
    }
  }

  /** Up to a position inside it, a history that grows stays the same. */
  lemma {:induction false} PageGrows(before: History, h: History, id: nat, n: nat)
    requires before <= h && (n > 0 ==> id + n < |before|)
    ensures Page(before, id, Forward, n) == Page(h, id, Forward, n)
    decreases n
  {
    if n > 0 {
      PageGrows(before, h, id + 1, n - 1);
    }
  }

  lemma GapsGrow(before: History, h: History, n: nat, page: nat)
    requires before <= h && n <= |before| && NoGapUpTo(before, n, page)
    ensures NoGapUpTo(h, n, page)
  {
    forall e: nat | e < n && IsEvent(h, e)
      ensures !GapBefore(h, e, page)
    {
      assert IsEvent(before, e) && !GapBefore(before, e, page);
      if e >= page {
        var k :| e - page <= k < e && IsEvent(before, k);
        assert IsEvent(h, k);
      }
    }
  }

  // ---- what others ask meanwhile ----

  datatype Call = Call(jid: Jid, op: Op)

  /** A request that may come while the export waits: an event to be logged, or a page from an end or
      forwards. */
  predicate Harmless(op: Op) {
    match op
    case Write(e) => Copyable(e)
    case From(_, dir, _) => dir == Forward
    case Latest(_) => true
    case Oldest(_) => true
    case Search(_, _, _) => false
    case Delete => false
  }

  predicate AllCalm(batch: seq<Call>) {
    forall i :: 0 <= i < |batch| ==> Harmless(batch[i].op)
  }

  /** What comes while the export waits, before each service step. */
  predicate Tame(traffic: seq<seq<Call>>) {
    forall i :: 0 <= i < |traffic| ==> AllCalm(traffic[i])
  }

  predicate AllHarmless(requests: seq<Request>) {
    forall i :: 0 <= i < |requests| ==> Harmless(requests[i].op)
  }

  /** The histories may have become longer. */
  ghost predicate Grown(a: Histories, b: Histories) {
    forall k: Jid :: Of(a, k) <= Of(b, k)
  }

  lemma {:induction false} RunGrows(hs: Histories, rs: seq<Request>)
    requires AllHarmless(rs)
    ensures Grown(hs, Run(hs, rs).0)
  {
    if rs != [] {
      var n := |rs| - 1;
      RunGrows(hs, rs[..n]);
      EffectShown(Run(hs, rs[..n]).0, rs[n]);
    }
  }

  /** The histories that the queue leads to. */
  ghost function Final(edb: Store): Histories
    reads edb`requests, edb.disk
  {
    Run(edb.Shown(), edb.requests).0
  }

  /** The queue can be served to its end. */
  ghost predicate CanServe(edb: Store)
    reads edb`requests, edb.disk
  {
    AllDefined(edb.Shown(), edb.requests)
  }

  /** Somebody else makes a handle and asks. */
  method Arrive(edb: Store, c: Call)
    requires edb.Inv() && CanServe(edb) && Harmless(c.op)
    modifies edb`handles, edb`requests, edb`reqidBase, edb`issued
    ensures edb.Inv() && CanServe(edb)
    ensures |edb.handles| == |old(edb.handles)| + 1 && old(edb.handles) <= edb.handles
    ensures fresh(edb.handles[|old(edb.handles)|])
    ensures edb.requests == old(edb.requests) + [Request(c.jid, c.op, |old(edb.issued)|)]
  {
    DefinedMore(edb.Shown(), edb.requests, Request(c.jid, c.op, |edb.issued|));
    hide Store.Inv, AllDefined, Store.Shown;
    var h := new Handle(edb);
    h.Ask(c.jid, c.op);
  }

  /** All of them ask, one after the other. */
  method ArriveAll(edb: Store, batch: seq<Call>)
    requires edb.Inv() && CanServe(edb) && AllCalm(batch)
    modifies edb`handles, edb`requests, edb`reqidBase, edb`issued
    ensures edb.Inv() && CanServe(edb)
    ensures old(edb.handles) <= edb.handles
    ensures forall i :: |old(edb.handles)| <= i < |edb.handles| ==> fresh(edb.handles[i])
    ensures old(edb.requests) <= edb.requests && AllHarmless(edb.requests[|old(edb.requests)|..])
    ensures batch == [] ==> edb.requests == old(edb.requests)
  {
    hide Store.Inv, CanServe, Harmless;
    for i := 0 to |batch|
      invariant edb.Inv() && CanServe(edb)
      invariant old(edb.handles) <= edb.handles
      invariant forall i :: |old(edb.handles)| <= i < |edb.handles| ==> fresh(edb.handles[i])
      invariant old(edb.requests) <= edb.requests && AllHarmless(edb.requests[|old(edb.requests)|..])
      invariant i == 0 ==> edb.requests == old(edb.requests)
    {
      Arrive(edb, batch[i]);
    }
  }

  // ---- one page ----

  lemma SameAgain(a: Histories, b: Histories, c: Histories)
    requires Same(a, b) && Same(b, c)
    ensures Same(a, c)
  {
  }

  lemma SameItself(a: Histories)
    ensures Same(a, a)
  {
  }

  function PageOp(id: Option<nat>, page: nat): Op {
    if id.None? then Oldest(page) else From(id.value, Forward, page)
  }

  /** Where the export's request is in the queue. */
  ghost function Place(edb: Store, exp: Handle): int
    reads edb`answers, exp`listeningFor
  {
    exp.listeningFor - |edb.answers|
  }

  /** It is at position `k` of a queue, behind what leads to `goal`, and nothing behind it does harm. */
  ghost predicate InQueue(hs: Histories, requests: seq<Request>, k: int, j: Jid, op: Op, goal: Histories) {
    && 0 <= k < |requests|
    && requests[k].jid == j && requests[k].op == op
    && Same(Run(hs, requests[..k]).0, goal)
    && AllHarmless(requests[k + 1..])
  }

  ghost predicate Waits(edb: Store, exp: Handle, j: Jid, op: Op, goal: Histories)
    reads edb`answers, edb`requests, edb.disk, exp`listeningFor
  {
    InQueue(edb.Shown(), edb.requests, Place(edb, exp), j, op, goal)
  }

  lemma QueueLonger(hs: Histories, requests: seq<Request>, more: seq<Request>, k: int, j: Jid, op: Op, goal: Histories)
    requires InQueue(hs, requests, k, j, op, goal)
    requires requests <= more && AllHarmless(more[|requests|..])
    ensures InQueue(hs, more, k, j, op, goal)
  {
    hide Run, Same;
    assert more[..k] == requests[..k] && more[k + 1..] == requests[k + 1..] + more[|requests|..];
  }

  method AskPage(edb: Store, exp: Handle, j: Jid, id: Option<nat>, page: nat)
    requires edb.Inv() && CanServe(edb) && page >= 1 && exp in edb.handles && exp.edb == edb
    modifies exp, edb`requests, edb`reqidBase, edb`issued
    ensures edb.Inv() && exp.busy && CanServe(edb) && Waits(edb, exp, j, PageOp(id, page), old(Final(edb)))
    ensures Place(edb, exp) == |edb.requests| - 1
  {
    edb.QueueNumbers();
    DefinedMore(edb.Shown(), edb.requests, Request(j, PageOp(id, page), |edb.issued|));
    SameItself(Final(edb));
    hide Store.Inv, AllDefined, Run, Same, Store.Shown;
    if id.None? {
      exp.GetOldest(j, page);
    } else {
      exp.Get(j, id.value, Forward, page);
    }
    assert edb.requests[..|old(edb.requests)|] == old(edb.requests);
  }

  /** One request is served while the export waits: another one's, or its own. */
  method ServeOne(edb: Store, exp: Handle, j: Jid, id: Option<nat>, page: nat, ghost goal: Histories)
    requires edb.Inv() && exp in edb.handles && CanServe(edb)
    requires exp.busy && Waits(edb, exp, j, PageOp(id, page), goal)
    modifies edb, edb.disk, edb.files, edb.handles
    ensures edb.Inv() && edb.handles == old(edb.handles) && CanServe(edb)
    ensures forall i :: 0 <= i < |edb.files| ==> edb.files[i] in old(edb.files) || fresh(edb.files[i])
    ensures |edb.requests| == |old(edb.requests)| - 1
    ensures exp.busy ==> Waits(edb, exp, j, PageOp(id, page), goal) && Place(edb, exp) == old(Place(edb, exp)) - 1 >= 0
    ensures !exp.busy ==> old(Place(edb, exp)) == 0 && Same(edb.Shown(), goal) && AllHarmless(edb.requests)
    ensures !exp.busy ==> exp.result == Some(Page(edb.Now(j), if id.Some? then id.value else 0, Forward, page))
  {
    hide *;
    FirstCanServe(edb);
    FirstInQueue(edb, exp, j, id, page, goal);
    ghost var place := Place(edb, exp);
    var defined := edb.PerformRequests();
    HistoriesServed(edb);
    if place > 0 {
      OneFurther(edb, exp, j, PageOp(id, page), goal);
    } else {
      OwnAnswer(edb, exp, j, id, page, goal);
    }
  }

  lemma FirstCanServe(edb: Store)
    requires CanServe(edb)
    ensures edb.requests != [] ==> !ReadsPast(edb.Now(edb.requests[0].jid), edb.requests[0].op)
  {
    if edb.requests != [] {
      assert DefinedAt(edb.Shown(), edb.requests, 0) && edb.requests[..0] == [];
    }
  }

  lemma FirstInQueue(edb: Store, exp: Handle, j: Jid, id: Option<nat>, page: nat, goal: Histories)
    requires edb.Inv() && Waits(edb, exp, j, PageOp(id, page), goal)
    ensures |edb.requests| > 0 && edb.requests[0].id == |edb.answers| && Place(edb, exp) >= 0
    ensures InQueue(edb.Shown(), edb.requests, Place(edb, exp), j, PageOp(id, page), goal)
  {
    edb.QueueNumbers();
  }

  twostate lemma HistoriesServed(edb: Store)
    requires old(CanServe(edb)) && |old(edb.requests)| > 0 && edb.Performed()
    ensures CanServe(edb) && Same(edb.Shown(), Effect(old(edb.Shown()), old(edb.requests)[0]))
    ensures edb.handles == old(edb.handles) && |edb.requests| == |old(edb.requests)| - 1
  {
    var hs, rs := old(edb.Shown()), old(edb.requests);
    assert forall k: Jid :: Of(hs, k) == old(edb.Now(k)) && Of(edb.Shown(), k) == edb.Now(k);
    EffectShown(hs, rs[0]);
    hide After, Of, Effect, AllDefined, Run, Store.Shown, Store.Now, Store.Served;
    DefinedFirst(hs, edb.Shown(), rs);
  }

  lemma InQueueFurther(hs: Histories, now: Histories, rs: seq<Request>, k: nat, j: Jid, op: Op, goal: Histories)
    requires k > 0 && InQueue(hs, rs, k, j, op, goal) && Same(now, Effect(hs, rs[0]))
    ensures InQueue(now, rs[1..], k - 1, j, op, goal)
  {
    hide Run, Same, Effect;
    var head := rs[..k];
    RunFirst(hs, head);
    assert head[0] == rs[0] && head[1..] == rs[1..][..k - 1] && rs[k + 1..] == rs[1..][k..];
    RunSame(now, Effect(hs, rs[0]), head[1..]);
    SameAgain(Run(now, head[1..]).0, Run(hs, head).0, goal);
  }

  twostate lemma OneFurther(edb: Store, new exp: Handle, new j: Jid, new op: Op, new goal: Histories)
    requires exp in old(edb.handles) && old(exp.busy) && old(Place(edb, exp)) > 0
    requires InQueue(old(edb.Shown()), old(edb.requests), old(Place(edb, exp)), j, op, goal)
    requires old(edb.requests)[0].id == |old(edb.answers)| && edb.Performed()
    requires Same(edb.Shown(), Effect(old(edb.Shown()), old(edb.requests)[0]))
    ensures exp.busy && Waits(edb, exp, j, op, goal) && Place(edb, exp) == old(Place(edb, exp)) - 1
  {
    InQueueFurther(old(edb.Shown()), edb.Shown(), old(edb.requests), old(Place(edb, exp)), j, op, goal);
    hide InQueue, Run, Same, Effect, Reply, Store.Now, Store.Shown;
  }

  twostate lemma OwnAnswer(edb: Store, new exp: Handle, new j: Jid, new id: Option<nat>, new page: nat,
                           new goal: Histories)
    requires exp in old(edb.handles) && old(Place(edb, exp)) == 0
    requires InQueue(old(edb.Shown()), old(edb.requests), 0, j, PageOp(id, page), goal)
    requires old(edb.requests)[0].id == |old(edb.answers)| && edb.Performed()
    requires Same(edb.Shown(), Effect(old(edb.Shown()), old(edb.requests)[0]))
    ensures !exp.busy && Same(edb.Shown(), goal) && AllHarmless(edb.requests)
    ensures exp.result == Some(Page(edb.Now(j), if id.Some? then id.value else 0, Forward, page))
  {
    var hs, rs := old(edb.Shown()), old(edb.requests);
    assert rs[..0] == [];
    EffectShown(hs, rs[0]);
    PageClamp(old(edb.Now(j)), if id.Some? then id.value else 0, page);
    hide Page, Clamp, Effect, Store.Now, Store.Shown;
  }

  /** The request for one page, and the wait for its answer, behind whatever is queued before, and while
      others go on asking. */
  method NextPage(edb: Store, exp: Handle, j: Jid, id: Option<nat>, page: nat, traffic: seq<seq<Call>>)
    returns (r: Option<seq<Item>>, rest: seq<seq<Call>>)
    requires edb.Inv() && CanServe(edb) && page >= 1 && exp in edb.handles && exp.edb == edb && Tame(traffic)
    modifies edb, edb.disk, edb.files, edb.handles
    ensures edb.Inv() && CanServe(edb) && exp in edb.handles
    ensures forall i :: 0 <= i < |edb.files| ==> edb.files[i] in old(edb.files) || fresh(edb.files[i])
    ensures forall i :: 0 <= i < |edb.handles| ==> edb.handles[i] in old(edb.handles) || fresh(edb.handles[i])
    ensures Same(edb.Shown(), old(Final(edb))) && AllHarmless(edb.requests)
    ensures r == Some(Page(edb.Now(j), if id.Some? then id.value else 0, Forward, page))
    ensures Tame(rest) && if traffic == [] then rest == [] && edb.requests == [] else |rest| < |traffic|
  {
    hide *;
    ghost var goal := Final(edb);
    rest := traffic;
    AskPage(edb, exp, j, id, page);
    while exp.busy
      invariant edb.Inv() && CanServe(edb) && exp in edb.handles
      invariant forall i :: 0 <= i < |edb.files| ==> edb.files[i] in old(edb.files) || fresh(edb.files[i])
      invariant forall i :: 0 <= i < |edb.handles| ==> edb.handles[i] in old(edb.handles) || fresh(edb.handles[i])
      invariant exp.busy ==> Waits(edb, exp, j, PageOp(id, page), goal)
      invariant !exp.busy ==> Same(edb.Shown(), goal) && AllHarmless(edb.requests)
      invariant !exp.busy ==> exp.result == Some(Page(edb.Now(j), if id.Some? then id.value else 0, Forward, page))
      invariant Tame(rest) && if traffic == [] then rest == [] else |rest| + (if exp.busy then 0 else 1) <= |traffic|
      invariant traffic == [] ==> |edb.requests| == if exp.busy then Place(edb, exp) + 1 else 0
      decreases if exp.busy then Place(edb, exp) + 1 else 0
    {
      FirstInQueue(edb, exp, j, id, page, goal);
      ghost var before := edb.requests;
      if rest != [] {
        FirstTame(rest);
        ArriveAll(edb, rest[0]);
        rest := rest[1..];
        QueueLonger(edb.Shown(), before, edb.requests, Place(edb, exp), j, PageOp(id, page), goal);
        StillInQueue(edb, exp, j, PageOp(id, page), goal);
      }
      ServeOne(edb, exp, j, id, page, goal);
    }
    r := exp.result;
  }

  lemma StillInQueue(edb: Store, exp: Handle, j: Jid, op: Op, goal: Histories)
    requires InQueue(edb.Shown(), edb.requests, Place(edb, exp), j, op, goal)
    ensures Waits(edb, exp, j, op, goal)
  {
  }

  lemma FirstTame(traffic: seq<seq<Call>>)
    requires Tame(traffic) && traffic != []
    ensures AllCalm(traffic[0]) && Tame(traffic[1..])
  {
  }

  lemma NowIsShown(edb: Store, hs: Histories)
    requires Same(edb.Shown(), hs)
    ensures forall k: Jid :: Of(hs, k) == edb.Now(k)
  {
    assert forall k: Jid :: Of(edb.Shown(), k) == edb.Now(k);
  }

  // ---- the export ----

  /** What the export knows before each page: the events visited are those before `n` of a history that
      has grown at most. */
  ghost predicate Paging(final: Histories, j: Jid, page: nat, start: Histories, visited: seq<Item>, h: History,
                         n: nat)
  {
    && Grown(start, final) && h <= Of(final, j)
    && n <= |h| && visited == Page(h, 0, Forward, n) && NoGapUpTo(h, n, page)
    && (n > 0 ==> n < |h| && IsEvent(h, n - 1))
  }

  lemma FirstPage(final: Histories, j: Jid, page: nat)
    ensures Paging(final, j, page, final, [], Of(final, j), 0)
  {
  }

  /** When the next page is there. */
  lemma PageCame(edb: Store, final: Histories, j: Jid, page: nat, start: Histories, visited: seq<Item>, h: History,
                 n: nat)
    requires Paging(final, j, page, start, visited, h, n)
    requires Same(edb.Shown(), final) && AllHarmless(edb.requests)
    ensures var now := edb.Now(j);
            && now <= Of(Final(edb), j) && now == Of(final, j)
            && n <= |now| && visited == Page(now, 0, Forward, n) && NoGapUpTo(now, n, page)
            && (n > 0 ==> IsEvent(now, n - 1))
    ensures Grown(start, Final(edb)) && forall k: Jid :: Of(start, k) <= edb.Now(k)
    ensures edb.requests == [] ==> Same(Final(edb), final)
  {
    RunGrows(edb.Shown(), edb.requests);
    assert forall k: Jid :: Of(edb.Shown(), k) == edb.Now(k);
    PageGrows(h, edb.Now(j), 0, n);
    GapsGrow(h, edb.Now(j), n, page);
  }

  /** Visits the events a page at a time, once the requests queued before are served, while others log and
      read: those of a history in which no gap fills a page are all visited, each once and in order, and of
      no other. The history is the one that the last page was taken from; it begins with what the queue led
      to when the export started. */
  method ExportHistory(edb: Store, j: Jid, page: nat, traffic: seq<seq<Call>>) returns (visited: seq<Item>)
    requires edb.Inv() && CanServe(edb) && page >= 1 && Tame(traffic)
    modifies edb, edb.disk, edb.files, edb.handles
    ensures edb.Inv() && CanServe(edb) && AllHarmless(edb.requests) && (traffic == [] ==> edb.requests == [])
    ensures forall k: Jid :: Of(old(Final(edb)), k) <= edb.Now(k)
    ensures traffic == [] ==> forall k: Jid :: Of(old(Final(edb)), k) == edb.Now(k)
    ensures Visits(visited, edb.Now(j), page)
  {
    hide *;
    ghost var start := Final(edb);
    var exp := new Handle(edb);
    var id: Option<nat> := None;
    var rest := traffic;
    ghost var n, h := 0, Of(start, j);
    visited := [];
    FirstPage(start, j, page);
    SameItself(start);
    while true
      invariant edb.Inv() && CanServe(edb) && exp in edb.handles && exp.edb == edb && Tame(rest)
      invariant forall i :: 0 <= i < |edb.files| ==> edb.files[i] in old(edb.files) || fresh(edb.files[i])
      invariant forall i :: 0 <= i < |edb.handles| ==> edb.handles[i] in old(edb.handles) || fresh(edb.handles[i])
      invariant n == if id.Some? then id.value else 0
      invariant n <= |Of(Final(edb), j)|
      invariant Paging(Final(edb), j, page, start, visited, h, n)
      invariant traffic == [] ==> rest == [] && Same(Final(edb), start)
      decreases |rest|, if edb.requests == [] then 0 else 1, |Of(Final(edb), j)| - n
    {
      ghost var final := Final(edb);
      var r;
      r, rest := NextPage(edb, exp, j, id, page, rest);
      PageCame(edb, final, j, page, start, visited, h, n);
      h := edb.Now(j);
      if traffic == [] {
        SameAgain(edb.Shown(), final, start);
        SameAgain(Final(edb), final, start);
        NowIsShown(edb, start);
      }
      if r.None? {
        break;
      }
      if |r.value| <= 0 {
        EmptyPage(h, n, page);
        break;
      }
      ghost var seen := visited;
      var i := 0;
      while i < |r.value|
        invariant i <= |r.value| && visited == seen + r.value[..i]
        invariant i > 0 ==> id == r.value[i - 1].next
      {
        id := r.value[i].next;
        visited := visited + [r.value[i]];
        i := i + 1;
      }
      PageVisited(h, n, page);
      n := r.value[|r.value| - 1].id + 1;
      if id.None? {
        EmptyPage(h, n, page);
        assert visited == Page(h, 0, Forward, n);
        break;
      }
      StillPaging(edb, j, page, start, visited, h, n);
    }
    edb.Unreg(exp);
  }

  lemma StillPaging(edb: Store, j: Jid, page: nat, start: Histories, visited: seq<Item>, h: History, n: nat)
    requires Grown(start, Final(edb)) && h <= Of(Final(edb), j)
    requires visited == Page(h, 0, Forward, n) && NoGapUpTo(h, n, page) && 0 < n < |h| && IsEvent(h, n - 1)
    ensures Paging(Final(edb), j, page, start, visited, h, n)
  {
  }
}
