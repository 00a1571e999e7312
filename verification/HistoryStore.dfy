/** The history database: handles ask, the store queues the requests and serves them one by one. */
module HistoryStore {
  import opened EventLine
  import opened HistoryFile
  import opened Lists

  datatype Direction = Forward | Backward

  datatype Op =
    | Latest(len: nat)
    | Oldest(len: nat)
    | From(eventId: int, dir: Direction, len: nat)
    | Search(str: string, startId: int, searchDir: Direction)
    | Write(event: Event)
    | Delete

  datatype Request = Request(jid: Jid, op: Op, id: nat)

  datatype Item = Item(event: Event, id: nat, prev: Option<nat>, next: Option<nat>)

  datatype Answer = Items(items: seq<Item>) | Finished(success: bool)

  // ---- what a request means, on the events of one contact ----

  type History = seq<Option<Event>>

  function ItemAt(h: History, id: nat): Item
    requires id < |h| && h[id].Some?
  {
    Item(h[id].value, id, if id > 0 then Some(id - 1) else None, if id < |h| - 1 then Some(id + 1) else None)
  }

  predicate IsEvent(h: History, id: int) {
    0 <= id < |h| && h[id].Some?
  }

  function Next(id: int, dir: Direction): int {
    if dir == Forward then id + 1 else id - 1
  }

  /** The events at `len` positions from `id` on. */
  function Page(h: History, id: int, dir: Direction, len: int): seq<Item>
    decreases len
  {
    if len <= 0 then []
    else (if IsEvent(h, id) then [ItemAt(h, id)] else []) + Page(h, Next(id, dir), dir, len - 1)
  }

  /** A page is its first event, if there is one at its first position, and the page from the next. */
  lemma PageNext(items: seq<Item>, h: History, id: int, dir: Direction, len: int)
    requires len > 0
    ensures items + Page(h, id, dir, len)
            == (if IsEvent(h, id) then items + [ItemAt(h, id)] else items) + Page(h, Next(id, dir), dir, len - 1)
  {
  }

  lemma PageOver(h: History, id: int, dir: Direction, len: int)
    requires len <= 0
    ensures Page(h, id, dir, len) == []
  {
  }

  function Lower(s: string): string {
    seq(|s|, i requires 0 <= i < |s| => if 'A' <= s[i] <= 'Z' then (s[i] as int + 32) as char else s[i])
  }

  predicate IsAt(text: string, i: nat, str: string) {
    i + |str| <= |text| && Lower(text[i..i + |str|]) == Lower(str)
  }

  /** QString::find without regard to case, which is that of the Latin alphabet here. */
  predicate Contains(text: string, str: string) {
    exists i | 0 <= i <= |text| :: IsAt(text, i, str)
  }

  predicate Matches(e: Event, str: string) {
    e.MessageEvent? && Contains(e.body, str)
  }

  datatype Hit = NoHit | PastTheEnd | HitAt(id: nat)

  /** The search: it ends at the first line that is no event, too. */
  function Scan(h: History, id: int, dir: Direction, str: string): (hit: Hit)
    ensures hit.HitAt? ==> IsEvent(h, hit.id)
    decreases if id < 0 || id > |h| then 0 else if dir == Forward then |h| - id + 1 else id + 1
  {
    if id < 0 || id > |h| then NoHit
    else if id == |h| then PastTheEnd
    else if h[id].None? then NoHit
    else if Matches(h[id].value, str) then HitAt(id)
    else Scan(h, Next(id, dir), dir, str)
  }

  function Min(a: int, b: int): int {
    if a < b then a else b
  }

  /** How much of `len` there is from `id` on. */
  function Clamp(total: nat, id: int, dir: Direction, len: nat): int {
    if dir == Forward then Min(len, total - id) else Min(len, id + 1)
  }

  function Reply(h: History, op: Op): Answer {
    match op
    case Latest(len) => Items(Page(h, |h| - 1, Backward, Clamp(|h|, |h| - 1, Backward, len)))
    case Oldest(len) => Items(Page(h, 0, Forward, Clamp(|h|, 0, Forward, len)))
    case From(id, dir, len) => Items(Page(h, id, dir, Clamp(|h|, id, dir, len)))
    case Search(str, id, dir) =>
      var hit := Scan(h, id, dir, str);
      Items(if hit.HitAt? then [ItemAt(h, hit.id)] else [])
    case Write(e) => Finished(Loggable(e))
    case Delete => Finished(true)
  }

  /** Serving the request looks past the end of the index. */
  predicate ReadsPast(h: History, op: Op) {
    match op
    case From(id, dir, len) => dir == Backward && id - len < |h| <= id
    case Search(str, id, dir) => Scan(h, id, dir, str).PastTheEnd?
    case _ => false
  }

  /** The search finds the nearest message with the text, if all before it are events; forwards it looks
      past the end when there is none, backwards when it starts there. */
  lemma {:induction false} ScanMeaning(h: History, id: int, dir: Direction, str: string)
    ensures var hit := Scan(h, id, dir, str);
            && (hit.PastTheEnd? <==>
                  if dir == Forward then 0 <= id <= |h| && forall i | id <= i < |h| :: Misses(h, i, str)
                  else id == |h|)
            && (forall k: nat :: hit == HitAt(k) <==>
                  && IsEvent(h, k) && Matches(h[k].value, str)
                  && if dir == Forward then 0 <= id <= k && forall i | id <= i < k :: Misses(h, i, str)
                     else k <= id < |h| && forall i | k < i <= id :: Misses(h, i, str))
    decreases if id < 0 || id > |h| then 0 else if dir == Forward then |h| - id + 1 else id + 1
  {
    hide Matches;
    if 0 <= id < |h| {
      assert Misses(h, id, str) <==> h[id].Some? && !Matches(h[id].value, str);
      if Misses(h, id, str) {
        ScanMeaning(h, Next(id, dir), dir, str);
      }
    }
  }

  ghost predicate Misses(h: History, i: int, str: string) {
    IsEvent(h, i) && !Matches(h[i].value, str)
  }

  /** So does a page read backwards from an old position, when the file has been removed since. */
  lemma StalePageReadsPast()
    ensures ReadsPast([], From(0, Backward, 1)) && Reply([], From(0, Backward, 1)) == Items([])
  {
    assert Page([], 0, Backward, 1) == Page([], -1, Backward, 0);
  }

  /** And a plain forward search for a text that is nowhere looks past the end. */
  lemma SearchMissesPast()
    ensures var h := [Some(MessageEvent(true, None, "chat", "", "hello", []))];
            ReadsPast(h, Search("x", 0, Forward)) && Reply(h, Search("x", 0, Forward)) == Items([])
  {
    var h: History := [Some(MessageEvent(true, None, "chat", "", "hello", []))];
    assert Lower("x")[0] == 'x';
    forall i: nat | i < 5
      ensures !IsAt("hello", i, "x")
    {
      assert Lower("hello"[i..i + 1])[0] == "hello"[i];
    }
    assert Misses(h, 0, "x");
    ScanMeaning(h, 0, Forward, "x");
  }

  lemma {:induction false} PageItems(h: History, id: int, dir: Direction, len: int)
    ensures var items := Page(h, id, dir, len);
            forall k :: 0 <= k < |items| ==> InPage(h, id, dir, len, items[k].id) && items[k] == ItemAt(h, items[k].id)
    decreases len
  {
    if len > 0 {
      PageItems(h, Next(id, dir), dir, len - 1);
      PageNext([], h, id, dir, len);
      hide Page, ItemAt;
      var rest, items := Page(h, Next(id, dir), dir, len - 1), Page(h, id, dir, len);
      var n := |items| - |rest|;
      forall k | 0 <= k < |items|
        ensures InPage(h, id, dir, len, items[k].id) && items[k] == ItemAt(h, items[k].id)
      {
        assert k >= n ==> items[k] == rest[k - n];
      }
    }
  }

  predicate Ahead(a: Item, b: Item, dir: Direction) {
    if dir == Forward then a.id < b.id else a.id > b.id
  }

  lemma {:induction false} PageOrdered(h: History, id: int, dir: Direction, len: int, k: nat, l: nat)
    requires k < l < |Page(h, id, dir, len)|
    ensures Ahead(Page(h, id, dir, len)[k], Page(h, id, dir, len)[l], dir)
    decreases len
  {
    PageItems(h, Next(id, dir), dir, len - 1);
    PageNext([], h, id, dir, len);
    hide Page;
    var rest, items := Page(h, Next(id, dir), dir, len - 1), Page(h, id, dir, len);
    var n := |items| - |rest|;
    assert items[l] == rest[l - n];
    if k >= n {
      assert items[k] == rest[k - n];
      PageOrdered(h, Next(id, dir), dir, len - 1, k - n, l - n);
    } else {
      assert items[k] == ItemAt(h, id);
      assert InPage(h, Next(id, dir), dir, len - 1, rest[l - n].id);
    }
  }

  lemma {:induction false} PageComplete(h: History, id: int, dir: Direction, len: int)
    ensures forall i: nat :: InPage(h, id, dir, len, i) ==> ItemAt(h, i) in Page(h, id, dir, len)
    decreases len
  {
    if len > 0 {
      PageComplete(h, Next(id, dir), dir, len - 1);
      PageNext([], h, id, dir, len);
      hide Page, ItemAt;
    }
  }

  /** A page holds the events in its range, each once, in the direction asked for. */
  lemma PageMeaning(h: History, id: int, dir: Direction, len: int)
    ensures var items := Page(h, id, dir, len);
            && (forall k :: 0 <= k < |items| ==>
                  InPage(h, id, dir, len, items[k].id) && items[k] == ItemAt(h, items[k].id))
            && (forall k, l :: 0 <= k < l < |items| ==> Ahead(items[k], items[l], dir))
            && (forall i: nat :: InPage(h, id, dir, len, i) ==> ItemAt(h, i) in items)
  {
    PageItems(h, id, dir, len);
    PageComplete(h, id, dir, len);
    hide Page;
    var items := Page(h, id, dir, len);
    forall k, l | 0 <= k < l < |items|
      ensures Ahead(items[k], items[l], dir)
    {
      PageOrdered(h, id, dir, len, k, l);
    }
  }

  predicate InPage(h: History, id: int, dir: Direction, len: int, i: int) {
    IsEvent(h, i) && if dir == Forward then id <= i < id + len else id - len < i <= id
  }

  // ---- what the answers are, written out ----

  /** The item is the event at its position, and names the positions on both sides. */
  ghost predicate IsItem(item: Item, h: History) {
    && item.id < |h| && h[item.id] == Some(item.event)
    && item.prev == (if item.id == 0 then None else Some(item.id - 1))
    && item.next == (if item.id == |h| - 1 then None else Some(item.id + 1))
  }

  /** The items are exactly the events at positions from `lo` up to `hi`, each once, in order. */
  ghost predicate Holds(items: seq<Item>, h: History, lo: int, hi: int, ascending: bool) {
    && (forall k :: 0 <= k < |items| ==> IsItem(items[k], h) && lo <= items[k].id < hi)
    && (forall k, l :: 0 <= k < l < |items| ==>
          if ascending then items[k].id < items[l].id else items[k].id > items[l].id)
    && forall i: nat :: lo <= i < hi && i < |h| && h[i].Some? ==> exists k :: 0 <= k < |items| && items[k].id == i
  }

  /** The two cases of a letter. */
  predicate IsCapitalOf(c: char, d: char) {
    'A' <= c <= 'Z' && d as int - 'a' as int == c as int - 'A' as int
  }

  /** The texts differ at most in the case of letters. */
  ghost predicate SameLetters(a: string, b: string) {
    && |a| == |b|
    && forall i :: 0 <= i < |a| ==> a[i] == b[i] || IsCapitalOf(a[i], b[i]) || IsCapitalOf(b[i], a[i])
  }

  /** A message with the text somewhere in its body. */
  ghost predicate HasText(e: Event, str: string) {
    e.MessageEvent? && exists a: string, s: string, b: string :: e.body == a + s + b && SameLetters(s, str)
  }

  ghost predicate LacksText(h: History, i: int, str: string) {
    0 <= i < |h| && h[i].Some? && !HasText(h[i].value, str)
  }

  /** One item at most: the nearest message with the text, if all before it are events. */
  ghost predicate Finds(items: seq<Item>, h: History, id: int, dir: Direction, str: string) {
    && |items| <= 1 && (items != [] ==> IsItem(items[0], h))
    && forall k: nat :: items != [] && items[0].id == k <==>
         && k < |h| && h[k].Some? && HasText(h[k].value, str)
         && if dir == Forward then 0 <= id <= k && forall i | id <= i < k :: LacksText(h, i, str)
            else k <= id < |h| && forall i | k < i <= id :: LacksText(h, i, str)
  }

  /** What each request is answered on the events of its contact. */
  ghost predicate Answers(answer: Answer, h: History, op: Op) {
    match op
    case Latest(len) => answer.Items? && Holds(answer.items, h, |h| - len, |h|, false)
    case Oldest(len) => answer.Items? && Holds(answer.items, h, 0, len, true)
    case From(id, Forward, len) => answer.Items? && Holds(answer.items, h, id, id + len, true)
    case From(id, Backward, len) => answer.Items? && Holds(answer.items, h, id - len + 1, id + 1, false)
    case Search(str, id, dir) => answer.Items? && Finds(answer.items, h, id, dir, str)
    case Write(e) => answer == Finished(!e.OtherEvent?)
    case Delete => answer == Finished(true)
  }

  lemma ItemIs(h: History, i: nat)
    requires IsEvent(h, i)
    ensures IsItem(ItemAt(h, i), h) && ItemAt(h, i).id == i
  {
  }

  lemma PageHolds(h: History, id: int, dir: Direction, len: int, lo: int, hi: int)
    requires forall i: nat :: InPage(h, id, dir, len, i) <==> IsEvent(h, i) && lo <= i < hi
    ensures Holds(Page(h, id, dir, len), h, lo, hi, dir == Forward)
  {
    PageMeaning(h, id, dir, len);
    var items := Page(h, id, dir, len);
    hide Page, ItemAt, InPage, IsItem;
    forall k | 0 <= k < |items|
      ensures IsItem(items[k], h) && lo <= items[k].id < hi
    {
      ItemIs(h, items[k].id);
    }
    forall i: nat | lo <= i < hi && i < |h| && h[i].Some?
      ensures exists k :: 0 <= k < |items| && items[k].id == i
    {
      ItemIs(h, i);
      assert IsEvent(h, i) && InPage(h, id, dir, len, i);
      assert ItemAt(h, i) in items;
    }
    forall k, l | 0 <= k < l < |items|
      ensures if dir == Forward then items[k].id < items[l].id else items[k].id > items[l].id
    {
      assert Ahead(items[k], items[l], dir);
    }
  }

  /** Lower-casing identifies the two cases of a letter, and nothing else. */
  lemma LowerMeaning(a: string, b: string)
    ensures Lower(a) == Lower(b) <==> SameLetters(a, b)
  {
    assert |Lower(a)| == |a| && |Lower(b)| == |b|;
    if Lower(a) == Lower(b) {
      forall i | 0 <= i < |a|
        ensures a[i] == b[i] || IsCapitalOf(a[i], b[i]) || IsCapitalOf(b[i], a[i])
      {
        assert Lower(a)[i] == Lower(b)[i];
      }
    }
  }

  /** A text contains another one wherever that stands in it, in whatever case. */
  lemma ContainsMeaning(text: string, str: string)
    ensures Contains(text, str) <==> exists a: string, s: string, b: string :: text == a + s + b && SameLetters(s, str)
  {
    hide Lower, SameLetters;
    if Contains(text, str) {
      var i :| 0 <= i <= |text| && IsAt(text, i, str);
      LowerMeaning(text[i..i + |str|], str);
      assert text == text[..i] + text[i..i + |str|] + text[i + |str|..];
    }
    if a: string, s: string, b: string :| text == a + s + b && SameLetters(s, str) {
      LowerMeaning(s, str);
      SameLength(s, str);
      assert text[|a|..|a| + |str|] == s;
      assert IsAt(text, |a|, str);
    }
  }

  lemma SameLength(a: string, b: string)
    requires SameLetters(a, b)
    ensures |a| == |b|
  {
  }

  lemma MatchesMeaning(e: Event, str: string)
    ensures Matches(e, str) <==> HasText(e, str)
  {
    hide Contains, SameLetters;
    if e.MessageEvent? {
      ContainsMeaning(e.body, str);
    }
  }

  lemma SearchFinds(h: History, id: int, dir: Direction, str: string)
    ensures var hit := Scan(h, id, dir, str);
            Finds(if hit.HitAt? then [ItemAt(h, hit.id)] else [], h, id, dir, str)
  {
    var hit := Scan(h, id, dir, str);
    ScanMeaning(h, id, dir, str);
    hide Scan, Matches, HasText;
    forall i: nat
      ensures Misses(h, i, str) <==> LacksText(h, i, str)
      ensures IsEvent(h, i) ==> (Matches(h[i].value, str) <==> HasText(h[i].value, str))
    {
      if IsEvent(h, i) {
        MatchesMeaning(h[i].value, str);
      }
    }
    forall i: int
      ensures Misses(h, i, str) <==> LacksText(h, i, str)
    {
      if i >= 0 {
        assert Misses(h, i as nat, str) <==> LacksText(h, i as nat, str);
      }
    }
  }

  /** The answers are what the requests ask for. */
  lemma ReplyMeaning(h: History, op: Op)
    ensures Answers(Reply(h, op), h, op)
  {
    hide Page, Holds, Finds, Scan, ItemAt;
    match op
    case Latest(len) => PageHolds(h, |h| - 1, Backward, Clamp(|h|, |h| - 1, Backward, len), |h| - len, |h|);
    case Oldest(len) => PageHolds(h, 0, Forward, Clamp(|h|, 0, Forward, len), 0, len);
    case From(id, Forward, len) => PageHolds(h, id, Forward, Clamp(|h|, id, Forward, len), id, id + len);
    case From(id, Backward, len) => PageHolds(h, id, Backward, Clamp(|h|, id, Backward, len), id - len + 1, id + 1);
    case Search(str, id, dir) => SearchFinds(h, id, dir, str);
    case Write(_) =>
    case Delete =>
  }

  /** Which requests look one past the end. */
  lemma ReadsPastMeaning(h: History, op: Op)
    ensures ReadsPast(h, op) <==> match op
            case From(id, Backward, len) => id - len < |h| <= id
            case Search(str, id, Forward) => 0 <= id <= |h| && forall i | id <= i < |h| :: LacksText(h, i, str)
            case Search(str, id, Backward) => id == |h|
            case _ => false
  {
    if op.Search? {
      ScanMeaning(h, op.startId, op.searchDir, op.str);
      hide Scan, Matches, HasText;
      forall i: int
        ensures Misses(h, i, op.str) <==> LacksText(h, i, op.str)
      {
        if IsEvent(h, i) {
          MatchesMeaning(h[i].value, op.str);
        }
      }
    }
  }

  // ---- on the events of all contacts ----

  type Histories = map<Jid, History>

  function Of(hs: Histories, j: Jid): History {
    if j in hs then hs[j] else []
  }

  function After(h: History, op: Op): History {
    match op
    case Write(e) => if Loggable(e) then h + [Stored(e)] else h
    case Delete => []
    case _ => h
  }

  /** What each request leaves of the events: an event logged is one more, as its line reads. */
  lemma AfterMeaning(h: History, op: Op)
    ensures match op
            case Write(e) =>
              After(h, op) == if e.OtherEvent? then h else h + [LineToEvent(Chop(EventToLine(e)))]
            case Delete => After(h, op) == []
            case _ => After(h, op) == h
  {
    hide LineToEvent, EventToLine, Chop, Stored;
    if op.Write? && Loggable(op.event) {
      StoredRead(op.event);
    }
  }

  function Effect(hs: Histories, r: Request): Histories {
    hs[r.jid := After(Of(hs, r.jid), r.op)]
  }

  /** Serving requests one at a time on plain lists of events. */
  function Run(start: Histories, rs: seq<Request>): (Histories, seq<Answer>) {
    if rs == [] then (start, [])
    else
      var n := |rs| - 1;
      var (hs, answers) := Run(start, rs[..n]);
      (Effect(hs, rs[n]), answers + [Reply(Of(hs, rs[n].jid), rs[n].op)])
  }

  lemma EffectShown(hs: Histories, r: Request)
    ensures forall j: Jid :: Of(Effect(hs, r), j) == if j == r.jid then After(Of(hs, j), r.op) else Of(hs, j)
  {
    hide After;
  }

  lemma RunNext(start: Histories, rs: seq<Request>, n: nat)
    requires n < |rs|
    ensures var (hs, answers) := Run(start, rs[..n]);
            Run(start, rs[..n + 1]) == (Effect(hs, rs[n]), answers + [Reply(Of(hs, rs[n].jid), rs[n].op)])
  {
    assert rs[..n + 1][..n] == rs[..n];
  }

  lemma {:induction false} RunPrefix(start: Histories, rs: seq<Request>, k: nat)
    requires k < |rs|
    ensures var answers := Run(start, rs).1;
            |answers| == |rs| && answers[k] == Reply(Of(Run(start, rs[..k]).0, rs[k].jid), rs[k].op)
    decreases |rs|
  {
    var n := |rs| - 1;
    hide Reply, Effect, Of;
    if k < n {
      RunPrefix(start, rs[..n], k);
      assert rs[..n][..k] == rs[..k];
    } else if n > 0 {
      RunPrefix(start, rs[..n], 0);
    }
  }

  /** No request looks past the end of an index when its turn comes. */
  ghost predicate AllDefined(hs: Histories, rs: seq<Request>) {
    forall k :: 0 <= k < |rs| ==> DefinedAt(hs, rs, k)
  }

  ghost predicate DefinedAt(hs: Histories, rs: seq<Request>, k: nat)
    requires k < |rs|
  {
    !ReadsPast(Of(Run(hs, rs[..k]).0, rs[k].jid), rs[k].op)
  }

  /** The same lists of events, where having none and not being there are the same. */
  ghost predicate Same(a: Histories, b: Histories) {
    forall j: Jid :: Of(a, j) == Of(b, j)
  }

  lemma {:induction false} RunSame(a: Histories, b: Histories, rs: seq<Request>)
    requires Same(a, b)
    ensures Same(Run(a, rs).0, Run(b, rs).0)
  {
    hide Of, After, Effect, Reply;
    if rs != [] {
      var n := |rs| - 1;
      RunSame(a, b, rs[..n]);
      EffectShown(Run(a, rs[..n]).0, rs[n]);
      EffectShown(Run(b, rs[..n]).0, rs[n]);
    }
  }

  /** A run serves its first request and then the others. */
  lemma {:induction false} RunFirst(hs: Histories, rs: seq<Request>)
    requires rs != []
    ensures Run(hs, rs).0 == Run(Effect(hs, rs[0]), rs[1..]).0
    decreases |rs|
  {
    hide Effect, Of, Reply;
    var n := |rs| - 1;
    if n > 0 {
      RunFirst(hs, rs[..n]);
      assert rs[..n][1..] == rs[1..][..n - 1] && rs[1..][n - 1] == rs[n];
    } else {
      assert rs[..0] == [] && rs[1..] == [];
    }
  }

  lemma DefinedFirst(hs: Histories, now: Histories, rs: seq<Request>)
    requires AllDefined(hs, rs) && rs != [] && Same(now, Effect(hs, rs[0]))
    ensures !ReadsPast(Of(hs, rs[0].jid), rs[0].op) && AllDefined(now, rs[1..])
    ensures Same(Run(now, rs[1..]).0, Run(hs, rs).0)
  {
    hide Of, Effect, ReadsPast, Reply;
    assert DefinedAt(hs, rs, 0) && rs[..0] == [];
    forall k | 0 <= k < |rs| - 1
      ensures DefinedAt(now, rs[1..], k)
    {
      assert DefinedAt(hs, rs, k + 1);
      var head := rs[..k + 1];
      RunFirst(hs, head);
      assert head[1..] == rs[1..][..k] && head[0] == rs[0];
      RunSame(now, Effect(hs, rs[0]), rs[1..][..k]);
    }
    RunFirst(hs, rs);
    RunSame(now, Effect(hs, rs[0]), rs[1..]);
  }

  lemma DefinedMore(hs: Histories, rs: seq<Request>, r: Request)
    requires AllDefined(hs, rs) && forall h: History :: !ReadsPast(h, r.op)
    ensures AllDefined(hs, rs + [r])
  {
    var all, n := rs + [r], |rs|;
    assert all[..n] == rs;
    hide Of, Effect, ReadsPast, Reply, After, Run;
    forall k | 0 <= k < |all|
      ensures DefinedAt(hs, all, k)
    {
      if k < n {
        assert all[..k] == rs[..k] && DefinedAt(hs, rs, k);
      }
    }
  }

  function InFile(files: map<Jid, string>, j: Jid): History {
    if j in files then Entries(files[j]) else []
  }

  ghost predicate Shows(files: map<Jid, string>, hs: Histories) {
    forall j: Jid :: InFile(files, j) == Of(hs, j)
  }

  // ---- the program ----

  /** PsiEvent::copy gives a copy. */
  predicate Copyable(e: Event) {
    e.OtherEvent? ==> e.copyable
  }

  datatype RequestType = Reading | Writing | Erasing

  /** Messages and subscription events can be copied, whatever is in them. */
  lemma CopyableMeaning(e: Event)
    ensures Loggable(e) ==> Copyable(e)
    ensures Loggable(e) <==> EventToLine(e) != ""
  {
    if Loggable(e) {
      LineIsOneLine(e);
    }
  }

  /** EDBHandle */
  class Handle {
    const edb: Store
    var busy: bool
    var result: Option<seq<Item>>
    var writeSuccess: bool
    var listeningFor: int
    var lastRequestType: RequestType
    // what was asked last
    ghost var asked: Option<Request>

    constructor (edb: Store)
      requires edb.Inv()
      modifies edb`handles
      ensures edb.Inv() && this.edb == edb && edb.handles == old(edb.handles) + [this]
      ensures !busy && listeningFor == -1 && result == None && asked == None
    {
      this.edb := edb;
      busy, result, writeSuccess, listeningFor, lastRequestType := false, None, false, -1, Reading;
      asked := None;
      new;
      edb.handles := edb.handles + [this];
    }

    /** This handle waits for the answer to its request, which is the last in the queue. */
    twostate predicate Asked(j: Jid, op: Op)
      reads this, edb
    {
      && edb.issued == old(edb.issued) + [Request(j, op, |old(edb.issued)|)]
      && edb.requests == old(edb.requests) + [Request(j, op, |old(edb.issued)|)]
      && edb.answers == old(edb.answers) && edb.handles == old(edb.handles)
      && busy && listeningFor == |old(edb.issued)| && asked == Some(Request(j, op, |old(edb.issued)|))
      && result == old(result) && writeSuccess == old(writeSuccess)
    }

    method ResultReady(items: seq<Item>)
      modifies this
      ensures !busy && listeningFor == -1 && result == Some(items) && asked == old(asked)
      ensures writeSuccess == old(writeSuccess) && lastRequestType == old(lastRequestType)
    {
      busy, result, listeningFor := false, Some(items), -1;
    }

    method WriteFinished(success: bool)
      modifies this
      ensures !busy && listeningFor == -1 && writeSuccess == success
      ensures result == old(result) && asked == old(asked) && lastRequestType == old(lastRequestType)
    {
      busy, writeSuccess, listeningFor := false, success, -1;
    }

    method GetLatest(j: Jid, len: int)
      requires edb.Inv() && this in edb.handles
      modifies this, edb`requests, edb`reqidBase, edb`issued
      ensures edb.Inv() && Asked(j, Latest(if len < 1 then 1 else len)) && lastRequestType == Reading
    {
      lastRequestType := Reading;
      Ask(j, Latest(if len < 1 then 1 else len));
    }

    method GetOldest(j: Jid, len: int)
      requires edb.Inv() && this in edb.handles
      modifies this, edb`requests, edb`reqidBase, edb`issued
      ensures edb.Inv() && Asked(j, Oldest(if len < 1 then 1 else len)) && lastRequestType == Reading
    {
      lastRequestType := Reading;
      Ask(j, Oldest(if len < 1 then 1 else len));
    }

    method Get(j: Jid, id: int, direction: Direction, len: int)
      requires edb.Inv() && this in edb.handles
      modifies this, edb`requests, edb`reqidBase, edb`issued
      ensures edb.Inv() && Asked(j, From(id, direction, if len < 1 then 1 else len)) && lastRequestType == Reading
    {
      lastRequestType := Reading;
      Ask(j, From(id, direction, if len < 1 then 1 else len));
    }

    method Find(str: string, j: Jid, id: int, direction: Direction)
      requires edb.Inv() && this in edb.handles
      modifies this, edb`requests, edb`reqidBase, edb`issued
      ensures edb.Inv() && Asked(j, Search(str, id, direction)) && lastRequestType == Reading
    {
      lastRequestType := Reading;
      Ask(j, Search(str, id, direction));
    }

    /** An event that cannot be copied is not queued, and 0 is returned as the number of the request:
        the handle is then busy with nothing of its own in the queue. */
    method Append(j: Jid, e: Event)
      requires edb.Inv() && this in edb.handles
      modifies this, edb`requests, edb`reqidBase, edb`issued
      ensures edb.Inv() <==> Copyable(e)
      ensures Copyable(e) ==> Asked(j, Write(e))
      ensures !Copyable(e) ==>
        busy && listeningFor == 0 && edb.issued == old(edb.issued) && edb.requests == old(edb.requests)
      ensures lastRequestType == Writing
    {
      lastRequestType := Writing;
      if Copyable(e) {
        Ask(j, Write(e));
      } else {
        busy, listeningFor := true, 0;
        asked := Some(Request(j, Write(e), 0));
        assert !edb.HandleOk(this);
      }
    }

    method Erase(j: Jid)
      requires edb.Inv() && this in edb.handles
      modifies this, edb`requests, edb`reqidBase, edb`issued
      ensures edb.Inv() && Asked(j, Delete) && lastRequestType == Erasing
    {
      lastRequestType := Erasing;
      Ask(j, Delete);
    }

    method Ask(j: Jid, op: Op)
      requires edb.Inv() && this in edb.handles && (op.Write? ==> Copyable(op.event))
      modifies `busy, `listeningFor, `asked, edb`requests, edb`reqidBase, edb`issued
      ensures edb.Inv() && Asked(j, op)
    {
      hide Store.FilesInv, Shows, Run;
      busy := true;
      listeningFor := edb.Enqueue(j, op);
      asked := Some(Request(j, op, listeningFor));
      assert edb.issued[..|edb.answers|] == old(edb.issued)[..|edb.answers|];
    }
  }

  /** EDB and EDBFlatFile */
  class Store {
    const disk: Disk
    var files: seq<File>
    var requests: seq<Request>
    var reqidBase: nat
    var handles: seq<Handle>
    // the events at the start, every request so far, and the answers to the first of them
    ghost var start: Histories
    ghost var issued: seq<Request>
    ghost var answers: seq<Answer>

    ghost predicate QueueInv()
      reads `reqidBase, `issued, `answers, `requests
    {
      Queued(reqidBase, issued, answers, requests)
    }

    static ghost predicate Queued(reqidBase: nat, issued: seq<Request>, answers: seq<Answer>, requests: seq<Request>) {
      && reqidBase == |issued| && |answers| <= |issued| && requests == issued[|answers|..]
      && forall i :: 0 <= i < |issued| ==>
           issued[i].id == i && (issued[i].op.Write? ==> Copyable(issued[i].op.event))
    }

    ghost predicate FilesInv()
      reads `files, disk, files
    {
      && (forall i :: 0 <= i < |files| ==> files[i].disk == disk && files[i].Valid())
      && (forall i, k :: 0 <= i < k < |files| ==> files[i].jid != files[k].jid)
      && (forall j <- disk.files :: Terminated(disk.files[j]))
    }

    ghost predicate HandleOk(h: Handle)
      reads `issued, `answers, h
    {
      && h.edb == this
      && (h.busy <==> h.listeningFor != -1)
      && match h.asked
         case None => !h.busy && h.result == None
         case Some(r) =>
           && r.id < |issued| && issued[r.id] == r
           && if h.busy then |answers| <= r.id == h.listeningFor
              else r.id < |answers| && match answers[r.id]
                   case Items(items) => h.result == Some(items)
                   case Finished(success) => h.writeSuccess == success
    }

    ghost predicate HandlesInv()
      reads `issued, `answers, `handles, handles
    {
      && (forall i :: 0 <= i < |handles| ==> HandleOk(handles[i]))
      && (forall i, k :: 0 <= i < k < |handles| ==> handles[i] != handles[k])
      && (forall i, k :: 0 <= i < k < |handles| && handles[i].busy ==>
        handles[i].listeningFor != handles[k].listeningFor)
    }

    /** The answers are those of a run on plain lists, and the files show its result. */
    ghost predicate HistoryInv()
      reads `start, `issued, `answers, disk
    {
      && |answers| <= |issued|
      && answers == Run(start, issued[..|answers|]).1
      && Shows(disk.files, Run(start, issued[..|answers|]).0)
    }

    ghost predicate Inv()
      reads this, disk, files, handles
    {
      QueueInv() && FilesInv() && HandlesInv() && HistoryInv()
    }

    ghost function Now(j: Jid): History
      reads disk
    {
      InFile(disk.files, j)
    }

    /** What the files show, as lists of events. */
    ghost function Shown(): (hs: Histories)
      reads disk
      ensures forall j: Jid :: Of(hs, j) == Now(j)
    {
      map j | j in disk.files :: Entries(disk.files[j])
    }

    constructor (disk: Disk)
      requires forall j <- disk.files :: Terminated(disk.files[j])
      ensures Inv() && this.disk == disk && files == [] && handles == [] && requests == [] && issued == []
      ensures forall j: Jid :: Now(j) == Of(start, j)
    {
      this.disk := disk;
      files, requests, reqidBase, handles := [], [], 0, [];
      start := map j | j in disk.files :: Entries(disk.files[j]);
      issued, answers := [], [];
    }

    /** A destroyed handle is forgotten; what it asked for stays in the queue. */
    method Unreg(h: Handle)
      requires Inv() && h in handles
      modifies `handles
      ensures Inv() && h !in handles
      ensures forall g <- old(handles) | g != h :: g in handles
      ensures forall i :: 0 <= i < |handles| ==> handles[i] in old(handles)
    {
      hide FilesInv, QueueInv, HistoryInv, HandleOk;
      var i :| 0 <= i < |handles| && handles[i] == h;
      handles := handles[..i] + handles[i + 1..];
    }

    method Enqueue(j: Jid, op: Op) returns (id: nat)
      requires QueueInv() && (op.Write? ==> Copyable(op.event))
      modifies `requests, `reqidBase, `issued
      ensures QueueInv() && id == |old(issued)|
      ensures issued == old(issued) + [Request(j, op, id)] && requests == old(requests) + [Request(j, op, id)]
    {
      id := reqidBase;
      reqidBase := reqidBase + 1;
      requests := requests + [Request(j, op, id)];
      issued := issued + [Request(j, op, id)];
    }

    /** A file that was not used for a while is closed. */
    method FileTimeout(f: File)
      requires Inv() && f in files
      modifies `files
      ensures Inv() && f !in files && forall g <- old(files) | g != f :: g in files
    {
      hide QueueInv, HandlesInv, HistoryInv, File.Valid, Terminated;
      var i :| 0 <= i < |files| && files[i] == f;
      files := files[..i] + files[i + 1..];
    }

    method EnsureFile(j: Jid) returns (f: File)
      requires FilesInv()
      modifies `files, disk
      ensures FilesInv() && f in files && f.jid == j
      ensures forall i: Jid {:trigger Now(i)} :: Now(i) == old(Now(i))
      ensures forall i :: 0 <= i < |files| ==> files[i] in old(files) || fresh(files[i])
    {
      var i := 0;
      while i < |files|
        invariant i <= |files| && forall k :: 0 <= k < i ==> files[k].jid != j
      {
        if files[i].jid == j {
          return files[i];
        }
        i := i + 1;
      }
      f := new File(disk, j);
      files := files + [f];
    }

    /** The page loop: it reads past the end of the index just when the request is one that does. */
    method ReadPage(f: File, id0: int, dir: Direction, len: int) returns (defined: bool, items: seq<Item>)
      requires f.Valid()
      modifies f`index, f`indexed
      ensures f.Valid()
      ensures defined ==> items == Page(Entries(f.Content()), id0, dir, len)
      ensures var total := |Entries(f.Content())|;
              !defined <==> len > 0 && if dir == Forward then id0 <= total < id0 + len else id0 - len < total <= id0
    {
      hide Entries, Starts, Page;
      var id := id0;
      items := [];
      ghost var h := Entries(f.Content());
      var n := 0;
      while n < len
        invariant 0 <= n && (n <= len || n == 0)
        invariant f.Valid() && Entries(f.Content()) == h
        invariant id == if dir == Forward then id0 + n else id0 - n
        invariant if dir == Forward then !(id0 <= |h| < id) else !(id < |h| <= id0)
        invariant items + Page(h, id, dir, len - n) == Page(h, id0, dir, len)
      {
        PageNext(items, h, id, dir, len - n);
        var e := f.Get(id);
        if e.PastEnd? {
          return false, [];
        }
        if e.event.Some? {
          var total := f.Total();
          items := items + [Item(e.event.value, id, if id > 0 then Some(id - 1) else None,
                                 if id < total - 1 then Some(id + 1) else None)];
        }
        id := Next(id, dir);
        n := n + 1;
      }
      PageOver(h, id, dir, len - n);
      return true, items;
    }

    method FindIn(f: File, str: string, id0: int, dir: Direction) returns (defined: bool, items: seq<Item>)
      requires f.Valid()
      modifies f`index, f`indexed
      ensures f.Valid()
      ensures var h := Entries(f.Content());
              var hit := Scan(h, id0, dir, str);
              && (!defined <==> hit.PastTheEnd?)
              && (defined ==> items == if hit.HitAt? then [ItemAt(h, hit.id)] else [])
    {
      hide Entries, Starts, Matches, LineToEvent, Terminated;
      var id := id0;
      ghost var h := Entries(f.Content());
      while true
        invariant f.Valid() && Entries(f.Content()) == h
        invariant Scan(h, id, dir, str) == Scan(h, id0, dir, str)
        decreases if id < 0 || id > |h| then 0 else if dir == Forward then |h| - id + 1 else id + 1
      {
        var e := f.Get(id);
        if e.PastEnd? {
          return false, [];
        }
        if e.event.None? {
          return true, [];
        }
        var total := f.Total();
        if Matches(e.event.value, str) {
          return true, [Item(e.event.value, id, if id > 0 then Some(id - 1) else None,
                             if id < total - 1 then Some(id + 1) else None)];
        }
        id := Next(id, dir);
      }
    }

    method DeleteFile(j: Jid) returns (ok: bool)
      requires FilesInv()
      modifies `files, disk
      ensures FilesInv() && ok
      ensures forall i: Jid :: Now(i) == if i == j then [] else old(Now(i))
      ensures forall i :: 0 <= i < |files| ==> files[i] in old(files)
    {
      var i := 0;
      while i < |files|
        invariant i <= |files| && forall k :: 0 <= k < i ==> files[k].jid != j
      {
        if files[i].jid == j {
          files := files[..i] + files[i + 1..];
          break;
        }
        i := i + 1;
      }
      disk.files := disk.files - {j};
      ok := true;
    }

    /** The answer goes to the first handle that listens for the request, if there still is one. */
    method HandOver(req: nat, answer: Answer)
      requires NoDup(handles)
      modifies handles
      ensures forall i :: 0 <= i < |handles| ==>
        if old(First(i, req)) then Answered(handles[i], answer) else Untouched(handles[i])
    {
      var i := Listener(req);
      if i < |handles| {
        match answer
        case Items(items) => handles[i].ResultReady(items);
        case Finished(success) => handles[i].WriteFinished(success);
      }
    }

    ghost predicate First(i: nat, req: nat)
      requires i < |handles|
      reads `handles, handles
    {
      handles[i].listeningFor == req && forall k :: 0 <= k < i ==> handles[k].listeningFor != req
    }

    method Deliver(req: nat, answer: Answer)
      requires HandlesInv() && req == |answers| < |issued|
      modifies handles, `answers
      ensures HandlesInv() && answers == old(answers) + [answer]
      ensures forall h <- handles :: Served(h, req, answer)
    {
      HandOver(req, answer);
      answers := answers + [answer];
    }

    /** The first handle that listens for the request, or else the number of handles. */
    method Listener(req: nat) returns (i: nat)
      ensures i <= |handles| && (i < |handles| ==> handles[i].listeningFor == req)
      ensures forall k :: 0 <= k < i ==> handles[k].listeningFor != req
    {
      i := 0;
      while i < |handles| && handles[i].listeningFor != req
        invariant i <= |handles| && forall k :: 0 <= k < i ==> handles[k].listeningFor != req
      {
        i := i + 1;
      }
    }

    twostate predicate Answered(h: Handle, answer: Answer)
      reads h
    {
      && !h.busy && h.listeningFor == -1 && h.lastRequestType == old(h.lastRequestType) && h.asked == old(h.asked)
      && match answer
         case Items(items) => h.result == Some(items) && h.writeSuccess == old(h.writeSuccess)
         case Finished(success) => h.writeSuccess == success && h.result == old(h.result)
    }

    twostate predicate Untouched(h: Handle)
      reads h
    {
      && h.busy == old(h.busy) && h.listeningFor == old(h.listeningFor) && h.result == old(h.result)
      && h.writeSuccess == old(h.writeSuccess) && h.lastRequestType == old(h.lastRequestType) && h.asked == old(h.asked)
    }

    /** What serving a request does to a handle. */
    twostate predicate Served(h: Handle, req: nat, answer: Answer)
      reads h
    {
      if old(h.listeningFor) == req then Answered(h, answer) else Untouched(h)
    }

    /** Serves one request on the file of its contact. */
    method Serve(f: File, r: Request) returns (defined: bool, answer: Answer)
      requires FilesInv() && f in files && f.jid == r.jid
      modifies `files, disk, f
      ensures !defined <==> ReadsPast(old(Now(r.jid)), r.op)
      ensures defined ==> FilesInv() && answer == Reply(old(Now(r.jid)), r.op)
      ensures defined ==> Answers(answer, old(Now(r.jid)), r.op)
      ensures defined ==> forall j: Jid :: Now(j) == if j == r.jid then After(old(Now(j)), r.op) else old(Now(j))
      ensures forall i :: 0 <= i < |files| ==> files[i] in old(files)
    {
      ReplyMeaning(Now(r.jid), r.op);
      hide Entries, Terminated, Starts, LineToEvent, EventToLine, Stored, Answers;
      answer := Finished(false);
      match r.op {
        case Latest(len) =>
          var total := f.Total();
          var items;
          defined, items := ReadPage(f, total - 1, Backward, if total - len < 0 then total else len);
          answer := Items(items);
        case Oldest(len) =>
          var total := f.Total();
          var items;
          defined, items := ReadPage(f, 0, Forward, if len > total then total else len);
          answer := Items(items);
        case From(id, dir, len) =>
          var total := f.Total();
          var items;
          defined, items := ReadPage(f, id, dir, if dir == Forward then if id + len > total then total - id else len
                                                 else if id + 1 - len < 0 then id + 1 else len);
          answer := Items(items);
        case Search(str, id, dir) =>
          var items;
          defined, items := FindIn(f, str, id, dir);
          answer := Items(items);
        case Write(e) =>
          var ok := Log(f, e);
          answer := Finished(ok);
          defined := true;
        case Delete =>
          var ok := DeleteFile(r.jid);
          answer := Finished(ok);
          defined := true;
      }
    }

    static lemma LineTerminated(s: string)
      ensures Terminated(s + "\n")
    {
    }

    method Log(f: File, e: Event) returns (ok: bool)
      requires FilesInv() && f in files
      modifies f, disk
      ensures FilesInv() && ok == Loggable(e)
      ensures forall j: Jid :: Now(j) == if j == f.jid then After(old(Now(j)), Write(e)) else old(Now(j))
    {
      hide Entries, Starts, Terminated, LineToEvent, EventToLine, Stored, Loggable, Chop;
      ghost var content := f.Content();
      ok := f.Append(e);
      if ok {
        LineIsOneLine(e);
        StoredRead(e);
        EntriesExtended(content, EventToLine(e));
        LineTerminated(content + EventToLine(e));
      }
    }

    static lemma QueueStep(reqidBase: nat, issued: seq<Request>, answers: seq<Answer>, requests: seq<Request>)
      requires Queued(reqidBase, issued, answers, requests) && requests != []
      ensures |answers| < |issued| && requests[0] == issued[|answers|] && requests[0].id == |answers|
      ensures forall a: Answer :: Queued(reqidBase, issued, answers + [a], requests[1..])
    {
    }

    lemma ShownAfter(hs: Histories, r: Request, before: map<Jid, string>)
      requires Shows(before, hs)
      requires forall j: Jid :: Now(j) == if j == r.jid then After(InFile(before, j), r.op) else InFile(before, j)
      ensures Shows(disk.files, Effect(hs, r))
    {
      EffectShown(hs, r);
      hide After, Of, Effect;
      forall j: Jid
        ensures InFile(disk.files, j) == Of(Effect(hs, r), j)
      {
        assert Now(j) == InFile(disk.files, j);
        assert InFile(before, j) == Of(hs, j);
      }
    }

    lemma InvAgain(hs: Histories)
      requires Queued(reqidBase, issued, answers, requests) && FilesInv() && HandlesInv()
      requires |answers| <= |issued| && Run(start, issued[..|answers|]) == (hs, answers) && Shows(disk.files, hs)
      ensures Inv()
    {
    }

    /** The first request has been served as it would be on plain lists of events. */
    twostate predicate Performed()
      requires |old(requests)| > 0
      reads this, disk, handles
    {
      var r := old(requests)[0];
      var answer := Reply(old(Now(r.jid)), r.op);
      && requests == old(requests)[1..] && answers == old(answers) + [answer]
      && (forall j: Jid :: Now(j) == if j == r.jid then After(old(Now(j)), r.op) else old(Now(j)))
      && handles == old(handles)
      && forall h <- old(handles) :: Served(h, r.id, answer)
    }

    ghost predicate FirstOk()
      reads this, disk
    {
      && requests != [] && |answers| < |issued| && requests[0].id == |answers|
      && (forall a: Answer :: Queued(reqidBase, issued, answers + [a], requests[1..]))
      && var hs := Run(start, issued[..|answers|]).0;
      && Shows(disk.files, hs) && Now(requests[0].jid) == Of(hs, requests[0].jid)
      && Run(start, issued[..|answers| + 1])
         == (Effect(hs, requests[0]), answers + [Reply(Of(hs, requests[0].jid), requests[0].op)])
    }

    lemma FirstRequest()
      requires Inv() && requests != []
      ensures FirstOk() && FilesInv() && HandlesInv()
    {
      QueueStep(reqidBase, issued, answers, requests);
      RunNext(start, issued, |answers|);
      hide Run, Effect, Reply;
    }

    method PerformFirst() returns (defined: bool)
      requires FirstOk() && FilesInv() && HandlesInv()
      modifies this, disk, files, handles
      ensures start == old(start) && issued == old(issued)
      ensures defined ==> Inv() && Performed()
      ensures forall i :: 0 <= i < |files| ==> files[i] in old(files) || fresh(files[i])
      ensures !defined <==> ReadsPast(old(Now(requests[0].jid)), old(requests[0].op))
    {
      hide Run, Reply, After, Of, Effect, InFile, ReadsPast, Shows, Now;
      hide QueueInv, FilesInv, HandlesInv, HistoryInv, Inv, Queued;
      var r := requests[0];
      ghost var hs, before := Run(start, issued[..|answers|]).0, disk.files;
      NowIs();
      requests := requests[1..];
      var f := EnsureFile(r.jid);
      var answer;
      defined, answer := Serve(f, r);
      if defined {
        ShownAfter(hs, r, before);
        label Before:
        assert handles == old(handles) && forall h <- handles :: unchanged(h);
        Deliver(r.id, answer);
        InvAgain(Effect(hs, r));
        forall h | h in old(handles)
          ensures Served(h, r.id, answer)
        {
          assert Served@Before(h, r.id, answer);
          assert old@Before(h.listeningFor) == old(h.listeningFor);
        }
      }
    }

    lemma NowIs()
      ensures forall j: Jid :: Now(j) == InFile(disk.files, j)
    {
    }

    /** Serves the first request of the queue, unless that looks past the end of the index: what
        happens then is not defined. */
    method PerformRequests() returns (defined: bool)
      requires Inv()
      modifies this, disk, files, handles
      ensures start == old(start) && issued == old(issued)
      ensures defined ==> Inv()
      ensures forall i :: 0 <= i < |files| ==> files[i] in old(files) || fresh(files[i])
      ensures old(requests) == [] ==> defined && requests == [] && answers == old(answers)
      ensures |old(requests)| > 0 ==> (!defined <==> ReadsPast(old(Now(requests[0].jid)), old(requests[0].op)))
      ensures |old(requests)| > 0 && defined ==> Performed()
      ensures |old(requests)| > 0 && defined ==>
        |answers| == |old(answers)| + 1
        && Answers(answers[|old(answers)|], old(Now(requests[0].jid)), old(requests[0].op))
    {
      if requests == [] {
        return true;
      }
      FirstRequest();
      hide *;
      defined := PerformFirst();
      if defined {
        PerformedAnswer();
      }
    }

    twostate lemma PerformedAnswer()
      requires |old(requests)| > 0 && Performed()
      ensures |answers| == |old(answers)| + 1
      ensures Answers(answers[|old(answers)|], old(Now(requests[0].jid)), old(requests[0].op))
    {
      ReplyMeaning(old(Now(requests[0].jid)), old(requests[0].op));
      hide Answers, Reply, After, Now, Served;
    }

    /** The queue holds the numbers from that of the next answer on. */
    lemma QueueNumbers()
      requires QueueInv()
      ensures forall i :: 0 <= i < |requests| ==> requests[i].id == |answers| + i
      ensures |issued| == |answers| + |requests|
    {
    }

    /** Every answer so far is what the earlier requests, served one at a time on plain lists, lead to;
        and the files hold the lists that all of them lead to. */
    lemma RefinesLists()
      requires Inv()
      ensures forall k :: 0 <= k < |answers| ==>
        var h := Of(Run(start, issued[..k]).0, issued[k].jid);
        answers[k] == Reply(h, issued[k].op) && Answers(answers[k], h, issued[k].op)
      ensures forall j: Jid :: Now(j) == Of(Run(start, issued[..|answers|]).0, j)
    {
      hide Answers, Reply;
      forall k | 0 <= k < |answers|
        ensures var h := Of(Run(start, issued[..k]).0, issued[k].jid);
                answers[k] == Reply(h, issued[k].op) && Answers(answers[k], h, issued[k].op)
      {
        ReplyMeaning(Of(Run(start, issued[..k]).0, issued[k].jid), issued[k].op);
        RunPrefix(start, issued[..|answers|], k);
        assert issued[..|answers|][..k] == issued[..k];
      }
    }

    /** A handle is busy exactly while the request it listens for is in the queue: the last one it made,
        and no two handles listen for the same one. After that it holds the answer to it. */
    lemma BusyWhileQueued(h: Handle)
      requires Inv() && h in handles
      ensures h.busy <==> exists r <- requests :: r.id == h.listeningFor
      ensures h.busy ==> h.asked.Some? && h.asked.value in requests && h.asked.value.id == h.listeningFor
      ensures h.busy ==> forall g <- handles | g != h :: g.listeningFor != h.listeningFor
      ensures !h.busy && h.asked.Some? ==> h.asked.value.id < |answers| && issued[h.asked.value.id] == h.asked.value
      ensures !h.busy && h.asked.Some? ==> match answers[h.asked.value.id]
                                           case Items(items) => h.result == Some(items)
                                           case Finished(success) => h.writeSuccess == success
    {
      var n := |answers|;
      if h.busy {
        assert requests[h.listeningFor - n] == issued[h.listeningFor];
      }
      forall r <- requests
        ensures r.id != -1
      {
      }
    }
  }

  /** A handle whose append was not queued, and that listens for 0, stays busy through all deliveries but
      the one of request 0. */
  method BusyForGood(edb: Store, h: Handle, next: nat, answers: seq<Answer>)
    requires NoDup(edb.handles) && h in edb.handles && h.busy && h.listeningFor == 0 && next > 0
    modifies edb.handles
    ensures h.busy && h.listeningFor == 0
  {
    for i := 0 to |answers|
      invariant h.busy && h.listeningFor == 0
    {
      edb.HandOver(next + i, answers[i]);
    }
  }

  /** If request 0 still waits for its answer, the handle may take that, and the one that asked is busy
      for good instead: the numbers only rise. */
  method ForeignAnswer(j: Jid) returns (edb: Store, first: Handle, second: Handle)
    ensures edb.handles == [first, second] && edb.issued == [Request(j, Oldest(1), 0)] && edb.requests == []
    ensures !first.busy && first.result == Some([])
    ensures second.busy && second.listeningFor == 0 && second.asked == Some(Request(j, Oldest(1), 0))
  {
    assert Reply([], Oldest(1)) == Items([]) && !ReadsPast([], Oldest(1));
    hide Store.FilesInv, Entries, Of, Reply, ReadsPast, Store.Now;
    edb, first, second := BothListen(j);
    NothingYet(edb, j);
    var r := edb.requests[0];
    edb.requests := edb.requests[1..];
    var f := edb.EnsureFile(r.jid);
    var defined, answer := edb.Serve(f, r);
    edb.HandOver(r.id, answer);
    assert edb.handles[0] == first && edb.handles[1] == second;
  }

  lemma NothingYet(edb: Store, j: Jid)
    requires edb.files == [] && edb.disk.files == map[]
    ensures edb.FilesInv() && edb.Now(j) == []
  {
  }

  method TwoHandles() returns (edb: Store, first: Handle, second: Handle)
    ensures fresh(edb) && fresh(edb.disk) && fresh(first) && fresh(second) && first != second
    ensures edb.Inv() && edb.handles == [first, second] && edb.issued == edb.requests == []
    ensures edb.files == [] && edb.disk.files == map[] && first.edb == second.edb == edb
  {
    hide *;
    var disk := new Disk();
    edb := new Store(disk);
    first := new Handle(edb);
    second := new Handle(edb);
  }

  method BothListen(j: Jid) returns (edb: Store, first: Handle, second: Handle)
    ensures fresh(edb) && fresh(edb.disk) && fresh(first) && fresh(second) && first != second
    ensures edb.handles == [first, second] && edb.files == [] && edb.disk.files == map[]
    ensures edb.issued == [Request(j, Oldest(1), 0)] && edb.requests == edb.issued
    ensures first.busy && first.listeningFor == 0
    ensures second.busy && second.listeningFor == 0 && second.asked == Some(Request(j, Oldest(1), 0))
  {
    assert !Copyable(OtherEvent(false));
    hide Store.Inv, Copyable;
    edb, first, second := TwoHandles();
    second.GetOldest(j, 1);
    first.Append(j, OtherEvent(false));
  }
}
