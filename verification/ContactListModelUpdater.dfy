/** The queue between the contacts' signals and the model: operations pile up per contact and are
    applied together when the timer fires. */
module ContactListModelUpdater {
  import opened GroupNames
  import opened ContactTree
  import opened ContactTreeLaws
  import opened GroupRequests
  import opened Lists

  /** The bits of a queue entry. A removal is never queued. */
  datatype Operation = Add | Update | GroupsChange

  /** In seconds, compared with whole seconds. */
  const MAX_COMMIT_DELAY := 30

  /** The debounce timer, in milliseconds. */
  const COMMIT_INTERVAL := 100

  const MAX_WAIT := (MAX_COMMIT_DELAY + 1) * 1000 + COMMIT_INTERVAL

  /** An added contact is read afresh, so whatever else happened to it does not matter. */
  function Simplified(operations: set<Operation>): set<Operation> {
    if Add in operations then {Add} else operations
  }

  class Updater {
    const model: ContactListModel
    var updatesEnabled: bool
    var monitored: set<Contact>
    var queue: map<Contact, set<Operation>>
    /** When the oldest operation since the last commit was queued; milliseconds. */
    var startTime: Option<int>
    /** When the commit timer fires, if it is running. */
    var deadline: Option<int>
    /** When each queued contact's first operation was queued. */
    ghost var since: map<Contact, int>
    /** What each contact says its groups are. */
    var groupsOf: Contact -> seq<string>

    constructor (delim: Delimiter, groupsOf: Contact -> seq<string>)
      ensures Valid() && Fresh() && Converging() && fresh(model) && fresh(model.cache) && fresh(model.tree.Values)
      ensures model.delim == delim && model.online == model.dirty == {} && forall now :: Timely(now)
      ensures startTime == None && updatesEnabled && monitored == {} && queue == map[] && this.groupsOf == groupsOf
    {
      model := new ContactListModel(delim);
      updatesEnabled := true;
      monitored, queue := {}, map[];
      startTime, deadline, since := None, None, map[];
      this.groupsOf := groupsOf;
    }

    /** The contact sits at exactly the groups it names. */
    ghost predicate Placed(x: Contact)
      reads this`groupsOf, model`tree, model.tree.Values`contacts
    {
      forall p :: model.At(p, x) <==> model.Requests(groupsOf(x), p)
    }

    /** The contact is nowhere in the tree. */
    ghost predicate Absent(x: Contact)
      reads model`tree, model.tree.Values`contacts
    {
      forall p :: !model.At(p, x)
    }

    /** Exactly when a commit will put the contact in its place: a queued addition must not find the
        contact in a group it no longer names, and without a queued change it must be in place. */
    ghost predicate Converges(x: Contact)
      reads this`groupsOf, this`queue, model`tree, model.tree.Values`contacts
    {
      var operations := if x in queue then queue[x] else {};
      if Add in operations then forall p :: model.At(p, x) ==> model.Requests(groupsOf(x), p)
      else GroupsChange in operations || Placed(x)
    }

    ghost predicate Converging()
      reads this`groupsOf, this`queue, this`monitored, model`tree, model.tree.Values`contacts
    {
      forall x <- monitored :: Converges(x)
    }

    /** A contact that is still to be added is not in the tree yet. */
    ghost predicate Unadded()
      reads this`queue, model`tree, model.tree.Values`contacts
    {
      forall x <- queue :: Add in queue[x] ==> Absent(x)
    }

    /** A watched contact that has come or gone has an operation queued that is to tell the model. */
    ghost predicate Heard()
      reads this`queue, this`monitored, model`dirty
    {
      forall x <- model.dirty :: x in monitored ==> x in queue && (Update in queue[x] || Add in queue[x])
    }

    /** That operation is no addition of a contact in the tree: its groups would take no notice. */
    ghost predicate Telling()
      reads this`queue, model`tree, model`dirty, model.tree.Values`contacts
    {
      forall x <- queue :: Add in queue[x] && x in model.dirty ==> Absent(x)
    }

    /** The usual state of things, which only a rebuild can end. */
    ghost predicate Fresh()
      reads this`queue, this`monitored, model`tree, model`dirty, model.tree.Values`contacts
    {
      Unadded() && Heard()
    }

    /** Just additions are queued, of contacts that are in all the groups they name. */
    ghost predicate Idle()
      reads this`queue, this`groupsOf, model`tree, model.tree.Values`contacts
    {
      forall x <- queue :: Add in queue[x] && forall p :: model.Requests(groupsOf(x), p) ==> model.At(p, x)
    }

    ghost predicate Valid()
      reads this`queue, this`monitored, model, model.cache, model.tree.Values
    {
      && model.Inv() && model.Tidy()
      && queue.Keys <= monitored
      && (forall x :: x !in monitored ==> Absent(x))
    }

    ghost predicate ClockOk(now: int)
      reads this`startTime
    {
      startTime.Some? ==> startTime.value <= now
    }

    /** The clock does not run backwards, and while updates are enabled the timer fires on time. */
    ghost predicate Timely(now: int)
      reads this`queue, this`since, this`startTime, this`deadline
    {
      && since.Keys == queue.Keys
      && (queue != map[] ==> startTime.Some? && deadline.Some? && now <= deadline.value < startTime.value + MAX_WAIT)
      && (forall x <- since :: startTime.Some? && startTime.value <= since[x] <= now)
    }

    /** What one contact's queue entry does to its places. */
    ghost predicate Outcome(operations: set<Operation>, groups: seq<string>, before: bool, p: Path)
    {
      if Add in operations then before || model.Requests(groups, p)
      else if GroupsChange in operations then model.Requests(groups, p)
      else before
    }

    /** One contact's queue entry starts the timers of its groups, or finds it in none. */
    ghost predicate Tells(operations: set<Operation>, absent: bool) {
      if Add in operations then absent else Update in operations
    }

    /** Applies one queue entry. */
    method Apply(x: Contact, operations: set<Operation>)
      requires model.Inv() && model.Tidy()
      modifies model.tree.Values, model.cache
      modifies model`tree, model`view, model`signal, model`doResetAfterBulkUpdate, model`dirty, model`calls
      ensures model.Inv() && model.Tidy() && fresh(model.tree.Values - old(model.tree.Values))
      ensures forall p, y :: model.At(p, y) <==>
        if y == x then Outcome(operations, groupsOf(x), old(model.At(p, x)), p) else old(model.At(p, y))
      ensures model.dirty == old(model.dirty) - if Tells(operations, old(Absent(x))) then {x} else {}
      ensures Add in operations && (forall p :: model.Requests(groupsOf(x), p) ==> old(model.At(p, x))) ==>
        model.Marks() == old(model.Marks())
    {
      hide ContactListModel.Inv, ContactListModel.Tidy, ContactListModel.At, ContactListModel.Requests,
        ContactListModel.Ticking, ContactListModel.Marks;
      var ops := Simplified(operations);
      if Add in ops {
        model.AddContact(x, groupsOf(x));
        if old(Absent(x)) {
          model.Settled(x);
        }
      }
      if Update in ops {
        model.ContactUpdated(x);
      }
      if GroupsChange in ops {
        model.ContactGroupsChanged(x, groupsOf(x));
      }
    }

    /** Applies the whole queue, in whatever order the hash gives. */
    method Commit()
      requires Valid()
      modifies model.tree.Values, model.cache, this`queue, this`since, this`startTime, this`deadline
      modifies model`tree, model`view, model`signal, model`doResetAfterBulkUpdate, model`dirty, model`calls
      modifies model`bulkUpdateCount, model`emitDeltaSignals
      ensures Valid() && fresh(model.tree.Values - old(model.tree.Values))
      ensures model.bulkUpdateCount == old(model.bulkUpdateCount)
      ensures !updatesEnabled ==> unchanged(this) && unchanged(model) && unchanged(model.tree.Values)
      ensures updatesEnabled ==> queue == map[] && since == map[] && startTime == None && deadline == None
      ensures updatesEnabled ==> forall x <- monitored :: Placed(x) <==> old(Converges(x))
      ensures updatesEnabled ==> forall now :: Timely(now)
      ensures old(Fresh()) ==> Fresh()
      ensures old(Heard()) && updatesEnabled ==> (Heard() <==> old(Telling()))
      ensures old(Idle()) ==> model.Marks() == old(model.Marks())
      ensures old(Converging()) ==> Converging()
    {
      hide *;
      ValidModel();
      if updatesEnabled {
        startTime, deadline := None, None;
        assert Idle() == old(Idle());
        if queue != map[] {
          Flush();
          queue := map[];
        }
        since := map[];
        Committed();
        NothingWaitsEver();
      }
    }

    method Flush()
      requires model.Inv() && model.Tidy()
      modifies model.tree.Values, model.cache
      modifies model`tree, model`view, model`signal, model`doResetAfterBulkUpdate, model`dirty, model`calls
      modifies model`bulkUpdateCount, model`emitDeltaSignals
      ensures model.Inv() && model.Tidy() && fresh(model.tree.Values - old(model.tree.Values))
      ensures model.bulkUpdateCount == old(model.bulkUpdateCount)
      ensures forall p, x :: model.At(p, x) <==>
        if x in queue then Outcome(queue[x], groupsOf(x), old(model.At(p, x)), p) else old(model.At(p, x))
      ensures forall x :: x in model.dirty <==>
        x in old(model.dirty) && !(x in queue && Tells(queue[x], old(Absent(x))))
      ensures old(Idle()) ==> model.Marks() == old(model.Marks())
    {
      hide *;
      var doBulkUpdate := |queue| > 1;
      if doBulkUpdate {
        model.BeginBulkUpdate();
      }
      ApplyAll();
      if doBulkUpdate {
        model.EndBulkUpdate();
      }
    }

    lemma ValidModel()
      requires Valid()
      ensures model.Inv() && model.Tidy()
    {
    }

    /** A commit has applied every queue entry and nothing else. */
    twostate lemma Committed()
      requires old(Valid()) && model.Inv() && model.Tidy() && queue == map[]
      requires monitored == old(monitored) && groupsOf == old(groupsOf)
      requires forall p, x :: model.At(p, x) <==>
        if x in old(queue) then Outcome(old(queue)[x], groupsOf(x), old(model.At(p, x)), p) else old(model.At(p, x))
      requires forall x :: x in model.dirty <==>
        x in old(model.dirty) && !(x in old(queue) && Tells(old(queue)[x], old(Absent(x))))
      ensures Valid() && (old(Fresh()) ==> Fresh())
      ensures old(Heard()) ==> (Heard() <==> old(Telling()))
      ensures forall x <- monitored :: Placed(x) <==> old(Converges(x))
      ensures old(Converging()) ==> Converging()
    {
      hide ContactListModel.Inv, ContactListModel.Tidy, ContactListModel.At, ContactListModel.Requests;
    }

    method ApplyAll()
      requires model.Inv() && model.Tidy()
      modifies model.tree.Values, model.cache
      modifies model`tree, model`view, model`signal, model`doResetAfterBulkUpdate, model`dirty, model`calls
      ensures model.Inv() && model.Tidy() && fresh(model.tree.Values - old(model.tree.Values))
      ensures forall p, x :: model.At(p, x) <==>
        if x in queue then Outcome(queue[x], groupsOf(x), old(model.At(p, x)), p) else old(model.At(p, x))
      ensures forall x :: x in model.dirty <==>
        x in old(model.dirty) && !(x in queue && Tells(queue[x], old(Absent(x))))
      ensures old(Idle()) ==> model.Marks() == old(model.Marks())
    {
      hide ContactListModel.Inv, ContactListModel.Tidy, ContactListModel.At, ContactListModel.Requests, Outcome;
      var left := queue;
      while left != map[]
        invariant model.Inv() && model.Tidy() && fresh(model.tree.Values - old(model.tree.Values))
        invariant left.Keys <= queue.Keys && forall x <- left :: left[x] == queue[x]
        invariant forall p, x :: model.At(p, x) <==>
          if x in queue && x !in left then Outcome(queue[x], groupsOf(x), old(model.At(p, x)), p)
            else old(model.At(p, x))
        invariant forall x :: x in model.dirty <==>
          x in old(model.dirty) && !(x in queue && x !in left && Tells(queue[x], old(Absent(x))))
        invariant old(Idle()) ==> model.Marks() == old(model.Marks())
        decreases |left|
      {
        var x :| x in left;
        Apply(x, left[x]);
        left := left - {x};
      }
    }

    // ---- the slots; each is followed by the second half of `addOperation` ----

    /** The first half of `addOperation`. */
    method Enqueue(x: Contact, operation: Operation, now: int)
      modifies this`queue, this`since, this`startTime
      ensures queue == old(queue)[x := (if x in old(queue) then old(queue)[x] else {}) + {operation}]
      ensures since == if x in old(since) then old(since) else old(since)[x := now]
      ensures startTime == if old(startTime) == None then Some(now) else old(startTime)
    {
      if x !in queue {
        assert {} + {operation} == {operation};
        queue := queue[x := {operation}];
      } else {
        queue := queue[x := queue[x] + {operation}];
      }
      since := if x in since then since else since[x := now];
      if startTime == None {
        startTime := Some(now);
      }
    }

    /** The second half: commit at once if the oldest operation has waited too long, else wait for more. */
    method CommitWhenDue(now: int)
      requires Valid() && startTime.Some? && startTime.value <= now
      modifies model.tree.Values, model.cache, this`queue, this`since, this`startTime, this`deadline
      modifies model`tree, model`view, model`signal, model`doResetAfterBulkUpdate, model`dirty, model`calls
      modifies model`bulkUpdateCount, model`emitDeltaSignals
      ensures Valid() && fresh(model.tree.Values - old(model.tree.Values))
      ensures old(Fresh()) ==> Fresh()
      ensures old(Heard()) ==> (Heard() <==> (old(Late(now)) && updatesEnabled ==> old(Telling())))
      ensures old(Converging()) ==> Converging()
      ensures ClockOk(now) && (updatesEnabled && old(Waiting(now)) ==> Timely(now))
      ensures !old(Late(now)) ==>
        queue == old(queue) && startTime == old(startTime) && unchanged(model) && unchanged(model.tree.Values)
      ensures old(Late(now)) <==> old(startTime).value + 31000 <= now
      ensures now < old(startTime).value + 31000 ==> deadline == Some(now + 100)
      ensures old(startTime).value + 31000 <= now && updatesEnabled ==>
        queue == map[] && startTime == None && deadline == None
      ensures old(startTime).value + 31000 <= now && updatesEnabled ==>
        forall x <- monitored :: Placed(x) <==> old(Converges(x))
    {
      hide *;
      LateMeans(now);
      if (now - startTime.value) / 1000 > MAX_COMMIT_DELAY {
        Commit();
        NothingWaits(now);
      } else {
        deadline := Some(now + COMMIT_INTERVAL);
        StillTimely(now);
      }
    }

    /** The next operation to be queued at `now` would trigger a commit. */
    ghost predicate Late(now: int)
      reads this`startTime
    {
      startTime.Some? && (now - startTime.value) / 1000 > MAX_COMMIT_DELAY
    }

    lemma LateMeans(now: int)
      requires startTime.Some?
      ensures Late(now) <==> (now - startTime.value) / 1000 > MAX_COMMIT_DELAY
      ensures Late(now) <==> startTime.value + 31000 <= now
      ensures startTime.value <= now ==> ClockOk(now)
    {
    }

    /** What `Enqueue` leaves: every operation came after the start time. */
    ghost predicate Waiting(now: int)
      reads this`queue, this`since, this`startTime
    {
      && since.Keys == queue.Keys && startTime.Some?
      && (forall x <- since :: startTime.value <= since[x] <= now)
    }

    lemma NothingWaits(now: int)
      ensures queue == map[] && since == map[] ==> Timely(now)
      ensures startTime == None ==> ClockOk(now)
    {
    }

    lemma NothingWaitsEver()
      requires queue == map[] && since == map[]
      ensures forall now :: Timely(now)
    {
    }

    lemma StillTimely(now: int)
      requires startTime.Some? && deadline == Some(now + COMMIT_INTERVAL)
        && (now - startTime.value) / 1000 <= MAX_COMMIT_DELAY
      ensures Waiting(now) ==> Timely(now)
      ensures startTime.value <= now ==> ClockOk(now)
      ensures deadline == Some(now + 100)
    {
    }

    /** Time may pass until the timer is due. */
    lemma TimePasses(now: int, later: int)
      requires Timely(now) && now <= later
      requires queue != map[] ==> deadline.Some? && later <= deadline.value
      ensures Timely(later)
    {
    }

    /** While updates stay enabled nothing waits longer than 31 seconds and one debounce interval. */
    lemma LongestWait(x: Contact, now: int)
      requires Timely(now) && x in queue
      ensures 0 <= now - since[x] < 31100
    {
    }

    /** What queueing an operation does to the invariants. */
    twostate lemma Queued(new x: Contact, new operation: Operation)
      requires old(Valid()) && model.Inv() && model.Tidy()
      requires forall p, y :: model.At(p, y) <==> old(model.At(p, y))
      requires monitored == old(monitored) + {x} && (operation == Add <==> x !in old(monitored))
      requires queue == old(queue)[x := (if x in old(queue) then old(queue)[x] else {}) + {operation}]
      requires model.dirty == old(model.dirty) + if operation == Update then {x} else {}
      requires forall y :: groupsOf(y) == old(groupsOf)(y) || (y == x && operation == GroupsChange)
      ensures Valid()
      ensures old(Fresh()) ==> Fresh()
      ensures old(Heard()) ==> Heard()
      ensures Telling() <==> old(Telling()) && (operation == Update ==> old(UpdateTells(x)))
      ensures old(Converging()) && (operation == GroupsChange ==> old(Fresh())) ==> Converging()
    {
      hide ContactListModel.Inv, ContactListModel.Tidy, ContactListModel.At, ContactListModel.Requests;
      assert old(model.dirty) <= model.dirty;
      forall y | y in monitored && old(Converging()) && (operation == GroupsChange ==> old(Fresh()))
        ensures Converges(y)
      {
        if y != x {
          assert old(Converges(y));
        } else if operation == Add {
          assert old(Absent(y));
        } else {
          assert old(Converges(y));
          if y in old(queue) && Add in old(queue)[y] && operation == GroupsChange {
            assert old(Absent(y));
          }
        }
      }
    }

    /** An update of the contact would be heard: no addition is queued that finds it in the tree. */
    ghost predicate UpdateTells(x: Contact)
      reads this`queue, model`tree, model.tree.Values`contacts
    {
      x in queue && Add in queue[x] ==> Absent(x)
    }

    twostate lemma QueueFresh(new x: Contact)
      requires old(Valid()) && x !in old(monitored)
      requires queue == old(queue)[x := (if x in old(queue) then old(queue)[x] else {}) + {Add}]
      ensures queue == old(queue)[x := {Add}]
    {
      assert {} + {Add} == {Add};
    }

    twostate lemma QueuedInTime(new x: Contact, new now: int)
      requires since == if x in old(since) then old(since) else old(since)[x := now]
      requires startTime == if old(startTime) == None then Some(now) else old(startTime)
      requires queue.Keys == old(queue).Keys + {x}
      requires old(ClockOk(now))
      ensures old(Timely(now)) ==> Waiting(now)
      ensures startTime.Some? && startTime.value <= now && (Late(now) <==> old(Late(now)))
    {
    }

    method AddContact(x: Contact, now: int)
      requires Valid() && ClockOk(now)
      modifies model.tree.Values, model.cache, this`queue, this`since, this`startTime, this`deadline
      modifies model`tree, model`view, model`signal, model`doResetAfterBulkUpdate, model`dirty, model`calls
      modifies model`bulkUpdateCount, model`emitDeltaSignals
      modifies this`monitored
      ensures Valid() && fresh(model.tree.Values - old(model.tree.Values))
      ensures monitored == old(monitored) + {x}
      ensures x !in old(monitored) && !old(Late(now)) ==>
        && queue == old(queue)[x := {Add}] && !Late(now) && model.dirty == old(model.dirty)
        && deadline == Some(now + 100) && forall p, y :: model.At(p, y) <==> old(model.At(p, y))
      ensures x !in old(monitored) && old(Late(now)) && updatesEnabled ==> queue == map[] && deadline == None
      ensures old(Fresh()) ==> Fresh()
      ensures old(Heard()) ==>
        (Heard() <==> (x !in old(monitored) && old(Late(now)) && updatesEnabled ==> old(Telling())))
      ensures old(Converging()) ==> Converging()
      ensures ClockOk(now) && (updatesEnabled && old(Timely(now)) ==> Timely(now))
    {
      hide *;
      ValidModel();
      if x !in monitored {
        monitored := monitored + {x};
        Enqueue(x, Add, now);
        QueueFresh(x);
        Queued(x, Add);
        QueuedInTime(x, now);
        CommitWhenDue(now);
      }
    }

    /** Takes effect at once. */
    method RemoveContact(x: Contact)
      requires Valid()
      modifies model.tree.Values, model.cache, this`queue, this`since, this`monitored
      modifies model`tree, model`view, model`signal, model`doResetAfterBulkUpdate, model`calls
      ensures Valid() && fresh(model.tree.Values - old(model.tree.Values))
      ensures monitored == old(monitored) - {x} && Absent(x)
      ensures old(Fresh()) ==> Fresh()
      ensures old(Heard()) ==> Heard()
      ensures old(Converging()) ==> Converging()
      ensures forall now :: old(Timely(now)) ==> Timely(now)
    {
      hide *;
      ValidModel();
      monitored := monitored - {x};
      model.RemoveContact(x);
      queue, since := queue - {x}, since - {x};
      Dropped(x);
    }

    twostate lemma Dropped(new x: Contact)
      requires old(Valid()) && model.Inv() && model.Tidy()
      requires forall p, y :: model.At(p, y) <==> old(model.At(p, y)) && y != x
      requires monitored == old(monitored) - {x} && queue == old(queue) - {x} && since == old(since) - {x}
      requires groupsOf == old(groupsOf) && startTime == old(startTime) && deadline == old(deadline)
      requires model.dirty == old(model.dirty)
      ensures Valid() && Absent(x)
      ensures old(Fresh()) ==> Fresh()
      ensures old(Heard()) ==> Heard()
      ensures old(Converging()) ==> Converging()
      ensures forall now :: old(Timely(now)) ==> Timely(now)
    {
      hide ContactListModel.Inv, ContactListModel.Tidy, ContactListModel.At, ContactListModel.Requests;
    }

    /** A contact that the list watches comes or goes. */
    method ContactUpdated(x: Contact, isOnline: bool, now: int)
      requires Valid() && x in monitored && ClockOk(now)
      modifies model.tree.Values, model.cache, this`queue, this`since, this`startTime, this`deadline
      modifies model`tree, model`view, model`signal, model`doResetAfterBulkUpdate, model`dirty, model`calls
      modifies model`bulkUpdateCount, model`emitDeltaSignals
      modifies model`online
      ensures Valid() && fresh(model.tree.Values - old(model.tree.Values))
      ensures model.online == if isOnline then old(model.online) + {x} else old(model.online) - {x}
      ensures !old(Late(now)) ==>
        && queue == old(queue)[x := (if x in old(queue) then old(queue)[x] else {}) + {Update}] && !Late(now)
        && deadline == Some(now + 100) && model.tree == old(model.tree) && unchanged(model.tree.Values)
      ensures old(Late(now)) && updatesEnabled ==> queue == map[] && deadline == None
      ensures old(Fresh()) ==> Fresh()
      ensures old(Heard()) ==>
        (Heard() <==> (old(Late(now)) && updatesEnabled ==> old(Telling() && UpdateTells(x))))
      ensures old(Converging()) ==> Converging()
      ensures ClockOk(now) && (updatesEnabled && old(Timely(now)) ==> Timely(now))
    {
      hide *;
      ValidModel();
      assert monitored == monitored + {x};
      model.SetOnline(x, isOnline);
      Enqueue(x, Update, now);
      Queued(x, Update);
      QueuedInTime(x, now);
      CommitWhenDue(now);
    }

    /** A contact that the list watches is put into other groups. Harmless unless it is already in the
        tree with its addition still queued. */
    method ContactGroupsChanged(x: Contact, groups: seq<string>, now: int)
      requires Valid() && x in monitored && ClockOk(now)
      modifies model.tree.Values, model.cache, this`queue, this`since, this`startTime, this`deadline
      modifies model`tree, model`view, model`signal, model`doResetAfterBulkUpdate, model`dirty, model`calls
      modifies model`bulkUpdateCount, model`emitDeltaSignals
      modifies this`groupsOf
      ensures Valid() && fresh(model.tree.Values - old(model.tree.Values))
      ensures !old(Late(now)) ==>
        && queue == old(queue)[x := (if x in old(queue) then old(queue)[x] else {}) + {GroupsChange}] && !Late(now)
        && deadline == Some(now + 100) && forall p, y :: model.At(p, y) <==> old(model.At(p, y))
      ensures old(Late(now)) && updatesEnabled ==> queue == map[] && deadline == None
      ensures groupsOf(x) == groups && forall y :: y != x ==> groupsOf(y) == old(groupsOf)(y)
      ensures old(Fresh()) ==> Fresh()
      ensures old(Heard()) ==> (Heard() <==> (old(Late(now)) && updatesEnabled ==> old(Telling())))
      ensures old(Fresh() && Converging()) ==> Converging()
      ensures ClockOk(now) && (updatesEnabled && old(Timely(now)) ==> Timely(now))
    {
      hide *;
      ValidModel();
      assert monitored == monitored + {x};
      var before := groupsOf;
      groupsOf := y => if y == x then groups else before(y);
      Enqueue(x, GroupsChange, now);
      Queued(x, GroupsChange);
      QueuedInTime(x, now);
      CommitWhenDue(now);
    }

    /** Enabling starts the timer anew, also when updates are enabled already: the bound on waiting stays
        just if the timer still fires in time for it. */
    method SetUpdatesEnabled(enabled: bool, now: int)
      requires Valid()
      modifies this`updatesEnabled, this`deadline
      ensures Valid() && updatesEnabled == enabled
      ensures deadline == if enabled then Some(now + 100) else old(deadline)
      ensures enabled && old(Timely(now)) ==>
        (Timely(now) <==> queue == map[] || now < startTime.value + 31000)
      ensures !enabled ==> forall t :: Timely(t) <==> old(Timely(t))
      ensures (Heard() <==> old(Heard())) && (Fresh() <==> old(Fresh())) && (Converging() <==> old(Converging()))
    {
      updatesEnabled := enabled;
      if updatesEnabled {
        deadline := Some(now + COMMIT_INTERVAL);
      }
    }

    /** Rebuilding the layout puts every watched contact in its place right away, but an addition that
        is still queued then finds its contact in the tree. */
    method InvalidateLayout(contacts: seq<Contact>)
      requires Valid() && forall x :: x in contacts <==> x in monitored
      modifies model.tree.Values, model.cache
      modifies model`tree, model`root, model`view, model`signal, model`stale
      modifies model`bulkUpdateCount, model`emitDeltaSignals, model`doResetAfterBulkUpdate
      ensures Valid() && Converging() && fresh(model.tree.Values)
      ensures forall x <- monitored :: Placed(x)
      ensures Heard() <==> old(Heard())
      ensures old(Fresh()) ==> (Fresh() <==> forall x <- queue :: Add in queue[x] ==> groupsOf(x) == [])
    {
      hide ContactListModel.Inv, ContactListModel.Tidy, ContactListModel.At, ContactListModel.Requests;
      model.InvalidateLayout(contacts, groupsOf);
      forall x <- queue
        ensures Absent(x) <==> groupsOf(x) == []
      {
        NamesAsk(groupsOf(x));
      }
    }

    lemma NamesAsk(groups: seq<string>)
      ensures groups == [] <==> forall p :: !model.Requests(groups, p)
    {
      if groups != [] {
        DropEmptyMeaning(Split(groups[0], model.delim), DropEmpty(Split(groups[0], model.delim)));
      assert model.Requests(groups, DropEmpty(Split(groups[0], model.delim)));
      }
    }

    /** A group is about to recompute its flag, or holds a contact with a queued operation that will make
        it do so, or its flag is right. */
    lemma FlagsPending(p: Path)
      requires Valid() && Heard() && p in model.tree && p != []
      ensures var g := model.tree[p];
              || g.timerActive
              || (exists x :: x in g.contacts && x in queue && (Update in queue[x] || Add in queue[x]))
              || (g.haveOnlineContacts <==> exists i :: i in g.items && model.ItemOnline(i))
    {
      model.NodeAt(p);
      assert model.FlagOk(p);
      hide ContactListModel.Inv, ContactListModel.Tidy, ContactListModel.NodeOk;
      forall x | x in model.tree[p].contacts && x in model.dirty
        ensures x in queue && (Update in queue[x] || Add in queue[x])
      {
        assert model.At(p, x);
      }
    }

    /** With nothing queued and no timer running, a group is flagged exactly when some contact in it or
        below it is online. */
    lemma FlagsTrue()
      requires Valid() && Heard() && queue == map[] && forall g <- model.tree.Values :: !g.timerActive
      ensures forall p :: p in model.tree && p != [] ==> (model.tree[p].haveOnlineContacts <==> OnlineBelow(model, p))
    {
      hide ContactListModel.Inv, ContactListModel.Tidy;
      assert Quiescent(model);
      FlagsSettle(model);
    }
  }

  /** A rebuild while an addition is queued, and then a change of groups: the commit adds the contact
      to its new group and leaves it in the old one. */
  method RebuildDuringAddition(x: Contact) returns (u: Updater)
    ensures u.Valid() && u.queue == map[] && x in u.monitored && !u.Placed(x)
  {
    hide *;
    u := AddedByRebuild(x);
    u.ContactGroupsChanged(x, ["B"], 0);
    assert !u.Converges(x) by {
      OneGroup(u, x, "B");
      StuckInOldGroup(u, x);
    }
    u.Commit();
  }

  method AddedByRebuild(x: Contact) returns (u: Updater)
    ensures fresh(u) && fresh(u.model) && fresh(u.model.cache) && fresh(u.model.tree.Values) && u.Valid()
    ensures u.model.delim == "::" && u.updatesEnabled && x in u.monitored && u.queue == map[x := {Add}]
    ensures u.model.At(["A"], x) && u.ClockOk(0) && !u.Late(0)
    ensures u.monitored == {x} && u.groupsOf(x) == ["A"] && u.Placed(x)
    ensures u.model.online == u.model.dirty == {}
  {
    hide *;
    u := new Updater("::", _ => ["A"]);
    assert u.ClockOk(0) && !u.Late(0) by {
      NotStarted(u);
    }
    u.AddContact(x, 0);
    u.InvalidateLayout([x]);
    OneGroup(u, x, "A");
  }

  /** A rebuild while an addition is queued, and then, once the timers of the groups have fired, the
      contact comes online: the commit finds it in its group, which takes no notice. Nothing is pending
      any more, and the flag of the group is wrong. */
  method RebuildHidesUpdate(x: Contact) returns (u: Updater)
    ensures u.Valid() && u.queue == map[] && x in u.model.online && u.model.At(["A"], x)
    ensures forall g <- u.model.tree.Values :: !g.timerActive
    ensures ["A"] in u.model.tree && !u.model.tree[["A"]].haveOnlineContacts
  {
    hide *;
    u := UpdateBehindAddition(x);
    AlreadyThere(u, x);
    u.Commit();
    OneGroup(u, x, "A");
    AllOffMeans(u.model);
  }

  /** The run up to the commit. */
  method UpdateBehindAddition(x: Contact) returns (u: Updater)
    ensures fresh(u) && fresh(u.model) && fresh(u.model.cache) && fresh(u.model.tree.Values) && u.Valid()
    ensures u.model.delim == "::" && u.updatesEnabled && u.monitored == u.model.online == {x}
    ensures u.queue == map[x := {Add, Update}] && u.groupsOf(x) == ["A"] && u.Placed(x) && AllOff(u.model.Marks())
  {
    hide *;
    u := AddedByRebuild(x);
    OneGroup(u, x, "A");
    OnlyGroup(u, x);
    TimersFire(u, x);
    u.ContactUpdated(x, true, 0);
    assert {Add} + {Update} == {Add, Update};
  }

  /** No timer runs, and the group is not flagged. */
  ghost predicate AllOff(marks: map<Path, (bool, bool)>) {
    && (forall p <- marks :: !marks[p].1)
    && ["A"] in marks && !marks[["A"]].0
  }

  lemma AllOffMeans(m: ContactListModel)
    requires AllOff(m.Marks())
    ensures forall g <- m.tree.Values :: !g.timerActive
    ensures ["A"] in m.tree && !m.tree[["A"]].haveOnlineContacts
  {
    forall p <- m.tree
      ensures !m.tree[p].timerActive
    {
      assert p in m.Marks();
    }
  }

  lemma AlreadyThere(u: Updater, x: Contact)
    requires u.Placed(x) && u.queue.Keys == {x} && Add in u.queue[x]
    ensures u.Idle() && u.Converges(x)
  {
  }

  /** The tree has the root and one group. */
  lemma OnlyGroup(u: Updater, x: Contact)
    requires u.Valid() && u.monitored == {x} && u.groupsOf(x) == ["A"] && u.Placed(x)
    requires forall p :: u.model.Requests(["A"], p) <==> p == ["A"]
    ensures u.model.tree.Keys == {[], ["A"]}
  {
    u.model.RootLive();
    assert u.model.At(["A"], x);
    forall p | p in u.model.tree && p != []
      ensures p == ["A"]
    {
      GroupIffInhabited(u.model, p);
      var q, y :| Below(p, q) && u.model.At(q, y);
      assert !u.Absent(y) && q == ["A"];
    }
  }

  method TimersFire(u: Updater, x: Contact)
    requires u.Valid() && u.model.tree.Keys == {[], ["A"]} && u.model.online == u.model.dirty == {}
    modifies u.model.tree.Values`haveOnlineContacts, u.model.tree.Values`timerActive
    ensures u.Valid() && AllOff(u.model.Marks())
  {
    hide ContactListModel.TreeInv, ContactListModel.ContactsInv, ContactListModel.NamesInv, ContactListModel.ViewInv;
    var m := u.model;
    m.RootLive();
    m.PathsUnique();
    var root := m.root;
    var a := root.FindGroup("A");
    assert [] + ["A"] == ["A"];
    assert a == m.tree[["A"]];
    a.UpdateOnlineContactsFlag();
    root.UpdateOnlineContactsFlag();
    FlagsSettle(m);
  }

  /** Enabling updates that are enabled, again and again before the timer fires: a queued operation waits
      as long as one likes, although the timer is never late. */
  method RestartedForever(x: Contact, wait: nat) returns (u: Updater, now: int)
    ensures u.Valid() && u.updatesEnabled && x in u.queue && x in u.since && now - u.since[x] >= wait
    ensures u.deadline.Some? && now <= u.deadline.value
  {
    hide Updater.Valid, Updater.Fresh, Updater.Converging, Updater.Absent, Updater.Heard, Updater.Telling;
    u := new Updater("::", _ => ["A"]);
    now := 0;
    u.AddContact(x, now);
    u.SetUpdatesEnabled(true, now);
    while now < wait
      invariant fresh(u) && u.Valid() && u.updatesEnabled && x in u.queue && x in u.since && u.since[x] <= 0 <= now
      invariant u.deadline == Some(now + COMMIT_INTERVAL)
      decreases wait - now
    {
      now := u.deadline.value;
      u.SetUpdatesEnabled(true, now);
    }
  }

  lemma NotStarted(u: Updater)
    requires u.startTime == None
    ensures u.ClockOk(0) && !u.Late(0)
  {
  }

  lemma OneGroup(u: Updater, x: Contact, name: string)
    requires u.groupsOf(x) == [name] && |name| == 1 && u.model.delim == "::"
    ensures forall p :: u.model.Requests([name], p) <==> p == [name]
    ensures u.Placed(x) ==> u.model.At([name], x)
  {
    assert IndexOf(name, "::") == -1;
    assert Split(name, "::") == [name];
    assert DropEmpty([name]) == [name];
    hide Split, DropEmpty, IsPadded;
    forall p
      ensures u.model.Requests([name], p) <==> p == [name]
    {
      DropEmptyMeaning([name], p);
      assert name in [name];
    }
  }

  lemma StuckInOldGroup(u: Updater, x: Contact)
    requires u.model.At(["A"], x) && !u.model.Requests(u.groupsOf(x), ["A"])
    requires x in u.queue && Add in u.queue[x]
    ensures !u.Converges(x)
  {
  }
}
