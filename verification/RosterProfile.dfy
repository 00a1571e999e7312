/** The roster of an account in the old contact list: an item for each group that an entry belongs in. */
module RosterProfile {
  import opened Lists

  type Jid = string

  /** A group of the list: a special one, or one of the user's. */
  datatype Slot = General | NotInList | Agents | Private | UserGroup(name: string)

  datatype User = User(inList: bool, isTransport: bool, isPrivate: bool, isAvailable: bool, isAway: bool,
                       isHidden: bool, groups: seq<string>)

  datatype Show = Show(agents: bool, offline: bool, away: bool, hidden: bool)

  // ---- where an entry belongs ----

  predicate Visible(u: User, alerting: bool, show: Show) {
    alerting || !u.inList
    || (if u.isTransport then show.agents
        else (show.offline || u.isAvailable) && (show.away || !u.isAway) && (show.hidden || !u.isHidden))
  }

  function Home(u: User): set<Slot> {
    if u.isPrivate then {Private}
    else if !u.inList then {NotInList}
    else if u.isTransport then {Agents}
    else if u.groups == [] then {General}
    else set name | name in u.groups :: UserGroup(name)
  }

  function Placement(u: User, alerting: bool, show: Show): set<Slot> {
    if Visible(u, alerting, show) then Home(u) else {}
  }

  /** When an entry is shown: by its flag if it is a transport, by three flags if it is a contact of the list,
      and always if it alerts or is none of the list. */
  lemma VisibleMeaning(u: User, show: Show)
    ensures Visible(u, true, show) && (!u.inList ==> Visible(u, false, show))
    ensures u.inList && u.isTransport ==> (Visible(u, false, show) <==> show.agents)
    ensures u.inList && !u.isTransport ==>
      (!Visible(u, false, show) <==> (!u.isAvailable && !show.offline) || (u.isAway && !show.away)
                                     || (u.isHidden && !show.hidden))
  {
  }

  /** Where a visible entry belongs: one special group, or its own groups. */
  lemma PlacementMeaning(u: User, alerting: bool, show: Show, g: Slot)
    ensures !Visible(u, alerting, show) ==> Placement(u, alerting, show) == {}
    ensures Visible(u, alerting, show) ==>
      (g in Placement(u, alerting, show) <==> match g
        case Private => u.isPrivate
        case NotInList => !u.isPrivate && !u.inList
        case Agents => !u.isPrivate && u.inList && u.isTransport
        case General => !u.isPrivate && u.inList && !u.isTransport && |u.groups| == 0
        case UserGroup(name) => !u.isPrivate && u.inList && !u.isTransport && name in u.groups)
  {
  }

  // ---- what the passes do ----

  /** Nothing of the entry is to be seen. */
  predicate DeletesAll(u: User, alerting: bool, show: Show) {
    u.inList
    && if u.isTransport then !show.agents && !alerting
       else !alerting && ((!show.offline && !u.isAvailable) || (!show.away && u.isAway) || (!show.hidden && u.isHidden))
  }

  /** The cases in which an item does not stay in a group. */
  predicate Deletes(g: Slot, u: User, alerting: bool, autoDelete: bool) {
    if g == NotInList && u.inList then true
    else if g != NotInList && g != Private && !u.inList then true
    else if g == Agents && !u.isTransport then true
    else if g != Agents && u.isTransport then true
    else if g == General && u.groups != [] then true
    else if g != Private && g != General && u.groups == [] && !u.isTransport && u.inList then true
    else if g.UserGroup? then u.groups != [] && g.name !in u.groups
    else autoDelete && !alerting && (g == Private || g == NotInList)
  }

  /** The rules, group by group. */
  lemma KeepsMeaning(g: Slot, u: User, alerting: bool, autoDelete: bool)
    ensures !Deletes(g, u, alerting, autoDelete) <==> match g
            case Private => !u.isTransport && (alerting || !autoDelete)
            case NotInList => !u.inList && !u.isTransport && (alerting || !autoDelete)
            case Agents => u.inList && u.isTransport
            case General => u.inList && !u.isTransport && |u.groups| == 0
            case UserGroup(name) => u.inList && !u.isTransport && name in u.groups
  {
  }

  /** The entries that the rules for removing agree with those for adding on: no transport is outside
      the list or private. */
  predicate Regular(u: User) {
    u.isTransport ==> u.inList && !u.isPrivate
  }

  /** Removing takes no item from where adding puts one, just for regular entries whose unlisted items
      are not deleted by themselves. */
  lemma HomeStays(u: User, alerting: bool, autoDelete: bool)
    ensures (forall g <- Home(u) :: !Deletes(g, u, alerting, autoDelete))
            <==> Regular(u) && !(autoDelete && !alerting && (u.isPrivate || !u.inList))
  {
    if u.isPrivate {
      assert Private in Home(u);
    } else if !u.inList {
      assert NotInList in Home(u);
    }
  }

  /** Removing leaves an item only where adding would put one, if the entry did not become private or
      cease to be. */
  lemma HomeOnly(u: User, alerting: bool, g: Slot)
    requires u.isPrivate <==> g == Private
    ensures !Deletes(g, u, alerting, false) ==> g in Home(u)
    ensures Regular(u) && g in Home(u) ==> !Deletes(g, u, alerting, false)
  {
  }

  lemma VisibleUnlessDeleted(u: User, alerting: bool, show: Show)
    ensures DeletesAll(u, alerting, show) <==> !Visible(u, alerting, show)
  {
  }

  /** The two passes over a changed entry put it where it belongs, unless it became private or ceased to
      be, and a group it was in is one that the rules for removing overlook. */
  lemma RefreshPlaces(before: User, u: User, alerting: bool, show: Show)
    requires Regular(before)
    ensures var at := Placement(before, alerting, show);
            var left := if DeletesAll(u, alerting, show) then {}
                        else set s | s in at && !Deletes(s, u, alerting, false);
            left + Placement(u, alerting, show) == Placement(u, alerting, show)
            <==> !(before.isPrivate != u.isPrivate && Visible(u, alerting, show)
                   && exists s <- at :: !Deletes(s, u, alerting, false))
  {
    VisibleUnlessDeleted(u, alerting, show);
    var at := Placement(before, alerting, show);
    forall s <- at | before.isPrivate == u.isPrivate
      ensures !Deletes(s, u, alerting, false) ==> s in Home(u)
    {
      HomeOnly(u, alerting, s);
    }
    forall s <- at | before.isPrivate != u.isPrivate
      ensures s !in Home(u)
    {
    }
  }

  /** Such an entry: one outside the list that becomes private keeps its item in "Not in list". */
  lemma PrivateKeepsOldItem(before: User, show: Show)
    requires !before.inList && !before.isPrivate && !before.isTransport
    ensures var u := before.(isPrivate := true);
            && Placement(before, false, show) == {NotInList} && Placement(u, false, show) == {Private}
            && !DeletesAll(u, false, show) && !Deletes(NotInList, u, false, false)
  {
  }

  /** Every flag that `a` has set is set in `b`. */
  predicate ShowsMore(a: Show, b: Show) {
    (a.agents ==> b.agents) && (a.offline ==> b.offline) && (a.away ==> b.away) && (a.hidden ==> b.hidden)
  }

  /** When more is shown, adding is enough. */
  lemma Wider(u: User, alerting: bool, show: Show, alerting': bool, show': Show)
    requires ShowsMore(show, show') && (alerting ==> alerting')
    ensures Placement(u, alerting, show) + Placement(u, alerting', show') == Placement(u, alerting', show')
  {
  }

  /** When less is shown, removing is enough. */
  lemma Narrower(u: User, alerting: bool, show: Show, alerting': bool, show': Show)
    requires Regular(u) && ShowsMore(show', show) && (alerting' ==> alerting)
    ensures var at := Placement(u, alerting, show);
            (if DeletesAll(u, alerting', show') then {} else set s | s in at && !Deletes(s, u, alerting', false))
            == Placement(u, alerting', show')
  {
    VisibleUnlessDeleted(u, alerting', show');
    HomeStays(u, alerting', false);
  }

  // ---- the program ----

  /** The item of a group, and the entries that have an item in it. */
  class GroupItem {
    const slot: Slot
    var children: seq<Entry>

    constructor (slot: Slot)
      ensures this.slot == slot && children == []
    {
      this.slot, children := slot, [];
    }
  }

  /** A contact, and the groups that its items are in. */
  class Entry {
    const jid: Jid
    var u: User
    var alerting: bool
    var cvi: seq<GroupItem>

    constructor (jid: Jid, u: User)
      ensures this.jid == jid && this.u == u && !alerting && cvi == []
    {
      this.jid, this.u, alerting, cvi := jid, u, false, [];
    }
  }

  /** An enabled ContactProfile, with the flags of its ContactView. */
  class Profile {
    var show: Show
    var autoDelete: bool
    var roster: seq<Entry>
    var groups: seq<GroupItem>

    ghost predicate Linked()
      reads `roster, `groups, roster`cvi, groups`children
    {
      && NoDup(roster) && NoDup(groups)
      && (forall e, f | e in roster && f in roster && e != f :: e.jid != f.jid)
      && (forall g, h | g in groups && h in groups && g != h :: g.slot != h.slot)
      && (forall e <- roster :: NoDup(e.cvi) && forall g <- e.cvi :: g in groups && e in g.children)
      && (forall g <- groups :: NoDup(g.children) && forall e <- g.children :: e in roster && g in e.cvi)
    }

    ghost predicate NoneEmpty()
      reads `groups, groups`children
    {
      forall g <- groups :: g.children != []
    }

    /** The groups an entry has items in. */
    ghost function At(e: Entry): set<Slot>
      reads e`cvi
    {
      set g | g in e.cvi :: g.slot
    }

    ghost predicate InPlace(e: Entry)
      reads `show, e
    {
      At(e) == Placement(e.u, e.alerting, show)
    }

    ghost predicate Placed(e: Entry)
      reads `show, e
    {
      Regular(e.u) && InPlace(e)
    }

    ghost predicate Inv()
      reads this, roster, groups`children
    {
      Linked() && NoneEmpty() && !autoDelete && forall e <- roster :: Placed(e)
    }

    method CheckGroup(slot: Slot) returns (g: GroupItem?)
      ensures if g == null then forall h <- groups :: h.slot != slot else g in groups && g.slot == slot
    {
      for i := 0 to |groups|
        invariant forall k :: 0 <= k < i ==> groups[k].slot != slot
      {
        if groups[i].slot == slot {
          return groups[i];
        }
      }
      return null;
    }

    /** The group there is, or a new one with no item in it yet. */
    method EnsureGroup(slot: Slot) returns (g: GroupItem)
      requires Linked()
      modifies `groups
      ensures Linked() && g in groups && g.slot == slot && (g in old(groups) || (fresh(g) && g.children == []))
      ensures groups == if g in old(groups) then old(groups) else old(groups) + [g]
    {
      var item := CheckGroup(slot);
      if item != null {
        g := item;
      } else {
        g := new GroupItem(slot);
        groups := groups + [g];
      }
    }

    method AddContactItem(e: Entry, g: GroupItem)
      requires Linked() && e in roster && g in groups && g !in e.cvi
      modifies e`cvi, g`children
      ensures Linked() && e.cvi == old(e.cvi) + [g] && g.children == old(g.children) + [e]
    {
      e.cvi := e.cvi + [g];
      g.children := g.children + [e];
    }

    /** Adds an item in the group if the entry has none there. */
    method EnsureContactItem(e: Entry, g: GroupItem)
      requires Linked() && e in roster && g in groups
      modifies e`cvi, g`children
      ensures Linked() && e.cvi == (if g in old(e.cvi) then old(e.cvi) else old(e.cvi) + [g])
      ensures e in g.children && forall h <- groups :: |h.children| >= |old(h.children)|
    {
      for i := 0 to |e.cvi|
        invariant forall k :: 0 <= k < i ==> e.cvi[k] != g
      {
        if e.cvi[i] == g {
          return;
        }
      }
      AddContactItem(e, g);
    }

    /** Takes the item out of its group, and the group away when that was the last one. */
    method RemoveContactItem(e: Entry, g: GroupItem)
      requires Linked() && e in roster && g in e.cvi
      modifies `groups, e`cvi, g`children
      ensures Linked() && e.cvi == RemoveAt(old(e.cvi), Find(old(e.cvi), g))
      ensures forall h <- groups :: h in old(groups) && (h != g ==> h.children == old(h.children))
      ensures g in groups ==> g.children != []
    {
      NoDupRemove(e.cvi, g);
      NoDupRemove(g.children, e);
      e.cvi := RemoveAt(e.cvi, Find(e.cvi, g));
      g.children := RemoveAt(g.children, Find(g.children, e));
      CheckDestroyGroup(g);
    }

    method CheckDestroyGroup(g: GroupItem)
      requires Linked() && g in groups
      modifies `groups
      ensures Linked()
      ensures groups == if g.children == [] then RemoveAt(old(groups), Find(old(groups), g)) else old(groups)
    {
      hide Find, RemoveAt, NoDup;
      if |g.children| == 0 {
        NoDupRemove(groups, g);
        groups := RemoveAt(groups, Find(groups, g));
      }
    }

    method PutIn(e: Entry, slot: Slot)
      requires Linked() && NoneEmpty() && e in roster
      modifies `groups, e`cvi, groups`children
      ensures Linked() && NoneEmpty() && At(e) == old(At(e)) + {slot}
      ensures forall i :: 0 <= i < |groups| ==> groups[i] in old(groups) || fresh(groups[i])
    {
      var g := EnsureGroup(slot);
      EnsureContactItem(e, g);
    }

    method AddNeeded(e: Entry)
      requires Linked() && NoneEmpty() && e in roster
      modifies `groups, e`cvi, groups`children
      ensures Linked() && NoneEmpty() && At(e) == old(At(e)) + Placement(e.u, e.alerting, show)
      ensures forall i :: 0 <= i < |groups| ==> groups[i] in old(groups) || fresh(groups[i])
    {
      hide Linked, NoneEmpty;
      var u := e.u;
      if u.inList {
        if u.isTransport {
          if !show.agents && !e.alerting {
            return;
          }
        } else {
          if !e.alerting {
            if (!show.offline && !u.isAvailable) || (!show.away && u.isAway) || (!show.hidden && u.isHidden) {
              return;
            }
          }
        }
      }
      if u.isPrivate {
        PutIn(e, Private);
      } else if !u.inList {
        PutIn(e, NotInList);
      } else if u.isTransport {
        PutIn(e, Agents);
      } else if |u.groups| == 0 {
        PutIn(e, General);
      } else {
        for i := 0 to |u.groups|
          invariant Linked() && NoneEmpty()
          invariant At(e) == old(At(e)) + set name | name in u.groups[..i] :: UserGroup(name)
          invariant forall k :: 0 <= k < |groups| ==> groups[k] in old(groups) || fresh(groups[k])
        {
          PutIn(e, UserGroup(u.groups[i]));
        }
      }
    }

    /** An item out of its group, which goes with the last. */
    method TakeOut(e: Entry, i: nat)
      requires Linked() && NoneEmpty() && e in roster && i < |e.cvi|
      modifies `groups, e`cvi, groups`children
      ensures Linked() && NoneEmpty() && e.cvi == old(e.cvi[..i] + e.cvi[i + 1..])
      ensures At(e) == old(At(e)) - {old(e.cvi[i].slot)}
      ensures forall k :: 0 <= k < |groups| ==> groups[k] in old(groups)
    {
      assert e.cvi[i] in e.cvi && e.cvi[i] in groups;
      FindIndex(e.cvi, i);
      RemoveContactItem(e, e.cvi[i]);
    }

    method ClearContactItems(e: Entry)
      requires Linked() && NoneEmpty() && e in roster
      modifies `groups, e`cvi, groups`children
      ensures Linked() && NoneEmpty() && e.cvi == []
      ensures forall k :: 0 <= k < |groups| ==> groups[k] in old(groups)
    {
      hide Linked, NoneEmpty;
      while |e.cvi| > 0
        invariant Linked() && NoneEmpty()
        invariant forall k :: 0 <= k < |groups| ==> groups[k] in old(groups)
        decreases |e.cvi|
      {
        TakeOut(e, 0);
      }
    }

    /** The groups an entry has left after a removing pass. */
    ghost function Left(e: Entry): set<Slot>
      reads `show, `autoDelete, e
    {
      if DeletesAll(e.u, e.alerting, show) then {}
      else set s | s in At(e) && !Deletes(s, e.u, e.alerting, autoDelete)
    }

    method RemoveUnneeded(e: Entry)
      requires Linked() && NoneEmpty() && e in roster
      modifies `groups, e`cvi, groups`children
      ensures Linked() && NoneEmpty() && At(e) == old(Left(e))
      ensures forall k :: 0 <= k < |groups| ==> groups[k] in old(groups)
    {
      hide Linked, NoneEmpty, Deletes;
      var u := e.u;
      if u.inList {
        var delAll := false;
        if u.isTransport {
          if !show.agents && !e.alerting {
            delAll := true;
          }
        } else {
          if !e.alerting {
            if (!show.offline && !u.isAvailable) || (!show.away && u.isAway) || (!show.hidden && u.isHidden) {
              delAll := true;
            }
          }
        }
        if delAll {
          ClearContactItems(e);
          return;
        }
      }
      var i := 0;
      while i < |e.cvi|
        invariant Linked() && NoneEmpty() && i <= |e.cvi|
        invariant forall k :: 0 <= k < |groups| ==> groups[k] in old(groups)
        invariant forall k :: 0 <= k < i ==> !Deletes(e.cvi[k].slot, u, e.alerting, autoDelete)
        invariant At(e) <= old(At(e)) && forall s <- old(At(e)) :: Deletes(s, u, e.alerting, autoDelete) || s in At(e)
        decreases |e.cvi| - i
      {
        if Deletes(e.cvi[i].slot, u, e.alerting, autoDelete) {
          TakeOut(e, i);
        } else {
          i := i + 1;
        }
      }
    }

    // ---- what an account does ----

    constructor (show: Show)
      ensures Inv() && roster == [] && groups == [] && this.show == show
    {
      this.show, autoDelete, roster, groups := show, false, [], [];
    }

    method FindEntry(j: Jid) returns (e: Entry?)
      ensures if e == null then forall f <- roster :: f.jid != j else e in roster && e.jid == j
    {
      for i := 0 to |roster|
        invariant forall k :: 0 <= k < i ==> roster[k].jid != j
      {
        if roster[i].jid == j {
          return roster[i];
        }
      }
      return null;
    }

    /** Items that an entry keeps although it does not belong in their groups: some rules look for one
        group only, so an entry that became private, or is no longer, is not moved. */
    ghost predicate Misplaces(e: Entry, u: User)
      reads `show, e
    {
      && e.u.isPrivate != u.isPrivate && Visible(u, e.alerting, show)
      && exists s <- At(e) :: !Deletes(s, u, e.alerting, false)
    }

    /** Removing and then adding for a changed entry. */
    method Refresh(e: Entry, u: User)
      requires Inv() && e in roster
      modifies e`u, e`cvi, `groups, groups`children
      ensures Linked() && NoneEmpty() && e.u == u && (InPlace(e) <==> !old(Misplaces(e, u)))
      ensures forall i :: 0 <= i < |groups| ==> groups[i] in old(groups) || fresh(groups[i])
    {
      hide Linked, NoneEmpty, Placement, Deletes, DeletesAll;
      RefreshPlaces(e.u, u, e.alerting, show);
      e.u := u;
      RemoveUnneeded(e);
      AddNeeded(e);
    }

    method UpdateEntry(j: Jid, u: User)
      requires Inv()
      modifies `roster, `groups, roster, groups`children
      ensures forall f <- old(roster) :: f in roster && f.alerting == old(f.alerting)
      ensures forall f <- old(roster) :: f.u == if f.jid == j then u else old(f.u)
      ensures forall f <- roster :: f in old(roster) || (fresh(f) && f.jid == j && f.u == u && !f.alerting)
      ensures exists f :: f in roster && f.jid == j
      ensures forall i :: 0 <= i < |groups| ==> groups[i] in old(groups) || fresh(groups[i])
      ensures Linked() && NoneEmpty() && forall e <- roster | e.jid != j :: Placed(e)
      ensures forall e <- old(roster) | e.jid == j :: InPlace(e) <==> !old(Misplaces(e, u))
      ensures forall e <- roster | e !in old(roster) :: InPlace(e)
      ensures Inv() <==> Regular(u) && forall e <- old(roster) | e.jid == j :: !old(Misplaces(e, u))
    {
      hide Placement, Deletes, DeletesAll, Visible;
      var e := FindEntry(j);
      if e == null {
        NewEntry(j, u);
      } else {
        assert forall f <- roster | f.jid == j :: f == e;
        hide Linked, NoneEmpty, InPlace, Regular;
        Refresh(e, u);
      }
    }

    method NewEntry(j: Jid, u: User)
      requires Inv() && forall e <- roster :: e.jid != j
      modifies `roster, `groups, groups`children
      ensures forall i :: 0 <= i < |groups| ==> groups[i] in old(groups) || fresh(groups[i])
      ensures Linked() && NoneEmpty() && forall e <- old(roster) :: Placed(e)
      ensures |roster| == |old(roster)| + 1 && roster[..|old(roster)|] == old(roster)
      ensures var f := roster[|old(roster)|]; fresh(f) && f.jid == j && f.u == u && !f.alerting && InPlace(f)
    {
      var f := new Entry(j, u);
      roster := roster + [f];
      assert Linked() && NoneEmpty();
      hide Linked, NoneEmpty, Placement;
      AddNeeded(f);
    }

    method RemoveEntry(j: Jid)
      requires Inv()
      modifies `roster, `groups, roster, groups`children
      ensures Inv() && forall f <- old(roster) :: f in roster <==> f.jid != j
      ensures forall f <- roster :: f in old(roster) && f.u == old(f.u) && f.alerting == old(f.alerting)
    {
      hide Placement, Placed;
      var e := FindEntry(j);
      if e != null {
        var entry: Entry := e;
        assert forall f <- roster | f.jid == j :: f == entry;
        hide Linked, NoneEmpty;
        entry.alerting := false;
        ClearContactItems(entry);
        Forget(entry);
      }
    }

    method Forget(e: Entry)
      requires Linked() && NoneEmpty() && e in roster && e.cvi == []
      modifies `roster
      ensures Linked() && NoneEmpty() && roster == RemoveAt(old(roster), Find(old(roster), e)) && e !in roster
    {
      assert forall g <- groups :: e !in g.children;
      NoDupRemove(roster, e);
      roster := RemoveAt(roster, Find(roster, e));
    }

    /** An alerting entry is visible whatever the flags say. */
    method SetAlert(j: Jid)
      requires Inv()
      modifies `groups, roster, groups`children
      ensures Inv() && forall e <- roster :: e.u == old(e.u) && e.alerting == (old(e.alerting) || e.jid == j)
    {
      hide Placement, Visible, Home;
      var e := FindEntry(j);
      if e != null {
        hide Linked, NoneEmpty;
        Wider(e.u, e.alerting, show, true, show);
        e.alerting := true;
        AddNeeded(e);
      }
    }

    method ClearAlert(j: Jid)
      requires Inv()
      modifies `groups, roster, groups`children
      ensures Inv() && forall e <- roster :: e.u == old(e.u) && e.alerting == (old(e.alerting) && e.jid != j)
    {
      hide Placement, Visible, Home, Deletes, DeletesAll;
      var e := FindEntry(j);
      if e != null {
        hide Linked, NoneEmpty;
        Narrower(e.u, e.alerting, show, false, show);
        e.alerting := false;
        RemoveUnneeded(e);
      }
    }

    method AddAllNeeded()
      requires Linked() && NoneEmpty()
      modifies `groups, roster`cvi, groups`children
      ensures Linked() && NoneEmpty()
      ensures forall e <- roster :: At(e) == old(At(e)) + Placement(e.u, e.alerting, show)
    {
      for i := 0 to |roster|
        invariant Linked() && NoneEmpty()
        invariant forall k :: 0 <= k < |groups| ==> groups[k] in old(groups) || fresh(groups[k])
        invariant forall k :: 0 <= k < i ==> At(roster[k]) == old(At(roster[k])) + Placement(roster[k].u,
          roster[k].alerting, show)
        invariant forall k :: i <= k < |roster| ==> At(roster[k]) == old(At(roster[k]))
      {
        hide Linked, NoneEmpty, Placement;
        Distinct(i);
        AddNeeded(roster[i]);
      }
    }

    lemma Distinct(i: nat)
      requires Linked() && i < |roster|
      ensures forall k :: 0 <= k < |roster| && k != i ==> roster[k] != roster[i]
    {
    }

    method RemoveAllUnneeded()
      requires Linked() && NoneEmpty()
      modifies `groups, roster`cvi, groups`children
      ensures Linked() && NoneEmpty()
      ensures forall e <- roster :: At(e) == old(Left(e))
    {
      for i := 0 to |roster|
        invariant Linked() && NoneEmpty()
        invariant forall k :: 0 <= k < |groups| ==> groups[k] in old(groups)
        invariant forall k :: 0 <= k < i ==> At(roster[k]) == old(Left(roster[k]))
        invariant forall k :: i <= k < |roster| ==> Left(roster[k]) == old(Left(roster[k]))
      {
        hide Linked, NoneEmpty, Deletes, DeletesAll;
        Distinct(i);
        RemoveUnneeded(roster[i]);
      }
    }

    /** The common part of the four methods that change a flag. */
    method Reshow(flags: Show, shows: bool)
      requires Inv() && if shows then ShowsMore(show, flags) else ShowsMore(flags, show)
      modifies `show, `groups, roster`cvi, groups`children
      ensures Inv() && show == flags
    {
      ghost var before := show;
      show := flags;
      hide Linked, NoneEmpty, Placement, Deletes, DeletesAll, ShowsMore;
      if shows {
        AddAllNeeded();
        forall e <- roster
          ensures Placed(e)
        {
          Wider(e.u, e.alerting, before, e.alerting, flags);
        }
      } else {
        RemoveAllUnneeded();
        forall e <- roster
          ensures Placed(e)
        {
          Narrower(e.u, e.alerting, before, e.alerting, flags);
        }
      }
    }

    method SetShowAgents(x: bool)
      requires Inv()
      modifies `show, `groups, roster`cvi, groups`children
      ensures Inv() && show == old(show).(agents := x)
    {
      if x != show.agents {
        Reshow(show.(agents := x), x);
      }
    }

    method SetShowOffline(x: bool)
      requires Inv()
      modifies `show, `groups, roster`cvi, groups`children
      ensures Inv() && show == old(show).(offline := x)
    {
      if x != show.offline {
        Reshow(show.(offline := x), x);
      }
    }

    method SetShowAway(x: bool)
      requires Inv()
      modifies `show, `groups, roster`cvi, groups`children
      ensures Inv() && show == old(show).(away := x)
    {
      if x != show.away {
        Reshow(show.(away := x), x);
      }
    }

    method SetShowHidden(x: bool)
      requires Inv()
      modifies `show, `groups, roster`cvi, groups`children
      ensures Inv() && show == old(show).(hidden := x)
    {
      if x != show.hidden {
        Reshow(show.(hidden := x), x);
      }
    }

    /** A group is there just when an entry that is visible belongs in it. */
    lemma GroupIffPlaced(slot: Slot)
      requires Inv()
      ensures (exists g <- groups :: g.slot == slot)
              <==> exists e <- roster :: slot in Placement(e.u, e.alerting, show)
    {
      if e: Entry :| e in roster && slot in Placement(e.u, e.alerting, show) {
        assert Placed(e);
        assert slot in At(e);
      }
      if g: GroupItem :| g in groups && g.slot == slot {
        var e := g.children[0];
        assert Placed(e) && slot in At(e);
      }
    }
  }

  /** A run that ends so: a contact outside the list, who then becomes private. */
  method BecomesPrivate(j: Jid, show: Show) returns (p: Profile)
    ensures p.Linked() && exists e :: e in p.roster && e.jid == j && e.u.isPrivate && !p.InPlace(e)
  {
    p := new Profile(show);
    var before := User(false, false, false, true, false, false, []);
    p.UpdateEntry(j, before);
    assert forall e <- p.roster | e.jid == j :: p.Placed(e) && p.Misplaces(e, before.(isPrivate := true)) by {
      PrivateKeepsOldItem(before, show);
      forall e <- p.roster | e.jid == j
        ensures p.Placed(e) && p.Misplaces(e, before.(isPrivate := true))
      {
        assert NotInList in p.At(e);
      }
    }
    assert forall i :: 0 <= i < |p.roster| ==> fresh(p.roster[i]) by {
      assert forall i :: 0 <= i < |p.roster| ==> p.roster[i] in p.roster;
    }
    p.UpdateEntry(j, before.(isPrivate := true));
  }
}
