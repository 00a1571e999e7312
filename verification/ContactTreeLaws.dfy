/** What follows from the contact tree's invariant: the groups are exactly those that contacts
    need, the online flags settle to the truth, and what a tear-down leaves in the name map. */
module ContactTreeLaws {
  import opened GroupNames
  import opened GroupRequests
  import opened ContactTree

  /** Some contact sits at or below `p`. */
  ghost predicate Inhabited(m: ContactListModel, p: Path)
    reads m`tree, m.tree.Values`contacts
  {
    exists q, y :: Below(p, q) && m.At(q, y)
  }

  /** Some online contact sits at or below `p`. */
  ghost predicate OnlineBelow(m: ContactListModel, p: Path)
    reads m`tree, m`online, m.tree.Values`contacts
  {
    exists q, y :: Below(p, q) && m.At(q, y) && y in m.online
  }

  lemma {:induction false} Descend(m: ContactListModel, p: Path, bound: nat)
    requires m.Inv() && m.Tidy() && p in m.tree && p != [] && m.Shallow(bound)
    ensures Inhabited(m, p)
    decreases bound - |p|
  {
    hide ContactListModel.Inv, Below, Agree;
    var g := m.tree[p];
    m.PathsUnique();
    m.LiveReady(g);
    assert !m.Empty(p);
    BelowSameLength(p, p);
    match g.items[0]
    case ContactItem(y) =>
      ContactOfItem(g, 0);
      assert Below(p, p) && m.At(p, y);
    case GroupItem(h) =>
      GroupOfItem(m, g, 0);
      Descend(m, h.path, bound);
      PrefixBelow(p, h.name);
      var q, y :| Below(h.path, q) && m.At(q, y);
      assert Below(p, q);
  }

  lemma ContactOfItem(g: Group, k: nat)
    requires Agree(g.contacts, g.groups, g.items) && k < |g.items| && g.items[k].ContactItem?
    ensures g.items[k].contact in g.contacts
  {
    assert g.items[k] in g.items;
  }

  lemma GroupOfItem(m: ContactListModel, g: Group, k: nat)
    requires m.Inv() && m.Live(g) && k < |g.items| && g.items[k].GroupItem?
    ensures var h := g.items[k].group;
            && h in g.groups && m.Live(h) && h.path in m.tree && m.tree[h.path] == h
            && h.path == g.path + [h.name]
  {
    assert m.NodeOk(g.path);
    assert g.items[k] in g.items;
    var h := g.items[k].group;
    assert m.NodeOk(h.path);
  }

  /** A group other than the root exists exactly when some contact sits at or below it. */
  lemma GroupIffInhabited(m: ContactListModel, p: Path)
    requires m.Inv() && m.Tidy() && p != []
    ensures p in m.tree <==> Inhabited(m, p)
  {
    if p in m.tree {
      var bound := DepthBound(m.tree.Keys);
      Descend(m, p, bound);
    }
    if Inhabited(m, p) {
      var q, y :| Below(p, q) && m.At(q, y);
      m.PrefixLive(q, |p|);
      assert q[..|p|] == p;
    }
  }

  /** The placement of the contacts determines the groups: a tree edited step by step and one built
      afresh have the same groups as soon as their contacts are in the same places. */
  lemma SamePlacesSameGroups(m: ContactListModel, n: ContactListModel)
    requires m.Inv() && m.Tidy() && n.Inv() && n.Tidy()
    requires forall p, y :: m.At(p, y) <==> n.At(p, y)
    ensures m.tree.Keys == n.tree.Keys
  {
    hide ContactListModel.At, ContactListModel.Tidy;
    forall p
      ensures p in m.tree <==> p in n.tree
    {
      if p != [] {
        GroupIffInhabited(m, p);
        GroupIffInhabited(n, p);
      }
    }
  }

  // ---- the online flags ----

  /** Nothing is pending for the tree: no timer runs, and no contact in it has a change to be told. */
  ghost predicate Quiescent(m: ContactListModel)
    reads m`tree, m`dirty, m.tree.Values`timerActive, m.tree.Values`contacts
  {
    && (forall g <- m.tree.Values :: !g.timerActive)
    && (forall p, y :: m.At(p, y) ==> y !in m.dirty)
  }

  lemma {:induction false} FlagMeans(m: ContactListModel, p: Path, bound: nat)
    requires m.Inv() && p in m.tree && p != [] && m.Shallow(bound) && Quiescent(m)
    ensures m.tree[p].haveOnlineContacts <==> OnlineBelow(m, p)
    decreases bound - |p|
  {
    hide ContactListModel.TreeInv, ContactListModel.ContactsInv, ContactListModel.NamesInv, ContactListModel.ViewInv,
      Below, Agree;
    var g := m.tree[p];
    m.PathsUnique();
    m.LiveReady(g);
    BelowSameLength(p, p);
    m.NodeAt(p);
    assert m.FlagOk(p);
    assert forall x :: x in g.contacts ==> m.At(p, x);
    if g.haveOnlineContacts {
      var k :| 0 <= k < |g.items| && m.ItemOnline(g.items[k]);
      OnlineFromItem(m, p, k, bound);
    }
    if OnlineBelow(m, p) {
      var q, y :| Below(p, q) && m.At(q, y) && y in m.online;
      if q == p {
        ItemOfContact(g, y);
        assert m.ItemOnline(ContactItem(y));
      } else {
        OnlineFromBelow(m, p, q, y, bound);
      }
    }
  }

  lemma {:induction false} OnlineFromItem(m: ContactListModel, p: Path, k: nat, bound: nat)
    requires m.Inv() && p in m.tree && p != [] && m.Shallow(bound) && Quiescent(m)
    requires k < |m.tree[p].items| && m.ItemOnline(m.tree[p].items[k])
    ensures OnlineBelow(m, p)
    decreases bound - |p|, 0
  {
    hide ContactListModel.Inv, Below, Agree;
    var g := m.tree[p];
    m.PathsUnique();
    m.LiveReady(g);
    BelowSameLength(p, p);
    match g.items[k]
    case ContactItem(y) =>
      ContactOfItem(g, k);
      assert Below(p, p) && m.At(p, y);
    case GroupItem(h) =>
      GroupOfItem(m, g, k);
      FlagMeans(m, h.path, bound);
      PrefixBelow(p, h.name);
      var q, y :| Below(h.path, q) && m.At(q, y) && y in m.online;
      assert Below(p, q);
  }

  lemma {:induction false} OnlineFromBelow(m: ContactListModel, p: Path, q: Path, y: Contact, bound: nat)
    requires m.Inv() && p in m.tree && p != [] && m.Shallow(bound) && Quiescent(m)
    requires Below(p, q) && q != p && m.At(q, y) && y in m.online
    ensures exists i :: i in m.tree[p].items && m.ItemOnline(i)
    decreases bound - |p|, 0
  {
    hide ContactListModel.TreeInv, ContactListModel.ContactsInv, ContactListModel.NamesInv, ContactListModel.ViewInv,
      ContactListModel.FlagInv, Below, Agree;
    var g := m.tree[p];
    m.PathsUnique();
    m.LiveReady(g);
    g.NothingUnlisted();
    var h :| h in g.groups && Below(h.path, q);
    ItemOfGroup(m, g, h);
    assert OnlineBelow(m, h.path);
    FlagMeans(m, h.path, bound);
    assert m.ItemOnline(GroupItem(h));
  }

  lemma ItemOfContact(g: Group, y: Contact)
    requires Agree(g.contacts, g.groups, g.items) && y in g.contacts
    ensures ContactItem(y) in g.items
  {
  }

  lemma ItemOfGroup(m: ContactListModel, g: Group, h: Group)
    requires m.Inv() && m.Live(g) && h in g.groups
    ensures GroupItem(h) in g.items && h.path in m.tree && m.tree[h.path] == h && h.path == g.path + [h.name]
      && |g.path| < |h.path|
  {
    assert m.NodeOk(g.path);
    assert m.NodeOk(h.path);
  }

  /** Once nothing is pending, a group is flagged exactly when some contact in it or below is online. */
  lemma FlagsSettle(m: ContactListModel)
    requires m.Inv() && Quiescent(m)
    ensures forall p :: p in m.tree && p != [] ==> (m.tree[p].haveOnlineContacts <==> OnlineBelow(m, p))
  {
    var bound := DepthBound(m.tree.Keys);
    forall p | p in m.tree && p != []
      ensures m.tree[p].haveOnlineContacts <==> OnlineBelow(m, p)
    {
      FlagMeans(m, p, bound);
    }
  }

  // ---- the name map after a tear-down ----

  lemma NestedNameIsCut(p: Path, d: Delimiter)
    requires IsPath(p, d) && |p| > 1
    ensures IndexOf(Join(p, d), d) >= 0
  {
    CleanCut(p[0], d, Join(p[1..], d));
  }

  lemma OwnNameIsUncut(p: Path, d: Delimiter)
    requires IsPath(p, d) && p != []
    ensures IndexOf(Last(p), d) == -1
  {
    PathTail(p, |p| - 1, d);
    assert p[|p| - 1..] == [Last(p)];
  }

  /** A tear-down removes each group under its own name alone, so it forgets exactly the groups right
      below the root: the full names of all deeper groups stay behind. */
  lemma LeftBehind(m: ContactListModel)
    requires m.Inv() && m.stale == {}
    ensures m.cache.names.Keys - m.OwnNames([]) == set p | p in m.tree && |p| > 1 :: Join(p, m.delim)
  {
    hide IsPath, Join;
    var left := m.cache.names.Keys - m.OwnNames([]);
    forall p | p in m.tree && p != []
      ensures Join(p, m.delim) in left <==> |p| > 1
    {
      assert m.NodeOk(p);
      NameLeft(m, p);
    }
    forall k | k in m.cache.names
      ensures var p := Parts(k, m.delim); p in m.tree && p != [] && Join(p, m.delim) == k
    {
      JoinParts(k, m.delim);
    }
  }

  lemma NameLeft(m: ContactListModel, p: Path)
    requires m.Inv() && p in m.tree && p != [] && IsPath(p, m.delim)
    ensures Join(p, m.delim) in m.OwnNames([]) <==> |p| == 1
  {
    if |p| == 1 {
      assert Join(p, m.delim) == Last(p) && Below([], p);
    } else {
      NestedNameIsCut(p, m.delim);
      if Join(p, m.delim) in m.OwnNames([]) {
        var q :| q in m.tree && q != [] && Below([], q) && Last(q) == Join(p, m.delim);
        assert m.NodeOk(q);
        OwnNameIsUncut(q, m.delim);
      }
    }
  }
}
