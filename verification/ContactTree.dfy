/** The contact list: a tree of groups edited in place, the two lookup maps kept beside it, the
    row signals that let a view follow it, and the deferred "somebody is online" flags. */
module ContactTree {
  import opened GroupNames
  import opened GroupRequests
  import opened Lists

  datatype Contact = Contact(id: nat)

  /** What a ContactListItemProxy points to. */
  datatype Item = ContactItem(contact: Contact) | GroupItem(group: Group)

  /** QModelIndex: a row, and the proxy (its owner and its item) as internal pointer. */
  datatype ModelIndex = NoIndex | Index(row: nat, owner: Group, item: Item)

  /** A row signal between its "begin" and its "end". */
  datatype Signal = Idle | Inserting(at: ModelIndex, row: nat) | Removing(at: ModelIndex, row: nat)

  /** A group's list of contacts and list of subgroups are its list of rows, sorted by kind. */
  ghost predicate Agree(contacts: seq<Contact>, groups: seq<Group>, items: seq<Item>) {
    && NoDup(contacts) && NoDup(groups) && NoDup(items)
    && (forall x :: x in contacts <==> ContactItem(x) in items)
    && (forall h <- groups :: GroupItem(h) in items)
    && (forall i <- items :: i.GroupItem? ==> i.group in groups)
  }

  lemma EmptyAgrees()
    ensures Agree([], [], [])
  {
  }

  lemma AgreeParts(contacts: seq<Contact>, groups: seq<Group>, items: seq<Item>)
    requires Agree(contacts, groups, items)
    ensures NoDup(contacts) && NoDup(groups)
    ensures items == [] ==> contacts == [] && groups == []
  {
    if contacts != [] {
      assert ContactItem(contacts[0]) in items;
    }
    if groups != [] {
      assert GroupItem(groups[0]) in items;
    }
  }

  lemma AgreeAfterRemove(contacts: seq<Contact>, groups: seq<Group>, items: seq<Item>, i: Item)
    requires Agree(contacts, groups, items) && i in items
    ensures i.ContactItem? ==> Agree(RemoveAt(contacts, Find(contacts, i.contact)), groups,
      RemoveAt(items, Find(items, i)))
    ensures i.GroupItem? ==> Agree(contacts, RemoveAt(groups, Find(groups, i.group)), RemoveAt(items, Find(items, i)))
  {
    NoDupRemove(items, i);
    match i
    case ContactItem(x) => NoDupRemove(contacts, x);
    case GroupItem(h) => NoDupRemove(groups, h);
  }

  // ---- the bookkeeping of a change that is being passed on to the subgroups ----

  /** Some group in `told` is at or above `p`. */
  ghost predicate Told(told: seq<Group>, p: Path) {
    exists h <- told :: Below(h.path, p)
  }

  ghost predicate ToldAt(told: seq<Group>, p: Path) {
    exists h <- told :: h.path == p
  }

  lemma NobodyTold()
    ensures forall p :: !Told([], p) && !ToldAt([], p)
  {
  }

  lemma NothingTold(groups: seq<Group>, at: Path, names: seq<string>, splits: seq<Path>, d: Delimiter)
    requires NoDup(groups) && SplitOf(at, names, splits, d)
    ensures forall p :: !Told([], p) && !ToldAt([], p)
    ensures Shared(groups, [], groups) && Ledger(groups, [], splits, splits, [])
  {
  }

  lemma ToldMore(told: seq<Group>, group: Group)
    ensures forall p :: Told(told + [group], p) <==> Told(told, p) || Below(group.path, p)
    ensures forall p :: ToldAt(told + [group], p) <==> ToldAt(told, p) || group.path == p
  {
    forall p
      ensures Told(told, p) || Below(group.path, p) ==> Told(told + [group], p)
      ensures ToldAt(told, p) || group.path == p ==> ToldAt(told + [group], p)
    {
      assert group in told + [group] && forall h <- told :: h in told + [group];
    }
  }

  ghost function PathsUnder(paths: set<Path>, at: Path): set<Path> {
    set q | q in paths && Below(at, q)
  }

  ghost function PathsTold(paths: set<Path>, told: seq<Group>): set<Path> {
    set q | q in paths && Told(told, q)
  }

  /** From a tree with groups at `paths0` and `calls0` to one with groups at `paths` and `calls`, exactly
      the groups in and below those of `told` were called, and the paths below `at` outside them kept. */
  ghost predicate Called(at: Path, paths0: set<Path>, calls0: multiset<Path>, paths: set<Path>, calls: multiset<Path>,
                         told: seq<Group>)
  {
    && (forall q | Below(at, q) && !Told(told, q) :: q in paths <==> q in paths0)
    && calls == calls0 + multiset(PathsTold(paths0, told))
  }

  lemma NoneCalled(at: Path, paths: set<Path>, calls: multiset<Path>)
    ensures Called(at, paths, calls, paths, calls, [])
  {
    NobodyTold();
    assert PathsTold(paths, []) == {};
  }

  /** Telling one group more calls the groups at and below it, which are as at the start. */
  lemma OneMoreCalled(at: Path, paths0: set<Path>, calls0: multiset<Path>, paths: set<Path>, calls: multiset<Path>,
                      told: seq<Group>, group: Group, paths': set<Path>, calls': multiset<Path>)
    requires Called(at, paths0, calls0, paths, calls, told)
    requires forall q :: Below(group.path, q) ==> Below(at, q) && !Told(told, q)
    requires forall q | !Below(group.path, q) :: q in paths' <==> q in paths
    requires calls' == calls + multiset(PathsUnder(paths, group.path))
    ensures Called(at, paths0, calls0, paths', calls', told + [group])
  {
    ToldMore(told, group);
    hide Told, Below;
    assert PathsTold(paths0, told) !! PathsUnder(paths, group.path);
    assert PathsTold(paths0, told + [group]) == PathsTold(paths0, told) + PathsUnder(paths, group.path);
  }

  lemma AllUnderRoot(paths: set<Path>)
    ensures PathsUnder(paths, []) == paths
  {
  }

  lemma CalledMeans(at: Path, paths0: set<Path>, calls0: multiset<Path>, paths: set<Path>, calls: multiset<Path>,
                    told: seq<Group>)
    requires Called(at, paths0, calls0, paths, calls, told)
    ensures calls == calls0 + multiset(PathsTold(paths0, told))
  {
  }

  lemma UntoldPart(told: seq<Group>, more: seq<Group>)
    ensures forall q :: !Told(told + more, q) ==> !Told(more, q)
  {
    assert forall h <- more :: h in told + more;
  }

  lemma CallsAll(at: Path, paths: set<Path>, groups: seq<Group>)
    requires at in paths
    requires forall q <- paths | Below(at, q) && q != at :: Told(groups, q)
    requires forall q :: Told(groups, q) ==> Below(at, q) && q != at
    ensures multiset{at} + multiset(PathsTold(paths, groups)) == multiset(PathsUnder(paths, at))
  {
    BelowSameLength(at, at);
    hide Told, Below;
    assert PathsUnder(paths, at) == {at} + PathsTold(paths, groups);
  }

  /** `told` and `left` share out `groups`. */
  ghost predicate Shared(groups: seq<Group>, told: seq<Group>, left: seq<Group>) {
    && NoDup(groups) && NoDup(told) && NoDup(left)
    && (forall h <- groups :: h in told || h in left)
    && (forall h <- told :: h in groups && h !in left)
    && (forall h <- left :: h in groups)
  }

  lemma ShareOne(groups: seq<Group>, told: seq<Group>, left: seq<Group>, group: Group)
    requires Shared(groups, told, left) && group in left
    ensures Shared(groups, told + [group], RemoveAt(left, Find(left, group)))
  {
    NoDupRemove(left, group);
  }

  lemma ShareAll(groups: seq<Group>, told: seq<Group>, left: seq<Group>)
    requires Shared(groups, told, left)
    ensures NoDup(told + left) && forall h :: h in told + left <==> h in groups
    ensures forall p :: Told(groups, p) <==> Told(told, p) || Told(left, p)
  {
    var all := told + left;
    forall i, j | 0 <= i < j < |all|
      ensures all[i] != all[j]
    {
      assert i < |told| ==> all[i] in told;
      assert j >= |told| ==> all[j] == left[j - |told|] && all[j] in left;
    }
  }

  lemma ToldAtHead(told: seq<Group>, i: nat)
    requires i < |told|
    ensures forall p :: ToldAt(told[i..], p) <==> told[i].path == p || ToldAt(told[i + 1..], p)
  {
    assert told[i..] == [told[i]] + told[i + 1..];
    forall p
      ensures told[i].path == p || ToldAt(told[i + 1..], p) ==> ToldAt(told[i..], p)
    {
      assert told[i] in told[i..] && forall h <- told[i + 1..] :: h in told[i..];
    }
  }

  lemma ShareHead(groups: seq<Group>, told: seq<Group>, left: seq<Group>)
    requires Shared(groups, told, left) && left != []
    ensures left[0] in left && left[0] in groups && left[0] !in told && forall h <- told :: h in groups
    ensures Shared(groups, told + [left[0]], left[1..])
  {
    assert Find(left, left[0]) == 0 && RemoveAt(left, 0) == left[1..];
    ShareOne(groups, told, left, left[0]);
  }

  lemma ShareEnd(groups: seq<Group>, told: seq<Group>)
    requires Shared(groups, told, [])
    ensures NoDup(told) && forall h :: h in groups <==> h in told
    ensures forall p :: ToldAt(told, p) <==> ToldAt(groups, p)
    ensures forall p :: Told(told, p) <==> Told(groups, p)
  {
  }

  /** Every request of `splits` is still in `rest`, was passed on to a told subgroup, or waits in
      `later` for a subgroup that does not exist. */
  ghost predicate Ledger(groups: seq<Group>, told: seq<Group>, splits: seq<Path>, rest: seq<Path>, later: seq<Path>) {
    && (forall r <- splits :: r != [])
    && (forall r <- rest :: r in splits && forall h <- told :: h.name != r[0])
    && (forall r <- later :: r in splits && forall h <- groups :: h.name != r[0])
    && (forall r <- splits :: r in rest || r in later || exists h <- told :: h.name == r[0])
  }

  lemma LedgerFresh(groups: seq<Group>, told: seq<Group>, splits: seq<Path>, rest: seq<Path>, later: seq<Path>)
    requires Ledger(groups, told, splits, rest, later) && rest != [] && rest[0] != []
    requires forall h <- groups :: h.name != rest[0][0]
    ensures Ledger(groups, told, splits, rest[1..], later + [rest[0]])
  {
  }

  lemma LedgerTold(groups: seq<Group>, told: seq<Group>, splits: seq<Path>, rest: seq<Path>, later: seq<Path>,
                   group: Group, rest': seq<Path>)
    requires Ledger(groups, told, splits, rest, later)
    requires forall r :: r in rest' <==> r in rest && r != [] && r[0] != group.name
    ensures Ledger(groups, told + [group], splits, rest', later)
  {
    assert group in told + [group] && forall h <- told :: h in told + [group];
  }

  /** A request for a path below `at` is one that the subgroup on the way takes. */
  lemma MergedProper(at: Path, names: seq<string>, own: string, m: string, bound: nat, d: Delimiter)
    requires IsPath(at, d) && ProperAll(at, names, bound, d)
    requires Parts(m, d) != [] && Parts(m, d)[0] == own && Asked(at, names, at + Parts(m, d), d)
    ensures Proper(at + [own], m, d) && |Target(at + [own], m, d)| <= bound
  {
    hide IsPath, Join, Parts;
    var r := Parts(m, d);
    var n := Join((at + r)[From(at)..], d);
    ProperTarget(at, n, d);
    assert Asked(at, [n], at + r, d);
    assert (at + [own])[..From(at + [own])] == at;
    PathTail(at + r, |at|, d);
    assert (at + r)[|at|..] == r;
  }

  /** The requests passed on to `group` ask for exactly what the original list asks for below it. */
  lemma MergedAsks(at: Path, names: seq<string>, groups: seq<Group>, told: seq<Group>, splits: seq<Path>,
                   rest: seq<Path>, later: seq<Path>, group: Group, merged: seq<string>, bound: nat, d: Delimiter)
    requires Ledger(groups, told, splits, rest, later)
    requires group in groups && group.path == at + [group.name] && forall h <- told :: h.name != group.name
    requires SplitOf(at, names, splits, d)
    requires forall r :: r != [] && r[0] == group.name && IsPath(r, d) ==> (Join(r, d) in merged <==> r in rest)
    requires forall m <- merged :: Parts(m, d) in rest && Parts(m, d) != [] && Parts(m, d)[0] == group.name
    requires IsPath(at, d) && ProperAll(at, names, bound, d)
    ensures forall p :: Below(group.path, p) ==> (Asked(group.path, merged, p, d) <==> Asked(at, names, p, d))
    ensures forall m <- merged :: Proper(group.path, m, d) && |Target(group.path, m, d)| <= bound
  {
    hide IsPath, Join;
    forall p | Below(group.path, p) && IsPath(p, d)
      ensures Asked(group.path, merged, p, d) <==> Asked(at, names, p, d)
    {
      var r := p[|at|..];
      PathTail(p, |at|, d);
      assert r[0] == group.path[|at|] == group.name && p[..|at|] == group.path[..|at|] == at;
      assert p == at + r;
      assert r in rest <==> r in splits;
    }
    forall m <- merged
      ensures Proper(group.path, m, d) && |Target(group.path, m, d)| <= bound
    {
      assert Parts(m, d) in splits;
      MergedProper(at, names, group.name, m, bound, d);
    }
  }

  lemma StillUntold(at: Path, groups: seq<Group>, told: seq<Group>, left: seq<Group>, group: Group)
    requires Shared(groups, told, left) && group in left
    requires group.path == at + [group.name] && forall h <- told :: h.path == at + [h.name] && h.name != group.name
    ensures group !in told && forall h <- told :: h in groups
    ensures forall p :: Below(group.path, p) ==> p != at && !ToldAt(told, p) && !Told(told, p)
  {
    forall h <- told
      ensures h.path != group.path && |h.path| == |group.path|
      ensures forall p :: Below(group.path, p) ==> !Below(h.path, p)
    {
      assert h.path[|at|] == h.name;
      forall p | Below(group.path, p)
        ensures !Below(h.path, p)
      {
        assert p[|at|] == group.path[|at|] == group.name;
      }
    }
  }

  /** The groups told first and those told afterwards are all. */
  lemma AllCalled(at: Path, paths0: set<Path>, calls0: multiset<Path>, paths: set<Path>, calls: multiset<Path>,
                  groups: seq<Group>, told: seq<Group>, left: seq<Group>, calls': multiset<Path>)
    requires Called(at, paths0, calls0, paths, calls, told) && calls' == calls + multiset(PathsTold(paths, left))
    requires Shared(groups, told, left) && forall h <- groups :: h.path == at + [h.name]
    requires forall h, h' :: h in groups && h' in groups && h.name == h'.name ==> h == h'
    ensures calls' == calls0 + multiset(PathsTold(paths0, groups))
  {
    ShareAll(groups, told, left);
    forall q | Told(left, q)
      ensures Below(at, q) && !Told(told, q)
    {
      var h :| h in left && Below(h.path, q);
      PrefixBelow(at, h.name);
      StillUntold(at, groups, told, left, h);
    }
    hide Told, Below;
    assert PathsTold(paths0, told) !! PathsTold(paths, left);
    assert PathsTold(paths0, groups) == PathsTold(paths0, told) + PathsTold(paths, left);
  }

  /** Once no request is left, those for subgroups that do not exist are exactly the ones set aside. */
  lemma LeftForLater(at: Path, names: seq<string>, groups: seq<Group>, told: seq<Group>, left: seq<Group>,
                     splits: seq<Path>, later: seq<Path>, d: Delimiter)
    requires Shared(groups, told, left) && Ledger(groups, told, splits, [], later)
    requires SplitOf(at, names, splits, d)
    requires forall h <- groups :: h.path == at + [h.name]
    requires forall h, h' :: h in groups && h' in groups && h.name == h'.name ==> h == h'
    ensures forall p :: Wanted(at, later, p) ==> Asked(at, names, p, d) && p != at
    ensures forall p :: Asked(at, names, p, d) && p != at && !Told(groups, p) ==> Wanted(at, later, p)
    ensures forall h, p :: h in left && Below(h.path, p) ==> !Asked(at, names, p, d)
    ensures forall r <- later :: r != [] && Asked(at, names, at + r, d)
  {
    hide IsPath, Join;
    forall p | Asked(at, names, p, d) && p != at
      ensures Told(groups, p) || Wanted(at, later, p)
      ensures forall h <- left :: !Below(h.path, p)
    {
      var r := p[|at|..];
      assert p == at + r && r in splits;
      forall h <- groups | Below(h.path, p)
        ensures r[0] == h.name
      {
        assert r[0] == p[|at|] == h.path[|at|];
      }
      if h :| h in told && h.name == r[0] {
        assert Below(h.path, p);
      }
    }
    forall h <- left
      ensures !Below(h.path, at)
    {
    }
  }

  /** What holds of the request at hand. */
  lemma LedgerHead(at: Path, names: seq<string>, groups: seq<Group>, told: seq<Group>, left: seq<Group>,
                   splits: seq<Path>, rest: seq<Path>, later: seq<Path>, d: Delimiter)
    requires Shared(groups, told, left) && Ledger(groups, told, splits, rest, later) && rest != []
    requires SplitOf(at, names, splits, d)
    ensures forall r <- rest :: r != [] && IsPath(r, d)
    ensures rest[0] != [] && forall h <- told :: h in groups && h.name != rest[0][0]
    ensures forall h <- groups :: h.name == rest[0][0] ==> h in left
  {
    hide IsPath;
    assert rest[0] in rest;
    forall r <- rest
      ensures IsPath(r, d)
    {
      PathTail(at + r, |at|, d);
      assert (at + r)[|at|..] == r;
    }
  }

  class GroupCache {
    var contacts: map<Contact, seq<Group>>
    var names: map<string, Group>

    constructor ()
      ensures contacts == map[] && names == map[]
    {
      contacts, names := map[], map[];
    }

    function GroupsFor(x: Contact): seq<Group>
      reads this`contacts
    {
      if x in contacts then contacts[x] else []
    }

    ghost function Listed(x: Contact): set<Group>
      reads this`contacts
    {
      set h <- GroupsFor(x)
    }

    lemma NothingListed()
      requires NoneEmpty() && forall y :: Listed(y) == {}
      ensures contacts == map[]
    {
      forall y | y in contacts
        ensures Listed(y) != {}
      {
        HeadListed(y);
      }
    }

    lemma HeadListed(y: Contact)
      requires y in contacts && contacts[y] != []
      ensures Listed(y) != {}
    {
      assert contacts[y][0] in GroupsFor(y) && contacts[y][0] in Listed(y);
    }

    ghost predicate NoneEmpty()
      reads this`contacts
    {
      forall x <- contacts :: contacts[x] != []
    }

    method AddContact(g: Group, x: Contact)
      modifies this`contacts
      ensures GroupsFor(x) == if g in old(GroupsFor(x)) then old(GroupsFor(x)) else old(GroupsFor(x)) + [g]
      ensures contacts == old(contacts)[x := GroupsFor(x)]
    {
      if x !in contacts {
        contacts := contacts[x := []];
      }
      if g !in contacts[x] {
        contacts := contacts[x := contacts[x] + [g]];
      }
    }

    method RemoveContact(g: Group, x: Contact)
      requires NoDup(GroupsFor(x))
      modifies this`contacts
      ensures g !in GroupsFor(x) && NoDup(GroupsFor(x))
      ensures forall y :: y != x ==> GroupsFor(y) == old(GroupsFor(y))
      ensures forall h :: h != g ==> (h in GroupsFor(x) <==> h in old(GroupsFor(x)))
      ensures GroupsFor(x) == [] ==> contacts == old(contacts) - {x}
      ensures GroupsFor(x) != [] ==> contacts == old(contacts)[x := GroupsFor(x)]
    {
      var found := GroupsFor(x);
      if g in found {
        found := RemoveAt(found, Find(found, g));
      }
      contacts := if found == [] then contacts - {x} else contacts[x := found];
    }

    method AddGroup(g: Group)
      requires g.Rooted()
      modifies this`names
      ensures names == old(names)[Join(g.path, g.model.delim) := g]
    {
      names := names[g.FullName() := g];
    }

    /** The same for a group that is being torn down: the names above it are gone already, so its
        full name is just `name`. */
    method RemoveName(name: string)
      modifies this`names
      ensures names == old(names) - {name}
    {
      names := names - {name};
    }

    method RemoveGroup(g: Group)
      requires g.Rooted()
      modifies this`names
      ensures names == old(names) - {Join(g.path, g.model.delim)}
    {
      names := names - {g.FullName()};
    }
  }

  class Group {
    const model: ContactListModel
    const parent: Group?
    const name: string
    /** The names from the root down to this group. */
    ghost const path: Path

    var contacts: seq<Contact>
    var groups: seq<Group>
    var items: seq<Item>
    var haveOnlineContacts: bool
    var timerActive: bool

    constructor (model: ContactListModel, parent: Group?, name: string)
      requires parent != null ==> parent.Rooted() && name != "" && parent.model == model
      requires parent == null ==> name == ""
      ensures this.model == model && this.parent == parent && this.name == name
      ensures path == if parent == null then [] else parent.path + [name]
      ensures contacts == [] && groups == [] && items == [] && !haveOnlineContacts && !timerActive
      ensures Rooted()
    {
      this.model, this.parent, this.name := model, parent, name;
      path := if parent == null then [] else parent.path + [name];
      contacts, groups, items := [], [], [];
      haveOnlineContacts, timerActive := false, false;
    }

    ghost predicate Rooted()
      decreases |path|
    {
      if parent == null then path == [] && name == ""
      else name != "" && path == parent.path + [name] && parent.model == model && parent.Rooted()
    }

    /** A view knows a group by its model index, and the root by the invalid one. */
    ghost function RowsKey(): Group? {
      if parent == null then null else this
    }

    /** The non-empty names on the way up, outermost first. */
    function NamesUp(): (names: Path)
      requires Rooted()
      ensures names == path
      decreases |path|
    {
      (if parent == null then [] else parent.NamesUp()) + (if name == "" then [] else [name])
    }

    function FullName(): (full: string)
      requires Rooted()
      ensures full == Join(path, model.delim)
    {
      Join(NamesUp(), model.delim)
    }

    function IndexOf(i: Item): (r: nat)
      requires i in items
      reads this
      ensures r < |items| && items[r] == i && i !in items[..r]
    {
      Find(items, i)
    }

    function ToModelIndex(): ModelIndex
      requires parent != null ==> GroupItem(this) in parent.items
      reads parent
    {
      if parent == null then NoIndex
      else Index(parent.IndexOf(GroupItem(this)), parent, GroupItem(this))
    }

    method AddItem(item: Item)
      requires item !in items
      requires parent != null ==> GroupItem(this) in parent.items
      requires parent == null ==> this == model.root
      requires model.signal.Idle?
      requires model.emitDeltaSignals ==> RowsKey() in model.view && model.view[RowsKey()] == items
      modifies this`items, this`timerActive
      modifies model`view, model`signal, model`doResetAfterBulkUpdate
      ensures items == old(items) + [item] && timerActive
      ensures model.signal.Idle? && model.doResetAfterBulkUpdate
      ensures !model.emitDeltaSignals ==> model.view == old(model.view)
      ensures model.emitDeltaSignals && item.ContactItem? ==> model.view == old(model.view)[RowsKey() := items]
      ensures model.emitDeltaSignals && item.GroupItem? ==>
        model.view == old(model.view)[RowsKey() := items][item.group := item.group.items]
    {
      var index := |items|;
      model.ItemAboutToBeInserted(this, index);
      items := items + [item];
      assert old(items)[..index] + [item] + old(items)[index..] == items;
      model.InsertedItem(this, index);
      timerActive := true;
    }

    method RemoveItem(item: Item)
      requires item in items
      requires parent != null ==> GroupItem(this) in parent.items
      requires parent == null ==> this == model.root
      requires model.signal.Idle?
      requires model.emitDeltaSignals ==> RowsKey() in model.view && model.view[RowsKey()] == items
      modifies this`items, this`timerActive
      modifies model`view, model`signal, model`doResetAfterBulkUpdate
      ensures items == RemoveAt(old(items), Find(old(items), item)) && timerActive
      ensures model.signal.Idle? && model.doResetAfterBulkUpdate
      ensures !model.emitDeltaSignals ==> model.view == old(model.view)
      ensures model.emitDeltaSignals && item.ContactItem? ==> model.view == old(model.view)[RowsKey() := items]
      ensures model.emitDeltaSignals && item.GroupItem? ==>
        model.view == old(model.view)[RowsKey() := items] - {item.group}
    {
      var index := IndexOf(item);
      model.ItemAboutToBeRemoved(this, index);
      items := RemoveAt(items, index);
      model.RemovedItem(this, index);
      timerActive := true;
    }

    // ---- the steps every larger operation is made of; each keeps the whole invariant ----

    /** ContactListGroup::addContact. */
    method AddSelf(x: Contact, names: seq<string>)
      requires model.Inv() && model.Live(this)
      modifies this`contacts, this`items, this`timerActive
      modifies model`view, model`signal, model`doResetAfterBulkUpdate, model.cache`contacts
      ensures model.Inv()
      ensures contacts == old(contacts) + if names == [] || x in old(contacts) then [] else [x]
      ensures timerActive || (!old(timerActive) && contacts == old(contacts))
      ensures x in old(contacts) ==> model.Marks() == old(model.Marks())
      ensures |items| >= |old(items)| && (names != [] ==> items != [])
    {
      hide Agree, ContactListModel.TreeInv, ContactListModel.ContactsInv, ContactListModel.NamesInv,
        ContactListModel.ViewInv, ContactListModel.FlagInv, Group.Rooted, NoDup, GroupCache.GroupsFor, Find,
        RemoveAt;
      Ready();
      if names != [] && ContactItem(x) !in items {
        contacts := contacts + [x];
        AddItem(ContactItem(x));
        model.cache.AddContact(this, x);
        KeepsAgreement(ContactItem(x));
        KeepsTree();
        ContactAddedKeepsCache(x);
        KeepsView();
      }
    }

    /** ContactListGroup::removeContact. */
    method RemoveSelf(x: Contact)
      requires model.Inv() && model.Live(this)
      requires x in contacts
      modifies this`contacts, this`items, this`timerActive
      modifies model`view, model`signal, model`doResetAfterBulkUpdate, model.cache`contacts
      ensures model.Inv()
      ensures x !in contacts && forall y :: y != x ==> (y in contacts <==> y in old(contacts))
    {
      hide Agree, ContactListModel.TreeInv, ContactListModel.ContactsInv, ContactListModel.NamesInv,
        ContactListModel.ViewInv, ContactListModel.FlagInv;
      Ready();
      var index := Find(contacts, x);
      RemoveItem(ContactItem(x));
      contacts := RemoveAt(contacts, index);
      NoDupRemove(old(contacts), x);
      model.cache.RemoveContact(this, x);
      KeepsAgreement(ContactItem(x));
      KeepsTree();
      ContactRemovedKeepsCache(x);
      KeepsView();
    }

    method CreateChild(n: string) returns (group: Group)
      requires model.Inv() && model.Live(this)
      requires n != "" && IsPath(path + [n], model.delim) && path + [n] !in model.tree
      modifies this`groups, this`items, this`timerActive
      modifies model`tree, model`view, model`signal, model`doResetAfterBulkUpdate, model.cache`names
      ensures model.Inv()
      ensures fresh(group) && model.tree == old(model.tree)[path + [n] := group]
      ensures group.model == model && group.path == path + [n] && group.parent == this
      ensures group.items == [] && group.contacts == [] && group.groups == []
      ensures items != [] && timerActive
    {
      hide Agree, Group.Rooted, ContactListModel.TreeInv, ContactListModel.ContactsInv, ContactListModel.NamesInv,
        ContactListModel.ViewInv, ContactListModel.FlagInv, ContactListModel.NodeOk, Join, Cut;
      Ready();
      group := new Group(model, this, n);
      model.cache.AddGroup(group);
      groups := groups + [group];
      AddItem(GroupItem(group));
      model.tree := model.tree[path + [n] := group];
      CreatedKeepsAgreement(group);
      CreatedKeepsTree(n);
      CreatedKeepsContacts(n);
      CreatedKeepsView(n);
      CreatedKeepsNames(n);
    }

    method DeleteChild(group: Group)
      requires model.Inv() && model.Live(this)
      requires group in groups && group.items == []
      modifies this`groups, this`items, this`timerActive
      modifies model`tree, model`view, model`signal, model`doResetAfterBulkUpdate, model.cache`names
      ensures model.Inv()
      ensures model.tree == old(model.tree) - {group.path}
      ensures Deleted(group.name) && model.Live(this)
    {
      hide Agree, Group.Rooted, ContactListModel.TreeInv, ContactListModel.ContactsInv, ContactListModel.NamesInv,
        ContactListModel.ViewInv, ContactListModel.FlagInv, ContactListModel.NodeOk, Join, Cut, Find, RemoveAt, NoDup,
        GroupCache.GroupsFor;
      Ready();
      RemoveItem(GroupItem(group));
      groups := RemoveAt(groups, Find(groups, group));
      model.cache.RemoveGroup(group);
      model.tree := model.tree - {group.path};
      DeletedKeepsTree(group.name);
      DeletedKeepsContacts(group.name);
      DeletedKeepsView(group.name);
      DeletedKeepsNames(group.name);
    }

    // ---- the nested group's operations ----

    method FindGroup(n: string) returns (group: Group?)
      requires model.Inv() && model.Live(this)
      ensures group == null <==> path + [n] !in model.tree
      ensures group == null ==> forall h <- groups :: h.name != n
      ensures group != null ==> group in groups && group.name == n && group == model.tree[path + [n]]
    {
      group := null;
      hide ContactListModel.TreeInv, ContactListModel.ContactsInv, ContactListModel.NamesInv,
        ContactListModel.ViewInv, ContactListModel.FlagInv;
      for i := 0 to |groups|
        invariant forall h <- groups[..i] :: h.name != n
      {
        if groups[i].name == n {
          ChildAt(n);
          Ready();
          return groups[i];
        }
      }
      ChildAt(n);
    }

    lemma ChildAt(n: string)
      requires model.TreeInv() && model.Live(this)
      ensures path + [n] in model.tree <==> exists h :: h in groups && h.name == n
      ensures path + [n] in model.tree ==> model.tree[path + [n]] in groups
      ensures forall h <- groups :: h.name == n ==> path + [n] in model.tree && model.tree[path + [n]] == h
    {
      hide Group.Rooted, Agree;
      Children();
      var p := path + [n];
      if p in model.tree {
        assert model.NodeOk(p) && Init(p) == path;
        LastName(model.tree[p]);
      }
    }

    lemma LastName(g: Group)
      requires g.Rooted()
      ensures g.path != [] ==> g.name == Last(g.path)
    {
    }

    /** What the tree alone says about a group and its subgroups. */
    lemma Children()
      requires model.TreeInv() && model.Live(this)
      ensures Agree(contacts, groups, items) && NoDup(groups) && NoDup(contacts)
      ensures items == [] ==> groups == [] && contacts == []
      ensures name == (if path == [] then "" else Last(path)) && (parent == null <==> path == [])
      ensures forall h <- groups :: model.Live(h) && h.parent == this && h.path == path + [h.name] && h.model == model
    {
      hide Agree;
      assert model.NodeOk(path);
      AgreeParts(contacts, groups, items);
      forall h <- groups
        ensures h.path == path + [h.name] && h.model == model
      {
        assert model.NodeOk(h.path);
      }
    }

    method AddContact(x: Contact, names: seq<string>, ghost bound: nat)
      requires model.Inv() && model.Live(this)
      requires ProperAll(path, names, bound, model.delim)
      requires model.Shallow(bound)
      modifies model.tree.Values, model.cache
      modifies model`tree, model`view, model`signal, model`doResetAfterBulkUpdate
      ensures model.Inv() && model.Live(this)
      ensures model.Rest(path) == old(model.Rest(path)) && fresh(model.tree.Values - old(model.tree.Values))
      ensures forall p, y :: model.At(p, y) <==> old(model.At(p, y)) || (y == x && Asked(path, names, p, model.delim))
      ensures forall p <- old(model.tree) :: p in model.tree && model.tree[p] == old(model.tree[p])
      ensures forall p :: old(model.Ticking(p)) || (model.At(p, x) && !old(model.At(p, x))) ==> model.Ticking(p)
      ensures forall p :: model.Empty(p) ==> old(model.Empty(p))
      ensures model.Shallow(bound)
      ensures names != [] ==> items != []
      ensures (forall p :: Asked(path, names, p, model.delim) ==> old(model.At(p, x))) ==>
        model.Marks() == old(model.Marks())
      decreases bound - |path|, 3
    {
      hide ContactListModel.Inv, Proper, Target, Asked, Join, IsPath, Group.Rooted;
      Ready();
      assert names[..|names|] == names;
      assert forall p :: !Asked(path, names[..0], p, model.delim) by {
        AskedNone(path, model.delim);
      }
      for i := 0 to |names|
        invariant model.Inv() && model.Live(this)
        invariant model.Rest(path) == old(model.Rest(path)) && fresh(model.tree.Values - old(model.tree.Values))
        invariant forall p, y :: model.At(p, y) <==>
          old(model.At(p, y)) || (y == x && Asked(path, names[..i], p, model.delim))
        invariant forall p <- old(model.tree) :: p in model.tree && model.tree[p] == old(model.tree[p])
        invariant forall p :: old(model.Ticking(p)) || (model.At(p, x) && !old(model.At(p, x))) ==> model.Ticking(p)
        invariant forall p :: model.Empty(p) ==> old(model.Empty(p))
        invariant model.Shallow(bound)
        invariant i != 0 ==> items != []
        invariant (forall p :: Asked(path, names[..i], p, model.delim) ==> old(model.At(p, x))) ==>
          model.Marks() == old(model.Marks())
      {
        AskedMore(path, names, i, model.delim);
        AddOne(x, names, i, bound);
      }
    }

    method AddOne(x: Contact, names: seq<string>, i: nat, ghost bound: nat)
      requires model.Inv() && model.Live(this) && i < |names|
      requires Proper(path, names[i], model.delim) && |Target(path, names[i], model.delim)| <= bound
      requires model.Shallow(bound)
      modifies model.tree.Values, model.cache
      modifies model`tree, model`view, model`signal, model`doResetAfterBulkUpdate
      ensures model.Inv() && model.Live(this)
      ensures model.Rest(path) == old(model.Rest(path)) && fresh(model.tree.Values - old(model.tree.Values))
      ensures forall p, y :: model.At(p, y) <==>
        old(model.At(p, y)) || (y == x && p == Target(path, names[i], model.delim))
      ensures forall p <- old(model.tree) :: p in model.tree && model.tree[p] == old(model.tree[p])
      ensures forall p :: old(model.Ticking(p)) || (model.At(p, x) && !old(model.At(p, x))) ==> model.Ticking(p)
      ensures forall p :: model.Empty(p) ==> old(model.Empty(p))
      ensures model.Shallow(bound)
      ensures items != []
      ensures old(model.At(Target(path, names[i], model.delim), x)) ==> model.Marks() == old(model.Marks())
      decreases bound - |path|, 2
    {
      hide *;
      Ready();
      ProperSelf(path, names[i], model.delim);
      if names[i] == name {
        AddHere(x, names);
      } else {
        AddBelow(x, names[i], bound);
      }
    }

    method AddHere(x: Contact, names: seq<string>)
      requires model.Inv() && model.Live(this) && names != []
      modifies model.tree.Values, model.cache
      modifies model`view, model`signal, model`doResetAfterBulkUpdate
      ensures model.Inv() && model.Rest(path) == old(model.Rest(path))
      ensures forall p, y :: model.At(p, y) <==> old(model.At(p, y)) || (y == x && p == path)
      ensures forall p :: old(model.Ticking(p)) || (model.At(p, x) && !old(model.At(p, x))) ==> model.Ticking(p)
      ensures forall p :: model.Empty(p) ==> old(model.Empty(p))
      ensures items != []
      ensures old(model.At(path, x)) ==> model.Marks() == old(model.Marks())
    {
      hide ContactListModel.Inv, ContactListModel.Marks, Group.Rooted;
      model.PathsUnique();
      BelowSameLength(path, path);
      AddSelf(x, names);
    }

    /** One name that leads further down: find or create the subgroup it names and pass on the rest. */
    method AddBelow(x: Contact, groupName: string, ghost bound: nat)
      requires model.Inv() && model.Live(this)
      requires Proper(path, groupName, model.delim) && |Target(path, groupName, model.delim)| <= bound
      requires Target(path, groupName, model.delim) != path
      requires model.Shallow(bound)
      modifies model.tree.Values, model.cache
      modifies model`tree, model`view, model`signal, model`doResetAfterBulkUpdate
      ensures model.Inv() && model.Live(this)
      ensures model.Rest(path) == old(model.Rest(path)) && fresh(model.tree.Values - old(model.tree.Values))
      ensures forall p, y :: model.At(p, y) <==>
        old(model.At(p, y)) || (y == x && p == Target(path, groupName, model.delim))
      ensures forall p <- old(model.tree) :: p in model.tree && model.tree[p] == old(model.tree[p])
      ensures forall p :: old(model.Ticking(p)) || (model.At(p, x) && !old(model.At(p, x))) ==> model.Ticking(p)
      ensures forall p :: model.Empty(p) ==> old(model.Empty(p))
      ensures model.Shallow(bound)
      ensures items != []
      ensures old(model.At(Target(path, groupName, model.delim), x)) ==> model.Marks() == old(model.Marks())
      decreases bound - |path|, 1
    {
      hide ContactListModel.Inv, Proper, Target, Asked, Join, IsPath, Group.Rooted, Split;
      Ready();
      ghost var t := Target(path, groupName, model.delim);
      var nestedGroups := Split(groupName, model.delim);
      if name != "" {
        nestedGroups := nestedGroups[1..];
      }
      NestedParts(path, groupName, model.delim);
      ProperTarget(path, groupName, model.delim);
      ProperBelow(path, t, model.delim);
      var n := nestedGroups[0];
      AddThrough(x, n, Join(nestedGroups, model.delim), t, bound);
    }

    method AddThrough(x: Contact, n: string, rest: string, ghost t: Path, ghost bound: nat)
      requires model.Inv() && model.Live(this)
      requires n != "" && IsPath(path + [n], model.delim)
      requires Proper(path + [n], rest, model.delim) && t == Target(path + [n], rest, model.delim)
        && |path| < |t| <= bound
      requires model.Shallow(bound)
      modifies model.tree.Values, model.cache
      modifies model`tree, model`view, model`signal, model`doResetAfterBulkUpdate
      ensures model.Inv() && model.Live(this)
      ensures model.Rest(path) == old(model.Rest(path)) && fresh(model.tree.Values - old(model.tree.Values))
      ensures forall p, y :: model.At(p, y) <==> old(model.At(p, y)) || (y == x && p == t)
      ensures forall p <- old(model.tree) :: p in model.tree && model.tree[p] == old(model.tree[p])
      ensures forall p :: old(model.Ticking(p)) || (model.At(p, x) && !old(model.At(p, x))) ==> model.Ticking(p)
      ensures forall p :: model.Empty(p) ==> old(model.Empty(p))
      ensures model.Shallow(bound)
      ensures items != []
      ensures old(model.At(t, x)) ==> model.Marks() == old(model.Marks())
      decreases bound - |path|, 0
    {
      hide ContactListModel.Inv, ContactListModel.At, ContactListModel.Rest, ContactListModel.Ticking,
        ContactListModel.Marks, Proper, Target, Asked, IsPath, Join, Split, Group.Rooted;
      PrefixBelow(path, n);
      ProperTarget(path + [n], rest, model.delim);
      model.OnTheWay(path + [n], t, x);
      var group := EnsureChild(n);
      label Ensured:
      group.AddContact(x, [rest], bound);
      model.RestWider@Ensured(path, n);
      KeptOutside@Ensured(path + [n]);
    }

    method EnsureChild(n: string) returns (group: Group)
      requires model.Inv() && model.Live(this)
      requires n != "" && IsPath(path + [n], model.delim)
      modifies this`groups, this`items, this`timerActive
      modifies model`tree, model`view, model`signal, model`doResetAfterBulkUpdate, model.cache`names
      ensures model.Inv() && model.Live(this) && items != [] && (old(timerActive) ==> timerActive)
      ensures model.Live(group) && group.path == path + [n] && group.model == model
      ensures model.tree == old(model.tree)[path + [n] := group]
      ensures path + [n] in old(model.tree) ==>
        group == old(model.tree)[path + [n]] && model.Marks() == old(model.Marks())
      ensures path + [n] !in old(model.tree) ==> fresh(group)
      ensures model.Rest(path) == old(model.Rest(path)) && forall p, y :: model.At(p, y) <==> old(model.At(p, y))
      ensures forall p :: old(model.Ticking(p)) ==> model.Ticking(p)
      ensures forall p :: model.Empty(p) ==> old(model.Empty(p)) || p == path + [n]
    {
      hide ContactListModel.Inv, IsPath, Group.Rooted, Agree, ContactListModel.NodeOk;
      Ready();
      PrefixBelow(path, n);
      model.PathsUnique();
      var found := FindGroup(n);
      if found == null {
        group := CreateChild(n);
      } else {
        group := found;
        assert GroupItem(group) in items;
      }
    }

    /** ContactListNestedGroup::contactGroupsChanged. It calls itself once for each group there is below. */
    method ContactGroupsChanged(x: Contact, names: seq<string>, ghost bound: nat)
      requires model.Inv() && model.Live(this)
      requires ProperAll(path, names, bound, model.delim)
      requires model.Shallow(bound)
      requires forall p :: model.Empty(p) && Below(path, p) ==> p == path
      modifies model.tree.Values, model.cache
      modifies model`tree, model`view, model`signal, model`doResetAfterBulkUpdate, model`calls
      ensures model.Inv() && model.Live(this)
      ensures model.Rest(path) == old(model.Rest(path)) && fresh(model.tree.Values - old(model.tree.Values))
      ensures forall p, y :: model.At(p, y) <==>
        if y == x && Below(path, p) then Asked(path, names, p, model.delim) else old(model.At(p, y))
      ensures model.Shallow(bound)
      ensures forall p :: model.Empty(p) && Below(path, p) ==> p == path
      ensures model.calls == old(model.calls) + multiset(PathsUnder(old(model.tree).Keys, path))
      decreases bound - |path|, 6
    {
      hide *;
      model.calls := model.calls + multiset{path};
      CalledBelow();
      ChangeGroups(x, names, bound);
    }

    /** What the call does. */
    method ChangeGroups(x: Contact, names: seq<string>, ghost bound: nat)
      requires model.Inv() && model.Live(this)
      requires ProperAll(path, names, bound, model.delim)
      requires model.Shallow(bound)
      requires forall p :: model.Empty(p) && Below(path, p) ==> p == path
      modifies model.tree.Values, model.cache
      modifies model`tree, model`view, model`signal, model`doResetAfterBulkUpdate, model`calls
      ensures model.Inv() && model.Live(this)
      ensures model.Rest(path) == old(model.Rest(path)) && fresh(model.tree.Values - old(model.tree.Values))
      ensures forall p, y :: model.At(p, y) <==>
        if y == x && Below(path, p) then Asked(path, names, p, model.delim) else old(model.At(p, y))
      ensures model.Shallow(bound)
      ensures forall p :: model.Empty(p) && Below(path, p) ==> p == path
      ensures model.calls == old(model.calls) + multiset(PathsTold(old(model.tree).Keys, old(groups)))
      decreases bound - |path|, 5
    {
      hide *;
      Ready();
      AtBelow();
      BelowSameLength(path, path);
      AskedBounds(path, names, bound, model.delim);
      var addToSelf, splits := SplitRequests(names, bound);
      var newGroups, emptyGroups;
      newGroups, emptyGroups := PassOn(x, names, splits, bound);
      RemoveEmpty(emptyGroups, bound);
      CreateNew(x, newGroups, bound);
      Settle(x, addToSelf, names, bound);
    }

    /** Passes the change on to every subgroup, whether or not a request mentions it. */
    method PassOn(x: Contact, names: seq<string>, splits: seq<Path>, ghost bound: nat)
      returns (newGroups: seq<Path>, emptyGroups: seq<Group>)
      requires model.Inv() && model.Live(this) && model.Shallow(bound)
      requires ProperAll(path, names, bound, model.delim)
      requires forall p :: model.Empty(p) && Below(path, p) ==> p == path
      requires SplitOf(path, names, splits, model.delim)
      modifies model.tree.Values, model.cache
      modifies model`tree, model`view, model`signal, model`doResetAfterBulkUpdate, model`calls
      ensures model.Inv() && model.Live(this) && model.Shallow(bound)
      ensures groups == old(groups)
      ensures model.Rest(path) == old(model.Rest(path)) && fresh(model.tree.Values - old(model.tree.Values))
      ensures forall p, y :: model.At(p, y) <==>
        if y == x && Told(groups, p) then Asked(path, names, p, model.delim) else old(model.At(p, y))
      ensures NoDup(emptyGroups) && forall h <- emptyGroups :: h in groups && h.items == []
      ensures forall p :: model.Empty(p) && Below(path, p) ==> p == path || ToldAt(emptyGroups, p)
      ensures model.calls == old(model.calls) + multiset(PathsTold(old(model.tree).Keys, groups))
      ensures forall p :: Wanted(path, newGroups, p) ==> Asked(path, names, p, model.delim) && p != path
      ensures forall p :: Asked(path, names, p, model.delim) && p != path && !Told(groups, p) ==>
        Wanted(path, newGroups, p)
      ensures forall r <- newGroups :: r != [] && Asked(path, names, path + r, model.delim)
      decreases bound - |path|, 4
    {
      hide *;
      Ready();
      AtBelow();
      var unnotified;
      ghost var told;
      newGroups, unnotified, emptyGroups, told := NotifyListed(x, names, splits, bound);
      LeftForLater(path, names, groups, told, unnotified, splits, newGroups, model.delim);
      ShareAll(groups, told, unnotified);
      ghost var paths, calls := model.tree.Keys, model.calls;
      emptyGroups := NotifyRest(x, names, unnotified, emptyGroups, told, bound);
      AllCalled(path, old(model.tree).Keys, old(model.calls), paths, calls, groups, told, unnotified, model.calls);
    }

    /** Removes the subgroups that the change has left without rows. */
    method RemoveEmpty(emptyGroups: seq<Group>, ghost bound: nat)
      requires model.Shallow(bound)
      requires model.Inv() && model.Live(this)
      requires NoDup(emptyGroups) && forall h <- emptyGroups :: h in groups && h.items == []
      requires forall p :: model.Empty(p) && Below(path, p) ==> p == path || ToldAt(emptyGroups, p)
      modifies model.tree.Values, model.cache
      modifies model`tree, model`view, model`signal, model`doResetAfterBulkUpdate
      ensures model.Inv() && model.Live(this)
      ensures model.Rest(path) == old(model.Rest(path))
      ensures fresh(model.tree.Values - old(model.tree.Values)) && model.Shallow(bound)
      ensures forall p, y :: model.At(p, y) <==> old(model.At(p, y))
      ensures forall p :: model.Empty(p) && Below(path, p) ==> p == path
    {
      hide *;
      Ready();
      NobodyTold();
      assert emptyGroups[0..] == emptyGroups && emptyGroups[|emptyGroups|..] == [];
      for i := 0 to |emptyGroups|
        invariant model.Inv() && model.Live(this)
        invariant model.Rest(path) == old(model.Rest(path))
        invariant fresh(model.tree.Values - old(model.tree.Values)) && model.Shallow(bound)
        invariant forall p, y :: model.At(p, y) <==> old(model.At(p, y))
        invariant forall h <- emptyGroups[i..] :: h in groups && h.items == []
        invariant forall p :: model.Empty(p) && Below(path, p) ==> p == path || ToldAt(emptyGroups[i..], p)
      {
        ToldAtHead(emptyGroups, i);
        NoDupHead(emptyGroups, i);
        DeleteEmpty(emptyGroups[i], bound);
      }
    }

    method DeleteEmpty(group: Group, ghost bound: nat)
      requires model.Shallow(bound)
      requires model.Inv() && model.Live(this) && group in groups && group.items == []
      modifies this`groups, this`items, this`timerActive
      modifies model`tree, model`view, model`signal, model`doResetAfterBulkUpdate, model.cache`names
      ensures model.Inv() && model.Live(this)
      ensures model.Rest(path) == old(model.Rest(path))
      ensures fresh(model.tree.Values - old(model.tree.Values)) && model.Shallow(bound)
      ensures forall p, y :: model.At(p, y) <==> old(model.At(p, y))
      ensures forall h :: h in groups <==> h in old(groups) && h != group
      ensures forall h <- old(groups) :: h.items == old(h.items)
      ensures forall p :: model.Empty(p) ==> p == path || (old(model.Empty(p)) && p != group.path)
    {
      hide *;
      Ready();
      SiblingsApart(group);
      DeleteChild(group);
      DeletedFrame(group.name);
      DeletedHolds(group.name, bound);
      DeletedGroups(group.name);
    }

    /** Creates the groups no subgroup could take. */
    method CreateNew(x: Contact, newGroups: seq<Path>, ghost bound: nat)
      requires model.Inv() && model.Live(this)
      requires forall r <- newGroups :: IsPath(path + r, model.delim) && r != [] && |path + r| <= bound
      requires model.Shallow(bound)
      modifies model.tree.Values, model.cache
      modifies model`tree, model`view, model`signal, model`doResetAfterBulkUpdate
      ensures model.Inv() && model.Live(this)
      ensures model.Rest(path) == old(model.Rest(path)) && fresh(model.tree.Values - old(model.tree.Values))
      ensures forall p, y :: model.At(p, y) <==> old(model.At(p, y)) || (y == x && Wanted(path, newGroups, p))
      ensures forall p :: model.Empty(p) ==> old(model.Empty(p))
      ensures model.Shallow(bound)
      decreases bound - |path|, 4
    {
      hide *;
      Ready();
      WantedMore(path, [], []);
      assert newGroups[..|newGroups|] == newGroups;
      for i := 0 to |newGroups|
        invariant model.Inv() && model.Live(this)
        invariant model.Rest(path) == old(model.Rest(path)) && fresh(model.tree.Values - old(model.tree.Values))
        invariant forall p, y :: model.At(p, y) <==> old(model.At(p, y)) || (y == x && Wanted(path, newGroups[..i], p))
        invariant forall p :: model.Empty(p) ==> old(model.Empty(p))
        invariant model.Shallow(bound)
      {
        var fullGroupName := (if name == "" then [] else [name]) + newGroups[i];
        assert newGroups[..i + 1] == newGroups[..i] + [newGroups[i]];
        WantedMore(path, newGroups[..i], newGroups[i]);
        ProperFull(path, name, newGroups[i], model.delim);
        ProperTarget(path, Join(fullGroupName, model.delim), model.delim);
        ProperOne(path, Join(fullGroupName, model.delim), bound, model.delim);
        AddContact(x, [Join(fullGroupName, model.delim)], bound);
      }
    }

    /** Puts the contact into this group itself, or takes it out. */
    method Settle(x: Contact, addToSelf: bool, names: seq<string>, ghost bound: nat)
      requires model.Inv() && model.Live(this)
      requires ProperAll(path, names, bound, model.delim)
      requires model.Shallow(bound)
      requires addToSelf <==> Asked(path, names, path, model.delim)
      requires forall p :: Below(path, p) && p != path ==> (model.At(p, x) <==> Asked(path, names, p, model.delim))
      requires forall p :: Asked(path, names, p, model.delim) ==> Below(path, p)
      requires forall p :: model.Empty(p) && Below(path, p) ==> p == path
      modifies model.tree.Values, model.cache
      modifies model`tree, model`view, model`signal, model`doResetAfterBulkUpdate
      ensures model.Inv() && model.Live(this)
      ensures model.Rest(path) == old(model.Rest(path)) && fresh(model.tree.Values - old(model.tree.Values))
      ensures forall p, y :: model.At(p, y) <==> if y == x && p == path then addToSelf else old(model.At(p, y))
      ensures model.Shallow(bound)
      ensures forall p :: model.Empty(p) && Below(path, p) ==> p == path
      decreases bound - |path|, 4
    {
      hide *;
      Ready();
      AskedNone(path, model.delim);
      BelowSameLength(path, path);
      assert model.At(path, x) <==> x in contacts by {
        model.AtHere(this, x);
      }
      if addToSelf {
        if ContactItem(x) !in items {
          SelfGroupsChanged(x, names, bound);
        }
      } else {
        if ContactItem(x) in items {
          SelfGroupsChanged(x, [], bound);
        }
      }
    }

    /** ContactListGroup::contactGroupsChanged; the call to addContact goes to the nested group. */
    method SelfGroupsChanged(x: Contact, names: seq<string>, ghost bound: nat)
      requires model.Inv() && model.Live(this) && model.Shallow(bound)
      requires ProperAll(path, names, bound, model.delim)
      modifies model.tree.Values, model.cache
      modifies model`tree, model`view, model`signal, model`doResetAfterBulkUpdate
      ensures model.Inv() && model.Live(this) && model.Shallow(bound)
      ensures model.Rest(path) == old(model.Rest(path)) && fresh(model.tree.Values - old(model.tree.Values))
      ensures forall p, y :: model.At(p, y) <==>
        if names == [] then old(model.At(p, y)) && !(y == x && p == path)
        else old(model.At(p, y)) || (y == x && x !in old(contacts) && Asked(path, names, p, model.delim))
      ensures forall p :: model.Empty(p) ==> p == path || old(model.Empty(p))
      decreases bound - |path|, 4
    {
      hide *;
      Ready();
      if names == [] {
        DropSelf(x, bound);
      } else if ContactItem(x) !in items {
        AddContact(x, names, bound);
      }
      StartTimer();
    }

    method DropSelf(x: Contact, ghost bound: nat)
      requires model.Inv() && model.Live(this) && model.Shallow(bound)
      modifies this`contacts, this`items, this`timerActive
      modifies model`view, model`signal, model`doResetAfterBulkUpdate, model.cache`contacts
      ensures model.Inv() && model.Live(this) && model.Shallow(bound)
      ensures model.Rest(path) == old(model.Rest(path))
      ensures forall p, y :: model.At(p, y) <==> old(model.At(p, y)) && !(y == x && p == path)
      ensures forall p :: model.Empty(p) ==> p == path || old(model.Empty(p))
    {
      hide ContactListModel.Inv, Group.Rooted, Agree;
      model.PathsUnique();
      if x in contacts {
        RemoveSelf(x);
      }
    }

    method StartTimer()
      requires model.Inv() && model.Live(this)
      modifies this`timerActive
      ensures model.Inv() && model.Live(this) && timerActive
      ensures model.Rest(path) == old(model.Rest(path))
      ensures forall p, y :: model.At(p, y) <==> old(model.At(p, y))
      ensures forall p :: model.Empty(p) <==> old(model.Empty(p))
      ensures forall bound :: old(model.Shallow(bound)) ==> model.Shallow(bound)
    {
      hide ContactListModel.TreeInv, ContactListModel.ContactsInv, ContactListModel.NamesInv,
        ContactListModel.ViewInv, ContactListModel.FlagInv, Agree;
      Ready();
      timerActive := true;
      KeepsTree();
    }

    /** Removes the contact from the subgroups no request mentions. */
    method NotifyRest(x: Contact, ghost names: seq<string>, unnotified: seq<Group>, empties: seq<Group>,
                      ghost told: seq<Group>, ghost bound: nat)
      returns (emptyGroups: seq<Group>)
      requires model.Inv() && model.Live(this)
      requires model.Shallow(bound)
      requires Shared(groups, told, unnotified)
      requires NoDup(empties) && forall h :: h in empties <==> h in told && h.items == []
      requires forall h, p :: h in unnotified && Below(h.path, p) ==> !Asked(path, names, p, model.delim)
      requires forall p :: model.Empty(p) && Below(path, p) ==> p == path || ToldAt(told, p)
      modifies model.tree.Values, model.cache
      modifies model`tree, model`view, model`signal, model`doResetAfterBulkUpdate, model`calls
      ensures model.Inv() && model.Live(this)
      ensures contacts == old(contacts) && groups == old(groups) && items == old(items)
      ensures model.Rest(path) == old(model.Rest(path)) && fresh(model.tree.Values - old(model.tree.Values))
      ensures model.Shallow(bound)
      ensures model.calls == old(model.calls) + multiset(PathsTold(old(model.tree).Keys, unnotified))
      ensures NoDup(emptyGroups) && forall h <- emptyGroups :: h in groups && h.items == []
      ensures forall p, y :: model.At(p, y) <==>
        if y == x && Told(unnotified, p) then Asked(path, names, p, model.delim) else old(model.At(p, y))
      ensures forall p :: model.Empty(p) && Below(path, p) ==> p == path || ToldAt(emptyGroups, p)
      decreases bound - |path|, 2
    {
      hide *;
      Ready();
      emptyGroups := empties;
      ghost var done: seq<Group> := [];
      var left := unnotified;
      NobodyTold();
      NoneCalled(path, model.tree.Keys, model.calls);
      assert told + [] == told;
      while left != []
        invariant model.Inv() && model.Live(this)
        invariant contacts == old(contacts) && groups == old(groups) && items == old(items)
        invariant model.Rest(path) == old(model.Rest(path)) && fresh(model.tree.Values - old(model.tree.Values))
        invariant model.Shallow(bound)
        invariant unnotified == done + left && Shared(groups, told + done, left)
        invariant NoDup(emptyGroups)
        invariant forall h :: h in emptyGroups <==> h in told + done && h.items == []
        invariant forall p, y :: model.At(p, y) <==>
          if y == x && Told(done, p) then Asked(path, names, p, model.delim) else old(model.At(p, y))
        invariant forall p :: model.Empty(p) && Below(path, p) ==> p == path || ToldAt(told + done, p)
        invariant Called(path, old(model.tree).Keys, old(model.calls), model.tree.Keys, model.calls, done)
        decreases |left|
      {
        var group := left[0];
        UntoldHead(told + done, left);
        ToldMore(done, group);
        UntoldPart(told, done);
        ghost var paths, calls := model.tree.Keys, model.calls;
        assert told + done + [group] == told + (done + [group]);
        emptyGroups := Tell(x, names, group, [], emptyGroups, told + done, bound);
        OneMoreCalled(path, old(model.tree).Keys, old(model.calls), paths, calls, done, group,
          model.tree.Keys, model.calls);
        done, left := done + [group], left[1..];
      }
      ShareEnd(groups, told + done);
      assert done == unnotified;
      EmptyListed(emptyGroups);
      CalledMeans(path, old(model.tree).Keys, old(model.calls), model.tree.Keys, model.calls, unnotified);
    }

    /** Whatever lies below this group lies in one of its subgroups. */
    lemma NothingUnlisted()
      requires model.TreeInv() && model.Live(this)
      ensures forall p :: p in model.tree && Below(path, p) && p != path ==> Told(groups, p)
      ensures forall p :: Told(groups, p) ==> Below(path, p) && p != path
      ensures forall h, h' :: h in groups && h' in groups && h.name == h'.name ==> h == h'
    {
      hide ContactListModel.TreeInv, Group.Rooted, Agree;
      Children();
      forall p | p in model.tree && Below(path, p) && p != path
        ensures Told(groups, p)
      {
        model.PrefixLive(p, |path| + 1);
        var n := p[|path|];
        assert p[..|path| + 1] == path + [n];
        ChildAt(n);
        assert model.tree[path + [n]] in groups;
      }
      forall h <- groups
        ensures forall p :: Below(h.path, p) ==> Below(path, p) && p != path
      {
        PrefixBelow(path, h.name);
      }
    }

    lemma AtBelow()
      requires model.Inv() && model.Live(this)
      ensures path in model.tree && forall p :: p in model.tree && Below(path, p) && p != path ==> Told(groups, p)
      ensures forall p, y :: model.At(p, y) && Below(path, p) && p != path ==> Told(groups, p)
      ensures forall p :: Told(groups, p) ==> Below(path, p) && p != path
      ensures forall h, h' :: h in groups && h' in groups && h.name == h'.name ==> h == h'
    {
      NothingUnlisted();
    }

    lemma CalledBelow()
      requires model.Inv() && model.Live(this)
      ensures multiset{path} + multiset(PathsTold(model.tree.Keys, groups))
              == multiset(PathsUnder(model.tree.Keys, path))
    {
      hide *;
      AtBelow();
      CallsAll(path, model.tree.Keys, groups);
    }

    lemma EmptyListed(emptyGroups: seq<Group>)
      requires model.Inv() && model.Live(this)
      requires forall h :: h in emptyGroups <==> h in groups && h.items == []
      ensures forall p :: model.Empty(p) && ToldAt(groups, p) ==> ToldAt(emptyGroups, p)
    {
      hide ContactListModel.Inv, Group.Rooted, Agree;
      Ready();
    }

    /** Passes the change on to one subgroup. */
    method NotifyOne(x: Contact, ghost names: seq<string>, group: Group, merged: seq<string>, ghost bound: nat)
      requires model.Inv() && model.Live(this) && group in groups
      requires forall p :: Below(group.path, p) ==> (Asked(group.path, merged, p, model.delim) <==>
        Asked(path, names, p, model.delim))
      requires ProperAll(group.path, merged, bound, model.delim)
      requires model.Shallow(bound)
      requires forall p :: model.Empty(p) && Below(group.path, p) ==> p == group.path
      modifies model.tree.Values, model.cache
      modifies model`tree, model`view, model`signal, model`doResetAfterBulkUpdate, model`calls
      ensures model.Inv() && model.Live(this)
      ensures contacts == old(contacts) && groups == old(groups) && items == old(items)
      ensures forall h <- groups :: h != group ==> h.items == old(h.items)
      ensures model.Rest(path) == old(model.Rest(path)) && fresh(model.tree.Values - old(model.tree.Values))
      ensures forall p, y :: model.At(p, y) <==>
        if y == x && Below(group.path, p) then Asked(path, names, p, model.delim) else old(model.At(p, y))
      ensures model.Shallow(bound)
      ensures forall p :: model.Empty(p) ==> p == group.path || old(model.Empty(p))
      ensures forall q | !Below(group.path, q) :: q in model.tree <==> q in old(model.tree)
      ensures model.calls == old(model.calls) + multiset(PathsUnder(old(model.tree).Keys, group.path))
      decreases bound - |path|, 0
    {
      hide *;
      Ready();
      SiblingsApart(group);
      model.ShallowLive(group, bound);
      group.ContactGroupsChanged(x, merged, bound);
      model.RestKeys(group.path);
      KeptOutside(group.path);
      forall h <- old(groups) | h != group
        ensures h.items == old(h.items)
      {
        h.KeptOutside(group.path);
      }
      model.RestEmpty(group.path);
      model.RestWider(path, group.name);
    }

    twostate lemma KeptOutside(new p: Path)
      requires old(model.Live(this)) && model.Rest(p) == old(model.Rest(p)) && !Below(p, path)
      ensures model.Live(this)
      ensures contacts == old(contacts) && groups == old(groups) && items == old(items)
    {
      assert path in old(model.Rest(p)) && path in model.Rest(p);
    }

    /** Passes the change on to one subgroup, and takes note if that leaves it without rows. */
    method Tell(x: Contact, ghost names: seq<string>, group: Group, merged: seq<string>, empties: seq<Group>,
                ghost told: seq<Group>, ghost bound: nat)
      returns (emptyGroups: seq<Group>)
      requires model.Inv() && model.Live(this) && model.Shallow(bound) && group in groups
      requires forall p :: Below(group.path, p) ==> (Asked(group.path, merged, p, model.delim) <==>
        Asked(path, names, p, model.delim))
      requires ProperAll(group.path, merged, bound, model.delim)
      requires forall p :: model.Empty(p) && Below(group.path, p) ==> p == group.path
      requires group !in told && forall h <- told :: h in groups
      requires NoDup(empties) && forall h :: h in empties <==> h in told && h.items == []
      modifies model.tree.Values, model.cache
      modifies model`tree, model`view, model`signal, model`doResetAfterBulkUpdate, model`calls
      ensures model.Inv() && model.Live(this) && model.Shallow(bound)
      ensures contacts == old(contacts) && groups == old(groups) && items == old(items)
      ensures NoDup(emptyGroups) && forall h :: h in emptyGroups <==> h in told + [group] && h.items == []
      ensures model.Rest(path) == old(model.Rest(path)) && fresh(model.tree.Values - old(model.tree.Values))
      ensures forall p, y :: model.At(p, y) <==>
        if y == x && Below(group.path, p) then Asked(path, names, p, model.delim) else old(model.At(p, y))
      ensures forall p :: model.Empty(p) ==> p == group.path || old(model.Empty(p))
      ensures forall q | !Below(group.path, q) :: q in model.tree <==> q in old(model.tree)
      ensures model.calls == old(model.calls) + multiset(PathsUnder(old(model.tree).Keys, group.path))
      decreases bound - |path|, 1
    {
      hide *;
      NotifyOne(x, names, group, merged, bound);
      emptyGroups := empties;
      if group.items == [] {
        NoDupAppend(emptyGroups, group);
        emptyGroups := emptyGroups + [group];
      }
    }

    lemma UntoldHead(told: seq<Group>, left: seq<Group>)
      requires model.Inv() && model.Live(this)
      requires Shared(groups, told, left) && left != []
      ensures var group := left[0];
        && group in groups && group !in told && (forall h <- told :: h in groups)
        && Shared(groups, told + [group], left[1..])
        && (forall p :: Below(group.path, p) ==> p != path && !ToldAt(told, p) && !Told(told, p) && Below(path, p))
        && (forall p :: ToldAt(told + [group], p) <==> ToldAt(told, p) || group.path == p)
        && (forall p :: !Asked(group.path, [], p, model.delim))
        && (forall bound :: ProperAll(group.path, [], bound, model.delim))
    {
      hide ContactListModel.Inv, Group.Rooted, Told, ToldAt, Shared, Asked, Below, ProperAll;
      var group := left[0];
      ShareHead(groups, told, left);
      Ready();
      SiblingsApart(group);
      PrefixBelow(path, group.name);
      ToldMore(told, group);
      StillUntold(path, groups, told, left, group);
      AskedNone(group.path, model.delim);
    }

    lemma SiblingsApart(group: Group)
      requires model.Inv() && model.Live(this) && group in groups
      ensures group.path == path + [group.name] && model.Live(group) && group.model == model && !Below(group.path, path)
      ensures group.path in model.tree && model.tree[group.path] == group
      ensures forall h <- groups :: h != group ==> model.Live(h) && !Below(group.path, h.path)
    {
      hide ContactListModel.Inv, Group.Rooted;
      Ready();
      forall h <- groups | h != group
        ensures !Below(group.path, h.path)
      {
        assert h.path != group.path;
        BelowSameLength(group.path, h.path);
      }
    }

    /** Goes through the pending requests: those for an existing subgroup are passed on to it, all of
        one subgroup's at once; the others are left for later. */
    method NotifyListed(x: Contact, names: seq<string>, splits: seq<Path>, ghost bound: nat)
      returns (newGroups: seq<Path>, unnotified: seq<Group>, emptyGroups: seq<Group>, ghost told: seq<Group>)
      requires model.Inv() && model.Live(this)
      requires ProperAll(path, names, bound, model.delim)
      requires model.Shallow(bound)
      requires forall p :: model.Empty(p) && Below(path, p) ==> p == path
      requires SplitOf(path, names, splits, model.delim)
      modifies model.tree.Values, model.cache
      modifies model`tree, model`view, model`signal, model`doResetAfterBulkUpdate, model`calls
      ensures model.Inv() && model.Live(this)
      ensures contacts == old(contacts) && groups == old(groups) && items == old(items)
      ensures model.Rest(path) == old(model.Rest(path)) && fresh(model.tree.Values - old(model.tree.Values))
      ensures model.Shallow(bound)
      ensures Called(path, old(model.tree).Keys, old(model.calls), model.tree.Keys, model.calls, told)
      ensures Shared(groups, told, unnotified)
      ensures Ledger(groups, told, splits, [], newGroups)
      ensures NoDup(emptyGroups) && forall h :: h in emptyGroups <==> h in told && h.items == []
      ensures forall p, y :: model.At(p, y) <==>
        if y == x && Told(told, p) then Asked(path, names, p, model.delim) else old(model.At(p, y))
      ensures forall p :: model.Empty(p) && Below(path, p) ==> p == path || ToldAt(told, p)
      decreases bound - |path|, 3
    {
      hide *;
      Ready();
      NothingTold(groups, path, names, splits, model.delim);
      newGroups, unnotified, emptyGroups, told := [], groups, [], [];
      NoneCalled(path, model.tree.Keys, model.calls);
      var rest := splits;
      while rest != []
        invariant model.Inv() && model.Live(this)
        invariant contacts == old(contacts) && groups == old(groups) && items == old(items)
        invariant model.Rest(path) == old(model.Rest(path)) && fresh(model.tree.Values - old(model.tree.Values))
        invariant model.Shallow(bound)
        invariant Shared(groups, told, unnotified)
        invariant Ledger(groups, told, splits, rest, newGroups)
        invariant NoDup(emptyGroups)
        invariant forall h :: h in emptyGroups <==> h in told && h.items == []
        invariant forall p, y :: model.At(p, y) <==>
          if y == x && Told(told, p) then Asked(path, names, p, model.delim) else old(model.At(p, y))
        invariant forall p :: model.Empty(p) && Below(path, p) ==> p == path || ToldAt(told, p)
        invariant Called(path, old(model.tree).Keys, old(model.calls), model.tree.Keys, model.calls, told)
        decreases |rest|
      {
        LedgerHead(path, names, groups, told, unnotified, splits, rest, newGroups, model.delim);
        var split := rest[0];
        var found: Group? := null;
        if split != [] {
          found := FindGroup(split[0]);
        }
        if found == null {
          LedgerFresh(groups, told, splits, rest, newGroups);
          newGroups, rest := newGroups + [split], rest[1..];
        } else {
          var group: Group := found;
          ghost var paths, calls := model.tree.Keys, model.calls;
          rest, emptyGroups := TellNext(x, names, splits, rest, newGroups, group, unnotified, emptyGroups, told, bound);
          OneMoreCalled(path, old(model.tree).Keys, old(model.calls), paths, calls, told, group,
            model.tree.Keys, model.calls);
          unnotified := RemoveAt(unnotified, Find(unnotified, group));
          told := told + [group];
        }
      }
    }

    /** Passes all pending requests for one subgroup on to it. */
    method TellNext(x: Contact, ghost names: seq<string>, ghost splits: seq<Path>, rest: seq<Path>,
                    ghost newGroups: seq<Path>, group: Group, ghost unnotified: seq<Group>, empties: seq<Group>,
                    ghost told: seq<Group>, ghost bound: nat)
      returns (rest': seq<Path>, emptyGroups: seq<Group>)
      requires model.Inv() && model.Live(this) && model.Shallow(bound)
      requires ProperAll(path, names, bound, model.delim) && SplitOf(path, names, splits, model.delim)
      requires Ledger(groups, told, splits, rest, newGroups) && forall r <- rest :: r != [] && IsPath(r, model.delim)
      requires rest != [] && rest[0] != [] && group.name == rest[0][0]
      requires Shared(groups, told, unnotified) && group in unnotified && group in groups
      requires group.path == path + [group.name] && forall h <- told :: h in groups && h.name != group.name
      requires NoDup(empties) && forall h :: h in empties <==> h in told && h.items == []
      requires forall p :: model.Empty(p) && Below(path, p) ==> p == path || ToldAt(told, p)
      modifies model.tree.Values, model.cache
      modifies model`tree, model`view, model`signal, model`doResetAfterBulkUpdate, model`calls
      ensures model.Inv() && model.Live(this) && model.Shallow(bound)
      ensures contacts == old(contacts) && groups == old(groups) && items == old(items)
      ensures model.Rest(path) == old(model.Rest(path)) && fresh(model.tree.Values - old(model.tree.Values))
      ensures Ledger(groups, told + [group], splits, rest', newGroups) && |rest'| < |rest|
      ensures Shared(groups, told + [group], RemoveAt(unnotified, Find(unnotified, group)))
      ensures NoDup(emptyGroups) && forall h :: h in emptyGroups <==> h in told + [group] && h.items == []
      ensures forall p, y :: model.At(p, y) <==>
        if y == x && Below(group.path, p) then Asked(path, names, p, model.delim) else old(model.At(p, y))
      ensures forall p :: model.Empty(p) && Below(path, p) ==> p == path || ToldAt(told + [group], p)
      ensures forall p :: Told(told + [group], p) <==> Told(told, p) || Below(group.path, p)
      ensures forall q :: Below(group.path, q) ==> Below(path, q) && !Told(told, q)
      ensures forall q | !Below(group.path, q) :: q in model.tree <==> q in old(model.tree)
      ensures model.calls == old(model.calls) + multiset(PathsUnder(old(model.tree).Keys, group.path))
      decreases bound - |path|, 2
    {
      hide *;
      Ready();
      ToldMore(told, group);
      PrefixBelow(path, group.name);
      StillUntold(path, groups, told, unnotified, group);
      var merged;
      merged, rest' := MergeNext(names, splits, rest, newGroups, group, told, bound);
      emptyGroups := Tell(x, names, group, merged, empties, told, bound);
      ShareOne(groups, told, unnotified, group);
    }

    /** Takes the pending requests for one subgroup, as requests to that subgroup. */
    method MergeNext(ghost names: seq<string>, ghost splits: seq<Path>, rest: seq<Path>, ghost newGroups: seq<Path>,
                     group: Group, ghost told: seq<Group>, ghost bound: nat)
      returns (merged: seq<string>, rest': seq<Path>)
      requires model.Inv() && model.Live(this)
      requires ProperAll(path, names, bound, model.delim)
      requires SplitOf(path, names, splits, model.delim)
      requires Ledger(groups, told, splits, rest, newGroups)
      requires forall r <- rest :: r != [] && IsPath(r, model.delim)
      requires group in groups && rest != [] && rest[0] != [] && group.name == rest[0][0]
        && forall h <- told :: h.name != group.name
      ensures forall p :: Below(group.path, p) ==> (Asked(group.path, merged, p, model.delim) <==>
        Asked(path, names, p, model.delim))
      ensures ProperAll(group.path, merged, bound, model.delim)
      ensures Ledger(groups, told + [group], splits, rest', newGroups) && |rest'| < |rest|
    {
      hide ContactListModel.Inv, Proper, Target, Asked, IsPath, Group.Rooted, Agree, Ledger, Join, Parts, Below;
      Ready();
      merged, rest' := TakeMerged(rest, group.name);
      MergedAsks(path, names, groups, told, splits, rest, newGroups, group, merged, bound, model.delim);
      LedgerTold(groups, told, splits, rest, newGroups, group, rest');
    }

    /** The requests for other groups, each as the path it names below this group. */
    method SplitRequests(names: seq<string>, ghost bound: nat) returns (addToSelf: bool, splits: seq<Path>)
      requires Rooted() && IsPath(path, model.delim)
      requires ProperAll(path, names, bound, model.delim)
      ensures addToSelf <==> Asked(path, names, path, model.delim)
      ensures SplitOf(path, names, splits, model.delim)
    {
      hide Proper, Target, Asked, Join, IsPath, Group.Rooted, Split;
      addToSelf, splits := false, [];
      AskedNone(path, model.delim);
      assert names[..|names|] == names;
      OwnName();
      for i := 0 to |names|
        invariant addToSelf <==> Asked(path, names[..i], path, model.delim)
        invariant forall r :: r in splits <==> r != [] && Asked(path, names[..i], path + r, model.delim)
      {
        AskedMore(path, names, i, model.delim);
        ProperSelf(path, names[i], model.delim);
        ghost var t := Target(path, names[i], model.delim);
        if names[i] == name {
          addToSelf := true;
          assert forall r :: r != [] ==> path + r != t;
        } else {
          var split := Split(names[i], model.delim);
          if name != "" {
            split := split[1..];
          }
          NestedParts(path, names[i], model.delim);
          assert t == path + t[|path|..];
          assert forall r :: path + r == t ==> r == split by {
            assert forall r :: (path + r)[|path|..] == r;
          }
          splits := splits + [split];
        }
      }
    }

    lemma OwnName()
      requires Rooted()
      ensures name == (if path == [] then "" else Last(path)) && (path != [] ==> name != "")
    {
    }

    /** Takes the requests that start with `n` out of the list, each joined into a name again. */
    method TakeMerged(splits: seq<Path>, n: string) returns (merged: seq<string>, rest: seq<Path>)
      requires forall r <- splits :: r != [] && IsPath(r, model.delim)
      requires splits != [] && splits[0] != [] && splits[0][0] == n
      ensures forall r :: r in rest <==> r in splits && r[0] != n
      ensures |rest| < |splits|
      ensures forall r :: r != [] && r[0] == n && IsPath(r, model.delim) ==>
        (Join(r, model.delim) in merged <==> r in splits)
      ensures forall m <- merged ::
        Parts(m, model.delim) in splits && Parts(m, model.delim) != [] && Parts(m, model.delim)[0] == n
    {
      hide IsPath, Join, Split, Parts;
      merged, rest := [], splits;
      ghost var taken: seq<Path> := [];
      for i := 0 to |splits|
        invariant |taken| == |merged|
        invariant forall k :: 0 <= k < |taken| ==> merged[k] == Join(taken[k], model.delim)
        invariant forall r :: r in taken <==> r in splits[..i] && r in splits && r[0] == n
        invariant if i == 0 then taken == [] else taken != [] && taken[0] == splits[0]
      {
        assert splits[i] in splits;
        if splits[i][0] == n {
          merged := merged + [Join(splits[i], model.delim)];
          taken := taken + [splits[i]];
        }
      }
      assert splits[..|splits|] == splits;
      assert forall k :: 0 <= k < |taken| ==> taken[k] in taken;
      for j := 0 to |merged|
        invariant forall r :: r in rest <==> r in splits && r !in taken[..j]
        invariant j == 0 ==> rest == splits
        invariant |rest| <= |splits| && (j > 0 ==> |rest| < |splits|)
      {
        NonEmptyPath(taken[j], model.delim);
        rest := Without(rest, Split(merged[j], model.delim));
      }
      assert taken[..|merged|] == taken;
      forall r | r != [] && r[0] == n && IsPath(r, model.delim)
        ensures Join(r, model.delim) in merged <==> r in splits
      {
        if Join(r, model.delim) in merged {
          var k :| 0 <= k < |merged| && merged[k] == Join(r, model.delim);
          JoinInjective(r, taken[k], model.delim);
        }
        if r in splits {
          var k :| 0 <= k < |taken| && taken[k] == r;
          assert merged[k] == Join(r, model.delim);
        }
      }
      forall m <- merged
        ensures Parts(m, model.delim) in splits && Parts(m, model.delim)[0] == n
      {
        var k :| 0 <= k < |merged| && merged[k] == m;
        PartsJoin(taken[k], model.delim);
      }
    }

    // ---- the deferred online flag ----

    method UpdateOnlineContactsFlag()
      requires model.Live(this) && model.InvBut(path)
      modifies model.tree.Values`haveOnlineContacts, model.tree.Values`timerActive
      ensures model.Inv() && !timerActive
      ensures forall g <- model.tree.Values :: g.timerActive ==> old(g.timerActive)
      decreases |path|
    {
      hide ContactListModel.TreeInv, ContactListModel.ContactsInv, ContactListModel.NamesInv,
        ContactListModel.ViewInv, ContactListModel.FlagOk, ContactListModel.NodeOk, Agree, Group.Rooted;
      ParentLive();
      timerActive := false;
      if parent != null {
        var have := false;
        for i := 0 to |items|
          invariant !have && forall k :: 0 <= k < i ==> !model.ItemOnline(items[k])
        {
          if match items[i] case ContactItem(x) => x in model.online case GroupItem(g) => g.haveOnlineContacts {
            have := true;
            assert items[i] in items && model.ItemOnline(items[i]);
            assert exists i :: i in items && model.ItemOnline(i);
            break;
          }
        }
        assert have <==> exists i :: i in items && model.ItemOnline(i);
        if haveOnlineContacts != have {
          haveOnlineContacts := have;
          FlagSet();
          parent.UpdateOnlineContactsFlag();
        } else {
          FlagSet();
        }
      } else {
        FlagSet();
      }
    }

    lemma ParentLive()
      requires model.Live(this) && model.TreeInv()
      ensures parent == null <==> path == []
      ensures parent != null ==> model.Live(parent) && parent.model == model && |parent.path| < |path|
      ensures forall i <- items :: i.GroupItem? ==> i.group in groups && i.group != this
    {
      assert model.NodeOk(path);
      if parent != null {
        assert model.NodeOk(Init(path));
      }
    }

    /** Only this group's flag and timer may have changed. */
    twostate predicate SameLists()
      reads this, model, model.tree.Values
    {
      && unchanged(model)
      && (forall p <- model.tree :: model.tree[p] != this ==> unchanged(model.tree[p]))
      && contacts == old(contacts) && groups == old(groups) && items == old(items)
    }

    /** Writing this group's flag and timer can only put its parent's flag out of date. */
    twostate lemma FlagSet()
      requires old(model.Live(this) && model.InvBut(path)) && SameLists()
      requires model.TreeInv() && model.ContactsInv() && model.NamesInv() && model.ViewInv()
      requires parent == null || timerActive || (haveOnlineContacts <==> exists i :: i in items && model.ItemOnline(i))
      ensures haveOnlineContacts == old(haveOnlineContacts) || parent == null ==> model.Inv()
      ensures parent != null ==> model.InvBut(parent.path)
    {
      hide ContactListModel.NodeOk, ContactListModel.FlagOk, ContactListModel.ContactsInv, ContactListModel.NamesInv,
        ContactListModel.ViewInv;
      ParentLive();
      forall q | q in model.tree && (model.tree[q] != parent || haveOnlineContacts == old(haveOnlineContacts))
        ensures model.NodeOk(q) && model.FlagOk(q)
      {
        model.NodeAt(q);
        FlagElsewhere(q);
      }
      model.NodePaths();
    }

    twostate lemma FlagElsewhere(new q: Path)
      requires old(model.Live(this) && model.InvBut(path)) && SameLists() && model.TreeInv()
      requires q in model.tree && model.NodeOk(q)
      requires model.tree[q] != parent || haveOnlineContacts == old(haveOnlineContacts)
      requires parent == null || timerActive || (haveOnlineContacts <==> exists i :: i in items && model.ItemOnline(i))
      ensures model.FlagOk(q)
    {
      hide ContactListModel.ContactsInv, ContactListModel.NamesInv, ContactListModel.ViewInv, Group.Rooted, Agree;
      assert model.NodeOk(path);
      if q != path {
        assert old(model.FlagOk(q));
        var g := model.tree[q];
        assert g != this;
        forall i <- g.items
          ensures model.ItemOnline(i) == old(model.ItemOnline(i))
        {
          if i.GroupItem? {
            model.ItemLive(q, i);
            assert model.tree[i.group.path] == i.group;
          }
        }
      }
    }

    /** ContactListGroup::contactUpdated. */
    method ContactUpdated(x: Contact)
      requires model.Inv() && model.Live(this)
      modifies this`timerActive
      ensures model.Inv()
      ensures x in contacts ==> timerActive
      ensures timerActive || !old(timerActive)
    {
      hide ContactListModel.Inv, Agree;
      Ready();
      if ContactItem(x) in items {
        StartTimer();
      }
    }

    // ---- tear-down ----

    /** ~ContactListNestedGroup and ~ContactListGroup. The rows of a group that is going away are
        announced as removed, but nobody listens while a bulk update is open. */
    method Destroy(ghost bound: nat)
      requires model.TreeInv() && model.Live(this) && model.Shallow(bound)
      requires forall y :: NoDup(model.cache.GroupsFor(y))
      requires !model.emitDeltaSignals
      modifies model.cache, model`doResetAfterBulkUpdate
      ensures forall y :: NoDup(model.cache.GroupsFor(y))
      ensures forall y :: model.cache.Listed(y) == old(model.cache.Listed(y)) - model.Doomed(path, y)
      ensures old(model.cache.NoneEmpty()) ==> model.cache.NoneEmpty()
      ensures model.cache.names == old(model.cache.names) - model.OwnNames(path)
      ensures model.doResetAfterBulkUpdate == (old(model.doResetAfterBulkUpdate) || items != [])
      decreases bound - |path|, 1
    {
      hide ContactListModel.TreeInv, Agree, Group.Rooted, Told, Below, NoDup, ContactListModel.OwnNames,
        ContactListModel.OwnNamesIn, GroupCache.GroupsFor, GroupCache.NoneEmpty, GroupCache.Listed,
        ContactListModel.Doomed, ContactListModel.DoomedIn;
      Children();
      NothingUnlisted();
      model.OwnNamesSplit(this);
      model.DoomedSplit(this);
      BelowSameLength(path, path);
      if parent != null {
        model.cache.RemoveName(name);
      }
      if items != [] {
        model.doResetAfterBulkUpdate := true;
      }
      DestroyGroups(bound);
      DestroyContacts();
    }

    method DestroyGroups(ghost bound: nat)
      requires model.TreeInv() && model.Live(this) && model.Shallow(bound)
      requires forall y :: NoDup(model.cache.GroupsFor(y))
      requires !model.emitDeltaSignals
      modifies model.cache, model`doResetAfterBulkUpdate
      ensures forall y :: NoDup(model.cache.GroupsFor(y))
      ensures forall y :: model.cache.Listed(y) == old(model.cache.Listed(y)) - model.DoomedIn(groups, y)
      ensures old(model.cache.NoneEmpty()) ==> model.cache.NoneEmpty()
      ensures model.cache.names == old(model.cache.names) - model.OwnNamesIn(groups)
      ensures old(model.doResetAfterBulkUpdate) || groups == [] ==>
        model.doResetAfterBulkUpdate == old(model.doResetAfterBulkUpdate)
      decreases bound - |path|, 0
    {
      hide ContactListModel.TreeInv, Agree, Group.Rooted, Told, Below, NoDup, ContactListModel.OwnNames,
        ContactListModel.OwnNamesIn, GroupCache.GroupsFor, GroupCache.NoneEmpty, GroupCache.Listed,
        ContactListModel.Doomed, ContactListModel.DoomedIn;
      Children();
      NobodyTold();
      model.OwnNamesNone();
      model.DoomedNone();
      assert groups[..0] == [] && groups[..|groups|] == groups;
      for i := 0 to |groups|
        invariant model.TreeInv()
        invariant forall y :: NoDup(model.cache.GroupsFor(y))
        invariant forall y :: model.cache.Listed(y) == old(model.cache.Listed(y)) - model.DoomedIn(groups[..i], y)
        invariant old(model.cache.NoneEmpty()) ==> model.cache.NoneEmpty()
        invariant model.cache.names == old(model.cache.names) - model.OwnNamesIn(groups[..i])
        invariant old(model.doResetAfterBulkUpdate) || i == 0 ==>
          model.doResetAfterBulkUpdate == old(model.doResetAfterBulkUpdate)
      {
        assert groups[..i + 1] == groups[..i] + [groups[i]];
        ToldMore(groups[..i], groups[i]);
        model.OwnNamesMore(groups[..i], groups[i]);
        model.DoomedMore(groups[..i], groups[i]);
        model.ShallowLive(groups[i], bound);
        groups[i].Destroy(bound);
      }
    }

    method DestroyContacts()
      requires forall y :: NoDup(model.cache.GroupsFor(y))
      requires NoDup(contacts)
      modifies model.cache`contacts
      ensures forall y :: NoDup(model.cache.GroupsFor(y))
      ensures forall y :: model.cache.Listed(y) == old(model.cache.Listed(y)) - if y in contacts then {this} else {}
      ensures old(model.cache.NoneEmpty()) ==> model.cache.NoneEmpty()
    {
      for i := 0 to |contacts|
        invariant forall y :: NoDup(model.cache.GroupsFor(y))
        invariant forall y :: model.cache.Listed(y) == old(model.cache.Listed(y)) - if y in contacts[..i] then {this}
          else {}
        invariant old(model.cache.NoneEmpty()) ==> model.cache.NoneEmpty()
      {
        hide NoDup;
        model.cache.RemoveContact(this, contacts[i]);
      }
    }

    /** What the invariant gives a group that is about to change. */
    lemma Ready()
      requires model.Inv() && model.Live(this)
      ensures path in model.tree && model.tree[path] == this
      ensures parent != null ==> GroupItem(this) in parent.items
      ensures parent == null ==> this == model.root
      ensures Rooted() && Agree(contacts, groups, items) && model.signal.Idle?
      ensures IsPath(path, model.delim) && name == if path == [] then "" else Last(path)
      ensures forall x :: x in contacts <==> ContactItem(x) in items
      ensures forall x :: NoDup(model.cache.GroupsFor(x))
      ensures model.emitDeltaSignals ==> RowsKey() in model.view && model.view[RowsKey()] == items
      ensures forall h <- groups :: model.Live(h) && h.parent == this && GroupItem(h) in items && h.Rooted()
                && h.path == path + [h.name] && h.model == model && IsPath(h.path, model.delim)
    {
      assert model.NodeOk(path);
      if parent != null {
        assert model.NodeOk(Init(path));
      }
      forall h <- groups
        ensures h.Rooted() && h.path == path + [h.name] && h.model == model && IsPath(h.path, model.delim)
      {
        assert model.NodeOk(h.path);
      }
    }

    // ---- why each step keeps the invariant ----

    /** Only this group differs from the earlier state, and none of its subgroups came or went. */
    twostate predicate OnlyThisChanged()
      reads this, model, model.tree.Values
    {
      && model.tree == old(model.tree) && model.root == old(model.root)
      && model.online == old(model.online) && model.dirty == old(model.dirty)
      && (forall p <- model.tree :: model.tree[p] != this ==> unchanged(model.tree[p]))
      && groups == old(groups) && haveOnlineContacts == old(haveOnlineContacts) && timerActive
    }

    twostate lemma KeepsAgreement(i: Item)
      requires old(Agree(contacts, groups, items)) && groups == old(groups) && i.ContactItem?
      requires
        || (i !in old(items) && items == old(items) + [i] && contacts == old(contacts) + [i.contact])
        || (i in old(items) && items == RemoveAt(old(items), Find(old(items), i))
            && contacts == RemoveAt(old(contacts), Find(old(contacts), i.contact)))
      ensures Agree(contacts, groups, items)
    {
      if i in old(items) {
        AgreeAfterRemove(old(contacts), groups, old(items), i);
      }
    }

    twostate lemma KeepsNode(p: Path)
      requires old(model.TreeInv() && model.Live(this)) && OnlyThisChanged()
      requires Agree(contacts, groups, items) && p in model.tree
      ensures model.NodeOk(p)
    {
      hide Agree;
      assert old(model.NodeOk(p));
    }

    twostate lemma KeepsFlag(p: Path)
      requires old(model.TreeInv() && model.Live(this) && model.FlagInv()) && OnlyThisChanged()
      requires p in model.tree && model.NodeOk(p)
      ensures model.FlagOk(p)
    {
      assert old(model.FlagOk(p)) && old(model.NodeOk(p));
      var g := model.tree[p];
      if g != this {
        assert forall i <- g.items :: model.ItemOnline(i) == old(model.ItemOnline(i));
      }
    }

    twostate lemma KeepsTree()
      requires old(model.Inv() && model.Live(this)) && OnlyThisChanged()
      requires Agree(contacts, groups, items)
      ensures model.TreeInv() && model.FlagInv()
    {
      hide Agree, ContactListModel.NodeOk, ContactListModel.FlagOk;
      forall p <- model.tree
        ensures model.NodeOk(p) && model.FlagOk(p)
      {
        KeepsNode(p);
        KeepsFlag(p);
      }
    }

    twostate lemma ContactAddedKeepsCache(x: Contact)
      requires old(model.Inv() && model.Live(this)) && OnlyThisChanged()
      requires x !in old(contacts) && contacts == old(contacts) + [x]
      requires model.cache.contacts == old(model.cache.contacts)[x := model.cache.GroupsFor(x)]
      requires model.cache.GroupsFor(x) == old(model.cache.GroupsFor(x)) + if this in old(model.cache.GroupsFor(x)) then
        [] else [this]
      ensures model.ContactsInv()
    {
      hide ContactListModel.NodeOk, ContactListModel.NamesInv, ContactListModel.ViewInv, ContactListModel.FlagInv,
        ContactListModel.TreeInv;
      var cached := model.cache.contacts;
      forall y, h | y in cached && h in cached[y]
        ensures model.Live(h) && y in h.contacts
      {
        assert h in model.cache.GroupsFor(y);
        if h != this || y != x {
          assert h in old(model.cache.GroupsFor(y));
          assert old(y in model.cache.contacts && h in model.cache.contacts[y]);
          assert old(model.Live(h) && y in h.contacts);
        }
      }
      forall y <- cached
        ensures cached[y] != [] && NoDup(cached[y])
      {
        assert y != x ==> old(y in model.cache.contacts);
      }
      forall p, y | p in model.tree && y in model.tree[p].contacts
        ensures model.tree[p] in model.cache.GroupsFor(y)
      {
        if y in old(model.tree[p].contacts) {
          assert model.tree[p] in old(model.cache.GroupsFor(y));
        }
      }
    }

    twostate lemma ContactRemovedKeepsCache(x: Contact)
      requires old(model.Inv() && model.Live(this)) && OnlyThisChanged()
      requires forall y :: y in contacts <==> y in old(contacts) && y != x
      requires this !in model.cache.GroupsFor(x) && NoDup(model.cache.GroupsFor(x))
      requires forall h :: h != this ==> (h in model.cache.GroupsFor(x) <==> h in old(model.cache.GroupsFor(x)))
      requires model.cache.GroupsFor(x) == [] ==> model.cache.contacts == old(model.cache.contacts) - {x}
      requires model.cache.GroupsFor(x) != [] ==>
        model.cache.contacts == old(model.cache.contacts)[x := model.cache.GroupsFor(x)]
      ensures model.ContactsInv()
    {
      hide ContactListModel.NodeOk, ContactListModel.NamesInv, ContactListModel.ViewInv, ContactListModel.FlagInv;
      var cached := model.cache.contacts;
      forall y, h | y in cached && h in cached[y]
        ensures model.Live(h) && y in h.contacts
      {
        assert h in model.cache.GroupsFor(y);
        assert h in old(model.cache.GroupsFor(y));
        assert old(y in model.cache.contacts && h in model.cache.contacts[y]);
        assert old(model.Live(h) && y in h.contacts);
      }
      forall y <- cached
        ensures cached[y] != [] && NoDup(cached[y])
      {
        assert y != x ==> old(y in model.cache.contacts);
      }
      forall p, y | p in model.tree && y in model.tree[p].contacts
        ensures model.tree[p] in model.cache.GroupsFor(y)
      {
        assert y in old(model.tree[p].contacts);
        assert model.tree[p] in old(model.cache.GroupsFor(y));
      }
    }

    twostate lemma KeepsView()
      requires old(model.Inv() && model.Live(this)) && OnlyThisChanged()
      requires model.signal.Idle? && model.doResetAfterBulkUpdate
      requires model.emitDeltaSignals == old(model.emitDeltaSignals)
        && model.bulkUpdateCount == old(model.bulkUpdateCount)
      requires model.emitDeltaSignals ==> model.view == old(model.view)[RowsKey() := items]
      ensures model.ViewInv()
    {
      assert forall p <- model.tree :: old(model.NodeOk(p));
    }

    /** This group gained one subgroup, still empty, and nothing else changed. */
    twostate predicate Created(n: string)
      reads this, model, model.tree.Values
    {
      var p := path + [n];
      && p !in old(model.tree) && p in model.tree && IsPath(p, model.delim)
      && model.tree == old(model.tree)[p := model.tree[p]] && fresh(model.tree[p])
      && model.root == old(model.root) && model.online == old(model.online) && model.dirty == old(model.dirty)
      && (forall q <- old(model.tree) :: model.tree[q] != this ==> unchanged(model.tree[q]))
      && contacts == old(contacts) && haveOnlineContacts == old(haveOnlineContacts) && timerActive
      && groups == old(groups) + [model.tree[p]] && items == old(items) + [GroupItem(model.tree[p])]
      && var g := model.tree[p];
         && g.Rooted() && g.parent == this && g.name == n && g.path == p && g.model == model
         && g.contacts == [] && g.groups == [] && g.items == [] && !g.haveOnlineContacts
    }

    twostate lemma CreatedKeepsAgreement(new g: Group)
      requires old(Agree(contacts, groups, items)) && GroupItem(g) !in old(items) && g !in old(groups)
      requires contacts == old(contacts) && groups == old(groups) + [g] && items == old(items) + [GroupItem(g)]
      ensures Agree(contacts, groups, items)
    {
    }

    twostate lemma CreatedKeepsTree(n: string)
      requires old(model.Inv() && model.Live(this)) && Created(n)
      requires Agree(contacts, groups, items)
      ensures model.TreeInv() && model.FlagInv()
    {
      hide ContactListModel.NamesInv, ContactListModel.ViewInv, ContactListModel.ContactsInv,
        ContactListModel.NodeOk, ContactListModel.FlagOk, Agree;
      forall q | q in model.tree
        ensures model.NodeOk(q)
      {
        CreatedKeepsNode(n, q);
      }
      forall q | q in model.tree
        ensures model.FlagOk(q)
      {
        CreatedKeepsFlag(n, q);
      }
    }

    twostate lemma CreatedKeepsNode(new n: string, new q: Path)
      requires old(model.TreeInv() && model.Live(this)) && Created(n)
      requires Agree(contacts, groups, items) && q in model.tree
      ensures model.NodeOk(q)
    {
      hide Group.Rooted, Agree;
      var p := path + [n];
      assert Agree([], [], []) by {
        EmptyAgrees();
      }
      if q == p {
        assert Init(p) == path && model.tree[path] == this;
        assert model.tree[p] in groups;
      } else if q == path {
        assert old(model.NodeOk(q));
        forall h <- groups
          ensures model.Live(h) && h.parent == this
        {
          if h != model.tree[p] {
            assert h in old(groups);
          }
        }
      } else {
        assert old(model.NodeOk(q));
        assert model.tree[q] != this;
      }
    }

    twostate lemma CreatedKeepsFlag(new n: string, new q: Path)
      requires old(model.TreeInv() && model.Live(this) && model.FlagInv()) && Created(n)
      requires q in model.tree && model.NodeOk(q)
      ensures model.FlagOk(q)
    {
      if q != path + [n] {
        assert old(model.FlagOk(q)) && old(model.NodeOk(q));
        var g := model.tree[q];
        if g != this {
          assert forall i <- g.items :: model.ItemOnline(i) == old(model.ItemOnline(i));
        }
      }
    }

    twostate lemma CreatedKeepsContacts(n: string)
      requires old(model.Inv() && model.Live(this)) && Created(n)
      requires model.cache.contacts == old(model.cache.contacts)
      ensures model.ContactsInv()
    {
      hide ContactListModel.NodeOk, ContactListModel.NamesInv, ContactListModel.ViewInv, ContactListModel.FlagInv,
        Group.Rooted;
      var cached := model.cache.contacts;
      forall x, h | x in cached && h in cached[x]
        ensures model.Live(h) && x in h.contacts
      {
        assert old(model.Live(h) && x in h.contacts);
      }
      forall q, x | q in model.tree && x in model.tree[q].contacts
        ensures model.tree[q] in model.cache.GroupsFor(x)
      {
        assert q != path + [n] && x in old(model.tree)[q].contacts;
        assert old(x in model.tree[q].contacts && model.tree[q] in model.cache.GroupsFor(x));
      }
    }

    twostate lemma CreatedKeepsView(n: string)
      requires old(model.Inv() && model.Live(this)) && Created(n)
      requires model.signal.Idle? && model.doResetAfterBulkUpdate
      requires model.emitDeltaSignals == old(model.emitDeltaSignals)
        && model.bulkUpdateCount == old(model.bulkUpdateCount)
      requires model.emitDeltaSignals ==>
        model.view == old(model.view)[RowsKey() := items][model.tree[path + [n]] := []]
      ensures model.ViewInv()
    {
      hide ContactListModel.NamesInv, ContactListModel.ContactsInv, ContactListModel.FlagInv,
        ContactListModel.NodeOk, Group.Rooted, Agree;
      OldKeys();
      forall p | p in model.tree && model.emitDeltaSignals
        ensures model.tree[p].RowsKey() in model.view && model.view[model.tree[p].RowsKey()] == model.tree[p].items
      {
        if p in old(model.tree) {
          assert old(model.tree)[p].RowsKey() in old(model.view);
          assert p != path ==> model.tree[p].items == old(model.tree[p].items);
          assert model.tree[p].RowsKey() != model.tree[path + [n]];
        }
      }
    }

    twostate lemma CreatedKeepsNames(n: string)
      requires old(model.NamesInv()) && Created(n) && model.stale == old(model.stale)
      requires model.cache.names == old(model.cache.names)[Join(path + [n], model.delim) := model.tree[path + [n]]]
      requires model.TreeInv()
      ensures model.NamesInv()
    {
      hide ContactListModel.NodeOk, Group.Rooted;
      PartsJoin(path + [n], model.delim);
      model.FullNamesDistinct(path + [n]);
    }

    /** This group lost one empty subgroup, and nothing else changed. */
    twostate predicate Deleted(n: string)
      reads this, model, model.tree.Values
    {
      var p := path + [n];
      && p in old(model.tree) && model.tree == old(model.tree) - {p}
      && model.root == old(model.root) && model.online == old(model.online) && model.dirty == old(model.dirty)
      && (forall q <- model.tree :: model.tree[q] != this ==> unchanged(model.tree[q]))
      && contacts == old(contacts) && haveOnlineContacts == old(haveOnlineContacts) && timerActive
      && var g := old(model.tree)[p];
         && old(g.items) == [] && g in old(groups) && GroupItem(g) in old(items)
         && groups == RemoveAt(old(groups), Find(old(groups), g))
         && items == RemoveAt(old(items), Find(old(items), GroupItem(g)))
    }

    twostate lemma DeletedKeepsTree(n: string)
      requires old(model.Inv() && model.Live(this)) && Deleted(n)
      ensures model.TreeInv() && model.FlagInv()
    {
      hide ContactListModel.NamesInv, ContactListModel.ViewInv, ContactListModel.ContactsInv, Agree;
      assert old(model.NodeOk(path));
      DeletedKeepsAgreement(n);
      forall q <- model.tree
        ensures model.NodeOk(q)
      {
        DeletedKeepsNode(n, q);
      }
      forall q <- model.tree
        ensures model.FlagOk(q)
      {
        DeletedKeepsFlag(n, q);
      }
    }

    twostate lemma DeletedKeepsAgreement(n: string)
      requires old(Agree(contacts, groups, items)) && Deleted(n)
      ensures Agree(contacts, groups, items)
      ensures forall h :: h in groups <==> h in old(groups) && h != old(model.tree)[path + [n]]
    {
      hide Agree;
      var g := old(model.tree)[path + [n]];
      AgreeAfterRemove(contacts, old(groups), old(items), GroupItem(g));
      assert NoDup(old(groups)) by {
        AgreeParts(contacts, old(groups), old(items));
      }
      NoDupRemove(old(groups), g);
    }

    twostate lemma DeletedWasEmpty(n: string)
      requires old(model.TreeInv() && model.Live(this)) && Deleted(n)
      ensures var gone := old(model.tree)[path + [n]];
        old(gone.contacts) == [] && old(gone.groups) == [] && gone.parent == this && gone != this
    {
      hide Group.Rooted, Agree;
      var p := path + [n];
      var gone := old(model.tree)[p];
      assert old(model.NodeOk(p)) && old(model.NodeOk(path)) && Init(p) == path;
      AgreeParts(old(gone.contacts), old(gone.groups), old(gone.items));
    }

    twostate lemma OldPaths()
      requires old(model.Inv())
      ensures forall p <- old(model.tree) :: old(model.tree)[p].path == p
    {
      forall p | p in old(model.tree)
        ensures old(model.tree)[p].path == p
      {
        assert old(model.NodeOk(p));
      }
    }

    twostate lemma DeletedFrame(n: string)
      requires old(model.Inv() && model.Live(this)) && Deleted(n)
      ensures model.Rest(path) == old(model.Rest(path))
      ensures fresh(model.tree.Values - old(model.tree.Values))
    {
      hide ContactListModel.Inv, Agree, Group.Rooted, RemoveAt, Find, Below;
      PrefixBelow(path, n);
      OldPaths();
      forall q | q in model.tree && !Below(path, q)
        ensures unchanged(model.tree[q])
      {
        assert model.tree[q] != this;
      }
      forall g <- model.tree.Values
        ensures g in old(model.tree.Values)
      {
        var q :| q in model.tree && model.tree[q] == g;
        assert old(model.tree)[q] == g;
      }
    }

    twostate lemma DeletedHolds(n: string, new bound: nat)
      requires old(model.Inv() && model.Live(this) && model.Shallow(bound)) && Deleted(n)
      ensures model.Shallow(bound)
      ensures forall p, y :: model.At(p, y) <==> old(model.At(p, y))
      ensures forall p :: model.Empty(p) ==> p == path || (old(model.Empty(p)) && p != path + [n])
    {
      hide ContactListModel.NodeOk, ContactListModel.FlagInv, ContactListModel.ViewInv, ContactListModel.NamesInv,
        ContactListModel.ContactsInv, Agree, Group.Rooted, RemoveAt, Find;
      OldPaths();
      DeletedWasEmpty(n);
    }

    twostate lemma DeletedGroups(n: string)
      requires old(model.Inv() && model.Live(this)) && Deleted(n)
      ensures forall h :: h in groups <==> h in old(groups) && h != old(model.tree)[path + [n]]
    {
      hide ContactListModel.FlagInv, ContactListModel.ViewInv, ContactListModel.NamesInv,
        ContactListModel.ContactsInv, Agree, Group.Rooted, RemoveAt, Find;
      OldPaths();
      assert old(model.NodeOk(path));
      AgreeParts(old(contacts), old(groups), old(items));
      NoDupRemove(old(groups), old(model.tree)[path + [n]]);
    }

    twostate lemma DeletedKeepsNode(new n: string, new q: Path)
      requires old(model.TreeInv() && model.Live(this)) && Deleted(n)
      requires Agree(contacts, groups, items) && q in model.tree
      requires forall h :: h in groups <==> h in old(groups) && h != old(model.tree)[path + [n]]
      ensures model.NodeOk(q)
    {
      hide Group.Rooted, Agree, RemoveAt, Find;
      DeletedWasEmpty(n);
      assert old(model.NodeOk(q));
      if q == path {
        assert model.tree[q] == this;
        assert this.parent != null ==> this in this.parent.groups by {
          if this.parent != null {
            assert old(model.NodeOk(Init(q)));
            assert this.parent == model.tree[Init(q)] && this.parent != this;
          }
        }
      } else {
        DeletedKeepsOther(n, q);
      }
    }

    twostate lemma DeletedKeepsOther(new n: string, new q: Path)
      requires old(model.TreeInv() && model.Live(this)) && Deleted(n)
      requires q in model.tree && q != path
      requires forall h :: h in groups <==> h in old(groups) && h != old(model.tree)[path + [n]]
      ensures model.NodeOk(q)
    {
      hide Group.Rooted, Agree, RemoveAt, Find;
      DeletedWasEmpty(n);
      assert old(model.NodeOk(q));
      var p, g := path + [n], model.tree[q];
      var gone := old(model.tree)[p];
      assert g != this && gone !in old(g.groups);
      if q != [] {
        assert g in old(g.parent.groups);
        assert g.parent != gone && Init(q) in model.tree && model.tree[Init(q)] == g.parent;
        assert old(model.NodeOk(Init(q)));
        assert g.parent == this || unchanged(g.parent);
        assert old(model.NodeOk(p));
      }
    }

    twostate lemma DeletedKeepsFlag(new n: string, new q: Path)
      requires old(model.TreeInv() && model.Live(this) && model.FlagInv()) && Deleted(n)
      requires q in model.tree && model.NodeOk(q)
      ensures model.FlagOk(q)
    {
      hide Group.Rooted, ContactListModel.NodeOk;
      assert old(model.FlagOk(q));
      var g := model.tree[q];
      if g != this {
        forall i <- g.items
          ensures model.ItemOnline(i) == old(model.ItemOnline(i))
        {
          if i.GroupItem? {
            model.ItemLive(q, i);
          }
        }
      }
    }

    twostate lemma DeletedKeepsContacts(n: string)
      requires old(model.Inv() && model.Live(this)) && Deleted(n)
      requires model.cache.contacts == old(model.cache.contacts)
      ensures model.ContactsInv()
    {
      hide ContactListModel.NamesInv, ContactListModel.ViewInv, ContactListModel.FlagInv, ContactListModel.NodeOk,
        Group.Rooted, RemoveAt, Find;
      DeletedWasEmpty(n);
      var cached := model.cache.contacts;
      forall x, h | x in cached && h in cached[x]
        ensures model.Live(h) && x in h.contacts
      {
        assert old(model.Live(h) && x in h.contacts);
      }
      forall q, x | q in model.tree && x in model.tree[q].contacts
        ensures model.tree[q] in model.cache.GroupsFor(x)
      {
        assert q in old(model.tree) && x in old(model.tree[q].contacts);
        assert old(model.tree[q] in model.cache.GroupsFor(x));
      }
    }

    twostate lemma DeletedKeepsView(n: string)
      requires old(model.Inv() && model.Live(this)) && Deleted(n)
      requires model.signal.Idle? && model.doResetAfterBulkUpdate
      requires model.emitDeltaSignals == old(model.emitDeltaSignals)
        && model.bulkUpdateCount == old(model.bulkUpdateCount)
      requires model.emitDeltaSignals ==>
        model.view == old(model.view)[RowsKey() := items] - {old(model.tree)[path + [n]]}
      ensures model.ViewInv()
    {
      hide ContactListModel.NamesInv, ContactListModel.ContactsInv, ContactListModel.FlagInv,
        ContactListModel.NodeOk, Group.Rooted, Agree, RemoveAt, Find;
      OldKeys();
      forall p | p in model.tree && model.emitDeltaSignals
        ensures model.tree[p].RowsKey() in model.view && model.view[model.tree[p].RowsKey()] == model.tree[p].items
      {
        assert old(model.tree)[p].RowsKey() in old(model.view);
        assert p != path ==> model.tree[p].items == old(model.tree[p].items);
        assert model.tree[p].RowsKey() != old(model.tree)[path + [n]];
      }
    }

    twostate lemma OldKeys()
      requires old(model.Inv() && model.Live(this))
      ensures forall p, q ::
        (p in old(model.tree) && q in old(model.tree) && old(model.tree)[p].RowsKey()
          == old(model.tree)[q].RowsKey()) ==> p == q
      ensures forall p <- old(model.tree) :: p != [] ==> old(model.tree)[p].RowsKey() == old(model.tree)[p]
      ensures forall p <- old(model.tree) :: old(model.tree)[p].path == p
    {
      hide Agree;
      forall p | p in old(model.tree)
        ensures old(model.tree)[p].path == p && (old(model.tree)[p].parent == null <==> p == [])
      {
        assert old(model.NodeOk(p));
      }
    }

    twostate lemma DeletedKeepsNames(n: string)
      requires old(model.NamesInv()) && Deleted(n) && model.stale == old(model.stale)
      requires model.cache.names == old(model.cache.names) - {Join(path + [n], model.delim)}
      requires model.TreeInv() && IsPath(path + [n], model.delim)
      ensures model.NamesInv()
    {
      hide ContactListModel.NodeOk, ContactListModel.TreeInv, Group.Rooted, IsPath, Join, RemoveAt, Find;
      var p := path + [n];
      model.FullNamesDistinct(p);
      forall k | k in model.cache.names
        ensures Parts(k, model.delim) != p
      {
        JoinSplit(k, model.delim);
      }
    }
  }

  class ContactListModel {
    const delim: Delimiter
    const cache: GroupCache
    var root: Group?
    var bulkUpdateCount: nat
    var emitDeltaSignals: bool
    var doResetAfterBulkUpdate: bool
    var signal: Signal
    /** The groups that exist, by path. */
    ghost var tree: map<Path, Group>
    /** What a view shows that only follows the signals: the rows below each group. */
    ghost var view: map<Group?, seq<Item>>
    /** Which groups a change of groups was passed to, and how often. */
    ghost var calls: multiset<Path>
    /** Keys of the name map that a tear-down left behind. */
    ghost var stale: set<string>
    /** The contacts that are online now. */
    var online: set<Contact>
    /** The contacts whose last change the model has not been told about yet. */
    ghost var dirty: set<Contact>

    constructor (delim: Delimiter)
      ensures this.delim == delim && fresh(cache) && fresh(tree.Values)
      ensures Inv() && Tidy() && tree.Keys == {[]} && forall p, y :: !At(p, y)
      ensures bulkUpdateCount == 0 && online == dirty == {} && stale == {}
    {
      this.delim := delim;
      cache := new GroupCache();
      bulkUpdateCount, emitDeltaSignals, doResetAfterBulkUpdate := 0, true, false;
      signal := Idle;
      stale, online, dirty := {}, {}, {};
      calls := multiset{};
      new;
      root := new Group(this, null, "");
      tree := map[[] := root];
      view := map[null := []];
      hide Inv, Tidy, ContactsInv, NamesInv, ViewInv, FlagInv, TreeInv, Mirrored;
      NewModel();
    }

    lemma NewModel()
      requires root != null && tree == map[[] := root] && root.model == this && root.Rooted() && root.path == []
      requires root.contacts == [] && root.groups == [] && root.items == []
      requires cache.contacts == map[] && cache.names == map[] && view == map[null := []] && signal.Idle?
      requires emitDeltaSignals && bulkUpdateCount == 0 && !doResetAfterBulkUpdate && online == dirty == {}
        && stale == {}
      ensures Inv() && Tidy() && forall p, y :: !At(p, y)
    {
      assert NodeOk([]) by {
        EmptyAgrees();
      }
    }

    ghost predicate Live(g: Group)
      reads this`tree
    {
      g.path in tree && tree[g.path] == g
    }

    ghost predicate At(p: Path, x: Contact)
      reads this`tree, tree.Values`contacts
    {
      p in tree && x in tree[p].contacts
    }

    ghost predicate Empty(p: Path)
      reads this`tree, tree.Values`items
    {
      p in tree && tree[p].items == []
    }

    /** The last names of the groups at and below `at`. */
    ghost function OwnNames(at: Path): set<string>
      reads this`tree
    {
      set q | q in tree && q != [] && Below(at, q) :: Last(q)
    }

    ghost function OwnNamesIn(groups: seq<Group>): set<string>
      reads this`tree
    {
      set q | q in tree && q != [] && Told(groups, q) :: Last(q)
    }

    /** The groups at and below `at` that hold `y`. */
    ghost function Doomed(at: Path, y: Contact): set<Group>
      reads this`tree, tree.Values`contacts
    {
      set q | q in tree && Below(at, q) && y in tree[q].contacts :: tree[q]
    }

    ghost function DoomedIn(groups: seq<Group>, y: Contact): set<Group>
      reads this`tree, tree.Values`contacts
    {
      set q | q in tree && Told(groups, q) && y in tree[q].contacts :: tree[q]
    }

    lemma DoomedNone()
      ensures forall y :: DoomedIn([], y) == {}
    {
      NobodyTold();
    }

    lemma DoomedMore(groups: seq<Group>, g: Group)
      ensures forall y :: DoomedIn(groups + [g], y) == DoomedIn(groups, y) + Doomed(g.path, y)
    {
      ToldMore(groups, g);
    }

    lemma DoomedSplit(g: Group)
      requires TreeInv() && Live(g) && g.model == this
      ensures forall y :: Doomed(g.path, y) == DoomedIn(g.groups, y) + if y in g.contacts then {g} else {}
    {
      hide TreeInv, Told;
      g.NothingUnlisted();
      BelowSameLength(g.path, g.path);
    }

    lemma OwnNamesNone()
      ensures OwnNamesIn([]) == {}
    {
      NobodyTold();
    }

    lemma OwnNamesMore(groups: seq<Group>, g: Group)
      ensures OwnNamesIn(groups + [g]) == OwnNamesIn(groups) + OwnNames(g.path)
    {
      ToldMore(groups, g);
      hide Told, Below;
      forall n <- OwnNames(g.path)
        ensures n in OwnNamesIn(groups + [g])
      {
        var q :| q in tree && q != [] && Below(g.path, q) && Last(q) == n;
        assert Told(groups + [g], q);
      }
      forall n <- OwnNamesIn(groups)
        ensures n in OwnNamesIn(groups + [g])
      {
        var q :| q in tree && q != [] && Told(groups, q) && Last(q) == n;
        assert Told(groups + [g], q);
      }
    }

    lemma OwnNamesSplit(g: Group)
      requires TreeInv() && Live(g) && g.model == this
      ensures OwnNames(g.path) == (if g.parent == null then {} else {g.name}) + OwnNamesIn(g.groups)
    {
      hide TreeInv, Told;
      g.Children();
      g.NothingUnlisted();
      forall n <- OwnNames(g.path)
        ensures n in (if g.parent == null then {} else {g.name}) + OwnNamesIn(g.groups)
      {
        var q :| q in tree && q != [] && Below(g.path, q) && Last(q) == n;
        if q != g.path {
          assert Told(g.groups, q);
        }
      }
      forall n <- OwnNamesIn(g.groups)
        ensures n in OwnNames(g.path)
      {
        var q :| q in tree && q != [] && Told(g.groups, q) && Last(q) == n;
        assert Below(g.path, q);
      }
      if g.parent != null {
        assert Below(g.path, g.path) && g.path in tree;
      }
    }

    /** The group at `p` is about to recompute its flag. */
    ghost predicate Ticking(p: Path)
      reads this`tree, tree.Values`timerActive
    {
      p in tree && tree[p].timerActive
    }

    /** The flag and the timer of every group. */
    ghost function Marks(): map<Path, (bool, bool)>
      reads this`tree, tree.Values`haveOnlineContacts, tree.Values`timerActive
    {
      map p | p in tree :: (tree[p].haveOnlineContacts, tree[p].timerActive)
    }

    ghost predicate Shallow(bound: nat)
      reads this`tree
    {
      forall p <- tree :: |p| <= bound
    }

    /** Everything outside the subtree at `p`: which groups there are, and their lists. */
    ghost function Rest(p: Path): map<Path, (Group, seq<Contact>, seq<Group>, seq<Item>)>
      reads this`tree, tree.Values`contacts, tree.Values`groups, tree.Values`items
    {
      map q | q in tree && !Below(p, q) :: (tree[q], tree[q].contacts, tree[q].groups, tree[q].items)
    }

    twostate lemma RestWider(new at: Path, new n: string)
      requires Rest(at + [n]) == old(Rest(at + [n]))
      ensures Rest(at) == old(Rest(at))
    {
      PrefixBelow(at, n);
      var inner, inner' := Rest(at + [n]), old(Rest(at + [n]));
      var outer, outer' := Rest(at), old(Rest(at));
      assert forall q <- outer :: q in inner && outer[q] == inner[q];
      assert forall q <- outer' :: q in inner' && outer'[q] == inner'[q];
      assert forall q <- outer :: q in inner';
      assert forall q <- outer' :: q in inner;
      assert outer.Keys == outer'.Keys;
    }

    twostate lemma RestKeys(new p: Path)
      requires Rest(p) == old(Rest(p))
      ensures forall q | !Below(p, q) :: q in tree <==> q in old(tree)
    {
      assert forall q | !Below(p, q) :: q in tree <==> q in Rest(p);
      assert forall q | !Below(p, q) :: q in old(tree) <==> q in old(Rest(p));
    }

    twostate lemma RestEmpty(new p: Path)
      requires Rest(p) == old(Rest(p))
      ensures forall q :: Empty(q) ==> Below(p, q) || old(Empty(q))
    {
      forall q | Empty(q) && !Below(p, q)
        ensures old(Empty(q))
      {
        assert q in Rest(p) && q in old(Rest(p));
      }
    }

    lemma ShallowLive(g: Group, bound: nat)
      requires Shallow(bound) && Live(g)
      ensures |g.path| <= bound
    {
    }

    /** The group at `p` is where its path says, and its three lists agree with each other. */
    ghost predicate NodeOk(p: Path)
      requires p in tree
      reads this`tree, this`root, tree.Values`contacts, tree.Values`groups, tree.Values`items
    {
      var g := tree[p];
      && g.model == this && g.path == p && IsPath(p, delim) && g.Rooted()
      && Agree(g.contacts, g.groups, g.items)
      && (forall h <- g.groups :: Live(h) && h.parent == g)
      && if p == [] then g == root && g.parent == null
         else Init(p) in tree && g.parent == tree[Init(p)] && g in g.parent.groups
    }

    ghost predicate TreeInv()
      reads this`tree, this`root, tree.Values`contacts, tree.Values`groups, tree.Values`items
    {
      && [] in tree
      && forall p {:trigger NodeOk(p)} :: p in tree ==> NodeOk(p)
    }

    lemma PathsUnique()
      requires Inv()
      ensures forall p <- tree :: tree[p].path == p && tree[p].model == this
    {
      forall p <- tree
        ensures tree[p].path == p && tree[p].model == this
      {
        assert NodeOk(p);
      }
    }

    /** Every group's ancestors exist. */
    lemma {:induction false} PrefixLive(p: Path, k: nat)
      requires TreeInv() && p in tree && k <= |p|
      ensures p[..k] in tree
      decreases |p|
    {
      if k == |p| {
        assert p[..k] == p;
      } else {
        assert NodeOk(p);
        PrefixLive(Init(p), k);
        assert Init(p)[..k] == p[..k];
      }
    }

    lemma OnTheWay(p: Path, q: Path, x: Contact)
      requires Inv() && Below(p, q)
      ensures At(q, x) ==> p in tree
    {
      if q in tree {
        PrefixLive(q, |p|);
        assert q[..|p|] == p;
      }
    }

    lemma AtHere(g: Group, x: Contact)
      requires Live(g)
      ensures At(g.path, x) <==> x in g.contacts
    {
    }

    lemma ItemLive(p: Path, i: Item)
      requires p in tree && NodeOk(p) && i in tree[p].items && i.GroupItem?
      ensures Live(i.group) && i.group.parent == tree[p]
    {
    }

    lemma NodePaths()
      requires TreeInv()
      ensures forall p <- tree :: tree[p].path == p
    {
      forall p <- tree
        ensures tree[p].path == p
      {
        assert NodeOk(p);
      }
    }

    lemma NodeAt(p: Path)
      requires TreeInv() && p in tree
      ensures NodeOk(p)
    {
    }

    lemma FullNamesDistinct(p: Path)
      requires TreeInv() && IsPath(p, delim)
      ensures forall q <- tree :: q != p ==> Join(q, delim) != Join(p, delim)
    {
      forall q <- tree | Join(q, delim) == Join(p, delim)
        ensures q == p
      {
        assert NodeOk(q);
        JoinInjective(p, q, delim);
      }
    }

    /** `groupsFor` lists, without repeats, exactly the groups that hold the contact. */
    ghost predicate ContactsInv()
      reads this`tree, cache`contacts, tree.Values`contacts
    {
      && (forall x <- cache.contacts :: cache.contacts[x] != [] && NoDup(cache.contacts[x]))
      && (forall x, h :: x in cache.contacts && h in cache.contacts[x] ==> Live(h) && x in h.contacts)
      && (forall p, x :: p in tree && x in tree[p].contacts ==> tree[p] in cache.GroupsFor(x))
    }

    /** The name map holds the groups below the root under their full names, and, but for what a
        tear-down left behind, nothing else. */
    ghost predicate NamesInv()
      reads this`tree, this`stale, cache`names
    {
      && (forall p <- tree :: p != [] ==> Join(p, delim) in cache.names && cache.names[Join(p, delim)] == tree[p])
      && (forall k <- cache.names :: k !in stale ==>
            Parts(k, delim) != [] && Parts(k, delim) in tree && cache.names[k] == tree[Parts(k, delim)])
    }

    ghost predicate Mirrored()
      reads this`tree, this`view, tree.Values`items
    {
      forall p <- tree :: tree[p].RowsKey() in view && view[tree[p].RowsKey()] == tree[p].items
    }

    /** A view is in step unless a bulk update is open that has touched rows. */
    ghost predicate ViewInv()
      reads this`tree, this`view, this`signal, this`emitDeltaSignals, this`bulkUpdateCount,
        this`doResetAfterBulkUpdate, tree.Values`items
    {
      && signal.Idle?
      && (emitDeltaSignals <==> bulkUpdateCount == 0)
      && (emitDeltaSignals || !doResetAfterBulkUpdate ==> Mirrored())
    }

    ghost predicate ItemOnline(i: Item)
      reads this`online, if i.GroupItem? then {i.group} else {}
    {
      match i
      case ContactItem(x) => x in online
      case GroupItem(h) => h.haveOnlineContacts
    }

    /** A group's flag is right, or something is pending that will make it right. */
    ghost predicate FlagOk(p: Path)
      requires p in tree && NodeOk(p)
      reads this`tree, this`root, this`online, this`dirty, tree.Values
    {
      var g := tree[p];
      || p == []
      || g.timerActive
      || (exists x :: x in g.contacts && x in dirty)
      || (g.haveOnlineContacts <==> exists i :: i in g.items && ItemOnline(i))
    }

    ghost predicate FlagInv()
      requires TreeInv()
      reads this`tree, this`root, this`online, this`dirty, tree.Values
    {
      forall p {:trigger FlagOk(p)} :: p in tree ==> FlagOk(p)
    }

    ghost predicate Inv()
      reads this`tree, this`root, this`view, this`signal, this`emitDeltaSignals, this`bulkUpdateCount
      reads this`doResetAfterBulkUpdate, this`stale, this`online, this`dirty, cache, tree.Values
    {
      TreeInv() && ContactsInv() && NamesInv() && ViewInv() && FlagInv()
    }

    /** The invariant, except that the flag of the group at `p` may be out of date. */
    ghost predicate InvBut(p: Path)
      reads this`tree, this`root, this`view, this`signal, this`emitDeltaSignals, this`bulkUpdateCount
      reads this`doResetAfterBulkUpdate, this`stale, this`online, this`dirty, cache, tree.Values
    {
      && TreeInv() && ContactsInv() && NamesInv() && ViewInv()
      && forall q {:trigger FlagOk(q)} :: q in tree && q != p ==> FlagOk(q)
    }

    ghost function Shown(v: map<Group?, seq<Item>>, item: Item): map<Group?, seq<Item>>
      reads if item.GroupItem? then {item.group} else {}
    {
      if item.GroupItem? then v[item.group := item.group.items] else v
    }

    ghost function Hidden(v: map<Group?, seq<Item>>, item: Item): map<Group?, seq<Item>> {
      if item.GroupItem? then v - {item.group} else v
    }

    /** The group whose rows a model index stands for. */
    ghost function GroupAt(at: ModelIndex): Group?
      reads this
    {
      match at
      case NoIndex => root
      case Index(_, _, item) => if item.GroupItem? then item.group else null
    }

    ghost function KeyAt(at: ModelIndex): Group? {
      match at
      case NoIndex => null
      case Index(_, _, item) => if item.GroupItem? then item.group else null
    }

    method ItemAboutToBeInserted(g: Group, index: nat)
      requires signal.Idle?
      requires g.parent != null ==> GroupItem(g) in g.parent.items
      modifies this`signal, this`doResetAfterBulkUpdate
      ensures doResetAfterBulkUpdate
      ensures signal == if emitDeltaSignals then Inserting(g.ToModelIndex(), index) else Idle
    {
      doResetAfterBulkUpdate := true;
      if emitDeltaSignals {
        signal := Inserting(g.ToModelIndex(), index);
      }
    }

    /** The view reads the new row, and the rows below it, once the insertion is announced as done. */
    method InsertedItem(g: Group, index: nat)
      requires emitDeltaSignals ==> signal.Inserting?
      requires !emitDeltaSignals ==> signal.Idle?
      requires emitDeltaSignals ==>
        var at, key := GroupAt(signal.at), KeyAt(signal.at);
        at != null && key in view && signal.row <= |view[key]| && signal.row < |at.items|
      modifies this`signal, this`view
      ensures signal.Idle?
      ensures !emitDeltaSignals ==> view == old(view)
      ensures emitDeltaSignals ==>
        var at, key, row := old(GroupAt(signal.at)), old(KeyAt(signal.at)), old(signal.row);
        view == Shown(old(view)[key := old(view[key])[..row] + [at.items[row]] + old(view[key])[row..]],
                      at.items[row])
    {
      if emitDeltaSignals {
        ghost var at, key, row := GroupAt(signal.at), KeyAt(signal.at), signal.row;
        view := Shown(view[key := view[key][..row] + [at.items[row]] + view[key][row..]], at.items[row]);
        signal := Idle;
      }
    }

    method ItemAboutToBeRemoved(g: Group, index: nat)
      requires signal.Idle?
      requires g.parent != null ==> GroupItem(g) in g.parent.items
      modifies this`signal, this`doResetAfterBulkUpdate
      ensures doResetAfterBulkUpdate
      ensures signal == if emitDeltaSignals then Removing(g.ToModelIndex(), index) else Idle
    {
      doResetAfterBulkUpdate := true;
      if emitDeltaSignals {
        signal := Removing(g.ToModelIndex(), index);
      }
    }

    method RemovedItem(g: Group, index: nat)
      requires emitDeltaSignals ==> signal.Removing?
      requires !emitDeltaSignals ==> signal.Idle?
      requires emitDeltaSignals ==>
        KeyAt(signal.at) in view && signal.row < |view[KeyAt(signal.at)]|
      modifies this`signal, this`view
      ensures signal.Idle?
      ensures !emitDeltaSignals ==> view == old(view)
      ensures emitDeltaSignals ==>
        var key, row := old(KeyAt(signal.at)), old(signal.row);
        view == Hidden(old(view)[key := RemoveAt(old(view[key]), row)], old(view[key][row]))
    {
      if emitDeltaSignals {
        ghost var key, row := KeyAt(signal.at), signal.row;
        view := Hidden(view[key := RemoveAt(view[key], row)], view[key][row]);
        signal := Idle;
      }
    }

    // ---- the model's own operations ----

    /** Some name in `groups` asks for `p`: its pieces are the parts of `p`, but for empty pieces before,
        between and after. */
    ghost predicate Requests(groups: seq<string>, p: Path) {
      exists g <- groups :: IsPadded(Split(g, delim), p)
    }

    /** No group but the root is without rows. */
    ghost predicate Tidy()
      reads this`tree, tree.Values`items
    {
      forall p :: Empty(p) ==> p == []
    }

    method SanitizeGroupNames(groups: seq<string>) returns (names: seq<string>, ghost bound: nat)
      requires TreeInv()
      ensures names == [] <==> groups == []
      ensures forall p :: Asked([], names, p, delim) <==> Requests(groups, p)
      ensures ProperAll([], names, bound, delim) && Shallow(bound)
    {
      hide TreeInv, Asked, ProperAll, Requests, DropEmpty, Split, Sanitize, IsPath;
      names := [];
      bound := DepthBound(tree.Keys);
      AskedNone([], delim);
      RequestsNone();
      assert groups[..0] == [];
      for i := 0 to |groups|
        invariant |names| == i
        invariant forall p :: Asked([], names, p, delim) <==> Requests(groups[..i], p)
        invariant ProperAll([], names, bound, delim) && Shallow(bound)
      {
        var name := Sanitize(groups[i], delim);
        bound := bound + |DropEmpty(Split(groups[i], delim))|;
        SanitizedRequest(groups, i, names, name, bound);
        names := names + [name];
      }
      assert groups[..|groups|] == groups;
    }

    lemma SanitizedRequest(groups: seq<string>, i: nat, names: seq<string>, name: string, bound: nat)
      requires i < |groups| && name == Sanitize(groups[i], delim) && |DropEmpty(Split(groups[i], delim))| <= bound
      requires forall p :: Asked([], names, p, delim) <==> Requests(groups[..i], p)
      ensures forall p :: Asked([], names + [name], p, delim) <==> Requests(groups[..i + 1], p)
      ensures forall b: nat :: b <= bound && ProperAll([], names, b, delim) ==>
        ProperAll([], names + [name], bound, delim)
    {
      SanitizedIsPath(groups[i], delim);
      var t := DropEmpty(Split(groups[i], delim));
      assert Target([], name, delim) == t;
      AskedMore([], names + [name], |names|, delim);
      var all := names + [name];
      assert all[..|names|] == names && all[..|names| + 1] == all;
      RequestsMore(groups, i);
      forall p
        ensures Asked([], all, p, delim) <==> Requests(groups[..i + 1], p)
      {
        assert Asked([], all[..|names| + 1], p, delim) <==> Asked([], all[..|names|], p, delim) || p == t;
      }
    }

    lemma RequestsMore(groups: seq<string>, i: nat)
      requires i < |groups|
      ensures forall p :: Requests(groups[..i + 1], p) <==>
        Requests(groups[..i], p) || DropEmpty(Split(groups[i], delim)) == p
    {
      assert groups[..i + 1] == groups[..i] + [groups[i]];
      forall p
        ensures Requests(groups[..i + 1], p) <==> Requests(groups[..i], p) || DropEmpty(Split(groups[i], delim)) == p
      {
        hide IsPadded;
        DropEmptyMeaning(Split(groups[i], delim), p);
        if Requests(groups[..i], p) {
          var g :| g in groups[..i] && IsPadded(Split(g, delim), p);
          assert g in groups[..i + 1];
        }
        assert groups[i] in groups[..i + 1];
      }
    }

    /** That is what is left of some name when it has been sanitized. */
    lemma RequestsSanitized(groups: seq<string>, p: Path)
      ensures Requests(groups, p) <==> exists g <- groups :: DropEmpty(Split(g, delim)) == p
    {
      hide Split, IsPadded, DropEmpty;
      forall g
        ensures DropEmpty(Split(g, delim)) == p <==> IsPadded(Split(g, delim), p)
      {
        DropEmptyMeaning(Split(g, delim), p);
      }
    }

    /** So the name put together from the parts of a path, with any number of delimiters too many, asks for
        just that path. */
    lemma RequestsPadded(p: Path, n: seq<nat>)
      requires |n| == |p| + 1 && "" !in p && (forall part <- p :: Clean(part, delim)) && Padded(p, n) != []
      ensures forall q :: Requests([Join(Padded(p, n), delim)], q) <==> q == p
    {
      PaddedName(p, n, delim);
      var name := Join(Padded(p, n), delim);
      hide Padded, IsPadded, Join, Split;
      forall q
        ensures Requests([name], q) <==> q == p
      {
        DropEmptyMeaning(Split(name, delim), q);
        assert name in [name];
      }
    }

    lemma RequestsNone()
      ensures forall p :: !Requests([], p)
    {
    }

    lemma RootLive()
      requires TreeInv()
      ensures root != null && Live(root) && root.path == [] && root.model == this && root.parent == null
    {
      assert NodeOk([]);
    }

    lemma RootsAgree()
      requires TreeInv()
      ensures forall p <- tree :: tree[p].RowsKey() == if tree[p] == root then null else tree[p]
      ensures forall p <- tree :: tree[p] in tree.Values
    {
      RootLive();
      forall p <- tree
        ensures tree[p].RowsKey() == if tree[p] == root then null else tree[p]
      {
        assert NodeOk(p);
      }
    }

    method AddContact(x: Contact, groups: seq<string>)
      requires Inv() && Tidy()
      modifies tree.Values, cache
      modifies this`tree, this`view, this`signal, this`doResetAfterBulkUpdate
      ensures Inv() && Tidy() && fresh(tree.Values - old(tree.Values))
      ensures forall p, y :: At(p, y) <==> old(At(p, y)) || (y == x && Requests(groups, p))
      ensures forall p :: old(Ticking(p)) || (At(p, x) && !old(At(p, x))) ==> Ticking(p)
      ensures (forall p :: Requests(groups, p) ==> old(At(p, x))) ==> Marks() == old(Marks())
    {
      hide TreeInv, ContactsInv, NamesInv, ViewInv, FlagInv, At, Empty, Requests, Asked, ProperAll, Shallow, Marks;
      RootLive();
      var names, bound := SanitizeGroupNames(groups);
      root.AddContact(x, names, bound);
    }

    method RemoveContact(x: Contact)
      requires Inv() && Tidy()
      modifies tree.Values, cache
      modifies this`tree, this`view, this`signal, this`doResetAfterBulkUpdate, this`calls
      ensures Inv() && Tidy() && fresh(tree.Values - old(tree.Values))
      ensures forall p, y :: At(p, y) <==> old(At(p, y)) && y != x
    {
      hide TreeInv, ContactsInv, NamesInv, ViewInv, FlagInv, At, Empty, Tidy, Requests;
      RequestsNone();
      ContactGroupsChanged(x, []);
    }

    /** After a change of groups the contact sits at exactly the paths its sanitized groups name, and
        every other contact where it was. */
    method ContactGroupsChanged(x: Contact, groups: seq<string>)
      requires Inv() && Tidy()
      modifies tree.Values, cache
      modifies this`tree, this`view, this`signal, this`doResetAfterBulkUpdate, this`calls
      ensures Inv() && Tidy() && fresh(tree.Values - old(tree.Values))
      ensures forall p, y :: At(p, y) <==> if y == x then Requests(groups, p) else old(At(p, y))
      ensures calls == old(calls) + multiset(old(tree).Keys)
    {
      hide TreeInv, ContactsInv, NamesInv, ViewInv, FlagInv, At, Empty, Requests, Asked, ProperAll, Shallow;
      RootLive();
      var names, bound := SanitizeGroupNames(groups);
      AllUnderRoot(tree.Keys);
      root.ContactGroupsChanged(x, names, bound);
    }

    /** A flag stays right, or about to be put right, while no row changes for the worse. */
    twostate lemma SameFlags()
      requires old(TreeInv() && FlagInv()) && tree == old(tree) && TreeInv()
      requires forall p <- tree :: tree[p].contacts == old(tree[p].contacts) && tree[p].items == old(tree[p].items)
      requires forall p <- tree :: tree[p].haveOnlineContacts == old(tree[p].haveOnlineContacts)
      requires forall p <- tree :: old(tree[p].timerActive) ==> tree[p].timerActive
      requires forall p, x | p in tree && x in tree[p].contacts ::
        (x in online) != (x in old(online)) || (x in old(dirty) && x !in dirty) ==>
          tree[p].timerActive || x in dirty
      ensures FlagInv()
    {
      hide Agree, Group.Rooted, NodeOk;
      forall p | p in tree
        ensures NodeOk(p) && FlagOk(p)
      {
        NodeAt(p);
        SameFlag(p);
      }
    }

    twostate lemma SameFlag(new p: Path)
      requires old(TreeInv() && FlagInv()) && tree == old(tree) && TreeInv() && p in tree && NodeOk(p)
      requires forall p <- tree :: tree[p].contacts == old(tree[p].contacts) && tree[p].items == old(tree[p].items)
      requires forall p <- tree :: tree[p].haveOnlineContacts == old(tree[p].haveOnlineContacts)
      requires forall p <- tree :: old(tree[p].timerActive) ==> tree[p].timerActive
      requires forall p, x | p in tree && x in tree[p].contacts ::
        (x in online) != (x in old(online)) || (x in old(dirty) && x !in dirty) ==>
          tree[p].timerActive || x in dirty
      ensures FlagOk(p)
    {
      hide Agree, Group.Rooted;
      assert old(FlagOk(p));
      var g := tree[p];
      if !FlagOk(p) {
        forall i <- g.items
          ensures ItemOnline(i) == old(ItemOnline(i))
        {
          SameItem(p, i);
        }
        assert false;
      }
    }

    twostate lemma SameItem(new p: Path, new i: Item)
      requires tree == old(tree) && TreeInv() && p in tree && NodeOk(p) && i in tree[p].items
      requires forall p <- tree :: tree[p].haveOnlineContacts == old(tree[p].haveOnlineContacts)
      requires forall x :: x in tree[p].contacts ==> ((x in online) == (x in old(online)))
      ensures ItemOnline(i) == old(ItemOnline(i))
    {
      if i.GroupItem? {
        ItemLive(p, i);
        assert tree[i.group.path] == i.group;
      }
    }

    method BeginBulkUpdate()
      requires Inv()
      modifies this`bulkUpdateCount, this`emitDeltaSignals, this`doResetAfterBulkUpdate
      ensures Inv() && bulkUpdateCount == old(bulkUpdateCount) + 1
    {
      hide TreeInv, ContactsInv, NamesInv, FlagInv;
      if bulkUpdateCount == 0 {
        emitDeltaSignals, doResetAfterBulkUpdate := false, false;
      }
      bulkUpdateCount := bulkUpdateCount + 1;
      SameFlags();
    }

    /** A view that reads the whole tree shows it. */
    lemma ReadAgain()
      requires TreeInv() && root != null
      requires view == map k | k in (set g <- tree.Values :: g.RowsKey()) :: if k == null then root.items else k.items
      ensures Mirrored()
    {
      RootsAgree();
      hide TreeInv;
      forall p <- tree
        ensures tree[p].RowsKey() in view && view[tree[p].RowsKey()] == tree[p].items
      {
        assert tree[p] in tree.Values;
      }
    }

    /** When the last bulk update ends, a view that was left behind reads the tree again. */
    method EndBulkUpdate()
      requires Inv() && bulkUpdateCount > 0
      modifies this`bulkUpdateCount, this`emitDeltaSignals, this`view
      ensures Inv() && bulkUpdateCount == old(bulkUpdateCount) - 1
      ensures bulkUpdateCount == 0 ==> Mirrored()
      ensures bulkUpdateCount > 0 || !doResetAfterBulkUpdate ==> view == old(view)
    {
      hide TreeInv, ContactsInv, NamesInv, FlagInv, Mirrored;
      RootLive();
      bulkUpdateCount := bulkUpdateCount - 1;
      if bulkUpdateCount == 0 {
        emitDeltaSignals := true;
        if doResetAfterBulkUpdate {
          view := map k | k in (set g <- tree.Values :: g.RowsKey()) :: if k == null then root.items else k.items;
          ReadAgain();
        }
      }
    }

    /** A contact comes or goes; its `updated` signal has not reached the model yet. */
    method SetOnline(x: Contact, isOnline: bool)
      requires Inv()
      modifies this`online, this`dirty
      ensures Inv() && dirty == old(dirty) + {x}
      ensures online == if isOnline then old(online) + {x} else old(online) - {x}
    {
      hide TreeInv, ContactsInv, NamesInv, FlagInv;
      online := if isOnline then online + {x} else online - {x};
      dirty := dirty + {x};
      SameFlags();
    }

    method ContactUpdated(x: Contact)
      requires Inv()
      modifies tree.Values`timerActive, this`dirty
      ensures Inv() && dirty == old(dirty) - {x}
    {
      hide TreeInv, NamesInv, FlagInv;
      var gs := cache.GroupsFor(x);
      PathsUnique();
      forall g <- gs
        ensures Live(g) && g.model == this && g in tree.Values
      {
        assert x in cache.contacts && g in cache.contacts[x];
        assert Live(g) && tree[g.path] == g;
      }
      for i := 0 to |gs|
        invariant Inv() && dirty == old(dirty)
        invariant forall g <- tree.Values :: old(g.timerActive) ==> g.timerActive
        invariant forall g <- gs[..i] :: x in g.contacts ==> g.timerActive
      {
        gs[i].ContactUpdated(x);
      }
      assert gs[..|gs|] == gs;
      dirty := dirty - {x};
      SameFlags();
    }

    /** Rebuilds the tree from the contact list, which gives each contact its groups. */
    method InvalidateLayout(contacts: seq<Contact>, groupsOf: Contact -> seq<string>)
      requires Inv()
      modifies this`tree, this`root, this`view, this`signal, this`stale
      modifies this`bulkUpdateCount, this`emitDeltaSignals, this`doResetAfterBulkUpdate
      modifies cache, tree.Values
      ensures Inv() && Tidy() && fresh(tree.Values)
      ensures forall p, y :: At(p, y) <==> y in contacts && Requests(groupsOf(y), p)
      ensures stale == old(cache.names.Keys) - old(OwnNames([]))
      ensures bulkUpdateCount == old(bulkUpdateCount)
    {
      hide Inv, Tidy, At, Requests, OwnNames;
      BeginBulkUpdate();
      TearDown();
      for i := 0 to |contacts|
        invariant Inv() && Tidy() && fresh(tree.Values)
        invariant forall p, y :: At(p, y) <==> y in contacts[..i] && Requests(groupsOf(y), p)
        invariant bulkUpdateCount == old(bulkUpdateCount) + 1
        invariant stale == old(cache.names.Keys) - old(OwnNames([]))
      {
        AddContact(contacts[i], groupsOf(contacts[i]));
        assert contacts[..i + 1] == contacts[..i] + [contacts[i]];
      }
      assert contacts[..|contacts|] == contacts;
      EndBulkUpdate();
    }

    /** Deletes the root group and puts an empty one in its place. The full names of nested groups
        stay behind in the name map. */
    method TearDown()
      requires Inv() && bulkUpdateCount > 0
      modifies this`tree, this`root, this`stale, this`doResetAfterBulkUpdate, cache
      ensures Inv() && Tidy() && fresh(tree.Values)
      ensures forall p, y :: !At(p, y)
      ensures stale == old(cache.names.Keys) - old(OwnNames([]))
    {
      hide TreeInv, ContactsInv, NamesInv, FlagInv, OwnNames, Doomed, At, Tidy, Mirrored, NoDup,
        GroupCache.GroupsFor, GroupCache.Listed, GroupCache.NoneEmpty;
      ghost var bound := DepthBound(tree.Keys);
      RootLive();
      AllDoomed();
      MirroredRoot();
      root.Destroy(bound);
      root := new Group(this, null, "");
      tree := map[[] := root];
      stale := cache.names.Keys;
      FreshRoot();
    }

    lemma MirroredRoot()
      requires TreeInv()
      ensures root != null && (Mirrored() && root.items == [] ==> null in view && view[null] == [])
    {
      RootLive();
    }

    lemma AllDoomed()
      requires TreeInv() && ContactsInv()
      ensures cache.NoneEmpty() && forall y :: NoDup(cache.GroupsFor(y)) && cache.Listed(y) <= Doomed([], y)
    {
      hide TreeInv, NodeOk;
      forall y, h | h in cache.Listed(y)
        ensures h in Doomed([], y)
      {
        assert y in cache.contacts && h in cache.contacts[y];
        assert Live(h) && tree[h.path] == h && Below([], h.path);
      }
    }

    lemma FreshRoot()
      requires root != null && tree == map[[] := root] && root.model == this && root.Rooted() && root.path == []
      requires root.parent == null && root.contacts == [] && root.groups == [] && root.items == []
      requires cache.NoneEmpty() && forall y :: cache.Listed(y) == {}
      requires stale == cache.names.Keys
      requires signal.Idle? && !emitDeltaSignals && bulkUpdateCount > 0
      requires !doResetAfterBulkUpdate ==> null in view && view[null] == []
      ensures Inv() && Tidy() && forall p, y :: !At(p, y)
    {
      assert NodeOk([]) by {
        EmptyAgrees();
      }
      cache.NothingListed();
    }

    /** Nothing is left to tell the model about a contact whose groups are all about to recompute. */
    ghost method Settled(x: Contact)
      requires Inv()
      requires forall p :: At(p, x) ==> Ticking(p)
      modifies this`dirty
      ensures Inv() && dirty == old(dirty) - {x}
    {
      hide TreeInv, NamesInv, FlagInv, ContactsInv, ViewInv;
      dirty := dirty - {x};
      assert forall p :: p in tree && x in tree[p].contacts ==> At(p, x);
      SameFlags();
    }

    // ---- the item model's navigation ----

    function Index(row: int, column: int, at: ModelIndex): ModelIndex
      reads this`root, if at.Index? && at.item.GroupItem? then {at.item.group} else if root != null then {root} else {}
    {
      if column != 0 || row < 0 then NoIndex
      else
        var group: Group? := match at case NoIndex => root case Index(_, _, i) => if i.GroupItem? then i.group
          else null;
        if group != null && row < |group.items| then ModelIndex.Index(row, group, group.items[row]) else NoIndex
    }

    function Parent(index: ModelIndex): ModelIndex
      requires index.Index? && index.owner.parent != null ==> GroupItem(index.owner) in index.owner.parent.items
      reads if index.Index? && index.owner.parent != null then {index.owner.parent} else {}
    {
      match index
      case NoIndex => NoIndex
      case Index(_, owner, _) => owner.ToModelIndex()
    }

    /** `index` denotes a row that is there. */
    ghost predicate Genuine(index: ModelIndex)
      reads this`tree, if index.Index? then {index.owner} else {}
    {
      index.Index? && Live(index.owner) && index.row < |index.owner.items| && index.owner.items[index.row] == index.item
    }

    lemma LiveReady(g: Group)
      requires Inv() && Live(g)
      ensures g.model == this && (g.parent != null ==> Live(g.parent) && GroupItem(g) in g.parent.items)
      ensures g.parent == null ==> g == root
      ensures Agree(g.contacts, g.groups, g.items) && forall h <- g.groups :: Live(h) && h.parent == g
    {
      assert NodeOk(g.path);
      if g.parent != null {
        assert NodeOk(Init(g.path));
      }
    }

    /** The index a group reports for itself denotes it: the view finds the group's rows under it. */
    lemma IndexOfGroup(g: Group)
      requires Inv() && Live(g)
      ensures g.parent != null ==> GroupItem(g) in g.parent.items
      ensures GroupAt(g.ToModelIndex()) == g && (g.parent == null || Genuine(g.ToModelIndex()))
      ensures forall row: nat :: row < |g.items| ==>
        Index(row, 0, g.ToModelIndex()) == ModelIndex.Index(row, g, g.items[row])
      ensures forall row: int, column: int :: column != 0 || row < 0 || row >= |g.items| ==>
        Index(row, column, g.ToModelIndex()) == NoIndex
    {
      LiveReady(g);
    }

    /** Contacts have no rows, and what has no parent is at the top. */
    lemma IndexOfContact(i: ModelIndex, row: int, column: int)
      requires i.Index? && i.item.ContactItem?
      ensures Index(row, column, i) == NoIndex && Parent(NoIndex) == NoIndex
    {
    }

    /** `parent` undoes `index`. */
    lemma ParentOfIndex(g: Group, row: nat)
      requires Inv() && Live(g) && row < |g.items|
      requires g.parent != null ==> GroupItem(g) in g.parent.items
      ensures var i := Index(row, 0, g.ToModelIndex());
        i.Index? && i.owner == g && Genuine(i) && Parent(i) == g.ToModelIndex()
    {
      IndexOfGroup(g);
    }

    /** Every row is found again under its parent. */
    lemma IndexOfParent(i: ModelIndex)
      requires Inv() && Genuine(i)
      requires i.owner.parent != null ==> GroupItem(i.owner) in i.owner.parent.items
      ensures Index(i.row, 0, Parent(i)) == i
      ensures i.item.GroupItem? ==> i.item.group.parent == i.owner && i.item.group.ToModelIndex() == i
    {
      IndexOfGroup(i.owner);
      LiveReady(i.owner);
      if i.item.GroupItem? {
        assert i.owner.items[i.row] in i.owner.items;
        assert i.item.group in i.owner.groups;
      }
    }

    /** Every position of the contact, each once. */
    method IndexesFor(x: Contact) returns (result: seq<ModelIndex>)
      requires Inv()
      ensures NoDup(result) && |result| == |cache.GroupsFor(x)|
      ensures forall i <- result :: Genuine(i) && i.item == ContactItem(x)
      ensures forall g <- tree.Values :: x in g.contacts ==> exists i <- result :: i.Index? && i.owner == g
    {
      result := [];
      var gs := cache.GroupsFor(x);
      for k := 0 to |gs|
        invariant |result| == k
        invariant forall j :: 0 <= j < k ==>
          Genuine(result[j]) && result[j].owner == gs[j] && result[j].item == ContactItem(x)
      {
        assert x in cache.contacts && gs[k] in cache.contacts[x];
        LiveReady(gs[k]);
        IndexOfGroup(gs[k]);
        result := result + [Index(gs[k].IndexOf(ContactItem(x)), 0, gs[k].ToModelIndex())];
      }
      forall g <- tree.Values | x in g.contacts
        ensures exists i <- result :: i.Index? && i.owner == g
      {
        var p :| p in tree && tree[p] == g;
        var k :| 0 <= k < |gs| && gs[k] == g;
        assert result[k] in result;
      }
    }
  }
}
