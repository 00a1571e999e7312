/** Paths in the group tree, and the requests that a group hands on to its subgroups. */
module GroupRequests {
  import opened GroupNames

  function Init(p: Path): Path
    requires p != []
  {
    p[..|p| - 1]
  }

  function Last(p: Path): string
    requires p != []
  {
    p[|p| - 1]
  }

  lemma {:induction false} DepthBound(paths: set<Path>) returns (bound: nat)
    ensures forall p <- paths :: |p| <= bound
  {
    if paths == {} {
      bound := 0;
    } else {
      var p :| p in paths;
      var b := DepthBound(paths - {p});
      bound := b + |p|;
      assert forall q <- paths :: q == p || q in paths - {p};
    }
  }

  ghost predicate Below(at: Path, q: Path) {
    at <= q
  }

  lemma BelowMeaning(at: Path, q: Path)
    ensures Below(at, q) <==> exists r: Path :: q == at + r
  {
    if Below(at, q) {
      assert q == at + q[|at|..];
    }
  }

  lemma BelowSameLength(at: Path, q: Path)
    requires |at| == |q|
    ensures Below(at, q) <==> at == q
  {
  }

  lemma PrefixBelow(at: Path, n: string)
    ensures forall q :: Below(at + [n], q) ==> Below(at, q)
    ensures Below(at, at + [n]) && Below(at, at)
  {
    forall q | Below(at + [n], q)
      ensures Below(at, q)
    {
      assert q[..|at|] == (at + [n])[..|at|] == at;
    }
  }

  /** The index from which a request handed to the group at `at` spells out its path: a group's
      requests start with the group's own name, the root's start below the root. */
  function From(at: Path): (i: nat)
    ensures i <= |at|
  {
    if at == [] then 0 else |at| - 1
  }

  /** The list `names`, handed to the group at `at`, asks for the group at `p`. */
  ghost predicate Asked(at: Path, names: seq<string>, p: Path, d: Delimiter) {
    at <= p && IsPath(p, d) && Join(p[From(at)..], d) in names
  }

  /** `name` is a request that may be handed to the group at `at`. */
  ghost predicate Proper(at: Path, name: string, d: Delimiter) {
    var parts := Parts(name, d);
    IsPath(parts, d) && (at != [] ==> parts != [] && parts[0] == Last(at))
  }

  /** The group that a single proper request asks for. */
  ghost function Target(at: Path, name: string, d: Delimiter): Path {
    at[..From(at)] + Parts(name, d)
  }

  ghost predicate ProperAll(at: Path, names: seq<string>, bound: nat, d: Delimiter) {
    forall n <- names :: Proper(at, n, d) && |Target(at, n, d)| <= bound
  }

  /** `splits` are the paths below `at` that `names` asks for. */
  ghost predicate SplitOf(at: Path, names: seq<string>, splits: seq<Path>, d: Delimiter) {
    forall r :: r in splits <==> r != [] && Asked(at, names, at + r, d)
  }

  /** Some path of `rels`, taken from `at`, leads to `p`. */
  ghost predicate Wanted(at: Path, rels: seq<Path>, p: Path) {
    exists r <- rels :: p == at + r
  }

  lemma WantedMore(at: Path, rels: seq<Path>, r: Path)
    ensures forall p :: Wanted(at, rels + [r], p) <==> Wanted(at, rels, p) || p == at + r
    ensures forall p :: !Wanted(at, [], p)
  {
    assert r in rels + [r] && forall q <- rels :: q in rels + [r];
  }

  lemma {:induction false} ConcatPath(a: Path, n: string, b: Path, d: Delimiter)
    requires IsPath(a + [n], d) && IsPath([n] + b, d)
    ensures IsPath(a + [n] + b, d)
  {
    if a == [] {
      assert a + [n] + b == [n] + b && a + [n] == [n];
    } else {
      var s := a + [n];
      assert s[1..] == a[1..] + [n];
      PathTail(s, 1, d);
      ConcatPath(a[1..], n, b, d);
      assert (s + b)[1..] == a[1..] + [n] + b;
    }
  }

  /** A proper request asks for exactly one group, at or below the group it is handed to, and is
      the full name of that group cut off above its receiver. */
  lemma ProperTarget(at: Path, name: string, d: Delimiter)
    requires IsPath(at, d) && Proper(at, name, d)
    ensures var t := Target(at, name, d); at <= t && IsPath(t, d) && Join(t[From(at)..], d) == name
    ensures forall p :: Asked(at, [name], p, d) <==> p == Target(at, name, d)
  {
    hide IsPath, Join, Split;
    var parts, t := Parts(name, d), Target(at, name, d);
    assert Join(parts, d) == name by {
      JoinParts(name, d);
    }
    assert t[From(at)..] == parts;
    if at != [] {
      assert at == at[..From(at)] + [parts[0]] && parts == [parts[0]] + parts[1..];
      assert t == at[..From(at)] + [parts[0]] + parts[1..];
      ConcatPath(at[..From(at)], parts[0], parts[1..], d);
    } else {
      assert t == parts;
    }
    forall p | Asked(at, [name], p, d)
      ensures p == t
    {
      PathTail(p, From(at), d);
      JoinInjective(p[From(at)..], parts, d);
      assert p == p[..From(at)] + p[From(at)..];
      assert p[..From(at)] == at[..From(at)];
    }
  }

  lemma JoinParts(name: string, d: Delimiter)
    ensures Join(Parts(name, d), d) == name
  {
    JoinSplit(name, d);
  }

  lemma AskedMore(at: Path, names: seq<string>, i: nat, d: Delimiter)
    requires i < |names| && IsPath(at, d) && Proper(at, names[i], d)
    ensures forall p :: Asked(at, names[..i + 1], p, d) <==> Asked(at, names[..i], p, d) || p == Target(at, names[i], d)
  {
    hide IsPath, Join, Parts, Proper, Target, From;
    ProperTarget(at, names[i], d);
    assert names[..i + 1] == names[..i] + [names[i]];
    forall p
      ensures Asked(at, names[..i + 1], p, d) <==> Asked(at, names[..i], p, d) || p == Target(at, names[i], d)
    {
      assert Asked(at, [names[i]], p, d) <==> p == Target(at, names[i], d);
      if at <= p {
        var m := Join(p[From(at)..], d);
        assert m in names[..i + 1] <==> m in names[..i] || m in [names[i]];
      }
    }
  }

  lemma AskedBounds(at: Path, names: seq<string>, bound: nat, d: Delimiter)
    requires IsPath(at, d) && ProperAll(at, names, bound, d)
    ensures forall p :: Asked(at, names, p, d) ==> Below(at, p) && IsPath(p, d) && |p| <= bound
  {
    forall p | Asked(at, names, p, d)
      ensures |p| <= bound
    {
      var n := Join(p[From(at)..], d);
      ProperTarget(at, n, d);
      assert Asked(at, [n], p, d);
    }
  }

  lemma ProperOne(at: Path, name: string, bound: nat, d: Delimiter)
    requires Proper(at, name, d) && |Target(at, name, d)| <= bound
    ensures ProperAll(at, [name], bound, d)
  {
  }

  lemma AskedNone(at: Path, d: Delimiter)
    ensures forall p :: !Asked(at, [], p, d)
    ensures forall bound :: ProperAll(at, [], bound, d)
  {
  }

  /** What a request for a group further down looks like one level below. */
  lemma ProperBelow(at: Path, t: Path, d: Delimiter)
    requires IsPath(t, d) && at < t
    ensures IsPath(at + [t[|at|]], d) && at + [t[|at|]] <= t
    ensures Proper(at + [t[|at|]], Join(t[|at|..], d), d)
    ensures Target(at + [t[|at|]], Join(t[|at|..], d), d) == t
  {
    var r := t[|at|..];
    PathInit(t, |at| + 1, d);
    assert t[..|at| + 1] == at + [t[|at|]];
    PathTail(t, |at|, d);
    PartsJoin(r, d);
    assert at + r == t;
  }

  /** Cutting a request and dropping the receiver's own name leaves what leads further down. */
  lemma NestedParts(at: Path, name: string, d: Delimiter)
    requires IsPath(at, d) && Proper(at, name, d) && Target(at, name, d) != at
    ensures var t := Target(at, name, d); at < t && t[|at|..] == Split(name, d)[if at == [] then 0 else 1..]
    ensures var t := Target(at, name, d); at < t && t[|at|] != ""
  {
    ProperTarget(at, name, d);
    assert Target(at, name, d)[From(at)..] == Parts(name, d);
  }

  /** The full name handed to `addContact` for a group that has to be created. */
  lemma ProperFull(at: Path, own: string, r: Path, d: Delimiter)
    requires IsPath(at, d) && IsPath(at + r, d) && r != []
    requires own == if at == [] then "" else Last(at)
    ensures var name := Join((if own == "" then [] else [own]) + r, d);
            Proper(at, name, d) && Target(at, name, d) == at + r
  {
    var up := (if own == "" then [] else [own]) + r;
    assert at != [] ==> own in at + r;
    assert at != [] ==> own != "";
    hide IsPath, Join, Parts, Split;
    PathTail(at + r, From(at), d);
    assert (at + r)[From(at)..] == up;
    PartsJoin(up, d);
  }

  lemma NonEmptyPath(p: Path, d: Delimiter)
    requires p != [] && IsPath(p, d)
    ensures Split(Join(p, d), d) == p
  {
    SplitJoin(p, d);
  }

  /** The group's own name, or "" for the root, asks for the group itself. */
  lemma ProperSelf(at: Path, name: string, d: Delimiter)
    requires IsPath(at, d) && Proper(at, name, d)
    ensures Target(at, name, d) == at <==> name == if at == [] then "" else Last(at)
  {
    ProperTarget(at, name, d);
    if at != [] {
      assert at[From(at)..] == [Last(at)] && Join([Last(at)], d) == Last(at);
    }
  }
}
