/** Group names as the contact list sees them: `A::B::C` strings, how they are cut into parts
    and glued together again, and exactly when the two are inverse to each other. */
module GroupNames {

  type Delimiter = s: string | s != "" witness "::"

  /** The parts of a group name, outermost first. The root of the contact list is the empty path. */
  type Path = seq<string>

  predicate OccursAt(s: string, d: Delimiter, i: nat) {
    i + |d| <= |s| && s[i..i + |d|] == d
  }

  function IndexFrom(s: string, d: Delimiter, i: nat): (r: int)
    requires i <= |s|
    ensures r == -1 || (i <= r && OccursAt(s, d, r))
    ensures forall j: nat :: i <= j && OccursAt(s, d, j) ==> 0 <= r <= j
    decreases |s| - i
  {
    if OccursAt(s, d, i) then i
    else if i == |s| then -1
    else IndexFrom(s, d, i + 1)
  }

  /** First occurrence of the delimiter, or -1. */
  function IndexOf(s: string, d: Delimiter): (r: int)
    ensures r == -1 || (0 <= r && OccursAt(s, d, r))
    ensures forall j: nat :: OccursAt(s, d, j) ==> 0 <= r <= j
  {
    IndexFrom(s, d, 0)
  }

  /** QString::split, empty parts kept: cut at every non-overlapping delimiter, left to right. */
  function Split(s: string, d: Delimiter): (parts: seq<string>)
    ensures parts != []
    decreases |s|
  {
    var i := IndexOf(s, d);
    if i < 0 then [s] else [s[..i]] + Split(s[i + |d|..], d)
  }

  /** QStringList::join. */
  function Join(parts: seq<string>, d: Delimiter): string {
    if parts == [] then ""
    else if |parts| == 1 then parts[0]
    else parts[0] + d + Join(parts[1..], d)
  }

  function DropEmpty(parts: seq<string>): (kept: seq<string>)
    ensures "" !in kept
    ensures "" !in parts ==> kept == parts
  {
    if parts == [] then []
    else if parts[0] == "" then DropEmpty(parts[1..])
    else [parts[0]] + DropEmpty(parts[1..])
  }

  function Sanitize(name: string, d: Delimiter): string {
    Join(DropEmpty(Split(name, d)), d)
  }

  /** A part that a cut leaves intact when more text follows. With a delimiter that overlaps itself
      this is stronger than not containing it: "a:" is not clean for "::". */
  predicate Clean(part: string, d: Delimiter) {
    IndexOf(part + d, d) == |part|
  }

  /** The lists of parts that survive being joined and cut again. */
  predicate Cut(parts: seq<string>, d: Delimiter) {
    parts == [] ||
    if |parts| == 1 then IndexOf(parts[0], d) == -1
    else Clean(parts[0], d) && Cut(parts[1..], d)
  }

  predicate IsPath(p: Path, d: Delimiter) {
    Cut(p, d) && "" !in p
  }

  /** The path a sanitized name denotes; "" means the root itself. */
  function Parts(name: string, d: Delimiter): Path {
    if name == "" then [] else Split(name, d)
  }

  // ---- cutting and joining ----

  lemma {:induction false} JoinSplit(s: string, d: Delimiter)
    ensures Join(Split(s, d), d) == s
    decreases |s|
  {
    var i := IndexOf(s, d);
    if i >= 0 {
      JoinSplit(s[i + |d|..], d);
      assert Split(s, d)[1..] == Split(s[i + |d|..], d);
      assert s[..i] + d + s[i + |d|..] == s;
    }
  }

  lemma CleanIsUncut(part: string, d: Delimiter)
    requires Clean(part, d)
    ensures IndexOf(part, d) == -1
  {
    var r := IndexOf(part, d);
    if r >= 0 {
      assert (part + d)[r..r + |d|] == part[r..r + |d|];
      assert OccursAt(part + d, d, r);
    }
  }

  /** A clean part followed by the delimiter and anything at all is cut right after the part, and
      only clean parts are. */
  lemma CleanCut(part: string, d: Delimiter, rest: string)
    ensures IndexOf(part + d + rest, d) == |part| <==> Clean(part, d)
  {
    var s := part + d;
    assert s[|part|..|part| + |d|] == d && (s + rest)[|part|..|part| + |d|] == d;
    assert OccursAt(s, d, |part|) && OccursAt(s + rest, d, |part|);
    forall i: nat | i <= |part|
      ensures OccursAt(s, d, i) <==> OccursAt(s + rest, d, i)
    {
      assert s[i..i + |d|] == (s + rest)[i..i + |d|];
    }
  }

  lemma CutAt(s: string, d: Delimiter)
    requires IndexOf(s, d) >= 0
    ensures var i := IndexOf(s, d); i + |d| <= |s| && s == s[..i] + d + s[i + |d|..]
  {
  }

  lemma {:induction false} SplitIsCut(s: string, d: Delimiter)
    ensures Cut(Split(s, d), d)
    decreases |s|
  {
    hide IndexOf, OccursAt;
    var i := IndexOf(s, d);
    if i >= 0 {
      CutAt(s, d);
      SplitIsCut(s[i + |d|..], d);
      CleanCut(s[..i], d, s[i + |d|..]);
      assert Split(s, d)[1..] == Split(s[i + |d|..], d);
    }
  }

  /** Split inverts Join on exactly the lists of parts that Split can produce. */
  lemma {:induction false} SplitJoin(parts: seq<string>, d: Delimiter)
    requires parts != []
    ensures Split(Join(parts, d), d) == parts <==> Cut(parts, d)
  {
    if |parts| > 1 {
      var rest := Join(parts[1..], d);
      var s := Join(parts, d);
      SplitJoin(parts[1..], d);
      CleanCut(parts[0], d, rest);
      if Clean(parts[0], d) {
        assert s[..|parts[0]|] == parts[0] && s[|parts[0]| + |d|..] == rest;
        assert Split(s, d)[1..] == Split(rest, d);
        assert parts == [parts[0]] + parts[1..];
      } else if Split(s, d) == parts {
        SplitIsCut(s, d);
        assert false;
      }
    } else {
      assert parts == [parts[0]];
    }
  }

  /** Written out: no delimiter begins inside a part, not even one that ends in the delimiter behind it. */
  lemma {:induction false} CutMeaning(parts: seq<string>, d: Delimiter)
    ensures Cut(parts, d) <==> forall k :: 0 <= k < |parts| ==> Uncut(parts, d, k)
  {
    if |parts| == 1 {
      UncutOne(parts, d, 0);
    } else if |parts| > 1 {
      UncutOne(parts, d, 0);
      CutMeaning(parts[1..], d);
      var rest := parts[1..];
      forall k | 0 <= k < |rest|
        ensures Uncut(parts, d, k + 1) ==> Uncut(rest, d, k)
      {
        UncutOne(rest, d, k);
        UncutOne(parts, d, k + 1);
      }
      forall k | 0 < k < |parts|
        ensures Uncut(rest, d, k - 1) ==> Uncut(parts, d, k)
      {
        UncutOne(rest, d, k - 1);
        UncutOne(parts, d, k);
      }
    }
  }

  /** No delimiter begins inside the part at `k`. */
  ghost predicate Uncut(parts: seq<string>, d: Delimiter, k: nat)
    requires k < |parts|
  {
    var s := if k < |parts| - 1 then parts[k] + d else parts[k];
    forall a: string, b: string :: s == a + d + b ==> |a| >= |parts[k]|
  }

  lemma UncutOne(parts: seq<string>, d: Delimiter, k: nat)
    requires k < |parts|
    ensures Uncut(parts, d, k) <==> if k < |parts| - 1 then Clean(parts[k], d) else IndexOf(parts[k], d) == -1
  {
    hide IndexOf;
    var part := parts[k];
    IndexMeaning(part, d);
    IndexMeaning(part + d, d);
    assert part + d == part + d + "";
    if IndexOf(part, d) >= 0 {
      assert part == part[..IndexOf(part, d)] + d + part[IndexOf(part, d) + |d|..];
    }
  }

  lemma OccursBetween(s: string, d: Delimiter, a: string, b: string)
    requires s == a + d + b
    ensures OccursAt(s, d, |a|)
  {
    assert s[|a|..|a| + |d|] == d;
  }

  /** The first place where the delimiter begins. */
  lemma IndexMeaning(s: string, d: Delimiter)
    ensures var r := IndexOf(s, d);
            && (r < 0 ==> forall a: string, b: string :: s != a + d + b)
            && (r >= 0 ==> r + |d| <= |s| && s == s[..r] + d + s[r + |d|..])
            && forall a: string, b: string :: s == a + d + b ==> |a| >= r
  {
    if IndexOf(s, d) >= 0 {
      CutAt(s, d);
    }
    forall a: string, b: string | s == a + d + b
      ensures 0 <= IndexOf(s, d) <= |a|
    {
      OccursBetween(s, d, a, b);
    }
  }

  /** Joining puts one delimiter between two parts, and nothing else. */
  lemma {:induction false} JoinMeaning(a: seq<string>, b: seq<string>, part: string, d: Delimiter)
    ensures Join([], d) == "" && Join([part], d) == part
    ensures a != [] && b != [] ==> Join(a + b, d) == Join(a, d) + d + Join(b, d)
  {
    if a != [] && b != [] {
      if |a| == 1 {
        assert (a + b)[1..] == b;
      } else {
        JoinMeaning(a[1..], b, part, d);
        assert (a + b)[1..] == a[1..] + b;
        assert a[0] + d + (Join(a[1..], d) + d + Join(b, d)) == a[0] + d + Join(a[1..], d) + d + Join(b, d);
      }
    }
  }

  // ---- empty parts ----

  /** Dropping empty parts looks at each part by itself. */
  lemma {:induction false} DropEmptyConcat(a: seq<string>, b: seq<string>)
    ensures DropEmpty(a + b) == DropEmpty(a) + DropEmpty(b)
  {
    if a == [] {
      assert a + b == b;
    } else {
      assert (a + b)[1..] == a[1..] + b;
      DropEmptyConcat(a[1..], b);
    }
  }

  lemma DropEmptyOne(part: string)
    ensures DropEmpty([part]) == if part == "" then [] else [part]
  {
  }

  /** The parts of `p` with `n[0]` empty ones before the first, `n[1]` before the second, and so on, and the last
      of `n` after them. */
  ghost function Padded(p: Path, n: seq<nat>): seq<string>
    requires |n| == |p| + 1
  {
    seq(n[0], _ => "") + if p == [] then [] else [p[0]] + Padded(p[1..], n[1..])
  }

  lemma {:induction false} DropEmptyPadding(k: nat)
    ensures DropEmpty(seq(k, _ => "")) == []
  {
    if k > 0 {
      DropEmptyPadding(k - 1);
      assert seq(k, _ => "")[1..] == seq(k - 1, _ => "");
    }
  }

  lemma {:induction false} DropEmptyPadded(p: Path, n: seq<nat>)
    requires |n| == |p| + 1 && "" !in p
    ensures DropEmpty(Padded(p, n)) == p
  {
    DropEmptyPadding(n[0]);
    DropEmptyConcat(seq(n[0], _ => ""), if p == [] then [] else [p[0]] + Padded(p[1..], n[1..]));
    if p != [] {
      DropEmptyPadded(p[1..], n[1..]);
      DropEmptyConcat([p[0]], Padded(p[1..], n[1..]));
      DropEmptyOne(p[0]);
    }
  }

  lemma {:induction false} PaddingOf(parts: seq<string>) returns (n: seq<nat>)
    ensures |n| == |DropEmpty(parts)| + 1 && Padded(DropEmpty(parts), n) == parts
  {
    if parts == [] {
      n := [0];
    } else {
      var m := PaddingOf(parts[1..]);
      var p := DropEmpty(parts[1..]);
      if parts[0] == "" {
        n := [m[0] + 1] + m[1..];
        assert seq(m[0] + 1, _ => "") == [""] + seq(m[0], _ => "");
        assert n[1..] == m[1..];
        assert Padded(p, n) == [""] + Padded(p, m);
      } else {
        n := [0] + m;
        assert n[1..] == m && DropEmpty(parts)[1..] == p;
      }
    }
  }

  /** `parts` is `p` but for empty parts, any number of them before, between and after. */
  ghost predicate IsPadded(parts: seq<string>, p: Path) {
    "" !in p && exists n: seq<nat> :: |n| == |p| + 1 && parts == Padded(p, n)
  }

  /** Dropping the empty parts loses and moves no other. */
  lemma DropEmptyMeaning(parts: seq<string>, p: Path)
    ensures DropEmpty(parts) == p <==> IsPadded(parts, p)
  {
    if DropEmpty(parts) == p {
      var n := PaddingOf(parts);
      assert parts == Padded(p, n);
    }
    if IsPadded(parts, p) {
      var n: seq<nat> :| |n| == |p| + 1 && parts == Padded(p, n);
      DropEmptyPadded(p, n);
    }
  }

  lemma {:induction false} PaddedIsCut(p: Path, n: seq<nat>, d: Delimiter)
    requires |n| == |p| + 1 && forall part <- p :: Clean(part, d)
    ensures Cut(Padded(p, n), d)
    decreases |p|, n[0]
  {
    var parts := Padded(p, n);
    CutMeaning(parts, d);
    forall k | 0 <= k < |parts|
      ensures Uncut(parts, d, k)
    {
      PaddedPart(p, n, k);
      UncutOne(parts, d, k);
      if parts[k] in p {
        CleanIsUncut(parts[k], d);
      }
    }
  }

  lemma {:induction false} PaddedPart(p: Path, n: seq<nat>, k: nat)
    requires |n| == |p| + 1 && k < |Padded(p, n)|
    ensures Padded(p, n)[k] == "" || Padded(p, n)[k] in p
  {
    if k > n[0] {
      PaddedPart(p[1..], n[1..], k - n[0] - 1);
    }
  }

  /** Delimiters too many, anywhere in the name, do not matter. */
  lemma PaddedName(p: Path, n: seq<nat>, d: Delimiter)
    requires |n| == |p| + 1 && "" !in p && forall part <- p :: Clean(part, d)
    requires Padded(p, n) != []
    ensures DropEmpty(Split(Join(Padded(p, n), d), d)) == p
  {
    PaddedIsCut(p, n, d);
    SplitJoin(Padded(p, n), d);
    DropEmptyPadded(p, n);
  }

  // ---- paths ----

  lemma {:induction false} DropEmptyCut(parts: seq<string>, d: Delimiter)
    requires Cut(parts, d)
    ensures Cut(DropEmpty(parts), d)
  {
    if |parts| > 1 {
      DropEmptyCut(parts[1..], d);
      var rest := DropEmpty(parts[1..]);
      if parts[0] != "" {
        CleanIsUncut(parts[0], d);
        assert ([parts[0]] + rest)[1..] == rest;
      }
    }
  }

  lemma PartsJoin(p: Path, d: Delimiter)
    requires IsPath(p, d)
    ensures Parts(Join(p, d), d) == p
  {
    if p != [] {
      SplitJoin(p, d);
      assert |Join(p, d)| >= |p[0]|;
    }
  }

  /** Full names identify groups: joining is injective on paths. */
  lemma JoinInjective(p: Path, q: Path, d: Delimiter)
    requires IsPath(p, d) && IsPath(q, d)
    requires Join(p, d) == Join(q, d)
    ensures p == q
  {
    PartsJoin(p, d);
    PartsJoin(q, d);
  }

  /** A sanitized name denotes a path, and is that path joined. */
  lemma SanitizedIsPath(name: string, d: Delimiter)
    ensures IsPath(Parts(Sanitize(name, d), d), d)
    ensures Join(Parts(Sanitize(name, d), d), d) == Sanitize(name, d)
    ensures Parts(Sanitize(name, d), d) == DropEmpty(Split(name, d))
  {
    var p := DropEmpty(Split(name, d));
    SplitIsCut(name, d);
    DropEmptyCut(Split(name, d), d);
    PartsJoin(p, d);
  }

  lemma SanitizeIdempotent(name: string, d: Delimiter)
    ensures Sanitize(Sanitize(name, d), d) == Sanitize(name, d)
  {
    SanitizedIsPath(name, d);
    var p := DropEmpty(Split(name, d));
    if p != [] {
      SplitJoin(p, d);
    } else {
      assert Split("", d) == [""];
      assert DropEmpty([""]) == [];
    }
  }

  lemma {:induction false} PathTail(p: Path, k: nat, d: Delimiter)
    requires IsPath(p, d) && k <= |p|
    ensures IsPath(p[k..], d)
  {
    if k > 0 {
      PathTail(p[1..], k - 1, d);
      assert p[k..] == p[1..][k - 1..];
    }
  }

  lemma {:induction false} PathInit(p: Path, k: nat, d: Delimiter)
    requires IsPath(p, d) && k <= |p|
    ensures IsPath(p[..k], d)
  {
    if k == |p| {
      assert p[..k] == p;
    } else if k > 0 {
      PathInit(p[1..], k - 1, d);
      assert p[..k][1..] == p[1..][..k - 1];
      CleanIsUncut(p[0], d);
    }
  }
}
