/** The history file of one contact: a line per event, and the index of where the lines start. */
module HistoryFile {
  import opened EventLine
  import opened Lists

  /** A bare JID; each has a file name of its own. */
  type Jid = string

  // ---- lines of a text ----

  function StartsFrom(content: string, at: nat): seq<nat>
    requires at <= |content|
    decreases |content| - at
  {
    var n := FindChar(content, '\n', at);
    if n < 0 then [] else [at] + StartsFrom(content, n + 1)
  }

  /** Where the lines that end in a newline start. */
  function Starts(content: string): seq<nat> {
    StartsFrom(content, 0)
  }

  /** What the last newline leaves behind it. */
  function TailFrom(content: string, at: nat): (t: nat)
    requires at <= |content|
    ensures at <= t <= |content|
    decreases |content| - at
  {
    var n := FindChar(content, '\n', at);
    if n < 0 then at else TailFrom(content, n + 1)
  }

  predicate Terminated(content: string) {
    content == "" || content[|content| - 1] == '\n'
  }

  /** QTextStream::readLine from a position on. */
  function ReadLine(content: string, at: nat): string
    requires at <= |content|
  {
    var n := FindChar(content, '\n', at);
    Chop(content[at..if n < 0 then |content| else n])
  }

  ghost predicate StartsLine(content: string, p: nat) {
    && p < |content| && (p == 0 || content[p - 1] == '\n')
    && exists k :: p <= k < |content| && content[k] == '\n'
  }

  /** The index holds exactly the positions where a line starts that a newline ends, in order. */
  lemma {:induction false} StartsMeaning(content: string, at: nat)
    requires at <= |content| && (at == 0 || content[at - 1] == '\n')
    ensures var s := StartsFrom(content, at);
            && (forall p: nat :: p in s <==> at <= p && StartsLine(content, p))
            && forall i, j :: 0 <= i < j < |s| ==> s[i] < s[j]
    decreases |content| - at
  {
    var n := FindChar(content, '\n', at);
    FindMeaning(content, '\n', at);
    if n >= 0 {
      StartsMeaning(content, n + 1);
      var rest := StartsFrom(content, n + 1);
      var s := [at] + rest;
      assert content[n] == '\n' && StartsLine(content, at);
      forall p: nat | at < p <= n
        ensures !StartsLine(content, p)
      {
        assert content[p - 1] != '\n';
      }
      forall i, j | 0 <= i < j < |s|
        ensures s[i] < s[j]
      {
        assert s[j] == rest[j - 1] && rest[j - 1] in rest;
      }
    }
  }

  lemma {:induction false} StartsInside(content: string, at: nat)
    requires at <= |content|
    ensures forall p <- StartsFrom(content, at) :: p < |content|
    decreases |content| - at
  {
    var n := FindChar(content, '\n', at);
    if n >= 0 {
      StartsInside(content, n + 1);
    }
  }

  function Entry(content: string, at: nat): Option<Event> {
    if at <= |content| then LineToEvent(ReadLine(content, at)) else None
  }

  /** The events of a file, None for a line that is no event. */
  function Entries(content: string): (r: seq<Option<Event>>)
    ensures |r| == |Starts(content)|
  {
    var starts := Starts(content);
    seq(|starts|, i requires 0 <= i < |starts| => Entry(content, starts[i]))
  }

  // ---- a line more ----

  lemma {:induction false} FindSame(a: string, b: string, at: nat, c: char)
    requires at <= |a|
    ensures FindChar(a + b, c, at)
            == if FindChar(a, c, at) >= 0 then FindChar(a, c, at) else FindChar(a + b, c, |a|)
    decreases |a| - at
  {
    if at < |a| {
      assert (a + b)[at] == a[at];
      FindSame(a, b, at + 1, c);
    }
  }

  /** The newline that ends the added line is the first one after the old text. */
  lemma NewLineEnd(content: string, line: string)
    requires '\n' !in line
    ensures var s := content + line + "\n";
            FindChar(s, '\n', |content|) == |content| + |line|
  {
    var s, k := content + line + "\n", |content| + |line|;
    assert s[|content|..k] == line;
    FindIs(s, '\n', |content|, k);
  }

  lemma StartsStep(content: string, at: nat)
    requires at <= |content|
    ensures var n := FindChar(content, '\n', at);
            if n < 0 then StartsFrom(content, at) == [] && TailFrom(content, at) == at
            else StartsFrom(content, at) == [at] + StartsFrom(content, n + 1)
                 && TailFrom(content, at) == TailFrom(content, n + 1)
  {
  }

  lemma {:induction false} StartsExtended(content: string, line: string, at: nat)
    requires '\n' !in line && at <= |content|
    ensures StartsFrom(content + line + "\n", at) == StartsFrom(content, at) + [TailFrom(content, at)]
    decreases |content| - at
  {
    var s := content + line + "\n";
    assert s == content + (line + "\n");
    FindSame(content, line + "\n", at, '\n');
    NewLineEnd(content, line);
    StartsStep(content, at);
    StartsStep(s, at);
    StartsStep(s, |s|);
    hide StartsFrom, TailFrom, FindChar;
    var n := FindChar(content, '\n', at);
    if n >= 0 {
      StartsExtended(content, line, n + 1);
    }
  }

  /** The tail is empty just for a text that is empty or ends in a newline. */
  lemma {:induction false} TailIsEnd(content: string, at: nat)
    requires at <= |content|
    requires at == |content| ==> Terminated(content)
    ensures TailFrom(content, at) == |content| <==> Terminated(content)
    decreases |content| - at
  {
    FindMeaning(content, '\n', at);
    var n := FindChar(content, '\n', at);
    if n >= 0 {
      TailIsEnd(content, n + 1);
    }
  }

  lemma ReadLineSame(content: string, line: string, at: nat)
    requires at <= |content| && FindChar(content, '\n', at) >= 0
    ensures ReadLine(content + line + "\n", at) == ReadLine(content, at)
  {
    assert content + line + "\n" == content + (line + "\n");
    ReadLineBefore(content, line + "\n", at);
  }

  lemma ReadLineNew(content: string, line: string)
    requires '\n' !in line
    ensures ReadLine(content + line + "\n", |content|) == Chop(line)
  {
    NewLineEnd(content, line);
    var s := content + line + "\n";
    assert s[|content|..|content| + |line|] == line;
  }

  lemma {:induction false} StartsEnded(content: string, at: nat)
    requires at <= |content|
    ensures forall p <- StartsFrom(content, at) :: p <= |content| && FindChar(content, '\n', p) >= 0
    decreases |content| - at
  {
    var n := FindChar(content, '\n', at);
    if n >= 0 {
      StartsEnded(content, n + 1);
    }
  }

  /** A line added goes on the end of the index just when the text before was terminated. */
  lemma StartsKept(content: string, line: string)
    requires '\n' !in line
    ensures Starts(content + line + "\n") == Starts(content) + [|content|] <==> Terminated(content)
  {
    StartsExtended(content, line, 0);
    TailIsEnd(content, 0);
    hide TailFrom, StartsFrom;
    var s := Starts(content);
    assert (s + [|content|])[|s|] == |content| && (s + [TailFrom(content, 0)])[|s|] == TailFrom(content, 0);
  }

  lemma EntryAt(content: string, i: nat)
    requires i < |Entries(content)|
    ensures Starts(content)[i] <= |content| && FindChar(content, '\n', Starts(content)[i]) >= 0
    ensures Entries(content)[i] == LineToEvent(ReadLine(content, Starts(content)[i]))
  {
    hide FindChar, ReadLine, LineToEvent, StartsFrom;
    StartsEnded(content, 0);
    assert Starts(content)[i] in StartsFrom(content, 0);
  }

  /** A line added to a terminated file is one event more, and leaves the others as they are. */
  lemma EntriesExtended(content: string, line: string)
    requires '\n' !in line && Terminated(content)
    ensures Entries(content + line + "\n") == Entries(content) + [LineToEvent(Chop(line))]
  {
    hide *;
    StartsKept(content, line);
    ReadLineNew(content, line);
    var s, n := content + line + "\n", |Entries(content)|;
    forall i | 0 <= i < n
      ensures Entries(s)[i] == Entries(content)[i]
    {
      EntryAt(s, i);
      EntryAt(content, i);
      ReadLineSame(content, line, Starts(content)[i]);
    }
    EntryAt(s, n);
  }

  lemma {:induction false} StartsTail(content: string, tail: string, at: nat)
    requires '\n' !in tail && at <= |content|
    ensures StartsFrom(content + tail, at) == StartsFrom(content, at)
    decreases |content| - at
  {
    FindSame(content, tail, at, '\n');
    var s := content + tail;
    assert s[|content|..|s|] == tail;
    FindIs(s, '\n', |content|, |s|);
    StartsStep(content, at);
    StartsStep(s, at);
    hide StartsFrom, FindChar;
    var n := FindChar(content, '\n', at);
    if n >= 0 {
      StartsTail(content, tail, n + 1);
    }
  }

  /** An empty file has no events, and a line that no newline ends is none. */
  lemma EntriesTail(content: string, tail: string)
    requires '\n' !in tail
    ensures Entries("") == [] && Entries(content + tail) == Entries(content)
  {
    StartsTail(content, tail, 0);
    hide *;
    EmptyFile();
    var s := content + tail;
    StartsAre(s);
    StartsAre(content);
    forall i | 0 <= i < |Entries(content)|
      ensures Entries(s)[i] == Entries(content)[i]
    {
      EntryAt(s, i);
      EntryAt(content, i);
      ReadLineBefore(content, tail, Starts(content)[i]);
    }
  }

  lemma EmptyFile()
    ensures Starts("") == [] && Entries("") == []
  {
  }

  lemma StartsAre(content: string)
    ensures Starts(content) == StartsFrom(content, 0) && |Entries(content)| == |Starts(content)|
  {
  }

  lemma ReadLineBefore(content: string, more: string, at: nat)
    requires at <= |content| && FindChar(content, '\n', at) >= 0
    ensures ReadLine(content + more, at) == ReadLine(content, at)
  {
    FindSame(content, more, at, '\n');
    var n := FindChar(content, '\n', at);
    assert (content + more)[at..n] == content[at..n];
  }

  /** A file after events have been appended one by one. */
  function Written(content: string, events: seq<Event>): string
    requires forall e <- events :: Loggable(e)
    decreases events
  {
    if events == [] then content else Written(content + EventToLine(events[0]) + "\n", events[1..])
  }

  /** After any appends, the file holds what it held and then, in order, what each line reads back as. */
  lemma {:induction false} ReadBackAll(content: string, events: seq<Event>)
    requires Terminated(content) && forall e <- events :: Loggable(e)
    ensures var entries := Entries(Written(content, events));
            && |entries| == |Entries(content)| + |events|
            && entries[..|Entries(content)|] == Entries(content)
            && forall i :: 0 <= i < |events| ==> entries[|Entries(content)| + i] == Stored(events[i])
    decreases events
  {
    hide Entries, EventToLine, LineToEvent, Stored, Loggable;
    if events != [] {
      var e := events[0];
      var content' := content + EventToLine(e) + "\n";
      LineIsOneLine(e);
      EntriesExtended(content, EventToLine(e));
      StoredRead(e);
      ReadBackAll(content', events[1..]);
      var entries, n := Entries(Written(content, events)), |Entries(content)|;
      assert entries[..n] == entries[..n + 1][..n];
      forall i | 0 <= i < |events|
        ensures entries[n + i] == Stored(events[i])
      {
        if i > 0 {
          assert events[i] == events[1..][i - 1];
        } else {
          assert entries[n] == entries[..n + 1][n];
        }
      }
    }
  }

  // ---- the file ----

  /** The history directory. */
  class Disk {
    var files: map<Jid, string>

    constructor ()
      ensures files == map[]
    {
      files := map[];
    }
  }

  /** What `get` finds: the guard lets through the position one past the last, where the index has
      nothing to be read. */
  datatype Lookup = PastEnd | Found(event: Option<Event>)

  function LookUp(entries: seq<Option<Event>>, id: int): Lookup {
    if id < 0 || id > |entries| then Found(None) else if id == |entries| then PastEnd else Found(entries[id])
  }

  /** EDBFlatFile::File */
  class File {
    const jid: Jid
    const disk: Disk
    var index: seq<nat>
    var indexed: bool

    ghost predicate Valid()
      reads this, disk
    {
      jid in disk.files && (indexed ==> index == Starts(disk.files[jid]))
    }

    ghost function Content(): string
      requires Valid()
      reads this, disk
    {
      disk.files[jid]
    }

    /** Opening for reading and writing makes a file that is not there. */
    constructor (disk: Disk, jid: Jid)
      modifies disk
      ensures Valid() && this.disk == disk && this.jid == jid && !indexed
      ensures disk.files == if jid in old(disk.files) then old(disk.files) else old(disk.files)[jid := ""]
    {
      this.disk, this.jid := disk, jid;
      index, indexed := [], false;
      new;
      if jid !in disk.files {
        disk.files := disk.files[jid := ""];
      }
    }

    method EnsureIndex()
      requires Valid()
      modifies `index, `indexed
      ensures Valid() && indexed
    {
      hide FindChar, StartsFrom;
      if !indexed {
        var f := disk.files[jid];
        var pos := 0;
        index := [];
        while true
          invariant pos <= |f| && index + StartsFrom(f, pos) == Starts(f)
          decreases |f| - pos
        {
          var at := pos;
          var found := false;
          while pos < |f|
            invariant at <= pos <= |f| && !found && forall k :: at <= k < pos ==> f[k] != '\n'
          {
            var c := f[pos];
            pos := pos + 1;
            if c == '\n' {
              found := true;
              break;
            }
          }
          LineFound(f, at, pos, found);
          if !found {
            break;
          }
          index := index + [at];
        }
        indexed := true;
      }
    }

    static lemma LineFound(f: string, at: nat, pos: nat, found: bool)
      requires at <= pos <= |f|
      requires if found then at < pos && f[pos - 1] == '\n' else pos == |f|
      requires forall k :: at <= k < (if found then pos - 1 else pos) ==> f[k] != '\n'
      ensures StartsFrom(f, at) == if found then [at] + StartsFrom(f, pos) else []
    {
      var k := if found then pos - 1 else pos;
      FindIs(f, '\n', at, k);
    }

    method Total() returns (n: nat)
      requires Valid()
      modifies `index, `indexed
      ensures Valid() && n == |Entries(Content())|
    {
      EnsureIndex();
      n := |index|;
    }

    method Get(id: int) returns (r: Lookup)
      requires Valid()
      modifies `index, `indexed
      ensures Valid() && r == LookUp(Entries(Content()), id)
      ensures r == PastEnd <==> id == |Entries(Content())|
      ensures 0 <= id < |Entries(Content())| ==> r == Found(Entries(Content())[id])
      ensures id < 0 || id > |Entries(Content())| ==> r == Found(None)
    {
      EnsureIndex();
      if id < 0 || id > |index| {
        return Found(None);
      }
      if id == |index| {
        return PastEnd;
      }
      StartsInside(disk.files[jid], 0);
      assert index[id] in StartsFrom(disk.files[jid], 0);
      var line := ReadLine(disk.files[jid], index[id]);
      var e := ReadEvent(line);
      r := Found(e);
    }

    /** The line goes to the end of the file. An index that was built stays what a fresh scan would
        build just when the file was empty or ended in a newline. */
    method Append(e: Event) returns (ok: bool)
      requires Valid()
      modifies `index, disk
      ensures ok == Loggable(e)
      ensures !ok ==> disk.files == old(disk.files) && index == old(index)
      ensures ok ==> disk.files == old(disk.files)[jid := old(Content()) + EventToLine(e) + "\n"]
      ensures ok ==> (Valid() <==> (indexed ==> Terminated(old(Content()))))
    {
      hide Starts, Terminated;
      var line := WriteEvent(e);
      if line == "" {
        assert !Loggable(e) by {
          if Loggable(e) {
            LineIsOneLine(e);
          }
        }
        return false;
      }
      assert Loggable(e);
      hide EventToLine, Loggable;
      LineIsOneLine(e);
      StartsKept(Content(), line);
      var at := |disk.files[jid]|;
      disk.files := disk.files[jid := disk.files[jid] + line + "\n"];
      if indexed {
        index := index + [at];
      }
      ok := true;
    }
  }
}
