/** Wrapping a line of text at a width, for the exported history. */
module TextWrap {

  /** QChar::isSpace, for the characters of ASCII. */
  predicate IsSpace(c: char) {
    c == ' ' || '\t' <= c <= '\r'
  }

  /** The six of them: tabs, line and page breaks, the return, and the space itself. */
  lemma SpacesMeaning(c: char)
    ensures IsSpace(c) <==> c as int in {9, 10, 11, 12, 13, 32}
  {
  }

  predicate Blank(s: string) {
    forall i | 0 <= i < |s| :: IsSpace(s[i])
  }

  /** A word: not empty, and no space in it. */
  predicate IsWord(s: string) {
    s != "" && NoSpace(s)
  }

  predicate NoSpace(s: string) {
    forall i | 0 <= i < |s| :: !IsSpace(s[i])
  }

  function Blanks(s: string): (n: nat)
    ensures n <= |s| && Blank(s[..n]) && (n < |s| ==> !IsSpace(s[n]))
  {
    if s == "" || !IsSpace(s[0]) then 0
    else
      var n := Blanks(s[1..]);
      assert s[..n + 1] == [s[0]] + s[1..][..n];
      n + 1
  }

  function Letters(s: string): (n: nat)
    ensures n <= |s| && NoSpace(s[..n]) && (n < |s| ==> IsSpace(s[n]))
  {
    if s == "" || IsSpace(s[0]) then 0
    else
      var n := Letters(s[1..]);
      assert s[..n + 1] == [s[0]] + s[1..][..n];
      n + 1
  }

  /** The words of a text, between its spaces. */
  function Words(s: string): seq<string>
    decreases |s|
  {
    if Blank(s) then []
    else
      var t := s[Blanks(s)..];
      WordFirst(s);
      [t[..Letters(t)]] + Words(t[Letters(t)..])
  }

  lemma WordFirst(s: string)
    requires !Blank(s)
    ensures var t := s[Blanks(s)..];
            t != "" && !IsSpace(t[0]) && Letters(t) > 0
  {
    assert s[..|s|] == s;
  }

  /** The next word with the spaces before it, or None when only spaces are left. */
  datatype Next = NoWord | Word(text: string)

  /** `n` spaces and then a word. */
  predicate IsChunk(s: string, n: nat) {
    n <= |s| && Blank(s[..n]) && IsWord(s[n..])
  }

  method GetNext(str: string) returns (r: Next, rest: string, ghost spaces: nat)
    ensures r.NoWord? ==> rest == str && Blank(str)
    ensures r.Word? ==> r.text + rest == str && IsChunk(r.text, spaces) && (rest != "" ==> IsSpace(rest[0]))
  {
    var n := 0;
    while n < |str| && IsSpace(str[n])
      invariant n <= |str| && Blank(str[..n])
    {
      assert str[..n + 1] == str[..n] + [str[n]];
      n := n + 1;
    }
    spaces := n;
    if n == |str| {
      assert str[..n] == str;
      return NoWord, str, spaces;
    }
    while n < |str| && !IsSpace(str[n])
      invariant spaces <= n <= |str| && (n == spaces ==> n < |str| && !IsSpace(str[n]))
      invariant NoSpace(str[spaces..n])
    {
      assert str[spaces..n + 1] == str[spaces..n] + [str[n]];
      n := n + 1;
    }
    var text := str[..n];
    assert text[..spaces] == str[..spaces] && text[spaces..] == str[spaces..n];
    return Word(text), str[n..], spaces;
  }

  /** Drops the spaces in front. */
  method Trim(word: string, ghost spaces: nat) returns (w: string)
    requires IsChunk(word, spaces)
    ensures w == word[spaces..]
  {
    w := word;
    for n := 0 to |word|
      invariant n <= spaces && w == word
    {
      assert word[n] == if n < spaces then word[..spaces][n] else word[spaces..][n - spaces];
      if !IsSpace(word[n]) {
        if n > 0 {
          w := word[n..];
        }
        break;
      }
    }
  }

  // ---- lines ----

  /** A line fits, or is a single word that is too long. It starts and ends with no space. */
  predicate LineOk(line: string, wid: int) {
    && line != "" && !IsSpace(line[0]) && !IsSpace(line[|line| - 1])
    && (|line| <= wid || IsWord(line))
  }

  /** The lines with what was left out before each of them. */
  function Weave(gaps: seq<string>, lines: seq<string>): string
    requires |gaps| == |lines|
  {
    if lines == [] then ""
    else
      var n := |lines| - 1;
      Weave(gaps[..n], lines[..n]) + gaps[n] + lines[n]
  }

  /** Nothing but spaces was left out, and a new line begins only where its first word did not fit. */
  predicate Gaps(gaps: seq<string>, lines: seq<string>, wid: int) {
    && |gaps| == |lines|
    && (forall k :: 0 <= k < |gaps| ==> Blank(gaps[k]))
    && (forall k :: 0 < k < |gaps| ==> Breaks(gaps, lines, k, wid))
  }

  /** The spaces before a line, and its first word, had no room on the line before. */
  predicate Breaks(gaps: seq<string>, lines: seq<string>, k: nat, wid: int)
    requires |gaps| == |lines| && 0 < k < |gaps|
  {
    gaps[k] != "" && |lines[k - 1]| + |gaps[k]| + Letters(lines[k]) > wid
  }

  /** Written out: only spaces are left out, and before each line but the first there are some, which had no
      room together with the first word behind them. */
  lemma GapsMeaning(gaps: seq<string>, lines: seq<string>, wid: int)
    requires |gaps| == |lines|
    ensures Gaps(gaps, lines, wid) <==>
            && (forall k :: 0 <= k < |gaps| ==> Blank(gaps[k]))
            && forall k :: 0 < k < |gaps| ==> gaps[k] != "" && |lines[k - 1] + gaps[k]| + Letters(lines[k]) > wid
  {
    hide Blank, Letters;
    if forall k :: 0 < k < |gaps| ==> gaps[k] != "" && |lines[k - 1] + gaps[k]| + Letters(lines[k]) > wid {
      forall k | 0 < k < |gaps|
        ensures Breaks(gaps, lines, k, wid)
      {
        assert gaps[k] != "";
      }
    }
    if forall k :: 0 < k < |gaps| ==> Breaks(gaps, lines, k, wid) {
      forall k | 0 < k < |gaps|
        ensures gaps[k] != "" && |lines[k - 1] + gaps[k]| + Letters(lines[k]) > wid
      {
        assert Breaks(gaps, lines, k, wid);
      }
    }
  }

  lemma WeaveOneMore(gaps: seq<string>, lines: seq<string>, gap: string, line: string)
    requires |gaps| == |lines|
    ensures Weave(gaps + [gap], lines + [line]) == Weave(gaps, lines) + gap + line
  {
    assert (gaps + [gap])[..|lines|] == gaps && (lines + [line])[..|lines|] == lines;
  }

  lemma {:induction false} LettersSame(a: string, b: string)
    requires b != "" ==> IsSpace(b[0])
    ensures Letters(a + b) == Letters(a)
  {
    if a == "" {
      assert a + b == b;
    } else {
      LettersSame(a[1..], b);
      assert (a + b)[1..] == a[1..] + b;
    }
  }

  lemma {:induction false} LettersOfWord(w: string)
    requires NoSpace(w)
    ensures Letters(w) == |w|
  {
    if w != "" {
      LettersOfWord(w[1..]);
    }
  }

  lemma WordIsLine(w: string, wid: int)
    requires IsWord(w)
    ensures LineOk(w, wid) && Letters(w) == |w|
  {
    LettersOfWord(w);
  }

  /** What the loop keeps: the finished lines, the current one with the spaces before it, and the rest. */
  ghost predicate Wrapping(str: string, lines: seq<string>, gaps: seq<string>, gap: string, cur: string, tmp: string,
                           wid: int)
  {
    && |gaps| == |lines| && str == Weave(gaps, lines) + gap + cur + tmp
    && Blank(gap) && (forall line <- lines :: LineOk(line, wid))
    && if cur == "" then lines == [] && gap == ""
       else LineOk(cur, wid) && Gaps(gaps + [gap], lines + [cur], wid) && (tmp != "" ==> IsSpace(tmp[0]))
  }

  lemma Begins(str: string, wid: int)
    ensures Wrapping(str, [], [], "", "", str, wid)
  {
  }

  /** The first word. */
  lemma TakesFirst(str: string, word: string, spaces: nat, rest: string, wid: int)
    requires str == word + rest && IsChunk(word, spaces) && (rest != "" ==> IsSpace(rest[0]))
    ensures Wrapping(str, [], [], word[..spaces], word[spaces..], rest, wid)
  {
    WordIsLine(word[spaces..], wid);
    assert word[..spaces] + word[spaces..] == word;
    assert "" + word[..spaces] + word[spaces..] + rest == word + rest;
  }

  /** A line takes a word more while there is room for it. */
  lemma TakesMore(str: string, lines: seq<string>, gaps: seq<string>, gap: string, cur: string, word: string,
                  spaces: nat, rest: string, wid: int)
    requires Wrapping(str, lines, gaps, gap, cur, word + rest, wid) && cur != "" && |cur| + |word| <= wid
    requires IsChunk(word, spaces) && (rest != "" ==> IsSpace(rest[0]))
    ensures Wrapping(str, lines, gaps, gap, cur + word, rest, wid)
  {
    LettersSame(cur, word);
    assert word != "" && IsSpace(word[0]);
    assert word[|word| - 1] == word[spaces..][|word| - 1 - spaces];
    assert Weave(gaps, lines) + gap + cur + (word + rest) == Weave(gaps, lines) + gap + (cur + word) + rest;
    hide Letters, Weave, Blank, IsWord, IsSpace, LineOk;
    var n := |lines|;
    var (gs, ls, ls') := (gaps + [gap], lines + [cur], lines + [cur + word]);
    forall k | 0 < k < |gs|
      ensures Breaks(gs, ls', k, wid)
    {
      assert Breaks(gs, ls, k, wid);
      assert ls'[k - 1] == ls[k - 1];
      assert k < n ==> ls'[k] == ls[k];
    }
  }

  lemma Regroup(before: string, word: string, spaces: nat, rest: string)
    requires spaces <= |word|
    ensures before + (word + rest) == before + word[..spaces] + word[spaces..] + rest
  {
    assert word == word[..spaces] + word[spaces..];
  }

  /** Else the word begins the next line. */
  lemma TakesNext(str: string, lines: seq<string>, gaps: seq<string>, gap: string, cur: string, word: string,
                  spaces: nat, rest: string, wid: int)
    requires Wrapping(str, lines, gaps, gap, cur, word + rest, wid) && cur != "" && |cur| + |word| > wid
    requires IsChunk(word, spaces) && (rest != "" ==> IsSpace(rest[0]))
    ensures Wrapping(str, lines + [cur], gaps + [gap], word[..spaces], word[spaces..], rest, wid)
  {
    WordIsLine(word[spaces..], wid);
    WeaveOneMore(gaps, lines, gap, cur);
    assert word != "" && IsSpace(word[0]) && spaces > 0;
    Regroup(Weave(gaps, lines) + gap + cur, word, spaces, rest);
    hide Letters, Weave, Blank, IsWord, IsSpace, LineOk;
    var (gs, ls) := (gaps + [gap], lines + [cur]);
    var (gs', ls') := (gs + [word[..spaces]], ls + [word[spaces..]]);
    forall k | 0 < k < |gs'|
      ensures Breaks(gs', ls', k, wid)
    {
      assert ls'[k - 1] == ls[k - 1];
      if k < |gs| {
        assert Breaks(gs, ls, k, wid);
        assert ls'[k] == ls[k] && gs'[k] == gs[k];
      }
    }
  }

  lemma Ends(str: string, lines: seq<string>, gaps: seq<string>, gap: string, cur: string, tmp: string, wid: int)
    requires Wrapping(str, lines, gaps, gap, cur, tmp, wid) && Blank(tmp)
    ensures Gaps(gaps + [gap], lines + [cur], wid) && str == Weave(gaps + [gap], lines + [cur]) + tmp
    ensures if Blank(str) then lines + [cur] == [""] else forall line <- lines + [cur] :: LineOk(line, wid)
  {
    WeaveOneMore(gaps, lines, gap, cur);
    if cur != "" {
      assert str[|Weave(gaps, lines) + gap|] == cur[0];
    }
  }

  /** The text is the lines again, but for the spaces at the breaks and at both ends. */
  method WrapString(str: string, wid: int) returns (lines: seq<string>, ghost gaps: seq<string>, ghost tail: string)
    ensures Gaps(gaps, lines, wid) && Blank(tail) && str == Weave(gaps, lines) + tail
    ensures if Blank(str) then lines == [""] else lines != [] && forall line <- lines :: LineOk(line, wid)
  {
    hide *;
    lines, gaps := [], [];
    var cur, tmp := "", str;
    ghost var gap := "";
    Begins(str, wid);
    while true
      invariant Wrapping(str, lines, gaps, gap, cur, tmp, wid)
      invariant cur == "" ==> lines == [] && gaps == [] && tmp == str
      decreases |tmp|
    {
      var word, rest, spaces := GetNext(tmp);
      if word.NoWord? {
        Ends(str, lines, gaps, gap, cur, tmp, wid);
        lines, gaps := lines + [cur], gaps + [gap];
        break;
      }
      var w := word.text;
      ChunkSplit(w, spaces);
      if cur != "" {
        if |cur| + |w| > wid {
          TakesNext(str, lines, gaps, gap, cur, w, spaces, rest, wid);
          lines, gaps := lines + [cur], gaps + [gap];
          cur := "";
        } else {
          TakesMore(str, lines, gaps, gap, cur, w, spaces, rest, wid);
        }
      } else {
        TakesFirst(str, w, spaces, rest, wid);
      }
      if cur == "" {
        gap := w[..spaces];
        w := Trim(w, spaces);
        assert cur + w == w;
      }
      cur := cur + w;
      tmp := rest;
    }
    tail := tmp;
  }

  lemma ChunkSplit(w: string, spaces: nat)
    requires IsChunk(w, spaces)
    ensures spaces < |w|
  {
  }

  // ---- words ----

  /** The words of all lines. */
  function AllWords(lines: seq<string>): seq<string> {
    if lines == [] then [] else AllWords(lines[..|lines| - 1]) + Words(lines[|lines| - 1])
  }

  lemma {:induction false} BlankFront(a: string, s: string)
    requires Blank(a)
    ensures Blanks(a + s) == |a| + Blanks(s) && (Blank(a + s) <==> Blank(s))
  {
    if a == "" {
      assert a + s == s;
    } else {
      BlankFront(a[1..], s);
      hide IsSpace;
      assert (a + s)[1..] == a[1..] + s && (a + s)[0] == a[0];
    }
  }

  /** Spaces in front are no words. */
  lemma WordsAfterBlank(a: string, s: string)
    requires Blank(a)
    ensures Words(a + s) == Words(s)
  {
    BlankFront(a, s);
    if !Blank(s) {
      assert (a + s)[Blanks(a + s)..] == s[Blanks(s)..];
    }
  }

  /** A space ends a word. */
  lemma {:induction false} WordsConcat(a: string, b: string)
    requires b != "" ==> IsSpace(b[0])
    ensures Words(a + b) == Words(a) + Words(b)
    decreases |a|
  {
    hide *;
    if Blank(a) {
      WordsAfterBlank(a, b);
      WordsAfterBlank(a, "");
      assert a + "" == a;
      NoWords();
    } else {
      var n := Blanks(a);
      WordFirst(a);
      var t := a[n..];
      var k := Letters(t);
      assert (t + b)[0] == t[0];
      LettersSame(t, b);
      assert a == a[..n] + t && a + b == a[..n] + (t + b);
      WordsAfterBlank(a[..n], t + b);
      WordsAfterBlank(a[..n], t);
      WordsFromWord(t);
      WordsFromWord(t + b);
      var rest := t[k..];
      assert (t + b)[..k] == t[..k] && (t + b)[k..] == rest + b;
      WordsConcat(rest, b);
      assert [t[..k]] + (Words(rest) + Words(b)) == [t[..k]] + Words(rest) + Words(b);
    }
  }

  lemma NoWords()
    ensures Words("") == []
  {
  }

  lemma WordsFromWord(t: string)
    requires t != "" && !IsSpace(t[0])
    ensures Words(t) == [t[..Letters(t)]] + Words(t[Letters(t)..])
  {
    assert !Blank(t) && Blanks(t) == 0 && t[0..] == t;
  }

  /** What words are: spaces have none, and a stretch of other characters between spaces is one. */
  lemma WordsMeaning(a: string, w: string, b: string)
    requires a != "" ==> IsSpace(a[|a| - 1])
    requires b != "" ==> IsSpace(b[0])
    ensures (forall i | 0 <= i < |w| :: IsSpace(w[i])) ==> Words(w) == []
    ensures w != "" && (forall i | 0 <= i < |w| :: !IsSpace(w[i])) ==> Words(a + w + b) == Words(a) + [w] + Words(b)
  {
    if w != "" && forall i | 0 <= i < |w| :: !IsSpace(w[i]) {
      OneWord(w);
      hide *;
      WordsAfterSpace(a, w);
      WordsConcat(a + w, b);
    } else if forall i | 0 <= i < |w| :: IsSpace(w[i]) {
      assert Blank(w);
    }
  }

  lemma OneWord(w: string)
    requires w != "" && forall i | 0 <= i < |w| :: !IsSpace(w[i])
    ensures Words(w) == [w]
  {
    LettersOfWord(w);
    WordsFromWord(w);
    NoWords();
    hide Words;
    assert w[..|w|] == w && w[|w|..] == "";
  }

  lemma SpacesApart(space: string, t: string)
    requires space != "" && Blank(space)
    ensures IsSpace(space[0]) && space + t != "" && IsSpace((space + t)[0]) && Words(space) == []
  {
    BlankStart(space, t);
  }

  lemma WordsAcross(front: string, space: string, t: string)
    requires space != "" && Blank(space)
    ensures Words(front + (space + t)) == Words(front + space) + Words(t)
  {
    hide *;
    SpacesApart(space, t);
    WordsAfterBlank(space, t);
    WordsConcat(front, space + t);
    WordsConcat(front, space);
    NothingBetween(Words(front), Words(t));
  }

  lemma NothingBetween(a: seq<string>, b: seq<string>)
    ensures a + [] + b == a + b
  {
  }

  lemma LastApart(a: string, t: string) returns (front: string, space: string)
    requires a != "" && IsSpace(a[|a| - 1])
    ensures space != "" && Blank(space) && front + space == a && front + (space + t) == a + t
  {
    front, space := a[..|a| - 1], [a[|a| - 1]];
  }

  lemma WordsAfterSpace(a: string, t: string)
    requires a != "" ==> IsSpace(a[|a| - 1])
    ensures Words(a + t) == Words(a) + Words(t)
  {
    hide *;
    if a == "" {
      NoWords();
      assert a + t == t;
    } else {
      var front, space := LastApart(a, t);
      WordsAcross(front, space, t);
    }
  }

  lemma {:induction false} AllWordsMeaning(a: seq<string>, b: seq<string>, line: string)
    ensures AllWords([]) == [] && AllWords([line]) == Words(line)
    ensures AllWords(a + b) == AllWords(a) + AllWords(b)
    decreases |b|
  {
    AllWordsLast([]);
    AllWordsLast([line]);
    AllWordsLast(a + b);
    AllWordsLast(b);
    hide Words, AllWords;
    assert [line][..0] == [];
    if b == [] {
      assert a + b == a;
    } else {
      var n := |b| - 1;
      AllWordsMeaning(a, b[..n], line);
      assert (a + b)[..|a + b| - 1] == a + b[..n] && (a + b)[|a + b| - 1] == b[n];
    }
  }

  lemma BlankStart(gap: string, line: string)
    requires gap != "" && Blank(gap)
    ensures IsSpace((gap + line)[0])
  {
    assert (gap + line)[0] == gap[0];
  }

  /** Wrapping keeps the words, in order. */
  lemma {:induction false} WordsKept(gaps: seq<string>, lines: seq<string>, wid: int)
    requires Gaps(gaps, lines, wid)
    ensures Words(Weave(gaps, lines)) == AllWords(lines)
    decreases |lines|
  {
    GapsMatch(gaps, lines, wid);
    hide *;
    WeaveLast(gaps, lines);
    AllWordsLast(lines);
    NoWords();
    if lines != [] {
      var n := |lines| - 1;
      GapsBefore(gaps, lines, wid, n);
      WordsKept(gaps[..n], lines[..n], wid);
      var before, gap := Weave(gaps[..n], lines[..n]), gaps[n];
      WordsAfterBlank(gap, lines[n]);
      var line := gap + lines[n];
      assert before + line == before + gap + lines[n];
      if n > 0 {
        BlankStart(gap, lines[n]);
        WordsConcat(before, line);
      } else {
        WeaveLast(gaps[..0], lines[..0]);
        AllWordsLast(lines[..0]);
        assert before + line == line;
      }
    }
  }

  lemma WeaveLast(gaps: seq<string>, lines: seq<string>)
    requires |gaps| == |lines|
    ensures lines == [] ==> Weave(gaps, lines) == ""
    ensures lines != [] ==>
      var n := |lines| - 1;
      Weave(gaps, lines) == Weave(gaps[..n], lines[..n]) + gaps[n] + lines[n]
  {
  }

  lemma AllWordsLast(lines: seq<string>)
    ensures lines == [] ==> AllWords(lines) == []
    ensures lines != [] ==> AllWords(lines) == AllWords(lines[..|lines| - 1]) + Words(lines[|lines| - 1])
  {
    hide Words;
  }

  lemma GapsMatch(gaps: seq<string>, lines: seq<string>, wid: int)
    requires Gaps(gaps, lines, wid)
    ensures |gaps| == |lines|
  {
  }

  lemma GapsBefore(gaps: seq<string>, lines: seq<string>, wid: int, n: nat)
    requires Gaps(gaps, lines, wid) && n < |lines|
    ensures Gaps(gaps[..n], lines[..n], wid) && Blank(gaps[n]) && (n > 0 ==> gaps[n] != "")
  {
    hide Words, Blank, Letters;
    forall k | 0 < k < n
      ensures Breaks(gaps[..n], lines[..n], k, wid)
    {
      assert Breaks(gaps, lines, k, wid);
    }
    assert n > 0 ==> Breaks(gaps, lines, n, wid);
  }

  /** So the text has the words of its lines: the spaces left at the end add none. */
  lemma WrapKeepsWords(gaps: seq<string>, lines: seq<string>, tail: string, wid: int)
    requires Gaps(gaps, lines, wid) && Blank(tail)
    ensures Words(Weave(gaps, lines) + tail) == AllWords(lines)
  {
    WordsKept(gaps, lines, wid);
    WordsConcat(Weave(gaps, lines), tail);
  }
}
