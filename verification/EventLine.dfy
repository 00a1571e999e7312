/** One event of the message history as one line of text, written and read back. */
module EventLine {
  import opened LogText
  import opened Lists

  /** A point in time, to the millisecond; histories keep it to the second. */
  datatype Moment = Moment(year: nat, month: nat, day: nat, hour: nat, minute: nat, second: nat, msec: nat) {
    predicate Valid() {
      && year < 10000 && 1 <= month <= 12 && 1 <= day <= DaysIn(year, month)
      && hour < 24 && minute < 60 && second < 60 && msec < 1000
    }
  }

  function DaysIn(year: nat, month: nat): (n: nat)
    ensures n <= 31
  {
    if month == 2 then
      if year % 4 == 0 && (year % 100 != 0 || year % 400 == 0) then 29 else 28
    else if month in {4, 6, 9, 11} then 30
    else 31
  }

  type Time = m: Moment | m.Valid() witness Moment(1970, 1, 1, 0, 0, 0, 0)

  function ToTheSecond(t: Option<Time>): Option<Time> {
    if t.Some? then Some(t.value.(msec := 0)) else None
  }

  datatype Url = Url(url: string, desc: string)

  datatype Event =
    | MessageEvent(originLocal: bool, time: Option<Time>, kind: string, subject: string, body: string, urls: seq<Url>)
    | AuthEvent(originLocal: bool, time: Option<Time>, authType: string)
      // any other event: a file transfer can be copied, the rest cannot
    | OtherEvent(copyable: bool)

  // ---- numbers ----

  predicate IsDigit(c: char) {
    '0' <= c <= '9'
  }

  function Digit(n: nat): (c: char)
    requires n < 10
    ensures IsDigit(c)
  {
    "0123456789"[n]
  }

  function Two(n: nat): (s: string)
    requires n < 100
    ensures |s| == 2 && IsDigit(s[0]) && IsDigit(s[1])
  {
    [Digit(n / 10), Digit(n % 10)]
  }

  function Value(c: char): nat {
    if IsDigit(c) then c as int - '0' as int else 0
  }

  /** The number two digits of `s` make, from `i` on. */
  function TwoValue(s: string, i: nat): nat
    requires i + 1 < |s|
  {
    10 * Value(s[i]) + Value(s[i + 1])
  }

  lemma DigitValue(n: nat)
    requires n < 10
    ensures Value(Digit(n)) == n
  {
  }

  lemma TwoRoundTrip(n: nat, s: string, i: nat)
    requires n < 100 && TwoAt(s, i, n)
    ensures TwoValue(s, i) == n
  {
    DigitValue(n / 10);
    DigitValue(n % 10);
  }

  /** QString::toInt: 0 for what is not a number. Signs and blanks are not modelled. */
  function ToInt(s: string): nat {
    if s == "" || exists c <- s :: !IsDigit(c) then 0 else DigitsValue(s)
  }

  function DigitsValue(s: string): nat {
    if s == "" then 0 else 10 * DigitsValue(s[..|s| - 1]) + Value(s[|s| - 1])
  }

  /** A character read as one hexadecimal digit; 0 if it is none. */
  function HexOf(c: char): (n: nat)
    ensures n < 16
  {
    if IsDigit(c) then Value(c)
    else if 'a' <= c <= 'f' then c as int - 'a' as int + 10
    else if 'A' <= c <= 'F' then c as int - 'A' as int + 10
    else 0
  }

  // ---- time stamps: yyyy-MM-ddTHH:mm:ss ----

  function IsoText(t: Time): string
  {
    var (y, z, mo, d) := (Two(t.year / 100), Two(t.year % 100), Two(t.month), Two(t.day));
    var (h, mi, s) := (Two(t.hour), Two(t.minute), Two(t.second));
    [y[0], y[1], z[0], z[1], '-', mo[0], mo[1], '-', d[0], d[1], 'T', h[0], h[1], ':', mi[0], mi[1], ':', s[0], s[1]]
  }

  predicate TwoDigits(s: string, i: nat) {
    i + 1 < |s| && '0' <= s[i] <= '9' && '0' <= s[i + 1] <= '9'
  }

  /** Nineteen characters in the shape of a time. */
  predicate IsoShaped(s: string) {
    && |s| == 19 && s[4] == s[7] == '-' && s[10] == 'T' && s[13] == s[16] == ':'
    && TwoDigits(s, 0) && TwoDigits(s, 2) && TwoDigits(s, 5) && TwoDigits(s, 8)
    && TwoDigits(s, 11) && TwoDigits(s, 14) && TwoDigits(s, 17)
  }

  /** QDateTime::fromString; a text of any other shape is no time. */
  function FromIsoText(s: string): Option<Time> {
    if IsoShaped(s) then
      var m := Moment(100 * TwoValue(s, 0) + TwoValue(s, 2), TwoValue(s, 5), TwoValue(s, 8),
                      TwoValue(s, 11), TwoValue(s, 14), TwoValue(s, 17), 0);
      if m.Valid() then Some(m) else None
    else None
  }

  function TimeText(t: Option<Time>): string
  {
    if t.Some? then IsoText(t.value) else ""
  }

  predicate Clean(s: string) {
    '|' !in s && '\n' !in s
  }

  lemma TimeRoundTrip(t: Option<Time>)
    ensures FromIsoText(TimeText(t)) == ToTheSecond(t)
  {
    if t.Some? {
      var v, s := t.value, TimeText(t);
      IsoShape(v);
      hide Two, TwoValue, IsoText, FromIsoText;
      TwoRoundTrip(v.year / 100, s, 0);
      TwoRoundTrip(v.year % 100, s, 2);
      TwoRoundTrip(v.month, s, 5);
      TwoRoundTrip(v.day, s, 8);
      TwoRoundTrip(v.hour, s, 11);
      TwoRoundTrip(v.minute, s, 14);
      TwoRoundTrip(v.second, s, 17);
      IsoRead(v, s);
    }
  }

  predicate TwoAt(s: string, i: nat, n: nat)
    requires n < 100
  {
    i + 1 < |s| && s[i] == Two(n)[0] && s[i + 1] == Two(n)[1]
  }

  lemma IsoShape(v: Time)
    requires v.Valid()
    ensures var s := IsoText(v);
            && IsoShaped(s) && TwoAt(s, 0, v.year / 100) && TwoAt(s, 2, v.year % 100) && TwoAt(s, 5, v.month)
            && TwoAt(s, 8, v.day) && TwoAt(s, 11, v.hour) && TwoAt(s, 14, v.minute) && TwoAt(s, 17, v.second)
  {
    hide Two;
  }

  lemma IsoRead(v: Time, s: string)
    requires IsoShaped(s)
    requires TwoValue(s, 0) == v.year / 100 && TwoValue(s, 2) == v.year % 100 && TwoValue(s, 5) == v.month
    requires TwoValue(s, 8) == v.day && TwoValue(s, 11) == v.hour && TwoValue(s, 14) == v.minute
    requires TwoValue(s, 17) == v.second
    ensures FromIsoText(s) == ToTheSecond(Some(v))
  {
    hide TwoValue;
  }

  lemma TimeIsClean(t: Option<Time>)
    ensures Clean(TimeText(t))
  {
    if t.Some? {
      TwoIsClean();
      hide Two;
    }
  }

  lemma TwoIsClean()
    ensures forall n: nat {:trigger Two(n)} | n < 100 :: Clean(Two(n))
  {
  }

  // ---- writing ----

  function MessageType(kind: string): (n: nat)
    ensures n < 10
  {
    if kind == "chat" then 1 else if kind == "error" then 4 else if kind == "headline" then 5 else 0
  }

  function AuthTypeNumber(authType: string): (n: nat)
    ensures n < 10
  {
    if authType == "subscribed" then 6
    else if authType == "unsubscribe" then 7
    else if authType == "unsubscribed" then 8
    else 3
  }

  /** A field, the bar that ends it, and the rest of the line. */
  function Bar(field: string, rest: string): string {
    field + "|" + rest
  }

  function Line(time: Option<Time>, number: nat, originLocal: bool, flags: string, rest: string): string
    requires number < 10
  {
    Bar("", Bar(TimeText(time), Bar([Digit(number)], Bar(if originLocal then "to" else "from", Bar(flags, rest)))))
  }

  function Subflags(e: Event): (n: nat)
    requires e.MessageEvent?
    ensures n < 4
  {
    (if e.subject != "" then 1 else 0) + if e.urls != [] then 2 else 0
  }

  function Flags(e: Event): string
    requires e.MessageEvent?
  {
    if Subflags(e) != 0 then ['N', Digit(Subflags(e)), '-', '-'] else "N---"
  }

  /** The events that a history can hold. */
  predicate Loggable(e: Event) {
    !e.OtherEvent?
  }

  function EventToLine(e: Event): string
  {
    match e
    case MessageEvent(originLocal, time, kind, _, _, _) =>
      Line(time, MessageType(kind), originLocal, Flags(e), Subject(e))
    case AuthEvent(originLocal, time, authType) =>
      Line(time, AuthTypeNumber(authType), originLocal, "N---", Escaped(authType))
    case OtherEvent(_) => ""
  }

  /** The subject, if there is one, and what follows. */
  function Subject(e: Event): string
    requires e.MessageEvent?
  {
    if e.subject != "" then Bar(Escaped(e.subject), Address(e)) else Address(e)
  }

  /** The first address, if there is one, and the body. */
  function Address(e: Event): string
    requires e.MessageEvent?
  {
    if e.urls != [] then Bar(Escaped(e.urls[0].url), Bar(Escaped(e.urls[0].desc), Escaped(e.body))) else Escaped(e.body)
  }

  // ---- reading ----

  /** QString::find: first position of `c` at or after `from`, or -1. */
  function FindChar(s: string, c: char, from: nat): (r: int)
    ensures -1 <= r < |s| && (r >= 0 ==> from <= r && s[r] == c)
    decreases |s| - from
  {
    if from >= |s| then -1 else if s[from] == c then from else FindChar(s, c, from + 1)
  }

  /** QString::mid: a negative count means "to the end". */
  function Mid(s: string, at: nat, n: int): string {
    if at >= |s| then "" else if n < 0 || at + n > |s| then s[at..] else s[at..at + n]
  }

  function CharAt(s: string, i: nat): char {
    if i < |s| then s[i] else '\0'
  }

  /** The field that starts at `x1`, and where the next one starts. */
  function Field(line: string, x1: nat): (string, nat) {
    var x2 := FindChar(line, '|', x1);
    (Mid(line, x1, x2 - x1), (x2 + 1) as nat)
  }

  datatype Fields = Fields(time: string, number: string, origin: string, flags: string)

  /** The four fields every line has, and where the rest starts. */
  function ReadHeader(line: string): (Fields, nat) {
    var x0: nat := FindChar(line, '|', 0) + 1;
    var (sTime, x1) := Field(line, x0);
    var (sType, x2) := Field(line, x1);
    var (sOrigin, x3) := Field(line, x2);
    var (sFlags, x4) := Field(line, x3);
    (Fields(sTime, sType, sOrigin, sFlags), x4)
  }

  function LineToEvent(line: string): Option<Event> {
    var (fields, x4) := ReadHeader(line);
    var subflags := if CharAt(fields.flags, 1) != '-' then HexOf(CharAt(fields.flags, 1)) else 0;
    ReadRest(line, fields, subflags, x4)
  }

  function ReadRest(line: string, fields: Fields, subflags: nat, x4: nat): Option<Event> {
    var (sSubj, x5) := if subflags % 2 == 1 then Field(line, x4) else ("", x4);
    var (sUrl, x6) := if subflags / 2 % 2 == 1 then Field(line, x5) else ("", x5);
    var (sUrlDesc, x7) := if subflags / 2 % 2 == 1 then Field(line, x6) else ("", x6);
    var sText := Mid(line, x7, -1);
    ToEvent(FromIsoText(fields.time), ToInt(fields.number), fields.origin, sSubj, sUrl, sUrlDesc, sText)
  }

  /** Lines written in the old encoding, whose flags do not start with N, are not modelled. */
  function ToEvent(time: Option<Time>, number: nat, sOrigin: string, sSubj: string, sUrl: string, sUrlDesc: string,
                   sText: string): Option<Event>
  {
    if number in {0, 1, 4, 5} then
      var kind := match number case 1 => "chat" case 4 => "error" case 5 => "headline" case _ => "";
      var url := Unescaped(sUrl);
      Some(MessageEvent(sOrigin == "to", time, kind, Unescaped(sSubj), Unescaped(sText),
                        if url != "" then [Url(url, Unescaped(sUrlDesc))] else []))
    else if number in {2, 3, 6, 7} then
      // 8, an event that "unsubscribed" was written as, is missing from the condition
      var authType :=
        if number == 2 then
          if sText == "<big>[System Message]</big><br>You are now authorized." then "subscribed"
          else if sText == "<big>[System Message]</big><br>Your authorization has been removed!" then "unsubscribed"
          else "subscribe"
        else match number case 6 => "subscribed" case 7 => "unsubscribe" case _ => "subscribe";
      Some(AuthEvent(false, time, authType))
    else None
  }

  // ---- reading back ----

  /** What survives of a message: the time to the second, the kind if it is a known one, and the
      first address unless it is empty. */
  function Restored(e: Event): Event
    requires e.MessageEvent?
  {
    MessageEvent(e.originLocal, ToTheSecond(e.time),
                 if e.kind in {"chat", "error", "headline"} then e.kind else "", e.subject, e.body,
                 if e.urls != [] && e.urls[0].url != "" then [e.urls[0]] else [])
  }

  /** The first `c` is the one that no other comes before. */
  lemma {:induction false} FindIs(s: string, c: char, from: nat, k: nat)
    requires from <= k <= |s| && (k < |s| ==> s[k] == c) && c !in s[from..k]
    ensures FindChar(s, c, from) == if k < |s| then k else -1
    decreases k - from
  {
    if from < k {
      assert s[from] == s[from..k][0];
      assert s[from + 1..k] == s[from..k][1..];
      FindIs(s, c, from + 1, k);
    }
  }

  lemma {:induction false} FindMeaning(s: string, c: char, from: nat)
    ensures var r := FindChar(s, c, from);
            if r < 0 then forall i :: from <= i < |s| ==> s[i] != c
            else from <= r && s[r] == c && forall i :: from <= i < r ==> s[i] != c
    decreases |s| - from
  {
    if from < |s| {
      FindMeaning(s, c, from + 1);
    }
  }

  lemma FieldAt(line: string, x: nat, field: string, rest: string)
    requires '|' !in field && x <= |line| && line[x..] == Bar(field, rest)
    ensures var next := x + |field| + 1;
            FindChar(line, '|', x) == next - 1 && Field(line, x) == (field, next) && next <= |line|
              && line[next..] == rest
  {
    var k := x + |field|;
    var s := line[x..];
    assert line[k] == s[|field|] == '|';
    assert line[x..k] == s[..|field|] == field;
    assert line[k + 1..] == s[|field| + 1..] == rest;
    FindIs(line, '|', x, k);
  }

  lemma HeaderRead(line: string, time: Option<Time>, number: nat, originLocal: bool, flags: string, rest: string)
    requires number < 10 && '|' !in flags
    requires line == Line(time, number, originLocal, flags, rest)
    ensures var (fields, x) := ReadHeader(line);
            && fields == Fields(TimeText(time), [Digit(number)], if originLocal then "to" else "from", flags)
            && x <= |line| && line[x..] == rest
  {
    TimeIsClean(time);
    var o := if originLocal then "to" else "from";
    hide TimeText, Bar, ReadHeader;
    FieldsRead(line, TimeText(time), [Digit(number)], o, flags, rest);
  }

  lemma FieldsRead(line: string, t: string, n: string, o: string, flags: string, rest: string)
    requires '|' !in t && '|' !in n && '|' !in o && '|' !in flags
    requires line == Bar("", Bar(t, Bar(n, Bar(o, Bar(flags, rest)))))
    ensures var (fields, x) := ReadHeader(line);
            fields == Fields(t, n, o, flags) && x <= |line| && line[x..] == rest
  {
    hide *;
    assert line[0..] == line;
    FieldAt(line, 0, "", Bar(t, Bar(n, Bar(o, Bar(flags, rest)))));
    FieldAt(line, 1, t, Bar(n, Bar(o, Bar(flags, rest))));
    var x2 := |t| + 2;
    FieldAt(line, x2, n, Bar(o, Bar(flags, rest)));
    var x3 := x2 + |n| + 1;
    FieldAt(line, x3, o, Bar(flags, rest));
    var x4 := x3 + |o| + 1;
    FieldAt(line, x4, flags, rest);
    HeaderIs(line, t, x2, n, x3, o, x4);
  }

  lemma HeaderIs(line: string, t: string, x2: nat, n: string, x3: nat, o: string, x4: nat)
    requires FindChar(line, '|', 0) == 0 && Field(line, 1) == (t, x2) && Field(line, x2) == (n, x3)
    requires Field(line, x3) == (o, x4)
    ensures ReadHeader(line) == (Fields(t, n, o, Field(line, x4).0), Field(line, x4).1)
  {
    hide Field, FindChar;
  }

  lemma NumberRoundTrip(n: nat)
    requires n < 10
    ensures ToInt([Digit(n)]) == n
  {
    DigitValue(n);
    var s := [Digit(n)];
    assert s[..0] == "" && s[0] == Digit(n);
    hide Digit;
    assert DigitsValue(s) == Value(s[0]);
  }

  /** The fields after the header, as the flags announce them. */
  lemma RestRead(line: string, x: nat, fields: Fields, e: Event)
    requires e.MessageEvent? && x <= |line| && line[x..] == Subject(e)
    ensures ReadRest(line, fields, Subflags(e), x)
            == ToEvent(FromIsoText(fields.time), ToInt(fields.number), fields.origin, Escaped(e.subject),
                       if e.urls != [] then Escaped(e.urls[0].url) else "",
                       if e.urls != [] then Escaped(e.urls[0].desc) else "", Escaped(e.body))
  {
    EscapedNothing();
    hide Escaped, ToEvent, FindChar, Field, FromIsoText, ToInt, Bar;
    var x1 := x;
    if e.subject != "" {
      FieldAt(line, x, Escaped(e.subject), Address(e));
      x1 := Field(line, x).1;
    }
    assert line[x1..] == Address(e);
    if e.urls != [] {
      var desc := Bar(Escaped(e.urls[0].desc), Escaped(e.body));
      FieldAt(line, x1, Escaped(e.urls[0].url), desc);
      FieldAt(line, Field(line, x1).1, Escaped(e.urls[0].desc), Escaped(e.body));
    }
  }

  lemma EscapedNothing()
    ensures Escaped("") == ""
  {
  }

  lemma FlagsRead(e: Event)
    requires e.MessageEvent?
    ensures '|' !in Flags(e)
    ensures (if CharAt(Flags(e), 1) != '-' then HexOf(CharAt(Flags(e), 1)) else 0) == Subflags(e)
  {
  }

  lemma MessageLine(e: Event)
    requires e.MessageEvent?
    ensures MessageType(e.kind) < 10
    ensures EventToLine(e) == Line(e.time, MessageType(e.kind), e.originLocal, Flags(e), Subject(e))
  {
    hide Line, Flags, Subject;
  }

  lemma MessageRead(line: string, e: Event)
    requires e.MessageEvent?
    requires var fields := ReadHeader(line).0;
             && fields.flags == Flags(e) && FromIsoText(fields.time) == ToTheSecond(e.time)
             && ToInt(fields.number) == MessageType(e.kind) && fields.origin == (if e.originLocal then "to" else "from")
             && ReadRest(line, fields, Subflags(e), ReadHeader(line).1)
               == ToEvent(FromIsoText(fields.time), ToInt(fields.number), fields.origin, Escaped(e.subject),
                          if e.urls != [] then Escaped(e.urls[0].url) else "",
                          if e.urls != [] then Escaped(e.urls[0].desc) else "", Escaped(e.body))
    requires (if CharAt(Flags(e), 1) != '-' then HexOf(CharAt(Flags(e), 1)) else 0) == Subflags(e)
    requires Unescaped(Escaped(e.subject)) == e.subject && Unescaped(Escaped(e.body)) == e.body && Unescaped("") == ""
    requires e.urls != [] ==> Unescaped(Escaped(e.urls[0].url)) == e.urls[0].url
    requires e.urls != [] ==> Unescaped(Escaped(e.urls[0].desc)) == e.urls[0].desc
    ensures LineToEvent(line) == Some(Restored(e))
  {
    hide Escaped, Unescaped, ReadHeader, ReadRest, Flags, Subflags, FromIsoText, ToInt, HexOf, CharAt;
  }

  lemma AuthLine(e: Event)
    requires e.AuthEvent?
    ensures AuthTypeNumber(e.authType) < 10
    ensures EventToLine(e) == Line(e.time, AuthTypeNumber(e.authType), e.originLocal, "N---", Escaped(e.authType))
  {
    hide Line, Escaped;
  }

  lemma AuthRead(line: string, e: Event)
    requires e.AuthEvent?
    requires var fields := ReadHeader(line).0;
             fields.flags == "N---" && ToInt(fields.number) == AuthTypeNumber(e.authType)
             && FromIsoText(fields.time) == ToTheSecond(e.time)
    ensures LineToEvent(line) == Stored(e)
  {
    hide ReadHeader, Field, FromIsoText, ToInt, Unescaped, ToTheSecond;
  }

  /** The text of an event, the last field of its line. */
  function TextOf(e: Event): string
    requires Loggable(e)
  {
    if e.MessageEvent? then e.body else e.authType
  }

  predicate EndsInReturn(s: string) {
    s != "" && s[|s| - 1] == '\r'
  }

  /** A written event is one line of a file: not empty and without a newline in it; and it ends in a
      carriage return just when its text does. */
  lemma LineIsOneLine(e: Event)
    requires Loggable(e)
    ensures var line := EventToLine(e);
            '\n' !in line && line != "" && (EndsInReturn(line) <==> EndsInReturn(TextOf(e)))
  {
    if e.MessageEvent? {
      SubjectClean(e);
      assert '\n' !in Flags(e);
      MessageLine(e);
      TextIsBody(e);
      hide *;
      LineClean(e.time, MessageType(e.kind), e.originLocal, Flags(e), Subject(e));
    } else {
      EscapedEnd(e.authType);
      AuthLine(e);
      TextIsBody(e);
      hide *;
      LineClean(e.time, AuthTypeNumber(e.authType), e.originLocal, "N---", Escaped(e.authType));
    }
  }

  lemma TextIsBody(e: Event)
    requires Loggable(e)
    ensures TextOf(e) == if e.MessageEvent? then e.body else e.authType
  {
  }

  lemma LineClean(time: Option<Time>, number: nat, originLocal: bool, flags: string, rest: string)
    requires number < 10 && '\n' !in flags && '\n' !in rest
    ensures var line := Line(time, number, originLocal, flags, rest);
            '\n' !in line && line != "" && (EndsInReturn(line) <==> EndsInReturn(rest))
  {
    TimeIsClean(time);
    hide TimeText, Bar, Digit, EndsInReturn;
    var r4 := Bar(flags, rest);
    BarClean(flags, rest);
    var o := if originLocal then "to" else "from";
    var r3 := Bar(o, r4);
    BarClean(o, r4);
    var r2 := Bar([Digit(number)], r3);
    BarClean([Digit(number)], r3);
    BarClean(TimeText(time), r2);
    BarClean("", Bar(TimeText(time), r2));
  }

  lemma BarClean(field: string, rest: string)
    requires '\n' !in field && '\n' !in rest
    ensures var s := Bar(field, rest);
            '\n' !in s && s != "" && (EndsInReturn(s) <==> EndsInReturn(rest))
  {
  }

  lemma SubjectClean(e: Event)
    requires e.MessageEvent?
    ensures '\n' !in Subject(e) && (EndsInReturn(Subject(e)) <==> EndsInReturn(e.body))
  {
    EscapedEnd(e.body);
    hide Bar, EndsInReturn, Escaped;
    if e.urls != [] {
      BarClean(Escaped(e.urls[0].desc), Escaped(e.body));
      BarClean(Escaped(e.urls[0].url), Bar(Escaped(e.urls[0].desc), Escaped(e.body)));
    }
    BarClean(Escaped(e.subject), Address(e));
  }

  lemma {:induction false} EscapedEnd(s: string)
    ensures EndsInReturn(Escaped(s)) <==> EndsInReturn(s)
  {
    EscapedNothing();
    if |s| > 1 {
      EscapedEnd(s[1..]);
    } else if |s| == 1 {
      assert s[1..] == "";
      assert Escaped(s) == Escape(s[0]) + Escaped("");
    }
  }

  // ---- through a file ----

  /** QTextStream::readLine drops a carriage return before the newline. */
  function Chop(s: string): string {
    if EndsInReturn(s) then s[..|s| - 1] else s
  }

  /** What reading the line of an event back gives. Messages lose what `Restored` drops, and a carriage
      return at the end. A subscription event loses its origin, and an unknown kind of request; one that
      is "unsubscribed" is written as 8, a number the reader takes for no event at all. */
  function Stored(e: Event): Option<Event>
    requires Loggable(e)
  {
    match e
    case MessageEvent(_, _, _, _, body, _) => Some(Restored(e.(body := Chop(body))))
    case AuthEvent(_, time, authType) =>
      if authType == "unsubscribed" then None
      else Some(AuthEvent(false, ToTheSecond(time), if authType in {"subscribed", "unsubscribe"} then authType
        else "subscribe"))
  }

  lemma StoredRead(e: Event)
    requires Loggable(e)
    ensures LineToEvent(Chop(EventToLine(e))) == Stored(e)
  {
    hide EventToLine, LineToEvent, Restored;
    LineIsOneLine(e);
    if e.MessageEvent? {
      var e' := e.(body := Chop(e.body));
      MessageRoundTrip(e');
      if EndsInReturn(e.body) {
        LineWithReturn(e');
        assert e'.body + "\r" == e.body;
      }
    } else {
      AuthRoundTrip(e);
    }
  }

  /** Nothing else is lost: reading a written message gives what `Restored` says. */
  lemma MessageRoundTrip(e: Event)
    requires e.MessageEvent?
    ensures LineToEvent(EventToLine(e)) == Some(Restored(e))
  {
    hide *;
    TimeRoundTrip(e.time);
    var line, number := EventToLine(e), MessageType(e.kind);
    FlagsRead(e);
    MessageLine(e);
    NumberRoundTrip(number);
    HeaderRead(line, e.time, number, e.originLocal, Flags(e), Subject(e));
    var (fields, x) := ReadHeader(line);
    RestRead(line, x, fields, e);
    LogRoundTrip(e.subject);
    LogRoundTrip(e.body);
    EscapedNothing();
    LogRoundTrip("");
    if e.urls != [] {
      LogRoundTrip(e.urls[0].url);
      LogRoundTrip(e.urls[0].desc);
    }
    MessageRead(line, e);
  }

  lemma AuthRoundTrip(e: Event)
    requires e.AuthEvent?
    ensures LineToEvent(Chop(EventToLine(e))) == Stored(e)
  {
    hide *;
    var number, text := AuthTypeNumber(e.authType), Escaped(e.authType);
    AuthLine(e);
    LineChopped(e.time, number, e.originLocal, "N---", text);
    var line := Line(e.time, number, e.originLocal, "N---", Chop(text));
    NumberRoundTrip(number);
    TimeRoundTrip(e.time);
    HeaderRead(line, e.time, number, e.originLocal, "N---", Chop(text));
    AuthRead(line, e);
  }

  lemma BarExtended(field: string, rest: string, more: string)
    ensures Bar(field, rest + more) == Bar(field, rest) + more
  {
  }

  lemma LineExtended(time: Option<Time>, number: nat, originLocal: bool, flags: string, rest: string, more: string)
    requires number < 10
    ensures Line(time, number, originLocal, flags, rest + more) == Line(time, number, originLocal, flags, rest) + more
  {
    hide TimeText, Digit, Bar;
    var o := if originLocal then "to" else "from";
    var n, t := [Digit(number)], TimeText(time);
    BarExtended(flags, rest, more);
    BarExtended(o, Bar(flags, rest), more);
    BarExtended(n, Bar(o, Bar(flags, rest)), more);
    BarExtended(t, Bar(n, Bar(o, Bar(flags, rest))), more);
    BarExtended("", Bar(t, Bar(n, Bar(o, Bar(flags, rest)))), more);
  }

  lemma ChopIs(s: string)
    ensures if EndsInReturn(s) then Chop(s) + "\r" == s else Chop(s) == s
    ensures Chop(s + "\r") == s
  {
  }

  lemma LineChopped(time: Option<Time>, number: nat, originLocal: bool, flags: string, rest: string)
    requires number < 10 && '\n' !in flags && '\n' !in rest
    ensures Chop(Line(time, number, originLocal, flags, rest)) == Line(time, number, originLocal, flags, Chop(rest))
  {
    LineClean(time, number, originLocal, flags, rest);
    hide *;
    ChopIs(rest);
    ChopIs(Line(time, number, originLocal, flags, rest));
    if EndsInReturn(rest) {
      ChopIs(Line(time, number, originLocal, flags, Chop(rest)));
      LineExtended(time, number, originLocal, flags, Chop(rest), "\r");
    }
  }

  lemma LineWithReturn(e: Event)
    requires e.MessageEvent?
    ensures EventToLine(e.(body := e.body + "\r")) == EventToLine(e) + "\r"
  {
    var e' := e.(body := e.body + "\r");
    EscapedExtended(e.body, "\r");
    assert Escaped("\r") == "\r" by {
      assert "\r"[1..] == "";
      EscapedNothing();
    }
    hide Escaped, Line, Bar;
    if e.urls != [] {
      var desc := Escaped(e.urls[0].desc);
      BarExtended(desc, Escaped(e.body), "\r");
      BarExtended(Escaped(e.urls[0].url), Bar(desc, Escaped(e.body)), "\r");
    }
    assert Address(e') == Address(e) + "\r";
    BarExtended(Escaped(e.subject), Address(e), "\r");
    LineExtended(e.time, MessageType(e.kind), e.originLocal, Flags(e), Subject(e), "\r");
  }

  // ---- the format, written out ----

  /** The months of a year; February has a day more in every fourth year, but for the centuries that 400
      does not divide. */
  lemma DaysMeaning(year: nat, month: nat)
    ensures month in {1, 3, 5, 7, 8, 10, 12} ==> DaysIn(year, month) == 31
    ensures month in {4, 6, 9, 11} ==> DaysIn(year, month) == 30
    ensures month == 2 && year % 400 == 0 ==> DaysIn(year, month) == 29
    ensures month == 2 && year % 100 == 0 && year % 400 != 0 ==> DaysIn(year, month) == 28
    ensures month == 2 && year % 100 != 0 ==> DaysIn(year, month) == if year % 4 == 0 then 29 else 28
  {
    if year % 400 == 0 {
      assert year % 4 == 0;
    }
  }

  /** Decimal numbers; 0 for what is none. */
  lemma ToIntMeaning(s: string, c: char)
    ensures ToInt("") == 0 && ((exists x <- s :: !('0' <= x <= '9')) ==> ToInt(s) == 0)
    ensures (forall x <- s + [c] :: '0' <= x <= '9') ==> ToInt(s + [c]) == 10 * ToInt(s) + (c as int - '0' as int)
  {
    assert (s + [c])[..|s|] == s && c in s + [c] && forall x <- s :: x in s + [c];
  }

  /** A hexadecimal digit of either case; 0 for what is none. */
  lemma HexOfMeaning(c: char)
    ensures '0' <= c <= '9' ==> HexOf(c) == c as int - '0' as int
    ensures 'a' <= c <= 'f' ==> HexOf(c) == c as int - 'a' as int + 10
    ensures 'A' <= c <= 'F' ==> HexOf(c) == c as int - 'A' as int + 10
    ensures !('0' <= c <= '9' || 'a' <= c <= 'f' || 'A' <= c <= 'F') ==> HexOf(c) == 0
  {
  }

  /** The hours of a day, the minutes of an hour, and so on, up to the year 9999. */
  lemma TimeMeaning(m: Moment)
    ensures m.Valid() <==>
            && m.year <= 9999 && m.month in {1, 2, 3, 4, 5, 6, 7, 8, 9, 10, 11, 12} && 1 <= m.day
            && m.day <= DaysIn(m.year, m.month) && m.hour <= 23 && m.minute <= 59 && m.second <= 59 && m.msec <= 999
  {
  }

  /** The year in four digits, and everything else in two. */
  lemma IsoMeaning(t: Time)
    ensures TimeText(Some(t)) == IsoText(t) && TimeText(None) == ""
    ensures IsoText(t) == Two(t.year / 100) + Two(t.year % 100) + "-" + Two(t.month) + "-" + Two(t.day)
                          + "T" + Two(t.hour) + ":" + Two(t.minute) + ":" + Two(t.second)
  {
    hide Two;
  }

  /** Exactly the texts of times are read, and as those. */
  lemma IsoReadMeaning(s: string, t: Time)
    ensures FromIsoText(s) == Some(t) <==> t.msec == 0 && IsoText(t) == s
  {
    hide *;
    if FromIsoText(s) == Some(t) {
      ReadParts(s, t);
      ReadAgain(s, t);
    }
    if IsoText(t) == s {
      TimeIs(t);
      TimeRoundTrip(Some(t));
    }
  }

  lemma TimeIs(t: Time)
    ensures TimeText(Some(t)) == IsoText(t)
    ensures t.msec == 0 ==> ToTheSecond(Some(t)) == Some(t)
  {
  }

  lemma ReadAgain(s: string, t: Time)
    requires IsoShaped(s) && t.year < 10000
    requires TwoValue(s, 0) == t.year / 100 && TwoValue(s, 2) == t.year % 100 && TwoValue(s, 5) == t.month
    requires TwoValue(s, 8) == t.day && TwoValue(s, 11) == t.hour && TwoValue(s, 14) == t.minute
    requires TwoValue(s, 17) == t.second
    ensures IsoText(t) == s
  {
    IsoMeaning(t);
    hide TwoValue, Two, IsoText;
    TwoInverse(s, 0, t.year / 100);
    TwoInverse(s, 2, t.year % 100);
    TwoInverse(s, 5, t.month);
    TwoInverse(s, 8, t.day);
    TwoInverse(s, 11, t.hour);
    TwoInverse(s, 14, t.minute);
    TwoInverse(s, 17, t.second);
    assert s == s[0..2] + s[2..4] + "-" + s[5..7] + "-" + s[8..10]
      + "T" + s[11..13] + ":" + s[14..16] + ":" + s[17..19];
  }

  lemma ReadParts(s: string, t: Time)
    requires FromIsoText(s) == Some(t)
    ensures IsoShaped(s) && t.msec == 0 && t.year < 10000
    ensures TwoValue(s, 0) == t.year / 100 && TwoValue(s, 2) == t.year % 100 && TwoValue(s, 5) == t.month
    ensures TwoValue(s, 8) == t.day && TwoValue(s, 11) == t.hour && TwoValue(s, 14) == t.minute
    ensures TwoValue(s, 17) == t.second
  {
    TwoBelow(s, 2);
    hide TwoValue, TwoDigits;
  }

  lemma TwoBelow(s: string, i: nat)
    requires TwoDigits(s, i)
    ensures TwoValue(s, i) < 100
  {
  }

  lemma TwoInverse(s: string, i: nat, n: nat)
    requires TwoDigits(s, i) && TwoValue(s, i) == n
    ensures n < 100 && Two(n) == s[i..i + 2]
  {
    DigitOf(s[i]);
    DigitOf(s[i + 1]);
    assert n / 10 == Value(s[i]) && n % 10 == Value(s[i + 1]);
    hide Digit, Value;
    assert s[i..i + 2] == [s[i], s[i + 1]];
  }

  lemma DigitOf(c: char)
    requires IsDigit(c)
    ensures Value(c) < 10 && Digit(Value(c)) == c
  {
  }

  /** A time is kept to the second, and no time as none. */
  lemma TimeKept(t: Option<Time>)
    ensures var r := FromIsoText(TimeText(t));
            && (r.None? <==> t.None?)
            && (t.Some? ==> var (a, b) := (r.value, t.value);
                  && a.year == b.year && a.month == b.month && a.day == b.day && a.hour == b.hour
                  && a.minute == b.minute && a.second == b.second && a.msec == 0)
  {
    TimeRoundTrip(t);
  }

  lemma TwoIsInt(n: nat)
    requires n < 100
    ensures ToInt(Two(n)) == n
  {
    var (a, b) := (Digit(n / 10), Digit(n % 10));
    DigitValue(n / 10);
    DigitValue(n % 10);
    ToIntMeaning("", a);
    ToIntMeaning([a], b);
    assert "" + [a] == [a] && [a] + [b] == Two(n);
    hide Digit;
    assert Value(a) == a as int - '0' as int && Value(b) == b as int - '0' as int;
  }

  /** Parts of a text: a part in the middle, and all that is left when there is less than asked for. */
  lemma MidMeaning(a: string, b: string, c: string, n: int)
    ensures Mid(a + b + c, |a|, |b|) == b && Mid(a, |a|, n) == ""
    ensures n < 0 || n > |b| ==> Mid(a + b, |a|, n) == b
    ensures c != "" ==> CharAt(a + c, |a|) == c[0]
    ensures CharAt(a, |a|) == '\0'
  {
    var s := a + b + c;
    assert s[|a|..|a| + |b|] == b && (a + b)[|a|..] == b;
    assert b + c == "" ==> s == a;
  }

  /** A field ends before the next bar; the last one takes all there is, and what follows is read from the
      start of the line again. */
  lemma FieldMeaning(line: string, field: string, rest: string)
    requires '|' !in field
    ensures Field(line + field + "|" + rest, |line|) == (field, |line| + |field| + 1)
    ensures Field(line + field, |line|) == (field, 0)
  {
    var s := line + field + "|" + rest;
    assert s[|line|..] == Bar(field, rest);
    FieldAt(s, |line|, field, rest);
    var t := line + field;
    assert t[|line|..|t|] == field;
    FindIs(t, '|', |line|, |t|);
    MidMeaning(line, field, "", -1 - |line|);
  }

  lemma ChopMeaning(s: string, c: char)
    ensures Chop("") == "" && Chop(s + "\r") == s && (c != '\r' ==> Chop(s + [c]) == s + [c])
  {
  }

  /** The line of a message. */
  lemma MessageLineMeaning(e: Event)
    requires e.MessageEvent?
    ensures var number := if e.kind == "chat" then "1" else if e.kind == "error" then "4"
              else if e.kind == "headline" then "5" else "0";
            var flags := if e.urls == [] then if e.subject == "" then "N---" else "N1--"
                         else if e.subject == "" then "N2--" else "N3--";
            var subject := if e.subject == "" then "" else Escaped(e.subject) + "|";
            var url := if e.urls == [] then "" else Escaped(e.urls[0].url) + "|" + Escaped(e.urls[0].desc) + "|";
            EventToLine(e) == "|" + TimeText(e.time) + "|" + number + "|" + (if e.originLocal then "to" else "from")
                              + "|" + flags + "|" + subject + url + Escaped(e.body)
  {
    var header := "|" + TimeText(e.time) + "|" + [Digit(MessageType(e.kind))] + "|"
                  + (if e.originLocal then "to" else "from") + "|" + Flags(e) + "|";
    MessageWritten(header, e);
    FieldsFollow(header, e);
    MessageTexts(e);
    hide *;
  }

  lemma MessageTexts(e: Event)
    requires e.MessageEvent?
    ensures [Digit(MessageType(e.kind))]
            == if e.kind == "chat" then "1" else if e.kind == "error" then "4"
               else if e.kind == "headline" then "5" else "0"
    ensures Flags(e) == if e.urls == [] then if e.subject == "" then "N---" else "N1--"
                        else if e.subject == "" then "N2--" else "N3--"
  {
  }

  lemma FieldsFollow(header: string, e: Event)
    requires e.MessageEvent?
    ensures var subject := if e.subject == "" then "" else Escaped(e.subject) + "|";
            var url := if e.urls == [] then "" else Escaped(e.urls[0].url) + "|" + Escaped(e.urls[0].desc) + "|";
            header + Subject(e) == header + subject + url + Escaped(e.body)
  {
    MessageText(header, e);
    hide *;
    var subject := if e.subject == "" then "" else Escaped(e.subject) + "|";
    var l1 := if e.subject != "" then header + Escaped(e.subject) + "|" else header;
    Regroup(header, Escaped(e.subject), "|");
    assert l1 == header + subject;
    if e.urls != [] {
      RegroupTwo(l1, Escaped(e.urls[0].url), Escaped(e.urls[0].desc));
    } else {
      assert l1 + "" == l1;
    }
  }

  lemma RegroupTwo(a: string, b: string, c: string)
    ensures a + b + "|" + c + "|" == a + (b + "|" + c + "|")
  {
    Regroup(a, b, "|");
    Regroup(a, b + "|", c);
    Regroup(a, b + "|" + c, "|");
  }

  lemma Regroup(a: string, b: string, c: string)
    ensures a + b + c == a + (b + c)
  {
  }

  /** The line of a subscription event. */
  lemma AuthLineMeaning(e: Event)
    requires e.AuthEvent?
    ensures var number := if e.authType == "subscribed" then "6" else if e.authType == "unsubscribe" then "7"
              else if e.authType == "unsubscribed" then "8" else "3";
            EventToLine(e) == "|" + TimeText(e.time) + "|" + number + "|" + (if e.originLocal then "to" else "from")
                              + "|" + "N---" + "|" + Escaped(e.authType)
  {
    AuthLine(e);
    AuthText(e.authType);
    hide TimeText, Escaped, EventToLine, Bar, Digit, AuthTypeNumber;
    var o := if e.originLocal then "to" else "from";
    HeaderText(TimeText(e.time), [Digit(AuthTypeNumber(e.authType))], o, "N---", Escaped(e.authType));
  }

  lemma AuthText(authType: string)
    ensures [Digit(AuthTypeNumber(authType))]
            == if authType == "subscribed" then "6" else if authType == "unsubscribe" then "7"
               else if authType == "unsubscribed" then "8" else "3"
  {
  }

  /** What a line without extra fields is read as, whatever its number. */
  lemma NumbersRead(t: string, n: string, o: string, text: string)
    requires '|' !in t && '|' !in n && '|' !in o
    ensures var e := LineToEvent("|" + t + "|" + n + "|" + o + "|" + "N---" + "|" + text);
            var (number, time) := (ToInt(n), FromIsoText(t));
            && (number == 0 ==> e == Some(MessageEvent(o == "to", time, "", "", Unescaped(text), [])))
            && (number == 1 ==> e == Some(MessageEvent(o == "to", time, "chat", "", Unescaped(text), [])))
            && (number == 4 ==> e == Some(MessageEvent(o == "to", time, "error", "", Unescaped(text), [])))
            && (number == 5 ==> e == Some(MessageEvent(o == "to", time, "headline", "", Unescaped(text), [])))
            && (number == 3 ==> e == Some(AuthEvent(false, time, "subscribe")))
            && (number == 6 ==> e == Some(AuthEvent(false, time, "subscribed")))
            && (number == 7 ==> e == Some(AuthEvent(false, time, "unsubscribe")))
            && (number == 2 && text == "<big>[System Message]</big><br>You are now authorized." ==>
                  e == Some(AuthEvent(false, time, "subscribed")))
            && (number == 2 && text == "<big>[System Message]</big><br>Your authorization has been removed!" ==>
                  e == Some(AuthEvent(false, time, "unsubscribed")))
            && (number == 2 && text != "<big>[System Message]</big><br>You are now authorized."
                && text != "<big>[System Message]</big><br>Your authorization has been removed!" ==>
                  e == Some(AuthEvent(false, time, "subscribe")))
            && (number >= 8 ==> e == None)
  {
    hide *;
    var line := "|" + t + "|" + n + "|" + o + "|" + "N---" + "|" + text;
    HeaderText(t, n, o, "N---", text);
    FieldsRead(line, t, n, o, "N---", text);
    EventRead(line, t, n, o, text);
    MadeFrom(FromIsoText(t), ToInt(n), o, text);
  }

  lemma EventRead(line: string, t: string, n: string, o: string, text: string)
    requires var (fields, x) := ReadHeader(line);
             fields == Fields(t, n, o, "N---") && x <= |line| && line[x..] == text
    ensures LineToEvent(line) == ToEvent(FromIsoText(t), ToInt(n), o, "", "", "", text)
  {
    hide ToEvent, FromIsoText, ToInt, ReadHeader;
  }

  lemma MadeFrom(time: Option<Time>, number: nat, o: string, text: string)
    ensures var e := ToEvent(time, number, o, "", "", "", text);
            && (number in {0, 1, 4, 5} ==> e == Some(MessageEvent(o == "to", time,
                  if number == 1 then "chat" else if number == 4 then "error" else if number == 5 then "headline"
                  else "", "", Unescaped(text), [])))
            && (number in {3, 6, 7} ==> e == Some(AuthEvent(false, time,
                  if number == 3 then "subscribe" else if number == 6 then "subscribed" else "unsubscribe")))
            && (number == 2 ==> e == Some(AuthEvent(false, time,
                  if text == "<big>[System Message]</big><br>You are now authorized." then "subscribed"
                  else if text == "<big>[System Message]</big><br>Your authorization has been removed!"
                  then "unsubscribed" else "subscribe")))
            && (number >= 8 ==> e == None)
  {
    assert Unescaped("") == "";
    hide Unescaped;
  }

  /** A written message is read back with everything but what is named here. */
  lemma MessageKept(e: Event)
    requires e.MessageEvent?
    ensures var r := LineToEvent(EventToLine(e));
            && r.Some? && r.value.MessageEvent? && r.value.originLocal == e.originLocal
            && r.value.subject == e.subject && r.value.body == e.body && r.value.time == FromIsoText(TimeText(e.time))
            && r.value.kind == (if e.kind in {"chat", "error", "headline"} then e.kind else "")
            && r.value.urls == if e.urls == [] || e.urls[0].url == "" then [] else [e.urls[0]]
  {
    hide LineToEvent, EventToLine, FromIsoText, TimeText;
    MessageRoundTrip(e);
    TimeRoundTrip(e.time);
  }

  /** A written subscription event is read back as a remote one of its kind, if that is a known one, and not
      at all if it is "unsubscribed". */
  lemma AuthKept(e: Event)
    requires e.AuthEvent?
    ensures var r := LineToEvent(Chop(EventToLine(e)));
            && (e.authType == "unsubscribed" <==> r == None)
            && (r.Some? ==> r.value == AuthEvent(false, FromIsoText(TimeText(e.time)),
                  if e.authType in {"subscribed", "unsubscribe"} then e.authType else "subscribe"))
  {
    hide LineToEvent, EventToLine, FromIsoText, TimeText;
    AuthRoundTrip(e);
    TimeRoundTrip(e.time);
  }

  // ---- the program, step by step ----

  /** The fields of the header, from left to right. */
  lemma HeaderText(t: string, n: string, o: string, flags: string, rest: string)
    ensures "|" + t + "|" + n + "|" + o + "|" + flags + "|" + rest == Bar("", Bar(t, Bar(n, Bar(o, Bar(flags, rest)))))
  {
    var a := t + "|" + (n + "|" + (o + "|" + (flags + "|" + rest)));
    assert "" + "|" + a == "|" + a;
  }

  /** The fields after the header, from left to right. */
  lemma MessageText(header: string, e: Event)
    requires e.MessageEvent?
    ensures var l1 := if e.subject != "" then header + Escaped(e.subject) + "|" else header;
            var l2 := if e.urls != [] then l1 + Escaped(e.urls[0].url) + "|" + Escaped(e.urls[0].desc) + "|" else l1;
            l2 + Escaped(e.body) == header + Subject(e)
  {
    hide Escaped;
    var l1 := if e.subject != "" then header + Escaped(e.subject) + "|" else header;
    assert header + Subject(e) == l1 + Address(e);
  }

  lemma MessageWritten(header: string, e: Event)
    requires e.MessageEvent?
    requires header == "|" + TimeText(e.time) + "|" + [Digit(MessageType(e.kind))] + "|"
                       + (if e.originLocal then "to" else "from") + "|" + Flags(e) + "|"
    ensures header + Subject(e) == EventToLine(e)
  {
    MessageLine(e);
    var o := if e.originLocal then "to" else "from";
    HeaderText(TimeText(e.time), [Digit(MessageType(e.kind))], o, Flags(e), Subject(e));
    hide TimeText, Digit, MessageType, Flags, Subject, Bar, EventToLine;
  }

  method WriteMessage(e: Event) returns (line: string)
    requires e.MessageEvent?
    ensures line == EventToLine(e)
  {
    hide Escaped, TimeText, Bar, Subject, EventToLine, MessageType, Digit;
    var subflags := 0;
    if e.subject != "" {
      subflags := subflags + 1;
    }
    if |e.urls| > 0 {
      subflags := subflags + 2;
    }
    var sTime, sType := TimeText(e.time), [Digit(MessageType(e.kind))];
    var sOrigin := if e.originLocal then "to" else "from";
    var sFlags := "N---";
    if subflags != 0 {
      sFlags := sFlags[1 := Digit(subflags)];
    }
    assert sFlags == Flags(e);
    line := "|" + sTime + "|" + sType + "|" + sOrigin + "|" + sFlags + "|";
    MessageText(line, e);
    MessageWritten(line, e);
    hide Line, Flags, Subflags;
    if subflags % 2 == 1 {
      var subject := LogEncode(e.subject);
      line := line + subject + "|";
    }
    if subflags / 2 % 2 == 1 {
      var url := LogEncode(e.urls[0].url);
      line := line + url + "|";
      var desc := LogEncode(e.urls[0].desc);
      line := line + desc + "|";
    }
    var body := LogEncode(e.body);
    line := line + body;
  }

  method WriteAuth(e: Event) returns (line: string)
    requires e.AuthEvent?
    ensures line == EventToLine(e)
  {
    AuthLine(e);
    hide Escaped, TimeText, Bar, EventToLine, AuthTypeNumber, Digit;
    var sTime, sType := TimeText(e.time), [Digit(AuthTypeNumber(e.authType))];
    var sOrigin := if e.originLocal then "to" else "from";
    line := "|" + sTime + "|" + sType + "|" + sOrigin + "|" + "N---" + "|";
    HeaderText(sTime, sType, sOrigin, "N---", Escaped(e.authType));
    var text := LogEncode(e.authType);
    line := line + text;
  }

  /** EDBFlatFile::File::eventToLine */
  method WriteEvent(e: Event) returns (line: string)
    ensures line == EventToLine(e)
  {
    match e
    case MessageEvent(_, _, _, _, _, _) => line := WriteMessage(e);
    case AuthEvent(_, _, _) => line := WriteAuth(e);
    case OtherEvent(_) => line := "";
  }

  /** The first half of lineToEvent: `x1` is where the next field begins, `x2` where it ends. */
  method ReadFields(line: string) returns (fields: Fields, x1: nat)
    ensures (fields, x1) == ReadHeader(line)
  {
    hide FindChar, Mid;
    x1 := FindChar(line, '|', 0) + 1;
    var x2 := FindChar(line, '|', x1);
    var sTime := Mid(line, x1, x2 - x1);
    x1 := x2 + 1;
    x2 := FindChar(line, '|', x1);
    var sType := Mid(line, x1, x2 - x1);
    x1 := x2 + 1;
    x2 := FindChar(line, '|', x1);
    var sOrigin := Mid(line, x1, x2 - x1);
    x1 := x2 + 1;
    x2 := FindChar(line, '|', x1);
    var sFlags := Mid(line, x1, x2 - x1);
    x1 := x2 + 1;
    fields := Fields(sTime, sType, sOrigin, sFlags);
  }

  /** EDBFlatFile::File::lineToEvent */
  method ReadEvent(line: string) returns (e: Option<Event>)
    ensures e == LineToEvent(line)
  {
    hide ReadHeader, FindChar, Mid, ToEvent, FromIsoText, ToInt, CharAt, HexOf;
    var fields, x1 := ReadFields(line);
    var sSubj, sUrl, sUrlDesc := "", "", "";
    var x2;
    if CharAt(fields.flags, 1) != '-' {
      var subflags := HexOf(CharAt(fields.flags, 1));
      if subflags % 2 == 1 {
        x2 := FindChar(line, '|', x1);
        sSubj := Mid(line, x1, x2 - x1);
        x1 := x2 + 1;
      }
      if subflags / 2 % 2 == 1 {
        x2 := FindChar(line, '|', x1);
        sUrl := Mid(line, x1, x2 - x1);
        x1 := x2 + 1;
        x2 := FindChar(line, '|', x1);
        sUrlDesc := Mid(line, x1, x2 - x1);
        x1 := x2 + 1;
      }
    }
    var sText := Mid(line, x1, -1);
    e := MakeEvent(FromIsoText(fields.time), ToInt(fields.number), fields.origin, sSubj, sUrl, sUrlDesc, sText);
  }

  method MakeEvent(time: Option<Time>, number: nat, sOrigin: string, sSubj: string, sUrl: string, sUrlDesc: string,
                   sText: string) returns (e: Option<Event>)
    ensures e == ToEvent(time, number, sOrigin, sSubj, sUrl, sUrlDesc, sText)
  {
    hide Unescaped;
    if number == 0 || number == 1 || number == 4 || number == 5 {
      var kind := "";
      if number == 1 {
        kind := "chat";
      } else if number == 4 {
        kind := "error";
      } else if number == 5 {
        kind := "headline";
      }
      var body := LogDecode(sText);
      var subject := LogDecode(sSubj);
      var url := LogDecode(sUrl);
      var urls := [];
      if url != "" {
        var desc := LogDecode(sUrlDesc);
        urls := [Url(url, desc)];
      }
      e := Some(MessageEvent(sOrigin == "to", time, kind, subject, body, urls));
    } else if number == 2 || number == 3 || number == 6 || number == 7 {
      var subType := "subscribe";
      if number == 2 {
        if sText == "<big>[System Message]</big><br>You are now authorized." {
          subType := "subscribed";
        } else if sText == "<big>[System Message]</big><br>Your authorization has been removed!" {
          subType := "unsubscribed";
        }
      } else if number == 6 {
        subType := "subscribed";
      } else if number == 7 {
        subType := "unsubscribe";
      }
      e := Some(AuthEvent(false, time, subType));
    } else {
      e := None;
    }
  }
}
