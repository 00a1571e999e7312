/** The text codecs of the history files and of stored passwords. */
module LogText {

  // ---- history lines ----

  /** QString::replace of every `c`. */
  function Replace(s: string, c: char, into: string): string {
    if s == "" then "" else (if s[0] == c then into else [s[0]]) + Replace(s[1..], c, into)
  }

  /** What the three replacements of `logencode` make of one character. */
  function Escape(c: char): string {
    if c == '\\' then "\\\\" else if c == '|' then "\\p" else if c == '\n' then "\\n" else [c]
  }

  function Escaped(s: string): (r: string)
    ensures '|' !in r && '\n' !in r
    ensures r == "" <==> s == ""
  {
    if s == "" then "" else Escape(s[0]) + Escaped(s[1..])
  }

  function Meaning(c: char): string {
    if c == 'n' then "\n" else if c == 'p' then "|" else if c == '\\' then "\\" else ""
  }

  /** What `logdecode` reads after a backslash; an unknown escape is dropped, a lone one ends the text. */
  function Unescaped(s: string): string
    decreases |s|
  {
    if s == "" then ""
    else if s[0] != '\\' then [s[0]] + Unescaped(s[1..])
    else if |s| == 1 then ""
    else Meaning(s[1]) + Unescaped(s[2..])
  }

  method LogEncode(text: string) returns (str: string)
    ensures str == Escaped(text)
  {
    str := text;
    str := Replace(str, '\\', "\\\\");
    str := Replace(str, '|', "\\p");
    str := Replace(str, '\n', "\\n");
    ReplacedIsEscaped(text);
  }

  lemma {:induction false} ReplaceConcat(a: string, b: string, c: char, into: string)
    ensures Replace(a + b, c, into) == Replace(a, c, into) + Replace(b, c, into)
  {
    if a == "" {
      assert a + b == b;
    } else {
      ReplaceConcat(a[1..], b, c, into);
      assert (a + b)[1..] == a[1..] + b;
      var head := if a[0] == c then into else [a[0]];
      assert Replace(a + b, c, into) == head + Replace(a[1..] + b, c, into);
      assert head + (Replace(a[1..], c, into) + Replace(b, c, into))
        == head + Replace(a[1..], c, into) + Replace(b, c, into);
    }
  }

  /** The replacements do not get in each other's way: backslashes first, so that those put in for
      pipes and newlines are not doubled. */
  lemma {:induction false} ReplacedIsEscaped(s: string)
    ensures Replace(Replace(Replace(s, '\\', "\\\\"), '|', "\\p"), '\n', "\\n") == Escaped(s)
  {
    if s != "" {
      var c, rest := if s[0] == '\\' then "\\\\" else [s[0]], Replace(s[1..], '\\', "\\\\");
      var c', rest' := Replace(c, '|', "\\p"), Replace(rest, '|', "\\p");
      ReplaceConcat(c, rest, '|', "\\p");
      ReplaceConcat(c', rest', '\n', "\\n");
      ReplacedIsEscaped(s[1..]);
      ReplacedOne(s[0]);
    }
  }

  lemma ReplacedOne(c: char)
    ensures Replace(Replace(if c == '\\' then "\\\\" else [c], '|', "\\p"), '\n', "\\n") == Escape(c)
  {
    assert Replace("", '|', "\\p") == "" && Replace("", '\n', "\\n") == "";
    if c == '\\' {
      assert "\\\\"[1..] == "\\" && "\\"[1..] == "";
      assert Replace("\\", '|', "\\p") == "\\" && Replace("\\", '\n', "\\n") == "\\";
      assert Replace("\\\\", '|', "\\p") == "\\\\" && Replace("\\\\", '\n', "\\n") == "\\\\";
    } else if c == '|' {
      assert Replace([c], '|', "\\p") == "\\p";
      assert "\\p"[1..] == "p" && "p"[1..] == "";
      assert Replace("p", '\n', "\\n") == "p";
    } else {
      assert Replace([c], '|', "\\p") == [c];
    }
  }

  lemma UnescapedStep(s: string, n: nat)
    requires n < |s|
    ensures s[n] != '\\' ==> Unescaped(s[n..]) == [s[n]] + Unescaped(s[n + 1..])
    ensures s[n] == '\\' && n + 1 < |s| ==> Unescaped(s[n..]) == Meaning(s[n + 1]) + Unescaped(s[n + 2..])
    ensures s[n] == '\\' && n + 1 == |s| ==> Unescaped(s[n..]) == ""
  {
    assert s[n..][1..] == s[n + 1..];
    assert n + 1 < |s| ==> s[n..][2..] == s[n + 2..];
  }

  method LogDecode(str: string) returns (ret: string)
    ensures ret == Unescaped(str)
  {
    hide Unescaped;
    ret := "";
    var n := 0;
    assert str[0..] == str;
    while n < |str|
      invariant 0 <= n
      invariant if n <= |str| then ret + Unescaped(str[n..]) == Unescaped(str) else ret == Unescaped(str)
    {
      UnescapedStep(str, n);
      if str[n] == '\\' {
        n := n + 1;
        if n >= |str| {
          break;
        }
        if str[n] == 'n' {
          ret := ret + "\n";
        }
        if str[n] == 'p' {
          ret := ret + "|";
        }
        if str[n] == '\\' {
          ret := ret + "\\";
        }
      } else {
        ret := ret + [str[n]];
      }
      n := n + 1;
    }
    assert n == |str| ==> str[n..] == "";
    NothingUnescaped();
  }

  lemma NothingUnescaped()
    ensures Unescaped("") == ""
  {
  }

  lemma EscapeReadBack(c: char, rest: string)
    ensures Unescaped(Escape(c) + rest) == [c] + Unescaped(rest)
  {
    var e := Escape(c) + rest;
    assert |Escape(c)| == 2 ==> e[1] == Escape(c)[1] && e[2..] == rest;
    assert |Escape(c)| == 1 ==> e[1..] == rest;
  }

  /** Reading back what was written restores the text. */
  lemma {:induction false} LogRoundTrip(s: string)
    ensures Unescaped(Escaped(s)) == s
  {
    hide Unescaped, Escape;
    if s != "" {
      LogRoundTrip(s[1..]);
      EscapeReadBack(s[0], Escaped(s[1..]));
      assert s == [s[0]] + s[1..];
    } else {
      NothingUnescaped();
    }
  }

  lemma {:induction false} EscapedExtended(s: string, more: string)
    ensures Escaped(s + more) == Escaped(s) + Escaped(more)
  {
    hide Escape;
    if s == "" {
      assert s + more == more;
    } else {
      EscapedExtended(s[1..], more);
      assert (s + more)[1..] == s[1..] + more && (s + more)[0] == s[0];
    }
  }

  /** What stands in a line for each character. */
  lemma EscapedMeaning(s: string, c: char)
    ensures Escaped("") == "" && Escaped(s + "\\") == Escaped(s) + "\\\\"
    ensures Escaped(s + "|") == Escaped(s) + "\\p" && Escaped(s + "\n") == Escaped(s) + "\\n"
    ensures c !in "\\|\n" ==> Escaped(s + [c]) == Escaped(s) + [c]
  {
    EscapedExtended(s, "\\");
    EscapedExtended(s, "|");
    EscapedExtended(s, "\n");
    EscapedExtended(s, [c]);
    EscapedChar('\\');
    EscapedChar('|');
    EscapedChar('\n');
    EscapedChar(c);
    assert "\\|\n"[0] == '\\' && "\\|\n"[1] == '|' && "\\|\n"[2] == '\n';
  }

  lemma EscapedChar(c: char)
    ensures Escaped([c]) == Escape(c)
  {
    assert [c][1..] == "" && Escaped("") == "";
  }

  /** What each character in a line is read as, after a backslash and without one. */
  lemma UnescapedMeaning(c: char, s: string)
    ensures Unescaped("\\n" + s) == "\n" + Unescaped(s) && Unescaped("\\p" + s) == "|" + Unescaped(s)
    ensures Unescaped("\\\\" + s) == "\\" + Unescaped(s)
    ensures c !in "np\\" ==> Unescaped("\\" + [c] + s) == Unescaped(s)
    ensures c != '\\' ==> Unescaped([c] + s) == [c] + Unescaped(s)
    ensures Unescaped("\\") == "" && Unescaped("") == ""
  {
    UnescapedPair('n', s);
    UnescapedPair('p', s);
    UnescapedPair('\\', s);
    UnescapedPair(c, s);
    assert ([c] + s)[1..] == s;
    assert "np\\"[0] == 'n' && "np\\"[1] == 'p' && "np\\"[2] == '\\';
    assert "\\" + ['n'] == "\\n" && "\\" + ['p'] == "\\p" && "\\" + ['\\'] == "\\\\";
  }

  lemma UnescapedPair(c: char, s: string)
    ensures Unescaped("\\" + [c] + s) == Meaning(c) + Unescaped(s)
  {
    assert ("\\" + [c] + s)[2..] == s;
  }

  // ---- passwords ----

  /** UTF-16 code units, as QString stores them. */
  type Text = seq<bv16>

  /** One digit of sprintf("%04x"). */
  function HexDigit(x: bv16): bv16
    requires x < 16
  {
    if x < 10 then 0x30 + x else 0x57 + x
  }

  /** QString(c).toInt(NULL, 16): 0 for anything that is not a digit. */
  function HexValue(c: bv16): (x: bv16)
    ensures x < 16
  {
    if 0x30 <= c <= 0x39 then c - 0x30
    else if 0x61 <= c <= 0x66 then c - 0x57
    else if 0x41 <= c <= 0x46 then c - 0x37
    else 0
  }

  function Hex(x: bv16): (digits: Text)
    ensures |digits| == 4
  {
    [HexDigit(x >> 12), HexDigit((x >> 8) & 15), HexDigit((x >> 4) & 15), HexDigit(x & 15)]
  }

  function FromHex(a: bv16, b: bv16, c: bv16, d: bv16): bv16 {
    HexValue(a) * 4096 + HexValue(b) * 256 + HexValue(c) * 16 + HexValue(d)
  }

  /** The digits are those of ASCII, with small letters; reading takes capitals too, and 0 for anything else. */
  lemma HexDigits(x: bv16, c: bv16)
    ensures x < 10 ==> HexDigit(x) == 0x30 + x && HexValue(0x30 + x) == x
    ensures x < 6 ==> HexDigit(10 + x) == 0x61 + x && HexValue(0x61 + x) == 10 + x && HexValue(0x41 + x) == 10 + x
    ensures !(0x30 <= c <= 0x39 || 0x61 <= c <= 0x66 || 0x41 <= c <= 0x46) ==> HexValue(c) == 0
  {
  }

  /** The four digits of a number, the highest first. */
  lemma HexMeaning(a: bv16, b: bv16, c: bv16, d: bv16)
    requires a < 16 && b < 16 && c < 16 && d < 16
    ensures Hex((a << 12) | (b << 8) | (c << 4) | d) == [HexDigit(a), HexDigit(b), HexDigit(c), HexDigit(d)]
  {
    Nibbles(a, b, c, d);
    hide HexDigit;
  }

  lemma Nibbles(a: bv16, b: bv16, c: bv16, d: bv16)
    requires a < 16 && b < 16 && c < 16 && d < 16
    ensures var x := (a << 12) | (b << 8) | (c << 4) | d;
            x >> 12 == a && (x >> 8) & 15 == b && (x >> 4) & 15 == c && x & 15 == d
  {
  }

  /** Any four characters count as the digits they are read as. */
  lemma FromHexMeaning(a: bv16, b: bv16, c: bv16, d: bv16)
    ensures FromHex(a, b, c, d) == (HexValue(a) << 12) | (HexValue(b) << 8) | (HexValue(c) << 4) | HexValue(d)
  {
    NibblesShifted(HexValue(a), HexValue(b), HexValue(c), HexValue(d));
    hide HexValue;
  }

  lemma NibblesShifted(a: bv16, b: bv16, c: bv16, d: bv16)
    requires a < 16 && b < 16 && c < 16 && d < 16
    ensures a * 4096 + b * 256 + c * 16 + d == (a << 12) | (b << 8) | (c << 4) | d
  {
  }

  lemma HexRoundTrip(x: bv16)
    ensures FromHex(Hex(x)[0], Hex(x)[1], Hex(x)[2], Hex(x)[3]) == x
  {
    DigitRoundTrip(x >> 12);
    DigitRoundTrip((x >> 8) & 15);
    DigitRoundTrip((x >> 4) & 15);
    DigitRoundTrip(x & 15);
    hide HexValue, HexDigit;
    NibblesJoin(x);
  }

  lemma NibblesJoin(x: bv16)
    ensures (x >> 12) * 4096 + ((x >> 8) & 15) * 256 + ((x >> 4) & 15) * 16 + (x & 15) == x
  {
  }

  lemma DigitRoundTrip(x: bv16)
    requires x < 16
    ensures HexValue(HexDigit(x)) == x
  {
  }

  /** The encoding: position by position, the key repeated as often as needed. */
  ghost predicate Encodes(code: Text, pass: Text, key: Text)
    requires key != []
  {
    && |code| == 4 * |pass|
    && forall i :: 0 <= i < |pass| ==> code[4 * i..4 * i + 4] == Hex(pass[i] ^ key[i % |key|])
  }

  method EncodePassword(pass: Text, key: Text) returns (result: Text)
    ensures if key == [] then result == pass else Encodes(result, pass, key)
  {
    hide Hex;
    if |key| == 0 {
      return pass;
    }
    result := [];
    var n2 := 0;
    for n1 := 0 to |pass|
      invariant n2 == n1 % |key| && |result| == 4 * n1
      invariant forall i :: 0 <= i < n1 ==> result[4 * i..4 * i + 4] == Hex(pass[i] ^ key[i % |key|])
    {
      var x := pass[n1] ^ key[n2];
      n2 := n2 + 1;
      ghost var before := result;
      result := result + Hex(x);
      assert forall i :: 0 <= i < n1 ==> result[4 * i..4 * i + 4] == before[4 * i..4 * i + 4];
      assert result[4 * n1..4 * n1 + 4] == Hex(x);
      NextKeyIndex(n1, |key|);
      if n2 >= |key| {
        n2 := 0;
      }
    }
  }

  lemma NextKeyIndex(i: nat, n: nat)
    requires n > 0
    ensures (i + 1) % n == if i % n + 1 >= n then 0 else i % n + 1
  {
    var q, d := i / n, (i + 1) / n;
    var m, m' := i % n, (i + 1) % n;
    assert q * n + m + 1 == d * n + m';
    Times(d, q, n);
    if d > q + 1 {
      TimesMore(d - q, 2, n);
    } else if d < q {
      TimesMore(q - d, 1, n);
    }
  }

  lemma Times(a: int, b: int, n: int)
    ensures a * n - b * n == (a - b) * n
  {
  }

  lemma TimesMore(k: int, l: int, n: int)
    requires k >= l && n >= 1
    ensures k * n >= l * n && (-k) * n == -(k * n)
  {
  }

  /** Reads four characters at a time; a shorter rest is ignored. */
  method DecodePassword(code: Text, key: Text) returns (result: Text)
    ensures key == [] ==> result == code
    ensures key != [] ==> |result| == |code| / 4
    ensures key != [] ==> forall i :: 0 <= i < |result| ==>
      result[i] == FromHex(code[4 * i], code[4 * i + 1], code[4 * i + 2], code[4 * i + 3]) ^ key[i % |key|]
  {
    hide FromHex;
    if |key| == 0 {
      return code;
    }
    result := [];
    var n1, n2 := 0, 0;
    while n1 < |code|
      invariant n1 == 4 * |result| && n1 <= |code| + 3 && n2 == |result| % |key| && |result| <= |code| / 4
      invariant forall i :: 0 <= i < |result| ==>
        result[i] == FromHex(code[4 * i], code[4 * i + 1], code[4 * i + 2], code[4 * i + 3]) ^ key[i % |key|]
    {
      if n1 + 4 > |code| {
        break;
      }
      var x := FromHex(code[n1], code[n1 + 1], code[n1 + 2], code[n1 + 3]);
      NextKeyIndex(|result|, |key|);
      result := result + [x ^ key[n2]];
      n2 := n2 + 1;
      if n2 >= |key| {
        n2 := 0;
      }
      n1 := n1 + 4;
    }
  }

  /** Decoding what was encoded with the same key restores the password, whatever their lengths. */
  method PasswordRoundTrip(pass: Text, key: Text) returns (again: Text)
    ensures again == pass
  {
    var code := EncodePassword(pass, key);
    again := DecodePassword(code, key);
    if key != [] {
      forall i | 0 <= i < |pass|
        ensures again[i] == pass[i]
      {
        CodeAt(code, pass, key, i);
      }
    }
  }

  lemma CodeAt(code: Text, pass: Text, key: Text, i: nat)
    requires key != [] && Encodes(code, pass, key) && i < |pass|
    ensures FromHex(code[4 * i], code[4 * i + 1], code[4 * i + 2], code[4 * i + 3]) ^ key[i % |key|] == pass[i]
  {
    hide Hex, FromHex;
    var x := pass[i] ^ key[i % |key|];
    var h := code[4 * i..4 * i + 4];
    assert h == Hex(x) && h[0] == code[4 * i] && h[1] == code[4 * i + 1] && h[2] == code[4 * i + 2]
      && h[3] == code[4 * i + 3];
    HexRoundTrip(x);
    XorTwice(pass[i], key[i % |key|]);
  }

  lemma XorTwice(a: bv16, b: bv16)
    ensures (a ^ b) ^ b == a
  {
  }
}
