/** The string operations the rest relies on: splitting, lines, trimming, words, decimals. */
module Strings {
  import opened Numerals

  /** Unicode `White_Space`, which `trim` and `split_whitespace` go by. */
  predicate IsSpace(c: char) {
    var x := c as int;
    || 9 <= x <= 13 || x == 32 || x == 0x85 || x == 0xA0 || x == 0x1680 || 0x2000 <= x <= 0x200A
    || x == 0x2028 || x == 0x2029 || x == 0x202F || x == 0x205F || x == 0x3000
  }

  /** Where `c` first occurs, or the length. */
  function IndexOf(s: string, c: char): (i: nat)
    ensures i <= |s| && c !in s[..i] && (i < |s| ==> s[i] == c)
  {
    if s == "" || s[0] == c then 0 else
      var i := IndexOf(s[1..], c) + 1;
      assert s[..i] == [s[0]] + s[1..][..i - 1];
      i
  }

  lemma IndexOfNone(s: string, c: char)
    requires c !in s
    ensures IndexOf(s, c) == |s|
  {
    assert forall i :: 0 <= i < |s| ==> s[i] in s;
  }

  lemma IndexOfPrefix(a: string, c: char, b: string)
    requires c !in a
    ensures IndexOf(a + [c] + b, c) == |a|
  {
    var s := a + [c] + b;
    var i := IndexOf(s, c);
    assert forall k :: 0 <= k < |a| ==> s[k] == a[k] && a[k] in a;
    assert forall k :: 0 <= k < i ==> s[k] == s[..i][k];
    assert s[|a|] == c;
  }

  /** What follows the last `c`: `rsplit(c).next()`. */
  function AfterLast(s: string, c: char): (r: string)
    ensures c !in r && |r| <= |s| && s[|s| - |r|..] == r
    ensures |r| < |s| ==> s[|s| - |r| - 1] == c
  {
    if s == "" || s[|s| - 1] == c then "" else AfterLast(s[..|s| - 1], c) + [s[|s| - 1]]
  }

  predicate SlashFree(s: string) {
    '/' !in s
  }

  /** A path is split at its first slash in one way. */
  lemma FirstSlash(a: string, x: string, b: string, y: string)
    requires SlashFree(a) && SlashFree(b) && a + "/" + x == b + "/" + y
    ensures a == b && x == y
  {
    IndexOfPrefix(a, '/', x);
    IndexOfPrefix(b, '/', y);
    assert a + "/" + x == a + ['/'] + x && b + "/" + y == b + ['/'] + y;
    assert a == (a + "/" + x)[..|a|] && b == (b + "/" + y)[..|b|];
    assert x == (a + "/" + x)[|a| + 1..] && y == (b + "/" + y)[|b| + 1..];
  }

  /** Bytes a character takes in UTF-8. */
  function CharLen(c: char): nat {
    var n := c as int;
    if n < 0x80 then 1 else if n < 0x800 then 2 else if n < 0x10000 then 3 else 4
  }

  /** A string's length in bytes. */
  function Utf8Len(s: string): nat {
    if s == "" then 0 else CharLen(s[0]) + Utf8Len(s[1..])
  }

  /** What follows the last `c` is not changed by what precedes it, and is extended by what has no `c`. */
  lemma AfterLastOf(a: string, d: string, w: string, c: char)
    requires c in d && c !in w
    ensures AfterLast(a + d + w, c) == AfterLast(d, c) + w
  {
    hide AfterLast;
    var s, r, x := a + d + w, AfterLast(a + d + w, c), AfterLast(d, c);
    assert d[0..] == d && |x| < |d|;
    var y := x + w;
    assert c !in y && s[|s| - |y|..] == y && s[|s| - |y| - 1] == c;
    LastIsUnique(s, r, y, c);
  }

  lemma LastIsUnique(s: string, x: string, y: string, c: char)
    requires |x| <= |s| && s[|s| - |x|..] == x && c !in x && (|x| < |s| ==> s[|s| - |x| - 1] == c)
    requires |y| < |s| && s[|s| - |y|..] == y && c !in y && s[|s| - |y| - 1] == c
    ensures x == y
  {
    var i, j := |s| - |x|, |s| - |y|;
    assert forall k :: i <= k < |s| ==> s[k] == x[k - i] && s[k] != c;
    assert forall k :: j <= k < |s| ==> s[k] == y[k - j] && s[k] != c;
    assert i > 0 ==> s[i - 1] == c;
    assert i == j;
  }

  lemma AfterNone(s: string, c: char)
    requires c !in s
    ensures AfterLast(s, c) == s
  {
    assert forall k :: 0 <= k < |s| ==> s[k] in s;
    assert s[0..] == s;
  }

  lemma {:induction false} AsciiLen(s: string)
    requires forall i :: 0 <= i < |s| ==> s[i] as int < 0x80
    ensures Utf8Len(s) == |s|
  {
    if s != "" {
      AsciiLen(s[1..]);
    }
  }

  // ----- lines -----

  function ChopCr(s: string): string {
    if s != "" && s[|s| - 1] == '\r' then s[..|s| - 1] else s
  }

  /** `str::lines`: a last line needs no line feed, and a line feed may follow a carriage return. */
  function Lines(s: string): seq<string>
    decreases |s|
  {
    if s == "" then [] else
      var i := IndexOf(s, '\n');
      if i == |s| then [s] else [ChopCr(s[..i])] + Lines(s[i + 1..])
  }

  function Unlines(lines: seq<string>): string {
    if lines == [] then "" else lines[0] + "\n" + Unlines(lines[1..])
  }

  predicate OneLine(s: string) {
    '\n' !in s
  }

  predicate PlainLine(s: string) {
    OneLine(s) && ChopCr(s) == s
  }

  predicate AllPlain(lines: seq<string>) {
    forall k :: 0 <= k < |lines| ==> PlainLine(lines[k])
  }

  predicate AllOneLine(lines: seq<string>) {
    forall k :: 0 <= k < |lines| ==> OneLine(lines[k])
  }

  lemma FirstLine(l: string, rest: string)
    requires PlainLine(l)
    ensures Lines(l + "\n" + rest) == [l] + Lines(rest)
  {
    var s := l + ['\n'] + rest;
    IndexOfPrefix(l, '\n', rest);
    hide IndexOf;
    assert s == l + "\n" + rest && s[..|l|] == l && s[|l| + 1..] == rest;
  }

  /** A carriage return before the line feed is not part of the line. */
  lemma CrLfEndsLine(l: string, rest: string)
    requires OneLine(l)
    ensures Lines(l + "\r\n" + rest) == [l] + Lines(rest)
  {
    var k, s := l + ['\r'], l + ['\r'] + ['\n'] + rest;
    IndexOfPrefix(k, '\n', rest);
    hide IndexOf;
    assert s == l + "\r\n" + rest && s[..|k|] == k && s[|k| + 1..] == rest && k[..|k| - 1] == l;
  }

  lemma {:induction false} LinesOfUnlines(lines: seq<string>)
    requires AllPlain(lines)
    ensures Lines(Unlines(lines)) == lines
  {
    if lines != [] {
      hide Lines, PlainLine;
      FirstLine(lines[0], Unlines(lines[1..]));
      LinesOfUnlines(lines[1..]);
      assert lines == [lines[0]] + lines[1..];
    }
  }

  lemma {:induction false} LinesAreOneLine(s: string)
    ensures AllOneLine(Lines(s))
    decreases |s|
  {
    if s != "" {
      var i := IndexOf(s, '\n');
      if i == |s| {
        assert s[..i] == s;
      } else {
        LinesAreOneLine(s[i + 1..]);
        assert forall c :: c in ChopCr(s[..i]) ==> c in s[..i];
      }
    }
  }

  lemma {:induction false} UnlinesAppend(a: seq<string>, b: seq<string>)
    ensures Unlines(a + b) == Unlines(a) + Unlines(b)
  {
    if a == [] {
      assert a + b == b;
    } else {
      assert (a + b)[1..] == a[1..] + b;
      UnlinesAppend(a[1..], b);
    }
  }

  // ----- trimming -----

  function TrimStart(s: string): string {
    if s != "" && IsSpace(s[0]) then TrimStart(s[1..]) else s
  }

  function TrimEnd(s: string): string {
    if s != "" && IsSpace(s[|s| - 1]) then TrimEnd(s[..|s| - 1]) else s
  }

  function Trim(s: string): string {
    TrimEnd(TrimStart(s))
  }

  predicate SquareEdged(s: string) {
    s == "" || (!IsSpace(s[0]) && !IsSpace(s[|s| - 1]))
  }

  lemma {:induction false} TrimStartSound(s: string)
    ensures TrimStart(s) == "" || !IsSpace(TrimStart(s)[0])
    ensures forall c :: c in TrimStart(s) ==> c in s
  {
    if s != "" && IsSpace(s[0]) {
      TrimStartSound(s[1..]);
    }
  }

  lemma {:induction false} TrimEndSound(s: string)
    ensures TrimEnd(s) <= s
    ensures TrimEnd(s) == "" || !IsSpace(TrimEnd(s)[|TrimEnd(s)| - 1])
  {
    if s != "" && IsSpace(s[|s| - 1]) {
      TrimEndSound(s[..|s| - 1]);
    }
  }

  lemma TrimSound(s: string)
    ensures SquareEdged(Trim(s)) && (OneLine(s) ==> OneLine(Trim(s)))
  {
    TrimStartSound(s);
    TrimEndSound(TrimStart(s));
  }

  lemma TrimIdentity(s: string)
    requires SquareEdged(s)
    ensures Trim(s) == s && Trim(" " + s) == s
  {
    assert (" " + s)[1..] == s;
  }

  // ----- words -----

  function WordEnd(s: string): (n: nat)
    ensures n <= |s| && (forall i :: 0 <= i < n ==> !IsSpace(s[i])) && (n < |s| ==> IsSpace(s[n]))
  {
    if s == "" || IsSpace(s[0]) then 0 else 1 + WordEnd(s[1..])
  }

  /** `split_whitespace`. */
  function Words(s: string): seq<string>
    decreases |s|
  {
    if s == "" then []
    else if IsSpace(s[0]) then Words(s[1..])
    else var n := WordEnd(s); [s[..n]] + Words(s[n..])
  }

  predicate IsWord(s: string) {
    s != "" && forall i :: 0 <= i < |s| ==> !IsSpace(s[i])
  }

  predicate AllWords(ws: seq<string>) {
    forall k :: 0 <= k < |ws| ==> IsWord(ws[k])
  }

  /** `join(" ")`. */
  function Join(ws: seq<string>): string {
    if ws == [] then "" else if |ws| == 1 then ws[0] else ws[0] + " " + Join(ws[1..])
  }

  lemma {:induction false} WordsAreWords(s: string)
    ensures AllWords(Words(s))
    decreases |s|
  {
    if s != "" {
      if IsSpace(s[0]) {
        WordsAreWords(s[1..]);
      } else {
        WordsAreWords(s[WordEnd(s)..]);
      }
    }
  }

  lemma WordEndOf(w: string, rest: string)
    requires IsWord(w) && (rest == "" || IsSpace(rest[0]))
    ensures WordEnd(w + rest) == |w|
  {
    var s := w + rest;
    assert forall k :: 0 <= k < |w| ==> s[k] == w[k];
    assert rest != "" ==> s[|w|] == rest[0];
  }

  lemma {:induction false} WordsOfJoin(ws: seq<string>)
    requires AllWords(ws)
    ensures Words(Join(ws)) == ws
  {
    if ws != [] {
      var tail := if |ws| == 1 then "" else " " + Join(ws[1..]);
      var s := Join(ws);
      assert s == ws[0] + tail;
      WordEndOf(ws[0], tail);
      assert s[..|ws[0]|] == ws[0] && s[|ws[0]|..] == tail && s[0] == ws[0][0];
      if |ws| > 1 {
        assert tail[1..] == Join(ws[1..]);
        WordsOfJoin(ws[1..]);
      }
    }
  }

  /** Joined words read as one trimmed line, empty only when there are none. */
  lemma {:induction false} JoinIsTidy(ws: seq<string>)
    requires AllWords(ws)
    ensures SquareEdged(Join(ws)) && OneLine(Join(ws)) && (Join(ws) == "" <==> ws == [])
  {
    if ws != [] {
      assert OneLine(ws[0]);
      if |ws| > 1 {
        JoinIsTidy(ws[1..]);
      }
    }
  }

  // ----- decimals -----

  function DigitChar(d: nat): char
    requires d < 10
  {
    '0' + d as char
  }

  function Decimal(n: nat): string {
    if n < 10 then [DigitChar(n)] else Decimal(n / 10) + [DigitChar(n % 10)]
  }

  function ParseDigits(s: string): Option<nat> {
    if s == "" then Some(0) else
      var high := ParseDigits(s[..|s| - 1]);
      var c := s[|s| - 1];
      if high.Some? && '0' <= c <= '9' then Some(10 * high.value + (c as int - '0' as int)) else None
  }

  /** `str::parse::<u64>`: a plus sign may lead, at least one digit, no overflow. */
  function ParseU64(s: string): (r: Option<nat>)
    ensures r.Some? ==> r.value < U64
  {
    var digits := if s != "" && s[0] == '+' then s[1..] else s;
    if digits == "" then None else
      var v := ParseDigits(digits);
      if v.Some? && v.value < U64 then v else None
  }

  lemma {:induction false} DecimalParses(n: nat)
    ensures Decimal(n) != "" && ParseDigits(Decimal(n)) == Some(n)
    ensures forall i :: 0 <= i < |Decimal(n)| ==> '0' <= Decimal(n)[i] <= '9'
  {
    if n >= 10 {
      DecimalParses(n / 10);
      var s := Decimal(n);
      assert s[..|s| - 1] == Decimal(n / 10);
    } else {
      assert Decimal(n)[..0] == "";
    }
  }

  lemma U64RoundTrip(n: nat)
    requires n < U64
    ensures ParseU64(Decimal(n)) == Some(n)
  {
    DecimalParses(n);
    hide Decimal, ParseDigits;
  }

  /** A leading plus sign makes no difference, and a number too large is none. */
  lemma DecimalsExactly(n: nat)
    ensures ParseU64(Decimal(n)) == if n < U64 then Some(n) else None
    ensures ParseU64("+" + Decimal(n)) == ParseU64(Decimal(n)) && ParseU64("") == None && ParseU64("+") == None
  {
    DecimalParses(n);
    hide Decimal, ParseDigits;
    assert ("+" + Decimal(n))[1..] == Decimal(n);
    assert "+"[1..] == "";
  }
}
