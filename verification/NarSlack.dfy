/** What `regular_file_contents` of `crates/server/src/store_path.rs` does not look at in an archive. */
module NarSlack {
  import opened Numerals
  import opened Wire
  import opened Nar
  import opened NarCopy

  /** The tokens `ts` stand one after another from `at`. */
  predicate Reads(nar: seq<byte>, at: nat, ts: seq<seq<byte>>)
    decreases |ts|
  {
    ts == [] || (TokenAt(nar, at).Some? && TokenAt(nar, at).value.0 == ts[0] && Reads(nar, TokenAt(nar, at).value.1, ts[1..]))
  }

  function From(nar: seq<byte>, at: nat): seq<byte> {
    if at <= |nar| then nar[at..] else []
  }

  /** The padding after the token at `at`, as far as the archive goes. */
  function PadAfter(nar: seq<byte>, at: nat): seq<byte>
    requires TokenAt(nar, at).Some?
  {
    var end, next := at + 8 + |TokenAt(nar, at).value.0|, TokenAt(nar, at).value.1;
    if next <= |nar| then nar[end..next] else nar[end..]
  }

  /** The padding after each of the tokens, and all that follows the last. */
  function Slack(nar: seq<byte>, at: nat, ts: seq<seq<byte>>): seq<seq<byte>>
    requires Reads(nar, at, ts)
    decreases |ts|
  {
    if ts == [] then [From(nar, at)] else [PadAfter(nar, at)] + Slack(nar, TokenAt(nar, at).value.1, ts[1..])
  }

  function TokenEnd(nar: seq<byte>, at: nat): nat
    requires TokenAt(nar, at).Some?
  {
    at + 8 + |TokenAt(nar, at).value.0|
  }

  lemma TokenHead(nar: seq<byte>, at: nat)
    requires TokenAt(nar, at).Some?
    ensures at <= TokenEnd(nar, at) <= |nar|
    ensures TokenAt(nar, at).value.1 == TokenEnd(nar, at) + Padding(|TokenAt(nar, at).value.0|)
    ensures nar[at..] == Word(|TokenAt(nar, at).value.0|) + TokenAt(nar, at).value.0 + nar[TokenEnd(nar, at)..]
  {
    WordOfBytes(nar[at..at + 8]);
    hide Wire.WordValue, Wire.Word, Wire.Padding;
    CutThree(nar, at, at + 8, TokenEnd(nar, at));
  }

  lemma TokenPad(nar: seq<byte>, at: nat)
    requires TokenAt(nar, at).Some?
    ensures nar[TokenEnd(nar, at)..] == PadAfter(nar, at) + From(nar, TokenAt(nar, at).value.1)
    ensures |PadAfter(nar, at)| <= Padding(|TokenAt(nar, at).value.0|)
    ensures |PadAfter(nar, at)| < Padding(|TokenAt(nar, at).value.0|) ==> From(nar, TokenAt(nar, at).value.1) == []
  {
    TokenHead(nar, at);
    hide TokenAt, Wire.Word, Wire.Padding;
    var end, next := TokenEnd(nar, at), TokenAt(nar, at).value.1;
    if next <= |nar| {
      assert nar[end..] == nar[end..next] + nar[next..];
    }
  }

  /** A token, its padding and the rest. */
  lemma TokenSplits(nar: seq<byte>, at: nat)
    requires TokenAt(nar, at).Some?
    ensures From(nar, at) == Word(|TokenAt(nar, at).value.0|) + TokenAt(nar, at).value.0
                             + (PadAfter(nar, at) + From(nar, TokenAt(nar, at).value.1))
  {
    TokenHead(nar, at);
    TokenPad(nar, at);
    hide TokenAt, PadAfter, Wire.Word;
  }

  lemma CutThree(s: seq<byte>, a: nat, b: nat, c: nat)
    requires a <= b <= c <= |s|
    ensures s[a..] == s[a..b] + s[b..c] + s[c..]
  {
  }

  /** One token read at one place in both: the same bytes from there exactly with the same padding and the same rest. */
  lemma StepEqual(a: seq<byte>, b: seq<byte>, at: nat)
    requires TokenAt(a, at).Some? && TokenAt(b, at).Some? && TokenAt(a, at).value.0 == TokenAt(b, at).value.0
    ensures TokenAt(a, at).value.1 == TokenAt(b, at).value.1
    ensures From(a, at) == From(b, at)
       <==> PadAfter(a, at) == PadAfter(b, at) && From(a, TokenAt(a, at).value.1) == From(b, TokenAt(a, at).value.1)
  {
    hide TokenAt, From, PadAfter, Wire.Word, Wire.Padding;
    TokenSplits(a, at);
    TokenSplits(b, at);
    TokenHead(a, at);
    TokenHead(b, at);
    TokenPad(a, at);
    TokenPad(b, at);
    var t, next := TokenAt(a, at).value.0, TokenAt(a, at).value.1;
    SplitEqual(Word(|t|) + t, PadAfter(a, at), From(a, next), PadAfter(b, at), From(b, next), Padding(|t|));
  }

  /** The same tokens from one place on: the same bytes exactly with the same slack. */
  lemma {:induction false} SameBytesExactly(a: seq<byte>, b: seq<byte>, at: nat, ts: seq<seq<byte>>)
    requires Reads(a, at, ts) && Reads(b, at, ts)
    ensures From(a, at) == From(b, at) <==> Slack(a, at, ts) == Slack(b, at, ts)
    decreases |ts|
  {
    hide TokenAt, From, PadAfter;
    if ts == [] {
      assert [From(a, at)][0] == From(a, at) && [From(b, at)][0] == From(b, at);
    } else {
      StepEqual(a, b, at);
      var next := TokenAt(a, at).value.1;
      SameBytesExactly(a, b, next, ts[1..]);
      ConsEqual(PadAfter(a, at), Slack(a, next, ts[1..]), PadAfter(b, at), Slack(b, next, ts[1..]));
    }
  }

  lemma ConsEqual(p: seq<byte>, x: seq<seq<byte>>, q: seq<byte>, y: seq<seq<byte>>)
    ensures [p] + x == [q] + y <==> p == q && x == y
  {
    if [p] + x == [q] + y {
      assert p == ([p] + x)[0] && q == ([q] + y)[0] && x == ([p] + x)[1..] && y == ([q] + y)[1..];
    }
  }

  lemma SplitEqual(h: seq<byte>, p: seq<byte>, x: seq<byte>, q: seq<byte>, y: seq<byte>, n: nat)
    requires |p| <= n && |q| <= n && (|p| < n ==> x == []) && (|q| < n ==> y == [])
    ensures h + (p + x) == h + (q + y) <==> p == q && x == y
  {
    if h + (p + x) == h + (q + y) {
      assert p + x == (h + (p + x))[|h|..] && q + y == (h + (q + y))[|h|..];
      assert |p| == |q|;
      assert p == (p + x)[..|p|] && q == (q + y)[..|q|] && x == (p + x)[|p|..] && y == (q + y)[|q|..];
    }
  }

  /** What stands after "executable", if that is there. */
  function FlagOf(nar: seq<byte>): Option<seq<byte>> {
    var a := SkipHead(nar);
    if a.None? then None else
    var field := TokenAt(nar, a.value);
    if field.None? || field.value.0 != EXECUTABLE then None else
    var x := TokenAt(nar, field.value.1);
    if x.None? then None else Some(x.value.0)
  }

  function FileTokens(flag: Option<seq<byte>>, contents: seq<byte>): seq<seq<byte>> {
    [MAGIC] + ([OPEN] + ([TYPE] + ([REGULAR] + FlagTokens(flag, [CONTENTS] + ([contents] + [CLOSE])))))
  }

  function FlagTokens(flag: Option<seq<byte>>, rest: seq<seq<byte>>): seq<seq<byte>> {
    if flag.Some? then [EXECUTABLE] + ([flag.value] + rest) else rest
  }

  lemma ReadsCons(nar: seq<byte>, at: nat, t: seq<byte>, rest: seq<seq<byte>>)
    requires TokenAt(nar, at).Some? && TokenAt(nar, at).value.0 == t && Reads(nar, TokenAt(nar, at).value.1, rest)
    ensures Reads(nar, at, [t] + rest)
  {
    assert ([t] + rest)[1..] == rest;
  }

  lemma ContentsTokens(nar: seq<byte>)
    requires FileContents(nar).Some?
    ensures Reads(nar, 0, FileTokens(FlagOf(nar), FileContents(nar).value))
  {
    hide TokenAt, Reads;
    WordsDiffer();
    var a := Skip(nar, 0, MAGIC).value;
    var b := Skip(nar, a, OPEN).value;
    var c := Skip(nar, b, TYPE).value;
    var d := Skip(nar, c, REGULAR).value;
    var e := SkipFlag(nar, d).value;
    var f := TokenAt(nar, e).value.1;
    var tail := [CONTENTS] + ([FileContents(nar).value] + [CLOSE]);
    assert Reads(nar, TokenAt(nar, f).value.1, []) by { NothingToRead(nar, TokenAt(nar, f).value.1); }
    ReadsCons(nar, f, CLOSE, []);
    assert [CLOSE] + [] == [CLOSE];
    ReadsCons(nar, e, FileContents(nar).value, [CLOSE]);
    if TokenAt(nar, d).value.0 == EXECUTABLE {
      var x := TokenAt(nar, d).value.1;
      var y := TokenAt(nar, x).value.1;
      ReadsCons(nar, y, CONTENTS, [FileContents(nar).value] + [CLOSE]);
      ReadsCons(nar, x, TokenAt(nar, x).value.0, tail);
      ReadsCons(nar, d, EXECUTABLE, [TokenAt(nar, x).value.0] + tail);
    } else {
      ReadsCons(nar, d, CONTENTS, [FileContents(nar).value] + [CLOSE]);
    }
    var rest := FlagTokens(FlagOf(nar), tail);
    ReadsCons(nar, c, REGULAR, rest);
    ReadsCons(nar, b, TYPE, [REGULAR] + rest);
    ReadsCons(nar, a, OPEN, [TYPE] + ([REGULAR] + rest));
    ReadsCons(nar, 0, MAGIC, [OPEN] + ([TYPE] + ([REGULAR] + rest)));
  }

  /** A token stands wherever its length and its bytes do, whatever follows, padding or not. */
  lemma TokenStands(before: seq<byte>, t: seq<byte>, after: seq<byte>)
    requires |t| < U64
    ensures TokenAt(before + Word(|t|) + t + after, |before|) == Some((t, |before| + 8 + |t| + Padding(|t|)))
  {
    WordRoundTrip(|t|);
    hide Wire.Word, Wire.WordValue, Wire.Padding;
    var nar, at := before + Word(|t|) + t + after, |before|;
    assert nar[at..at + 8] == Word(|t|);
    assert nar[at + 8..at + 8 + |t|] == t;
  }

  lemma ReadsHead(nar: seq<byte>, at: nat, t: seq<byte>, rest: seq<seq<byte>>)
    requires Reads(nar, at, [t] + rest)
    ensures Skip(nar, at, t).Some? && TokenAt(nar, at).Some? && TokenAt(nar, at).value == (t, Skip(nar, at, t).value)
    ensures Reads(nar, Skip(nar, at, t).value, rest)
  {
    assert ([t] + rest)[0] == t && ([t] + rest)[1..] == rest;
  }

  /** The reader accepts exactly the archives whose tokens are those of a file, with any string after the flag, whatever
      their padding and whatever trails. */
  lemma TokensAreContents(nar: seq<byte>, flag: Option<seq<byte>>, contents: seq<byte>)
    requires Reads(nar, 0, FileTokens(flag, contents))
    ensures FileContents(nar) == Some(contents) && FlagOf(nar) == flag
  {
    hide TokenAt, Reads;
    WordsDiffer();
    var tail := [CONTENTS] + ([contents] + [CLOSE]);
    var rest := FlagTokens(flag, tail);
    ReadsHead(nar, 0, MAGIC, [OPEN] + ([TYPE] + ([REGULAR] + rest)));
    var a := Skip(nar, 0, MAGIC).value;
    ReadsHead(nar, a, OPEN, [TYPE] + ([REGULAR] + rest));
    var b := Skip(nar, a, OPEN).value;
    ReadsHead(nar, b, TYPE, [REGULAR] + rest);
    var c := Skip(nar, b, TYPE).value;
    ReadsHead(nar, c, REGULAR, rest);
    var d := Skip(nar, c, REGULAR).value;
    if flag.Some? {
      ReadsHead(nar, d, EXECUTABLE, [flag.value] + tail);
      d := Skip(nar, d, EXECUTABLE).value;
      ReadsHead(nar, d, flag.value, tail);
      d := Skip(nar, d, flag.value).value;
    }
    ReadsHead(nar, d, CONTENTS, [contents] + [CLOSE]);
    var e := Skip(nar, d, CONTENTS).value;
    ReadsHead(nar, e, contents, [CLOSE]);
    assert [CLOSE] == [CLOSE] + [];
    ReadsHead(nar, Skip(nar, e, contents).value, CLOSE, []);
  }

  lemma NothingToRead(nar: seq<byte>, at: nat)
    ensures Reads(nar, at, [])
  {
  }

  ghost predicate SameSlack(a: seq<byte>, b: seq<byte>)
    requires FileContents(a).Some? && FileContents(a) == FileContents(b) && FlagOf(a) == FlagOf(b)
  {
    ContentsTokens(a);
    ContentsTokens(b);
    var ts := FileTokens(FlagOf(a), FileContents(a).value);
    Slack(a, 0, ts) == Slack(b, 0, ts)
  }

  /** Two archives with the same file contents are the same bytes exactly when both or neither have the executable flag,
      with the same string after it, and their padding and trailing bytes agree: the contents reader looks at none of
      these. */
  lemma ArchivesAgreeExactly(a: seq<byte>, b: seq<byte>)
    requires FileContents(a).Some? && FileContents(a) == FileContents(b)
    ensures a == b <==> FlagOf(a) == FlagOf(b) && SameSlack(a, b)
  {
    hide FileContents, FlagOf, Reads, Slack, FileTokens;
    if FlagOf(a) == FlagOf(b) {
      ContentsTokens(a);
      ContentsTokens(b);
      SameBytesExactly(a, b, 0, FileTokens(FlagOf(a), FileContents(a).value));
      assert From(a, 0) == a && From(b, 0) == b;
    }
  }
}
