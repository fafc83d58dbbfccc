/** The worker-protocol wire format: little-endian 64-bit words, and strings carrying a length word
    and padded to a multiple of eight.

    A layout is a byte string in which some cells are padding: a writer puts zero there and a reader
    takes anything. `Matches` says that a layout sits in a stream at a position, and every reader
    below succeeds exactly when the layout of what it returns does. */
module Wire {
  import opened Numerals

  datatype WireError =
    | Io
    | Unexpected(expected: seq<byte>, got: seq<byte>)
    | UnknownType(kind: seq<byte>)
    | UnknownTag(tag: nat)
    | Remote(level: nat, message: seq<byte>)

  /** What a reader at some position gives: a value and the position after it, or an error. */
  datatype Outcome<+T> = Done(value: T, next: nat) | Failed(error: WireError) {
    predicate IsFailure() { Failed? }
    function PropagateFailure<U>(): Outcome<U>
      requires Failed?
    {
      Failed(error)
    }
    function Extract(): (T, nat)
      requires Done?
    {
      (value, next)
    }
  }

  function Ascii(s: string): (bs: seq<byte>)
    ensures |bs| == |s|
  {
    seq(|s|, i requires 0 <= i < |s| => s[i] as int % 256)
  }

  // ----- words -----

  lemma Pow64()
    ensures Pow2(64) == U64
  {
    Pow2Small();
    Pow2Add(8, 8);
    Pow2Add(16, 16);
    Pow2Add(32, 32);
  }

  /** `to_le_bytes`. */
  function Word(v: nat): (bs: seq<byte>)
    ensures |bs| == 8
  {
    Pow2Small();
    ExpandFits(8, v, 8);
    Expand(8, v, 8)
  }

  /** `from_le_bytes`. */
  function WordValue(bs: seq<byte>): nat {
    Value(8, bs)
  }

  lemma WordRoundTrip(v: nat)
    requires v < U64
    ensures WordValue(Word(v)) == v
  {
    Pow64();
    ValueOfExpand(8, v, 8);
  }

  lemma WordOfBytes(bs: seq<byte>)
    requires |bs| == 8
    ensures WordValue(bs) < U64 && Word(WordValue(bs)) == bs
  {
    Pow64();
    Pow2Small();
    ValueBound(8, bs);
    ExpandOfValue(8, bs);
  }

  // ----- layouts -----

  datatype Cell = Fixed(b: byte) | Pad

  type Layout = seq<Cell>

  function Exactly(bs: seq<byte>): (l: Layout)
    ensures |l| == |bs|
  {
    seq(|bs|, i requires 0 <= i < |bs| => Fixed(bs[i]))
  }

  function Pads(n: nat): (l: Layout)
    ensures |l| == n
  {
    seq(n, _ => Pad)
  }

  /** The bytes a writer produces for a layout: padding is zero. */
  function Fill(l: Layout): (bs: seq<byte>)
    ensures |bs| == |l|
  {
    seq(|l|, i requires 0 <= i < |l| => if l[i].Fixed? then l[i].b else 0)
  }

  lemma FillConcat(x: Layout, y: Layout)
    ensures Fill(x + y) == Fill(x) + Fill(y)
  {
  }

  lemma FillExactly(bs: seq<byte>)
    ensures Fill(Exactly(bs)) == bs
  {
  }

  predicate Matches(s: seq<byte>, at: nat, l: Layout) {
    && at + |l| <= |s|
    && forall i :: 0 <= i < |l| && l[i].Fixed? ==> s[at + i] == l[i].b
  }

  lemma MatchesConcat(s: seq<byte>, at: nat, x: Layout, y: Layout)
    ensures Matches(s, at, x + y) <==> Matches(s, at, x) && Matches(s, at + |x|, y)
  {
    var l := x + y;
    if Matches(s, at, x) && Matches(s, at + |x|, y) {
      forall i | 0 <= i < |l| && l[i].Fixed?
        ensures s[at + i] == l[i].b
      {
        if i >= |x| {
          assert l[i] == y[i - |x|];
          assert s[at + |x| + (i - |x|)] == y[i - |x|].b;
        }
      }
    }
    if Matches(s, at, l) {
      forall i | 0 <= i < |x| && x[i].Fixed?
        ensures s[at + i] == x[i].b
      {
        assert l[i] == x[i];
      }
      forall i | 0 <= i < |y| && y[i].Fixed?
        ensures s[at + |x| + i] == y[i].b
      {
        assert l[|x| + i] == y[i];
      }
    }
  }

  lemma MatchesExactly(s: seq<byte>, at: nat, bs: seq<byte>)
    ensures Matches(s, at, Exactly(bs)) <==> at + |bs| <= |s| && s[at..at + |bs|] == bs
  {
    if Matches(s, at, Exactly(bs)) {
      forall i | 0 <= i < |bs|
        ensures s[at..at + |bs|][i] == bs[i]
      {
        assert Exactly(bs)[i] == Fixed(bs[i]);
      }
    }
  }

  /** A stream that holds the zero-padded form holds the layout. */
  lemma FilledMatches(l: Layout, before: seq<byte>, after: seq<byte>)
    ensures Matches(before + Fill(l) + after, |before|, l)
  {
  }

  /** A match inside a prefix of a stream is a match in the stream. */
  lemma MatchesExtends(s: seq<byte>, m: nat, at: nat, l: Layout)
    requires m <= |s| && Matches(s[..m], at, l)
    ensures Matches(s, at, l)
  {
  }

  // ----- words and strings -----

  /** Bytes needed to round `n` up to a multiple of eight. */
  function Padding(n: nat): nat {
    (8 - n % 8) % 8
  }

  function WordLayout(v: nat): Layout {
    Exactly(Word(v))
  }

  function Padded(bs: seq<byte>): Layout {
    Exactly(bs) + Pads(Padding(|bs|))
  }

  function Str(bs: seq<byte>): Layout {
    WordLayout(|bs|) + Padded(bs)
  }

  /** `read_wire_u64`. */
  function ReadWord(s: seq<byte>, at: nat): Outcome<nat> {
    if at + 8 <= |s| then Done(WordValue(s[at..at + 8]), at + 8) else Failed(Io)
  }

  /** `len` raw bytes and their padding, as `copy_padded` reads them. */
  function ReadPadded(s: seq<byte>, at: nat, len: nat): Outcome<seq<byte>> {
    if at + len + Padding(len) <= |s| then Done(s[at..at + len], at + len + Padding(len)) else Failed(Io)
  }

  /** `read_wire_bytes`. */
  function ReadStr(s: seq<byte>, at: nat): (r: Outcome<seq<byte>>)
    ensures r.Done? ==> at + 8 <= r.next <= |s|
  {
    var (len, a) :- ReadWord(s, at);
    ReadPadded(s, a, len)
  }

  lemma ReadWordExact(s: seq<byte>, at: nat, v: nat, next: nat)
    ensures ReadWord(s, at) == Done(v, next)
       <==> v < U64 && next == at + 8 && Matches(s, at, WordLayout(v))
  {
    MatchesExactly(s, at, Word(v));
    if at + 8 <= |s| {
      WordOfBytes(s[at..at + 8]);
    }
    if v < U64 {
      WordRoundTrip(v);
    }
  }

  lemma ReadPaddedExact(s: seq<byte>, at: nat, len: nat, bs: seq<byte>, next: nat)
    ensures ReadPadded(s, at, len) == Done(bs, next)
       <==> |bs| == len && next == at + |Padded(bs)| && Matches(s, at, Padded(bs))
  {
    MatchesExactly(s, at, bs);
    MatchesConcat(s, at, Exactly(bs), Pads(Padding(|bs|)));
  }

  /** Reading a string succeeds exactly when the string's layout is there. */
  lemma ReadStrExact(s: seq<byte>, at: nat, bs: seq<byte>, next: nat)
    ensures ReadStr(s, at) == Done(bs, next)
       <==> |bs| < U64 && next == at + |Str(bs)| && Matches(s, at, Str(bs))
  {
    MatchesConcat(s, at, WordLayout(|bs|), Padded(bs));
    ReadWordExact(s, at, |bs|, at + 8);
    ReadPaddedExact(s, at + 8, |bs|, bs, next);
    var w := ReadWord(s, at);
    if w.Done? {
      ReadWordExact(s, at, w.value, at + 8);
      ReadPaddedExact(s, at + 8, w.value, bs, next);
    }
  }

  lemma ReadStrEnds(s: seq<byte>, at: nat)
    ensures var r := ReadStr(s, at); r.Done? ==> |r.value| < U64 && r.next == at + |Str(r.value)|
  {
    var r := ReadStr(s, at);
    if r.Done? {
      ReadStrExact(s, at, r.value, r.next);
    }
  }

  /** `expect` after a string read. */
  function Expect(s: seq<byte>, at: nat, word: seq<byte>): (r: Outcome<seq<byte>>)
    ensures r.Done? ==> at + 8 <= r.next <= |s|
  {
    var (got, a) :- ReadStr(s, at);
    if got == word then Done(got, a) else Failed(Unexpected(word, got))
  }

  lemma ExpectExact(s: seq<byte>, at: nat, word: seq<byte>, next: nat)
    requires |word| < U64
    ensures Expect(s, at, word) == Done(word, next) <==> next == at + |Str(word)| && Matches(s, at, Str(word))
    ensures Expect(s, at, word).Done? ==> Expect(s, at, word).value == word
  {
    ReadStrExact(s, at, word, next);
  }

  /** Padding is less than a word and rounds up to whole words. */
  lemma PaddingRoundsUp(n: nat)
    ensures Padding(n) < 8 && (n + Padding(n)) % 8 == 0
  {
  }

  /** A string other than the one expected is reported beside it. */
  lemma ExpectReports(s: seq<byte>, at: nat, word: seq<byte>)
    ensures ReadStr(s, at).Done? && ReadStr(s, at).value != word ==> Expect(s, at, word) == Failed(Unexpected(word, ReadStr(s, at).value))
    ensures ReadStr(s, at).Failed? ==> Expect(s, at, word) == Failed(Io)
  {
  }

  /** The least significant byte comes first. */
  lemma SmallWord(v: nat)
    requires v < 256
    ensures |Word(v)| == 8 && Word(v)[0] == v && forall i :: 1 <= i < 8 ==> Word(v)[i] == 0
  {
    var w := [v, 0, 0, 0, 0, 0, 0, 0];
    assert forall i :: 0 <= i < 7 ==> w[1..][i] == 0;
    ValueOfZeros(8, w[1..]);
    Pow2Small();
    assert WordValue(w) == v;
    WordOfBytes(w);
  }
}
