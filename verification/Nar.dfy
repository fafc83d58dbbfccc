/** Copying a NAR that has no length of its own (`crates/daemon-protocol/src/nar.rs`).

    `ParseNode` and `ParseEntries` are the grammar walk as a function from a position to a file tree
    and the position after it; `Copier` is the walk itself, advancing a reader and appending to a sink. */
module Nar {
  import opened Numerals
  import opened Wire

  datatype Node =
    | Regular(executable: bool, contents: seq<byte>)
    | Symlink(target: seq<byte>)
    | Directory(entries: Entries)

  datatype Entries = End | Entry(name: seq<byte>, node: Node, rest: Entries)

  const MAGIC := Ascii("nix-archive-1")
  const OPEN := Ascii("(")
  const CLOSE := Ascii(")")
  const TYPE := Ascii("type")
  const REGULAR := Ascii("regular")
  const SYMLINK := Ascii("symlink")
  const DIRECTORY := Ascii("directory")
  const EXECUTABLE := Ascii("executable")
  const EMPTY := Ascii("")
  const CONTENTS := Ascii("contents")
  const TARGET := Ascii("target")
  const ENTRY := Ascii("entry")
  const NAME := Ascii("name")
  const NODE := Ascii("node")

  lemma WordsDiffer()
    ensures REGULAR != SYMLINK && REGULAR != DIRECTORY && SYMLINK != DIRECTORY
    ensures EXECUTABLE != CONTENTS && CLOSE != ENTRY
  {
    assert REGULAR[0] == 114 && SYMLINK[0] == 115;
  }

  // ----- the serialisation -----

  function NodeLayout(n: Node): Layout
    decreases n, 0
  {
    HeadLayout(KindOf(n)) + match n {
      case Regular(x, c) => FileLayout(x, c)
      case Symlink(t) => LinkLayout(t)
      case Directory(es) => EntriesLayout(es)
    }
  }

  function KindOf(n: Node): seq<byte> {
    match n
    case Regular(_, _) => REGULAR
    case Symlink(_) => SYMLINK
    case Directory(_) => DIRECTORY
  }

  function HeadLayout(kind: seq<byte>): Layout {
    Str(OPEN) + (Str(TYPE) + Str(kind))
  }

  function FlagLayout(executable: bool): Layout {
    (if executable then Str(EXECUTABLE) + Str(EMPTY) else []) + Str(CONTENTS)
  }

  function FileLayout(executable: bool, contents: seq<byte>): Layout {
    FlagLayout(executable) + (Str(contents) + Str(CLOSE))
  }

  function LinkLayout(target: seq<byte>): Layout {
    Str(TARGET) + (Str(target) + Str(CLOSE))
  }

  function EntryHead(name: seq<byte>): Layout {
    Str(OPEN) + (Str(NAME) + (Str(name) + Str(NODE)))
  }

  function EntriesLayout(es: Entries): Layout
    decreases es
  {
    match es
    case End => Str(CLOSE)
    case Entry(name, node, rest) =>
      Str(ENTRY) + (EntryHead(name) + (NodeLayout(node) + (Str(CLOSE) + EntriesLayout(rest))))
  }

  function ArchiveLayout(n: Node): Layout {
    Str(MAGIC) + NodeLayout(n)
  }

  /** The archive a writer produces for a tree. */
  function Serialise(n: Node): seq<byte> {
    Fill(ArchiveLayout(n))
  }

  /** Every string length fits the length word. */
  predicate Sized(n: Node)
    decreases n
  {
    match n
    case Regular(_, c) => |c| < U64
    case Symlink(t) => |t| < U64
    case Directory(es) => SizedEntries(es)
  }

  predicate SizedEntries(es: Entries)
    decreases es
  {
    match es
    case End => true
    case Entry(name, node, rest) => |name| < U64 && Sized(node) && SizedEntries(rest)
  }

  // ----- the grammar walk -----

  /** The tag before a file's contents: `contents`, or `executable`, an empty string, then `contents`. */
  function ParseFlag(s: seq<byte>, at: nat): (r: Outcome<bool>)
    ensures r.Done? ==> at < r.next <= |s|
  {
    var (tag, a) :- ReadStr(s, at);
    if tag == EXECUTABLE then
      var (_, b) :- Expect(s, a, EMPTY);
      var (_, c) :- Expect(s, b, CONTENTS);
      Done(true, c)
    else if tag == CONTENTS then Done(false, a)
    else Failed(Unexpected(CONTENTS, tag))
  }

  function ParseRegular(s: seq<byte>, at: nat): (r: Outcome<Node>)
    ensures r.Done? ==> at < r.next <= |s| && r.value.Regular?
  {
    var (x, a) :- ParseFlag(s, at);
    var (c, b) :- ReadStr(s, a);
    var (_, next) :- Expect(s, b, CLOSE);
    Done(Regular(x, c), next)
  }

  function ParseSymlink(s: seq<byte>, at: nat): (r: Outcome<Node>)
    ensures r.Done? ==> at < r.next <= |s| && r.value.Symlink?
  {
    var (_, a) :- Expect(s, at, TARGET);
    var (t, b) :- ReadStr(s, a);
    var (_, next) :- Expect(s, b, CLOSE);
    Done(Symlink(t), next)
  }

  /** "(" "type" and the node's type. */
  function ParseHead(s: seq<byte>, at: nat): (r: Outcome<seq<byte>>)
    ensures r.Done? ==> at < r.next <= |s|
  {
    var (_, a) :- Expect(s, at, OPEN);
    var (_, b) :- Expect(s, a, TYPE);
    ReadStr(s, b)
  }

  /** "(" "name", the name and "node", after the "entry" tag. */
  function ParseEntryHead(s: seq<byte>, at: nat): (r: Outcome<seq<byte>>)
    ensures r.Done? ==> at < r.next <= |s|
  {
    var (_, a) :- Expect(s, at, OPEN);
    var (_, b) :- Expect(s, a, NAME);
    var (name, c) :- ReadStr(s, b);
    var (_, next) :- Expect(s, c, NODE);
    Done(name, next)
  }

  function ParseNode(s: seq<byte>, at: nat): (r: Outcome<Node>)
    ensures r.Done? ==> at < r.next <= |s|
    decreases |s| - at, 1
  {
    var (kind, a) :- ParseHead(s, at);
    if kind == REGULAR then ParseRegular(s, a)
    else if kind == SYMLINK then ParseSymlink(s, a)
    else if kind == DIRECTORY then
      var (es, next) :- ParseEntries(s, a);
      Done(Directory(es), next)
    else Failed(UnknownType(kind))
  }

  function ParseEntries(s: seq<byte>, at: nat): (r: Outcome<Entries>)
    ensures r.Done? ==> at < r.next <= |s|
    decreases |s| - at, 0
  {
    var (tag, a) :- ReadStr(s, at);
    if tag == CLOSE then Done(End, a)
    else if tag != ENTRY then Failed(Unexpected(ENTRY, tag))
    else
      var (name, b) :- ParseEntryHead(s, a);
      var (node, c) :- ParseNode(s, b);
      var (_, d) :- Expect(s, c, CLOSE);
      var (rest, next) :- ParseEntries(s, d);
      Done(Entry(name, node, rest), next)
  }

  function ParseArchive(s: seq<byte>, at: nat): Outcome<Node> {
    var (_, a) :- Expect(s, at, MAGIC);
    ParseNode(s, a)
  }

  // ----- the walk accepts exactly the serialisations -----

  lemma ParseFlagExact(s: seq<byte>, at: nat, x: bool, next: nat)
    ensures ParseFlag(s, at) == Done(x, next)
       <==> next == at + |FlagLayout(x)| && Matches(s, at, FlagLayout(x))
  {
    hide Wire.Str, Wire.Matches, Wire.ReadStr;
    WordsDiffer();
    ReadStrEnds(s, at);
    if x {
      var a := at + |Str(EXECUTABLE)|;
      var b := a + |Str(EMPTY)|;
      MatchesConcat(s, at, Str(EXECUTABLE) + Str(EMPTY), Str(CONTENTS));
      MatchesConcat(s, at, Str(EXECUTABLE), Str(EMPTY));
      ReadStrExact(s, at, EXECUTABLE, a);
      ExpectExact(s, a, EMPTY, b);
      ExpectsAre(s, a, EMPTY);
      ExpectExact(s, b, CONTENTS, next);
    } else {
      assert FlagLayout(x) == Str(CONTENTS);
      ReadStrExact(s, at, CONTENTS, next);
    }
  }

  /** A satisfied expectation ends where its word ends. */
  lemma ExpectsAre(s: seq<byte>, at: nat, word: seq<byte>)
    requires |word| < U64
    ensures Expect(s, at, word).Done? ==> Expect(s, at, word) == Done(word, at + |Str(word)|)
  {
    if Expect(s, at, word).Done? {
      ReadStrExact(s, at, word, Expect(s, at, word).next);
    }
  }

  lemma FlagEnds(s: seq<byte>, at: nat)
    ensures var r := ParseFlag(s, at); r.Done? ==> r.next == at + |FlagLayout(r.value)|
  {
    var r := ParseFlag(s, at);
    if r.Done? {
      ParseFlagExact(s, at, r.value, r.next);
    }
  }

  lemma ParseRegularExact(s: seq<byte>, at: nat, x: bool, c: seq<byte>, next: nat)
    ensures ParseRegular(s, at) == Done(Regular(x, c), next)
       <==> |c| < U64 && next == at + |FileLayout(x, c)| && Matches(s, at, FileLayout(x, c))
  {
    hide Wire.Str, Wire.Matches, Wire.ReadStr, Wire.Expect, ParseFlag, FlagLayout;
    var a := at + |FlagLayout(x)|;
    var b := a + |Str(c)|;
    MatchesConcat(s, at, FlagLayout(x), Str(c) + Str(CLOSE));
    MatchesConcat(s, a, Str(c), Str(CLOSE));
    ParseFlagExact(s, at, x, a);
    FlagEnds(s, at);
    ReadStrExact(s, a, c, b);
    ReadStrEnds(s, a);
    ExpectExact(s, b, CLOSE, next);
  }

  lemma ParseSymlinkExact(s: seq<byte>, at: nat, t: seq<byte>, next: nat)
    ensures ParseSymlink(s, at) == Done(Symlink(t), next)
       <==> |t| < U64 && next == at + |LinkLayout(t)| && Matches(s, at, LinkLayout(t))
  {
    hide Wire.Str, Wire.Matches, Wire.ReadStr, Wire.Expect;
    var a := at + |Str(TARGET)|;
    var b := a + |Str(t)|;
    MatchesConcat(s, at, Str(TARGET), Str(t) + Str(CLOSE));
    MatchesConcat(s, a, Str(t), Str(CLOSE));
    ExpectExact(s, at, TARGET, a);
    ExpectsAre(s, at, TARGET);
    ReadStrExact(s, a, t, b);
    ReadStrEnds(s, a);
    ExpectExact(s, b, CLOSE, next);
  }

  lemma ParseHeadExact(s: seq<byte>, at: nat, kind: seq<byte>, next: nat)
    requires |kind| < U64
    ensures ParseHead(s, at) == Done(kind, next)
       <==> next == at + |HeadLayout(kind)| && Matches(s, at, HeadLayout(kind))
  {
    hide Wire.Str, Wire.Matches, Wire.ReadStr, Wire.Expect;
    var a := at + |Str(OPEN)|;
    var b := a + |Str(TYPE)|;
    MatchesConcat(s, at, Str(OPEN), Str(TYPE) + Str(kind));
    MatchesConcat(s, a, Str(TYPE), Str(kind));
    ExpectExact(s, at, OPEN, a);
    ExpectsAre(s, at, OPEN);
    ExpectExact(s, a, TYPE, b);
    ExpectsAre(s, a, TYPE);
    ReadStrExact(s, b, kind, next);
  }

  lemma HeadEnds(s: seq<byte>, at: nat)
    ensures var r := ParseHead(s, at); r.Done? ==> |r.value| < U64 && r.next == at + |HeadLayout(r.value)|
  {
    hide Wire.Str, Wire.ReadStr, Wire.Expect;
    ExpectsAre(s, at, OPEN);
    ExpectsAre(s, at + |Str(OPEN)|, TYPE);
    ReadStrEnds(s, at + |Str(OPEN)| + |Str(TYPE)|);
  }

  lemma ParseEntryHeadExact(s: seq<byte>, at: nat, name: seq<byte>, next: nat)
    ensures ParseEntryHead(s, at) == Done(name, next)
       <==> |name| < U64 && next == at + |EntryHead(name)| && Matches(s, at, EntryHead(name))
  {
    hide Wire.Str, Wire.Matches, Wire.ReadStr, Wire.Expect;
    var a := at + |Str(OPEN)|;
    var b := a + |Str(NAME)|;
    var c := b + |Str(name)|;
    MatchesConcat(s, at, Str(OPEN), Str(NAME) + (Str(name) + Str(NODE)));
    MatchesConcat(s, a, Str(NAME), Str(name) + Str(NODE));
    MatchesConcat(s, b, Str(name), Str(NODE));
    ExpectExact(s, at, OPEN, a);
    ExpectsAre(s, at, OPEN);
    ExpectExact(s, a, NAME, b);
    ExpectsAre(s, a, NAME);
    ReadStrExact(s, b, name, c);
    ReadStrEnds(s, b);
    ExpectExact(s, c, NODE, next);
  }

  lemma EntryHeadEnds(s: seq<byte>, at: nat)
    ensures var r := ParseEntryHead(s, at); r.Done? ==> r.next == at + |EntryHead(r.value)|
  {
    var r := ParseEntryHead(s, at);
    if r.Done? {
      ParseEntryHeadExact(s, at, r.value, r.next);
    }
  }

  /** The walk at a position returns a tree exactly when the tree's serialisation, up to padding, is there. */
  lemma {:induction false} ParseNodeExact(s: seq<byte>, at: nat, n: Node, next: nat)
    ensures ParseNode(s, at) == Done(n, next)
       <==> Sized(n) && next == at + |NodeLayout(n)| && Matches(s, at, NodeLayout(n))
    decreases n, 1
  {
    hide Wire.Str, Wire.Matches, ParseHead, ParseRegular, ParseSymlink, HeadLayout, FileLayout, LinkLayout;
    WordsDiffer();
    var a := at + |HeadLayout(KindOf(n))|;
    ParseHeadExact(s, at, KindOf(n), a);
    HeadEnds(s, at);
    match n
    case Regular(x, c) =>
      MatchesConcat(s, at, HeadLayout(REGULAR), FileLayout(x, c));
      ParseRegularExact(s, a, x, c, next);
    case Symlink(t) =>
      MatchesConcat(s, at, HeadLayout(SYMLINK), LinkLayout(t));
      ParseSymlinkExact(s, a, t, next);
    case Directory(es) =>
      MatchesConcat(s, at, HeadLayout(DIRECTORY), EntriesLayout(es));
      ParseEntriesExact(s, a, es, next);
  }

  lemma {:induction false} ParseEntriesExact(s: seq<byte>, at: nat, es: Entries, next: nat)
    ensures ParseEntries(s, at) == Done(es, next)
       <==> SizedEntries(es) && next == at + |EntriesLayout(es)| && Matches(s, at, EntriesLayout(es))
    decreases es, 0
  {
    hide Wire.Str, Wire.Matches, Wire.ReadStr, Wire.Expect, ParseEntryHead, EntryHead, NodeLayout, ParseNode;
    WordsDiffer();
    ReadStrEnds(s, at);
    match es
    case End =>
      ReadStrExact(s, at, CLOSE, next);
    case Entry(name, node, rest) =>
      var a := at + |Str(ENTRY)|;
      var b := a + |EntryHead(name)|;
      var c := b + |NodeLayout(node)|;
      var d := c + |Str(CLOSE)|;
      var tail := Str(CLOSE) + EntriesLayout(rest);
      MatchesConcat(s, at, Str(ENTRY), EntryHead(name) + (NodeLayout(node) + tail));
      MatchesConcat(s, a, EntryHead(name), NodeLayout(node) + tail);
      MatchesConcat(s, b, NodeLayout(node), tail);
      MatchesConcat(s, c, Str(CLOSE), EntriesLayout(rest));
      ReadStrExact(s, at, ENTRY, a);
      ParseEntryHeadExact(s, a, name, b);
      EntryHeadEnds(s, a);
      ParseNodeExact(s, b, node, c);
      NodeEnds(s, b, node);
      ExpectExact(s, c, CLOSE, d);
      ExpectsAre(s, c, CLOSE);
      ParseEntriesExact(s, d, rest, next);
  }

  lemma NodeEnds(s: seq<byte>, at: nat, n: Node)
    ensures var r := ParseNode(s, at); r.Done? && r.value == n ==> r.next == at + |NodeLayout(n)|
    decreases n, 2
  {
    var r := ParseNode(s, at);
    if r.Done? && r.value == n {
      ParseNodeExact(s, at, n, r.next);
    }
  }

  /** The whole archive: accepted exactly when a tree's serialisation, up to padding, starts there. */
  lemma ParseArchiveExact(s: seq<byte>, at: nat, n: Node, next: nat)
    ensures ParseArchive(s, at) == Done(n, next)
       <==> Sized(n) && next == at + |ArchiveLayout(n)| && Matches(s, at, ArchiveLayout(n))
  {
    hide Wire.Str, Wire.Matches, ParseNode, NodeLayout;
    var a := at + |Str(MAGIC)|;
    MatchesConcat(s, at, Str(MAGIC), NodeLayout(n));
    ExpectExact(s, at, MAGIC, a);
    ExpectsAre(s, at, MAGIC);
    ParseNodeExact(s, a, n, next);
  }

  /** Every tree's archive is walked in full, whatever surrounds it in the stream. */
  lemma ArchiveIsAccepted(n: Node, before: seq<byte>, after: seq<byte>)
    requires Sized(n)
    ensures ParseArchive(before + Serialise(n) + after, |before|) == Done(n, |before| + |Serialise(n)|)
  {
    hide Wire.Matches, ArchiveLayout, ParseArchive, Wire.Fill;
    FilledMatches(ArchiveLayout(n), before, after);
    ParseArchiveExact(before + Serialise(n) + after, |before|, n, |before| + |Serialise(n)|);
  }

  /** Whatever is accepted is one tree's serialisation up to padding, zero-padded to the same length. */
  lemma AcceptedIsArchive(s: seq<byte>, at: nat)
    requires ParseArchive(s, at).Done?
    ensures var r := ParseArchive(s, at);
      && Sized(r.value)
      && r.next == at + |Serialise(r.value)| <= |s|
      && Matches(s, at, ArchiveLayout(r.value))
  {
    var r := ParseArchive(s, at);
    ParseArchiveExact(s, at, r.value, r.next);
  }

  /** Self-delimiting: no proper prefix of an accepted archive is accepted. */
  lemma NoPrefixAccepted(s: seq<byte>, at: nat, m: nat)
    requires ParseArchive(s, at).Done? && m < ParseArchive(s, at).next
    requires m <= |s|
    ensures ParseArchive(s[..m], at).Failed?
  {
    var p := ParseArchive(s[..m], at);
    if p.Done? {
      ParseArchiveExact(s[..m], at, p.value, p.next);
      MatchesExtends(s, m, at, ArchiveLayout(p.value));
      ParseArchiveExact(s, at, p.value, p.next);
    }
  }

  /** Two trees never share an archive: the serialisation is injective. */
  lemma SerialiseInjective(m: Node, n: Node)
    requires Sized(m) && Sized(n) && Serialise(m) == Serialise(n)
    ensures m == n
  {
    assert [] + Serialise(m) + [] == [] + Serialise(n) + [];
    ArchiveIsAccepted(m, [], []);
    ArchiveIsAccepted(n, [], []);
  }

  /** The words of the format, byte by byte. */
  lemma FrameWordsAre()
    ensures MAGIC == [110, 105, 120, 45, 97, 114, 99, 104, 105, 118, 101, 45, 49] && OPEN == [40] && CLOSE == [41] && EMPTY == []
    ensures TYPE == [116, 121, 112, 101] && NAME == [110, 97, 109, 101] && NODE == [110, 111, 100, 101]
  {
  }

  lemma KindWordsAre()
    ensures REGULAR == [114, 101, 103, 117, 108, 97, 114] && SYMLINK == [115, 121, 109, 108, 105, 110, 107]
    ensures DIRECTORY == [100, 105, 114, 101, 99, 116, 111, 114, 121]
  {
  }

  lemma FieldWordsAre()
    ensures EXECUTABLE == [101, 120, 101, 99, 117, 116, 97, 98, 108, 101] && ENTRY == [101, 110, 116, 114, 121]
    ensures CONTENTS == [99, 111, 110, 116, 101, 110, 116, 115] && TARGET == [116, 97, 114, 103, 101, 116]
  {
  }

  /** A node of another type is reported by that type. */
  lemma UnknownTypeIsReported(s: seq<byte>, at: nat)
    requires ParseHead(s, at).Done?
    requires ParseHead(s, at).value != REGULAR && ParseHead(s, at).value != SYMLINK && ParseHead(s, at).value != DIRECTORY
    ensures ParseNode(s, at) == Failed(UnknownType(ParseHead(s, at).value))
  {
  }
}
