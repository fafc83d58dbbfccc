/** The copying walk over a live stream: `copy_nar` and its helpers, which advance a reader and append
    to a sink as they go, and `regular_file_contents`, the second reader of the same format. */
module NarCopy {
  import opened Numerals
  import opened Wire
  import opened Nar

  /** An outcome without its value. */
  function Bare<T>(r: Outcome<T>): Outcome<()> {
    match r
    case Done(_, next) => Done((), next)
    case Failed(e) => Failed(e)
  }

  function Zeros(n: nat): (bs: seq<byte>)
    ensures |bs| == n
  {
    seq(n, _ => 0)
  }

  lemma FillPadded(bs: seq<byte>)
    ensures Fill(Padded(bs)) == bs + Zeros(Padding(|bs|))
  {
  }

  lemma FillStr(bs: seq<byte>)
    ensures Fill(Str(bs)) == Word(|bs|) + Fill(Padded(bs))
  {
    FillConcat(WordLayout(|bs|), Padded(bs));
    FillExactly(Word(|bs|));
  }

  const CHUNK: nat := 65536

  class Copier {
    const input: seq<byte>
    var pos: nat
    var sink: seq<byte>

    ghost predicate Valid()
      reads this
    {
      pos <= |input|
    }

    constructor (input: seq<byte>)
      ensures Valid() && this.input == input && pos == 0 && sink == []
    {
      this.input := input;
      pos, sink := 0, [];
    }

    method CopyU64() returns (r: Outcome<nat>)
      requires Valid()
      modifies this
      ensures Valid() && r == ReadWord(input, old(pos))
      ensures r.Done? ==> pos == r.next && sink == old(sink) + Word(r.value)
      ensures r.Failed? ==> sink == old(sink)
    {
      if pos + 8 > |input| {
        return Failed(Io);
      }
      var v := WordValue(input[pos..pos + 8]);
      pos := pos + 8;
      sink := sink + Word(v);
      r := Done(v, pos);
    }

    method CopyStr() returns (r: Outcome<seq<byte>>)
      requires Valid()
      modifies this
      ensures Valid() && r == ReadStr(input, old(pos))
      ensures r.Done? ==> pos == r.next && sink == old(sink) + Fill(Str(r.value))
      ensures r.Failed? ==> sink == old(sink)
    {
      var at := pos;
      if at + 8 > |input| {
        return Failed(Io);
      }
      var len := WordValue(input[at..at + 8]);
      if at + 8 + len + Padding(len) > |input| {
        return Failed(Io);
      }
      var bytes := input[at + 8..at + 8 + len];
      pos := at + 8 + len + Padding(len);
      FillStr(bytes);
      FillPadded(bytes);
      sink := sink + (Word(|bytes|) + (bytes + Zeros(Padding(|bytes|))));
      r := Done(bytes, pos);
    }

    /** Mirror `len` raw bytes in chunks, then skip the padding and write zeros for it. */
    method CopyPadded(len: nat) returns (r: Outcome<seq<byte>>)
      requires Valid()
      modifies this
      ensures Valid() && r == ReadPadded(input, old(pos), len)
      ensures r.Done? ==> pos == r.next && sink == old(sink) + Fill(Padded(r.value))
      ensures r.Failed? ==> old(sink) <= sink
    {
      var start := pos;
      var remaining := len;
      while remaining > 0
        invariant 0 <= remaining <= len
        invariant pos == start + (len - remaining) <= |input|
        invariant sink == old(sink) + input[start..pos]
      {
        var chunk := if remaining < CHUNK then remaining else CHUNK;
        if pos + chunk > |input| {
          return Failed(Io);
        }
        sink := sink + input[pos..pos + chunk];
        assert input[start..pos] + input[pos..pos + chunk] == input[start..pos + chunk];
        pos := pos + chunk;
        remaining := remaining - chunk;
      }
      var padding := Padding(len);
      if pos + padding > |input| {
        return Failed(Io);
      }
      sink := sink + Zeros(padding);
      pos := pos + padding;
      FillPadded(input[start..start + len]);
      r := Done(input[start..start + len], pos);
    }

    /** `expect(&copy_str(..)?, word)?`. */
    method CopyExpected(word: seq<byte>) returns (r: Outcome<seq<byte>>)
      requires Valid()
      modifies this
      ensures Valid() && r == Expect(input, old(pos), word)
      ensures r.Done? ==> r.value == word && pos == r.next && sink == old(sink) + Fill(Str(word))
      ensures r.Failed? ==> old(sink) <= sink
    {
      r := CopyStr();
      if r.Done? && r.value != word {
        r := Failed(Unexpected(word, r.value));
      }
    }

    method CopyRegular() returns (r: Outcome<()>)
      requires Valid()
      modifies this
      ensures Valid() && r == Bare(ParseRegular(input, old(pos)))
      ensures r.Done? ==> pos == r.next
      ensures r.Done? ==> var n := ParseRegular(input, old(pos)).value;
                sink == old(sink) + Fill(FileLayout(n.executable, n.contents))
      ensures r.Failed? ==> old(sink) <= sink
    {
      hide Wire.Str, Wire.Fill, Wire.ReadPadded, Wire.Padded, Wire.Expect, FlagLayout, ParseFlag;
      ghost var base := sink;
      var f := CopyFlag();
      if f.Failed? {
        return Failed(f.error);
      }
      ghost var mid := sink;
      var size := CopyU64();
      if size.Failed? {
        return Failed(size.error);
      }
      var c := CopyPadded(size.value);
      if c.Failed? {
        return Failed(c.error);
      }
      assert sink == mid + Fill(Str(c.value)) by { ContentsLength(size.value, c.value, size.next); FillStr(c.value); }
      var e := CopyExpected(CLOSE);
      FillConcat(Str(c.value), Str(CLOSE));
      FillConcat(FlagLayout(f.value), Str(c.value) + Str(CLOSE));
      r := Bare(e);
    }

    lemma ContentsLength(len: nat, c: seq<byte>, at: nat)
      requires ReadPadded(input, at, len).Done? && ReadPadded(input, at, len).value == c
      ensures |c| == len
    {
    }

    method CopyFlag() returns (r: Outcome<bool>)
      requires Valid()
      modifies this
      ensures Valid() && r == ParseFlag(input, old(pos))
      ensures r.Done? ==> pos == r.next && sink == old(sink) + Fill(FlagLayout(r.value))
      ensures r.Failed? ==> old(sink) <= sink
    {
      hide Wire.Str, Wire.Fill, Wire.ReadStr;
      var tag := CopyStr();
      if tag.Failed? {
        return Failed(tag.error);
      }
      if tag.value == EXECUTABLE {
        var e := CopyExpected(EMPTY);
        if e.Failed? {
          return Failed(e.error);
        }
        var t := CopyExpected(CONTENTS);
        FillConcat(Str(EXECUTABLE), Str(EMPTY));
        FillConcat(Str(EXECUTABLE) + Str(EMPTY), Str(CONTENTS));
        return if t.Done? then Done(true, t.next) else Failed(t.error);
      }
      if tag.value != CONTENTS {
        return Failed(Unexpected(CONTENTS, tag.value));
      }
      assert FlagLayout(false) == Str(CONTENTS);
      r := Done(false, pos);
    }

    method CopySymlink() returns (r: Outcome<()>)
      requires Valid()
      modifies this
      ensures Valid() && r == Bare(ParseSymlink(input, old(pos)))
      ensures r.Done? ==> pos == r.next
      ensures r.Done? ==> sink == old(sink) + Fill(LinkLayout(ParseSymlink(input, old(pos)).value.target))
      ensures r.Failed? ==> old(sink) <= sink
    {
      hide Wire.Str, Wire.Fill, Wire.ReadStr;
      var a := CopyExpected(TARGET);
      if a.Failed? {
        return Failed(a.error);
      }
      var t := CopyStr();
      if t.Failed? {
        return Failed(t.error);
      }
      var e := CopyExpected(CLOSE);
      FillConcat(Str(t.value), Str(CLOSE));
      FillConcat(Str(TARGET), Str(t.value) + Str(CLOSE));
      r := Bare(e);
    }

    method CopyHead() returns (r: Outcome<seq<byte>>)
      requires Valid()
      modifies this
      ensures Valid() && r == ParseHead(input, old(pos))
      ensures r.Done? ==> pos == r.next && sink == old(sink) + Fill(HeadLayout(r.value))
      ensures r.Failed? ==> old(sink) <= sink
    {
      hide Wire.Str, Wire.Fill, Wire.ReadStr;
      var a := CopyExpected(OPEN);
      if a.Failed? {
        return Failed(a.error);
      }
      var b := CopyExpected(TYPE);
      if b.Failed? {
        return Failed(b.error);
      }
      r := CopyStr();
      if r.Done? {
        FillConcat(Str(TYPE), Str(r.value));
        FillConcat(Str(OPEN), Str(TYPE) + Str(r.value));
      }
    }

    method CopyEntryHead() returns (r: Outcome<seq<byte>>)
      requires Valid()
      modifies this
      ensures Valid() && r == ParseEntryHead(input, old(pos))
      ensures r.Done? ==> pos == r.next && sink == old(sink) + Fill(EntryHead(r.value))
      ensures r.Failed? ==> old(sink) <= sink
    {
      hide Wire.Str, Wire.Fill, Wire.ReadStr;
      var a := CopyExpected(OPEN);
      if a.Failed? {
        return Failed(a.error);
      }
      var b := CopyExpected(NAME);
      if b.Failed? {
        return Failed(b.error);
      }
      var name := CopyStr();
      if name.Failed? {
        return name;
      }
      var e := CopyExpected(NODE);
      if e.Failed? {
        return Failed(e.error);
      }
      FillConcat(Str(name.value), Str(NODE));
      FillConcat(Str(NAME), Str(name.value) + Str(NODE));
      FillConcat(Str(OPEN), Str(NAME) + (Str(name.value) + Str(NODE)));
      r := Done(name.value, pos);
    }

    method CopyNode() returns (r: Outcome<()>)
      requires Valid()
      modifies this
      ensures Valid() && r == Bare(ParseNode(input, old(pos)))
      ensures r.Done? ==> pos == r.next
      ensures r.Done? ==> sink == old(sink) + Fill(NodeLayout(ParseNode(input, old(pos)).value))
      ensures r.Failed? ==> old(sink) <= sink
      decreases |input| - pos, 1
    {
      hide Wire.Str, Wire.Fill, HeadLayout, FileLayout, LinkLayout, EntriesLayout, ParseHead, ParseRegular, ParseSymlink, ParseEntries;
      ghost var node := ParseNode(input, pos);
      var kind := CopyHead();
      if kind.Failed? {
        return Failed(kind.error);
      }
      WordsDiffer();
      if kind.value == REGULAR {
        r := CopyRegular();
        if r.Done? {
          FillConcat(HeadLayout(REGULAR), FileLayout(node.value.executable, node.value.contents));
        }
      } else if kind.value == SYMLINK {
        r := CopySymlink();
        if r.Done? {
          FillConcat(HeadLayout(SYMLINK), LinkLayout(node.value.target));
        }
      } else if kind.value == DIRECTORY {
        r := CopyEntries();
        if r.Done? {
          FillConcat(HeadLayout(DIRECTORY), EntriesLayout(node.value.entries));
        }
      } else {
        r := Failed(UnknownType(kind.value));
      }
    }

    /** What is still to be parsed at `at` completes what was to be parsed at `start`. */
    ghost predicate Continues(start: nat, base: seq<byte>, at: nat, done: seq<byte>) {
      var whole, rest := ParseEntries(input, start), ParseEntries(input, at);
      && Bare(whole) == Bare(rest)
      && (whole.Done? ==> base + Fill(EntriesLayout(whole.value)) == done + Fill(EntriesLayout(rest.value)))
    }

    /** The `directory` loop. */
    method CopyEntries() returns (r: Outcome<()>)
      requires Valid()
      modifies this
      ensures Valid() && r == Bare(ParseEntries(input, old(pos)))
      ensures r.Done? ==> pos == r.next
      ensures r.Done? ==> sink == old(sink) + Fill(EntriesLayout(ParseEntries(input, old(pos)).value))
      ensures r.Failed? ==> old(sink) <= sink
      decreases |input| - pos, 0
    {
      hide Wire.Str, Wire.Fill, Wire.ReadStr, Wire.Expect, NodeLayout, EntriesLayout, EntryHead, ParseNode, ParseEntryHead;
      while true
        invariant Valid() && old(pos) <= pos && old(sink) <= sink
        invariant Continues(old(pos), old(sink), pos, sink)
        decreases |input| - pos
      {
        ghost var at, done := pos, sink;
        var tag := CopyStr();
        if tag.Failed? {
          return Failed(tag.error);
        }
        if tag.value == CLOSE {
          CloseLayout();
          return Done((), pos);
        }
        if tag.value != ENTRY {
          return Failed(Unexpected(ENTRY, tag.value));
        }
        r := CopyEntry();
        if r.Failed? {
          return;
        }
        EntryStep(at, done, pos, sink);
      }
    }

    lemma CloseLayout()
      ensures EntriesLayout(End) == Str(CLOSE)
    {
    }

    /** One directory entry after its tag, as a function of the position. */
    ghost function EntryAt(at: nat): Outcome<(seq<byte>, Node)> {
      var (name, b) :- ParseEntryHead(input, at);
      var (node, c) :- ParseNode(input, b);
      var (_, d) :- Expect(input, c, CLOSE);
      Done((name, node), d)
    }

    ghost function EntryLayout(e: (seq<byte>, Node)): Layout {
      EntryHead(e.0) + (NodeLayout(e.1) + Str(CLOSE))
    }

    lemma EntryStep(at: nat, done: seq<byte>, next: nat, sink': seq<byte>)
      requires ReadStr(input, at).Done? && ReadStr(input, at).value == ENTRY
      requires EntryAt(ReadStr(input, at).next).Done? && next == EntryAt(ReadStr(input, at).next).next
      requires sink' == done + Fill(Str(ENTRY)) + Fill(EntryLayout(EntryAt(ReadStr(input, at).next).value))
      ensures Continues(at, done, next, sink')
    {
      hide Wire.Str, Wire.Fill, Wire.ReadStr, Wire.Expect, NodeLayout, EntryHead, ParseNode, ParseEntryHead;
      WordsDiffer();
      var e := EntryAt(ReadStr(input, at).next).value;
      var whole, rest := ParseEntries(input, at), ParseEntries(input, next);
      assert Bare(whole) == Bare(rest);
      if whole.Done? {
        assert whole.value == Entry(e.0, e.1, rest.value);
        FillEntry(e.0, e.1, rest.value);
      }
    }

    lemma FillEntry(name: seq<byte>, node: Node, rest: Entries)
      ensures Fill(EntriesLayout(Entry(name, node, rest)))
           == Fill(Str(ENTRY)) + Fill(EntryLayout((name, node))) + Fill(EntriesLayout(rest))
    {
      hide Wire.Str, Wire.Fill, NodeLayout, EntryHead;
      var a, b, c, d, e := Str(ENTRY), EntryHead(name), NodeLayout(node), Str(CLOSE), EntriesLayout(rest);
      assert a + (b + (c + (d + e))) == (a + (b + (c + d))) + e;
      FillConcat(a + (b + (c + d)), e);
      FillConcat(a, b + (c + d));
    }

    method CopyEntry() returns (r: Outcome<()>)
      requires Valid()
      modifies this
      ensures Valid() && r == Bare(EntryAt(old(pos)))
      ensures r.Done? ==> pos == r.next > old(pos)
      ensures r.Done? ==> sink == old(sink) + Fill(EntryLayout(EntryAt(old(pos)).value))
      ensures r.Failed? ==> old(sink) <= sink
      decreases |input| - pos, 2
    {
      hide Wire.Str, Wire.Fill, Wire.Expect, NodeLayout, EntryHead, ParseNode, ParseEntryHead;
      ghost var base := sink;
      var name := CopyEntryHead();
      if name.Failed? {
        return Failed(name.error);
      }
      ghost var node := ParseNode(input, pos);
      var n := CopyNode();
      if n.Failed? {
        return Failed(n.error);
      }
      var e := CopyExpected(CLOSE);
      FillConcat(NodeLayout(node.value), Str(CLOSE));
      FillConcat(EntryHead(name.value), NodeLayout(node.value) + Str(CLOSE));
      r := Bare(e);
    }

    /** Copy one archive and stop exactly at its end: on success the sink has gained the zero-padded
        serialisation of the tree that stands at the reader's old position, and nothing else. */
    method CopyNar() returns (r: Outcome<()>)
      requires Valid()
      modifies this
      ensures Valid() && r == Bare(ParseArchive(input, old(pos)))
      ensures r.Done? ==> pos == r.next
      ensures r.Done? ==> sink == old(sink) + Serialise(ParseArchive(input, old(pos)).value)
      ensures r.Failed? ==> old(sink) <= sink
    {
      hide Wire.Str, Wire.Fill, NodeLayout, ParseNode;
      ghost var start := pos;
      var magic := CopyExpected(MAGIC);
      if magic.Failed? {
        return Failed(magic.error);
      }
      ghost var node := ParseNode(input, pos);
      r := CopyNode();
      if r.Done? {
        FillConcat(Str(MAGIC), NodeLayout(node.value));
      }
    }
  }

  // ----- the contents of a single-file archive -----

  /** `read_token`: the string at `at` and the position past its padding, which may lie past the end. */
  function TokenAt(nar: seq<byte>, at: nat): Option<(seq<byte>, nat)> {
    if at + 8 > |nar| then None
    else
      var len := WordValue(nar[at..at + 8]);
      if at + 8 + len > |nar| then None
      else Some((nar[at + 8..at + 8 + len], at + 8 + len + Padding(len)))
  }

  /** The token at `at` is `word`; the position past it. */
  function Skip(nar: seq<byte>, at: nat, word: seq<byte>): Option<nat> {
    var t := TokenAt(nar, at);
    if t.Some? && t.value.0 == word then Some(t.value.1) else None
  }

  /** Past "nix-archive-1" "(" "type" "regular". */
  function SkipHead(nar: seq<byte>): Option<nat> {
    var a := Skip(nar, 0, MAGIC);
    if a.None? then None else
    var b := Skip(nar, a.value, OPEN);
    if b.None? then None else
    var c := Skip(nar, b.value, TYPE);
    if c.None? then None else
    Skip(nar, c.value, REGULAR)
  }

  /** Past the optional "executable" and the string after it, whatever that is, and past "contents". */
  function SkipFlag(nar: seq<byte>, at: nat): Option<nat> {
    var field := TokenAt(nar, at);
    if field.None? then None
    else if field.value.0 == EXECUTABLE then
      var x := TokenAt(nar, field.value.1);
      if x.None? then None else Skip(nar, x.value.1, CONTENTS)
    else if field.value.0 == CONTENTS then Some(field.value.1) else None
  }

  function FileContents(nar: seq<byte>): Option<seq<byte>> {
    var a := SkipHead(nar);
    if a.None? then None else
    var b := SkipFlag(nar, a.value);
    if b.None? then None else
    var c := TokenAt(nar, b.value);
    if c.None? then None else
    if Skip(nar, c.value.1, CLOSE).Some? then Some(c.value.0) else None
  }

  /** `regular_file_contents`, moving one cursor through the archive. */
  method RegularFileContents(nar: seq<byte>) returns (r: Option<seq<byte>>)
    ensures r == FileContents(nar)
  {
    hide TokenAt;
    var at := 0;
    var magic := TokenAt(nar, at);
    if magic.None? || magic.value.0 != MAGIC {
      return None;
    }
    at := magic.value.1;
    var open := TokenAt(nar, at);
    if open.None? || open.value.0 != OPEN {
      return None;
    }
    at := open.value.1;
    var ty := TokenAt(nar, at);
    if ty.None? || ty.value.0 != TYPE {
      return None;
    }
    at := ty.value.1;
    var regular := TokenAt(nar, at);
    if regular.None? || regular.value.0 != REGULAR {
      return None;
    }
    at := regular.value.1;
    var field := TokenAt(nar, at);
    if field.None? {
      return None;
    }
    at := field.value.1;
    if field.value.0 == EXECUTABLE {
      var x := TokenAt(nar, at);
      if x.None? {
        return None;
      }
      field := TokenAt(nar, x.value.1);
      if field.None? {
        return None;
      }
      at := field.value.1;
    }
    if field.value.0 != CONTENTS {
      return None;
    }
    var contents := TokenAt(nar, at);
    if contents.None? {
      return None;
    }
    var close := TokenAt(nar, contents.value.1);
    if close.None? || close.value.0 != CLOSE {
      return None;
    }
    r := Some(contents.value.0);
  }

  lemma ReadStrIsToken(s: seq<byte>, at: nat)
    requires ReadStr(s, at).Done?
    ensures TokenAt(s, at) == Some((ReadStr(s, at).value, ReadStr(s, at).next))
  {
  }

  lemma ExpectIsSkip(s: seq<byte>, at: nat, word: seq<byte>)
    requires Expect(s, at, word).Done?
    ensures Skip(s, at, word) == Some(Expect(s, at, word).next)
  {
    ReadStrIsToken(s, at);
  }

  /** On an archive the walk accepts, the contents reader agrees with the walk: a regular file's contents,
      and nothing for a directory or a symlink. */
  lemma FileContentsAgrees(nar: seq<byte>)
    requires ParseArchive(nar, 0).Done?
    ensures FileContents(nar)
         == match ParseArchive(nar, 0).value case Regular(_, c) => Some(c) case _ => None
  {
    hide TokenAt, Wire.ReadStr;
    WordsDiffer();
    ExpectIsSkip(nar, 0, MAGIC);
    var a := Expect(nar, 0, MAGIC).next;
    ExpectIsSkip(nar, a, OPEN);
    var b := Expect(nar, a, OPEN).next;
    ExpectIsSkip(nar, b, TYPE);
    var c := Expect(nar, b, TYPE).next;
    ReadStrIsToken(nar, c);
    var kind := ReadStr(nar, c);
    if kind.value == REGULAR {
      ParseRegularContents(nar, kind.next);
    }
  }

  lemma ParseRegularContents(nar: seq<byte>, at: nat)
    requires ParseRegular(nar, at).Done?
    ensures var b := SkipFlag(nar, at);
      && b.Some?
      && var c := TokenAt(nar, b.value);
      && c.Some? && c.value.0 == ParseRegular(nar, at).value.contents
      && Skip(nar, c.value.1, CLOSE).Some?
  {
    hide TokenAt, Wire.ReadStr;
    WordsDiffer();
    ReadStrIsToken(nar, at);
    var tag := ReadStr(nar, at);
    if tag.value == EXECUTABLE {
      ReadStrIsToken(nar, tag.next);
      ExpectIsSkip(nar, Expect(nar, tag.next, EMPTY).next, CONTENTS);
    }
    var f := ParseFlag(nar, at).next;
    ReadStrIsToken(nar, f);
    ExpectIsSkip(nar, ReadStr(nar, f).next, CLOSE);
  }

  /** For every tree, read from its own archive. */
  lemma FileContentsOfTree(n: Node)
    requires Sized(n)
    ensures FileContents(Serialise(n)) == match n case Regular(_, c) => Some(c) case _ => None
  {
    hide FileContents, Serialise, ParseArchive;
    assert [] + Serialise(n) + [] == Serialise(n);
    ArchiveIsAccepted(n, [], []);
    FileContentsAgrees(Serialise(n));
  }
}
