/** The narinfo printer (`render_narinfo` of `crates/server/src/http.rs`) and parser (`ParsedNarinfo::parse` of
    `crates/server/src/substitute.rs`). */
module Narinfo {
  import opened Numerals
  import opened Strings
  import Base32

  /** What the printer is given. */
  datatype Info = Info(storeDir: string, path: string, key: string, compression: string,
                       fileHash: seq<byte>, fileSize: nat, narHash: seq<byte>, narSize: nat,
                       references: seq<string>, deriver: Option<string>, sigs: seq<string>)

  /** What the parser finds. */
  datatype Parsed = Parsed(storePath: string, url: string, compression: string, narHash: seq<byte>, narSize: nat,
                           references: seq<string>, deriver: Option<string>, sigs: seq<string>)

  datatype Outcome = Ok(parsed: Parsed) | Malformed(what: string)

  // ----- the printer -----

  function FullPath(i: Info): string {
    i.storeDir + "/" + i.path
  }

  function Url(i: Info): string {
    "nar/" + AfterLast(i.key, '/')
  }

  function Field(key: string, value: string): string {
    key + ": " + value
  }

  function HashText(hash: seq<byte>): string {
    "sha256:" + Base32.Encoded(hash)
  }

  function Head(i: Info): seq<string> {
    [ Field("StorePath", FullPath(i)),
      Field("URL", Url(i)),
      Field("Compression", i.compression),
      Field("FileHash", HashText(i.fileHash)),
      Field("FileSize", Decimal(i.fileSize)),
      Field("NarHash", HashText(i.narHash)),
      Field("NarSize", Decimal(i.narSize)),
      Field("References", Join(i.references)) ]
  }

  function DeriverLine(i: Info): seq<string> {
    if i.deriver.Some? then [Field("Deriver", i.deriver.value)] else []
  }

  function SigLines(sigs: seq<string>): seq<string> {
    seq(|sigs|, n requires 0 <= n < |sigs| => Field("Sig", sigs[n]))
  }

  function Rendered(i: Info): string {
    Unlines(Head(i) + DeriverLine(i) + SigLines(i.sigs))
  }

  /** `out.push_str(&format!("{key}: {value}\n"))`. */
  function Push(out: string, key: string, value: string): string {
    out + key + ": " + value + "\n"
  }

  lemma PushAddsLine(lines: seq<string>, key: string, value: string)
    ensures Push(Unlines(lines), key, value) == Unlines(lines + [Field(key, value)])
  {
    UnlinesAppend(lines, [Field(key, value)]);
    assert Unlines([Field(key, value)]) == Field(key, value) + "\n";
  }

  method RenderHead(i: Info) returns (out: string)
    ensures out == Unlines(Head(i))
  {
    hide Push, Field, FullPath, Url, Decimal, Join, Base32.Encoded, Unlines;
    ghost var h := Head(i);
    var fileHash := Base32.Encode(i.fileHash);
    var narHash := Base32.Encode(i.narHash);
    out := Push("", "StorePath", FullPath(i));
    out := Push(out, "URL", Url(i));
    out := Push(out, "Compression", i.compression);
    out := Push(out, "FileHash", "sha256:" + fileHash);
    out := Push(out, "FileSize", Decimal(i.fileSize));
    out := Push(out, "NarHash", "sha256:" + narHash);
    out := Push(out, "NarSize", Decimal(i.narSize));
    out := Push(out, "References", Join(i.references));
    assert Unlines(h) == out by { HeadLines(i); }
  }

  /** The eight lines, one by one. */
  lemma HeadLines(i: Info)
    ensures Unlines(Head(i)) == Push(Push(Push(Push(Push(Push(Push(Push("",
      "StorePath", FullPath(i)), "URL", Url(i)), "Compression", i.compression), "FileHash", HashText(i.fileHash)),
      "FileSize", Decimal(i.fileSize)), "NarHash", HashText(i.narHash)), "NarSize", Decimal(i.narSize)),
      "References", Join(i.references))
  {
    hide Push, Field, FullPath, Url, HashText, Decimal, Join;
    var h := Head(i);
    assert Unlines(h[..0]) == "";
    hide Unlines;
    PushAddsLine(h[..0], "StorePath", FullPath(i));
    PushAddsLine(h[..1], "URL", Url(i));
    PushAddsLine(h[..2], "Compression", i.compression);
    PushAddsLine(h[..3], "FileHash", HashText(i.fileHash));
    PushAddsLine(h[..4], "FileSize", Decimal(i.fileSize));
    PushAddsLine(h[..5], "NarHash", HashText(i.narHash));
    PushAddsLine(h[..6], "NarSize", Decimal(i.narSize));
    PushAddsLine(h[..7], "References", Join(i.references));
    assert h[..1] == h[..0] + [h[0]] && h[..2] == h[..1] + [h[1]] && h[..3] == h[..2] + [h[2]];
    assert h[..4] == h[..3] + [h[3]] && h[..5] == h[..4] + [h[4]] && h[..6] == h[..5] + [h[5]];
    assert h[..7] == h[..6] + [h[6]] && h == h[..7] + [h[7]];
  }

  method Render(i: Info) returns (out: string)
    ensures out == Rendered(i)
  {
    hide Push, Field, Head, Unlines;
    ghost var front := Head(i);
    out := RenderHead(i);
    if i.deriver.Some? {
      out := Push(out, "Deriver", i.deriver.value);
      PushAddsLine(front, "Deriver", i.deriver.value);
    }
    front := front + DeriverLine(i);
    assert front + SigLines(i.sigs[..0]) == front && (i.deriver.None? ==> front == Head(i));
    for n := 0 to |i.sigs|
      invariant out == Unlines(front + SigLines(i.sigs[..n]))
    {
      out := Push(out, "Sig", i.sigs[n]);
      ghost var before := front + SigLines(i.sigs[..n]);
      PushAddsLine(before, "Sig", i.sigs[n]);
      assert front + SigLines(i.sigs[..n + 1]) == before + [Field("Sig", i.sigs[n])];
    }
    assert i.sigs[..|i.sigs|] == i.sigs;
  }

  // ----- the parser -----

  /** The variables of the parsing loop. */
  datatype Fields = Fields(storePath: Option<string>, url: Option<string>, compression: string,
                           narHash: Option<seq<byte>>, narSize: Option<nat>, references: seq<string>,
                           deriver: Option<string>, sigs: seq<string>)

  const START: Fields := Fields(None, None, "none", None, None, [], None, [])

  ghost function HashOf(value: string): Option<seq<byte>> {
    if "sha256:" <= value then Base32.Decoded(value[7..], 32) else None
  }

  datatype Key = PathKey | UrlKey | CompressionKey | HashKey | SizeKey | ReferencesKey | DeriverKey | SigKey | OtherKey

  function KeyOf(key: string): Key {
    if key == "StorePath" then PathKey
    else if key == "URL" then UrlKey
    else if key == "Compression" then CompressionKey
    else if key == "NarHash" then HashKey
    else if key == "NarSize" then SizeKey
    else if key == "References" then ReferencesKey
    else if key == "Deriver" then DeriverKey
    else if key == "Sig" then SigKey
    else OtherKey
  }

  ghost function Assign(f: Fields, key: string, value: string): Fields {
    match KeyOf(key)
    case PathKey => f.(storePath := Some(value))
    case UrlKey => f.(url := Some(value))
    case CompressionKey => f.(compression := value)
    case HashKey => f.(narHash := HashOf(value))
    case SizeKey => f.(narSize := ParseU64(value))
    case ReferencesKey => if value != "" then f.(references := Words(value)) else f
    case DeriverKey => f.(deriver := Some(value))
    case SigKey => f.(sigs := f.sigs + [value])
    case OtherKey => f
  }

  /** One turn of the loop. */
  ghost function Take(f: Fields, line: string): Fields {
    var i := IndexOf(line, ':');
    if i == |line| then f else Assign(f, line[..i], Trim(line[i + 1..]))
  }

  ghost function TakeAll(f: Fields, lines: seq<string>): Fields {
    if lines == [] then f else Take(TakeAll(f, lines[..|lines| - 1]), lines[|lines| - 1])
  }

  function Finish(f: Fields): Outcome {
    if f.storePath.None? then Malformed("missing StorePath")
    else if f.url.None? then Malformed("missing URL")
    else if f.narHash.None? then Malformed("missing or malformed NarHash")
    else if f.narSize.None? then Malformed("missing NarSize")
    else Ok(Parsed(f.storePath.value, f.url.value, f.compression, f.narHash.value, f.narSize.value, f.references, f.deriver, f.sigs))
  }

  ghost function ParseOf(text: string): Outcome {
    Finish(TakeAll(START, Lines(text)))
  }

  method Parse(text: string) returns (r: Outcome)
    ensures r == ParseOf(text)
  {
    hide KeyOf, Words, Trim, ParseU64, Base32.Decoded;
    var f := START;
    var lines := Lines(text);
    for n := 0 to |lines|
      invariant f == TakeAll(START, lines[..n])
    {
      var line := lines[n];
      assert lines[..n + 1][..n] == lines[..n];
      var i := IndexOf(line, ':');
      if i < |line| {
        var key, value := line[..i], Trim(line[i + 1..]);
        match KeyOf(key) {
          case PathKey => f := f.(storePath := Some(value));
          case UrlKey => f := f.(url := Some(value));
          case CompressionKey => f := f.(compression := value);
          case HashKey =>
            var hash := None;
            if "sha256:" <= value {
              hash := Base32.Decode(value[7..], 32);
            }
            f := f.(narHash := hash);
          case SizeKey => f := f.(narSize := ParseU64(value));
          case ReferencesKey =>
            if value != "" {
              f := f.(references := Words(value));
            }
          case DeriverKey => f := f.(deriver := Some(value));
          case SigKey => f := f.(sigs := f.sigs + [value]);
          case OtherKey =>
        }
      }
    }
    assert lines[..|lines|] == lines;
    r := Finish(f);
  }

  // ----- what a parser can find -----

  /** One line with no blank at either end. */
  predicate Tidy(v: string) {
    OneLine(v) && SquareEdged(v)
  }

  predicate AllTidy(vs: seq<string>) {
    forall k :: 0 <= k < |vs| ==> Tidy(vs[k])
  }

  predicate TidyOption(o: Option<string>) {
    o.Some? ==> Tidy(o.value)
  }

  predicate TidyFields(f: Fields) {
    && TidyOption(f.storePath) && TidyOption(f.url) && Tidy(f.compression) && TidyOption(f.deriver)
    && AllTidy(f.sigs) && AllWords(f.references)
    && (f.narHash.Some? ==> |f.narHash.value| == 32) && (f.narSize.Some? ==> f.narSize.value < U64)
  }

  lemma HashOfLength(value: string)
    ensures HashOf(value).Some? ==> |HashOf(value).value| == 32
  {
    hide Base32.Decodable;
  }

  lemma AppendTidy(vs: seq<string>, v: string)
    requires AllTidy(vs) && Tidy(v)
    ensures AllTidy(vs + [v])
  {
  }

  lemma AssignIsTidy(f: Fields, key: string, value: string)
    requires TidyFields(f) && Tidy(value)
    ensures TidyFields(Assign(f, key, value))
  {
    hide KeyOf, Tidy, Words, ParseU64, AllWords, HashOf, AllTidy;
    match KeyOf(key)
    case ReferencesKey => WordsAreWords(value);
    case HashKey => HashOfLength(value);
    case SigKey => AppendTidy(f.sigs, value);
    case SizeKey => assert ParseU64(value).Some? ==> ParseU64(value).value < U64;
    case _ =>
  }

  lemma TakeIsTidy(f: Fields, line: string)
    requires TidyFields(f) && OneLine(line)
    ensures TidyFields(Take(f, line))
  {
    hide Assign, TidyFields, Trim;
    var i := IndexOf(line, ':');
    if i < |line| {
      assert OneLine(line[i + 1..]);
      TrimSound(line[i + 1..]);
      AssignIsTidy(f, line[..i], Trim(line[i + 1..]));
    }
  }

  lemma {:induction false} TakeAllIsTidy(f: Fields, lines: seq<string>)
    requires TidyFields(f) && AllOneLine(lines)
    ensures TidyFields(TakeAll(f, lines))
  {
    if lines != [] {
      TakeAllIsTidy(f, lines[..|lines| - 1]);
      TakeIsTidy(TakeAll(f, lines[..|lines| - 1]), lines[|lines| - 1]);
    }
  }

  // ----- the round trip -----

  function Expected(i: Info): Parsed {
    Parsed(FullPath(i), Url(i), i.compression, i.narHash, i.narSize, i.references, i.deriver, i.sigs)
  }

  predicate TidyInfo(i: Info) {
    && Tidy(FullPath(i)) && Tidy(Url(i)) && Tidy(i.compression) && |i.narHash| == 32
    && AllWords(i.references) && TidyOption(i.deriver) && AllTidy(i.sigs)
  }

  lemma HashTextIsTidy(hash: seq<byte>)
    ensures Tidy(HashText(hash))
  {
    var s := Base32.Encoded(hash);
    EncodedLetters(hash);
    assert forall c :: c in s ==> c in Base32.ALPHABET;
    LettersArePlain();
    var t := HashText(hash);
    assert t == "sha256:" + s;
    assert s != "" ==> s[|s| - 1] in s;
  }

  lemma EncodedLetters(hash: seq<byte>)
    ensures forall c :: c in Base32.Encoded(hash) ==> c in Base32.ALPHABET
  {
    hide Numerals.Expand, Numerals.Value;
    Numerals.ExpandFits(5, Value(8, hash), Base32.DigitCount(|hash|));
    Numerals.Pow2Small();
  }

  lemma LettersArePlain()
    ensures forall c :: c in Base32.ALPHABET ==> c != '\n' && !IsSpace(c)
  {
  }

  lemma HashRoundTrip(hash: seq<byte>)
    requires |hash| == 32
    ensures HashOf(HashText(hash)) == Some(hash)
  {
    hide Base32.Decoded;
    Base32.DecodeEncode(hash);
    assert HashText(hash)[7..] == Base32.Encoded(hash);
  }

  lemma FieldIsPlain(key: string, v: string)
    requires OneLine(key) && Tidy(v)
    ensures PlainLine(Field(key, v))
  {
    var line := Field(key, v);
    assert line[|line| - 1] == if v == "" then ' ' else v[|v| - 1];
    forall n | 0 <= n < |line|
      ensures line[n] != '\n'
    {
      assert n < |key| ==> line[n] == key[n];
      assert n >= |key| + 2 ==> line[n] == v[n - |key| - 2];
    }
  }

  /** A printed field is a line of its own and is read back as its key and value. */
  lemma FieldIsTaken(f: Fields, key: string, v: string)
    requires ':' !in key && OneLine(key) && Tidy(v)
    ensures PlainLine(Field(key, v)) && Take(f, Field(key, v)) == Assign(f, key, v)
  {
    hide Assign, Trim, PlainLine, OneLine, SquareEdged, IsSpace;
    FieldIsPlain(key, v);
    TrimIdentity(v);
    var line := Field(key, v);
    assert line == key + [':'] + (" " + v);
    IndexOfPrefix(key, ':', " " + v);
    assert line[..|key|] == key && line[|key| + 1..] == " " + v;
  }

  lemma TakeOne(f: Fields, lines: seq<string>, line: string)
    ensures TakeAll(f, lines + [line]) == Take(TakeAll(f, lines), line)
  {
    assert (lines + [line])[..|lines|] == lines;
  }

  lemma SigIsTaken(f: Fields, front: seq<string>, sig: string)
    requires Tidy(sig)
    ensures PlainLine(Field("Sig", sig))
    ensures TakeAll(f, front + [Field("Sig", sig)]) == TakeAll(f, front).(sigs := TakeAll(f, front).sigs + [sig])
  {
    hide Take, TakeAll, PlainLine, Field, Tidy;
    FieldIsTaken(TakeAll(f, front), "Sig", sig);
    TakeOne(f, front, Field("Sig", sig));
  }

  lemma DeriverIsTaken(f: Fields, front: seq<string>, deriver: string)
    requires Tidy(deriver)
    ensures PlainLine(Field("Deriver", deriver))
    ensures TakeAll(f, front + [Field("Deriver", deriver)]) == TakeAll(f, front).(deriver := Some(deriver))
  {
    hide Take, TakeAll, PlainLine, Field, Tidy;
    FieldIsTaken(TakeAll(f, front), "Deriver", deriver);
    TakeOne(f, front, Field("Deriver", deriver));
  }

  lemma SigLinesSplit(front: seq<string>, sigs: seq<string>)
    requires sigs != []
    ensures SigLines(sigs) == SigLines(sigs[..|sigs| - 1]) + [Field("Sig", sigs[|sigs| - 1])]
    ensures front + SigLines(sigs) == front + SigLines(sigs[..|sigs| - 1]) + [Field("Sig", sigs[|sigs| - 1])]
  {
    hide Field;
  }

  lemma PlainAppend(lines: seq<string>, line: string)
    requires AllPlain(lines) && PlainLine(line)
    ensures AllPlain(lines + [line])
  {
    hide PlainLine;
  }

  lemma {:induction false} SigsAreTaken(f: Fields, front: seq<string>, sigs: seq<string>)
    requires AllTidy(sigs)
    ensures TakeAll(f, front + SigLines(sigs)) == TakeAll(f, front).(sigs := TakeAll(f, front).sigs + sigs)
    ensures AllPlain(SigLines(sigs))
  {
    hide Take, PlainLine, Field, Tidy;
    if sigs == [] {
      assert front + SigLines(sigs) == front;
    } else {
      var init, last := sigs[..|sigs| - 1], sigs[|sigs| - 1];
      SigsAreTaken(f, front, init);
      SigIsTaken(f, front + SigLines(init), last);
      SigLinesSplit(front, sigs);
      PlainAppend(SigLines(init), Field("Sig", last));
      hide TakeAll, AllPlain, SigLines;
      assert sigs == init + [last];
    }
  }

  function HeadFields(i: Info): Fields {
    Fields(Some(FullPath(i)), Some(Url(i)), i.compression, Some(i.narHash), Some(i.narSize), i.references, None, [])
  }

  lemma FieldIsTakenAfter(front: seq<string>, key: string, v: string)
    requires ':' !in key && OneLine(key) && Tidy(v)
    ensures PlainLine(Field(key, v)) && TakeAll(START, front + [Field(key, v)]) == Assign(TakeAll(START, front), key, v)
  {
    hide Assign, Take;
    FieldIsTaken(TakeAll(START, front), key, v);
    TakeOne(START, front, Field(key, v));
  }

  lemma SizeIsTaken(front: seq<string>, key: string, n: nat)
    requires key == "FileSize" || key == "NarSize"
    ensures PlainLine(Field(key, Decimal(n)))
    ensures TakeAll(START, front + [Field(key, Decimal(n))])
         == if key == "NarSize" then TakeAll(START, front).(narSize := ParseU64(Decimal(n))) else TakeAll(START, front)
  {
    hide Take, TakeAll, PlainLine, Field, Tidy;
    DecimalIsTidy(n);
    FieldIsTakenAfter(front, key, Decimal(n));
  }

  lemma HashIsTaken(front: seq<string>, key: string, hash: seq<byte>)
    requires key == "FileHash" || key == "NarHash"
    ensures PlainLine(Field(key, HashText(hash)))
    ensures TakeAll(START, front + [Field(key, HashText(hash))])
         == if key == "NarHash" then TakeAll(START, front).(narHash := HashOf(HashText(hash))) else TakeAll(START, front)
  {
    hide Take, TakeAll, PlainLine, Field, Tidy, HashOf, HashText;
    HashTextIsTidy(hash);
    FieldIsTakenAfter(front, key, HashText(hash));
  }

  lemma DecimalIsTidy(n: nat)
    ensures Tidy(Decimal(n))
  {
    DecimalParses(n);
    hide Decimal;
  }

  lemma ReferencesAreTaken(front: seq<string>, refs: seq<string>)
    requires AllWords(refs) && TakeAll(START, front).references == []
    ensures PlainLine(Field("References", Join(refs)))
    ensures TakeAll(START, front + [Field("References", Join(refs))]) == TakeAll(START, front).(references := refs)
  {
    hide Take, TakeAll, Field, PlainLine, Words, Join;
    JoinIsTidy(refs);
    WordsOfJoin(refs);
    FieldIsTakenAfter(front, "References", Join(refs));
  }

  lemma PlacesAreTaken(i: Info)
    requires Tidy(FullPath(i)) && Tidy(Url(i)) && Tidy(i.compression)
    ensures TakeAll(START, Head(i)[..3]) == START.(storePath := Some(FullPath(i)), url := Some(Url(i)), compression := i.compression)
    ensures AllPlain(Head(i)[..3])
  {
    hide FullPath, Url, Field, Tidy, PlainLine, Take;
    var h := Head(i);
    FieldIsTakenAfter([], "StorePath", FullPath(i));
    FieldIsTakenAfter([h[0]], "URL", Url(i));
    FieldIsTakenAfter([h[0], h[1]], "Compression", i.compression);
    assert [] + [h[0]] == [h[0]] && [h[0]] + [h[1]] == [h[0], h[1]] && [h[0], h[1]] + [h[2]] == h[..3];
  }

  lemma HeadIsTaken(i: Info)
    requires TidyInfo(i) && i.narSize < U64
    ensures TakeAll(START, Head(i)) == HeadFields(i)
    ensures AllPlain(Head(i))
  {
    hide FullPath, Url, HashText, Field, Tidy, PlainLine, Take, TakeAll, HashOf, Join, Words;
    HashRoundTrip(i.narHash);
    U64RoundTrip(i.narSize);
    var h := Head(i);
    PlacesAreTaken(i);
    HashIsTaken(h[..3], "FileHash", i.fileHash);
    assert h[..4] == h[..3] + [h[3]] && h[..5] == h[..4] + [h[4]] && h[..6] == h[..5] + [h[5]];
    SizeIsTaken(h[..4], "FileSize", i.fileSize);
    HashIsTaken(h[..5], "NarHash", i.narHash);
    SizeIsTaken(h[..6], "NarSize", i.narSize);
    assert h[..7] == h[..6] + [h[6]] && h == h[..7] + [h[7]];
    ReferencesAreTaken(h[..7], i.references);
  }

  lemma RenderedParses(i: Info)
    requires TidyInfo(i) && i.narSize < U64
    ensures ParseOf(Rendered(i)) == Ok(Expected(i))
  {
    hide Take, TakeAll, PlainLine, Field, Tidy, Head, Lines, Unlines, FullPath, Url;
    HeadIsTaken(i);
    var front := Head(i) + DeriverLine(i);
    if i.deriver.Some? {
      DeriverIsTaken(START, Head(i), i.deriver.value);
    } else {
      assert front == Head(i);
    }
    SigsAreTaken(START, front, i.sigs);
    LinesOfUnlines(front + SigLines(i.sigs));
  }

  predicate TidyParsed(p: Parsed) {
    && Tidy(p.storePath) && Tidy(p.url) && Tidy(p.compression) && |p.narHash| == 32
    && AllWords(p.references) && TidyOption(p.deriver) && AllTidy(p.sigs)
  }

  /** Whatever the parser accepts, all it finds is tidy. */
  lemma ParsedIsTidy(text: string)
    ensures ParseOf(text).Ok? ==> TidyParsed(ParseOf(text).parsed)
  {
    hide Tidy, AllTidy, AllWords, TakeAll, Lines;
    LinesAreOneLine(text);
    StartIsTidy();
    TakeAllIsTidy(START, Lines(text));
  }

  lemma StartIsTidy()
    ensures TidyFields(START)
  {
  }

  /** Main result: the parser recovers every field the printer wrote if and only if each is one line without blanks at
      its ends, each reference a word and the NAR hash 32 bytes. */
  lemma RoundTripExactly(i: Info)
    requires i.narSize < U64
    ensures ParseOf(Rendered(i)) == Ok(Expected(i)) <==> TidyInfo(i)
  {
    hide ParseOf, Rendered, Tidy, AllTidy, AllWords, FullPath, Url;
    if TidyInfo(i) {
      RenderedParses(i);
    } else {
      ParsedIsTidy(Rendered(i));
    }
  }

  // ----- the parser, key by key -----

  /** The line is a field of this key: what precedes its first colon. */
  predicate IsField(line: string, key: string) {
    IndexOf(line, ':') < |line| && line[..IndexOf(line, ':')] == key
  }

  /** What follows the first colon, trimmed. */
  function ValueOf(line: string): string {
    if IndexOf(line, ':') < |line| then Trim(line[IndexOf(line, ':') + 1..]) else ""
  }

  /** The values of all fields of this key, in order. */
  ghost function Values(lines: seq<string>, key: string): seq<string> {
    if lines == [] then [] else
      var last := lines[|lines| - 1];
      Values(lines[..|lines| - 1], key) + if IsField(last, key) then [ValueOf(last)] else []
  }

  function Last(vs: seq<string>): Option<string> {
    if vs == [] then None else Some(vs[|vs| - 1])
  }

  /** The last value that is not empty. */
  function LastNonEmpty(vs: seq<string>): Option<string> {
    if vs == [] then None else if vs[|vs| - 1] != "" then Last(vs) else LastNonEmpty(vs[..|vs| - 1])
  }

  lemma KeyOfExactly(key: string)
    ensures KeyOf(key) == PathKey <==> key == "StorePath"
    ensures KeyOf(key) == UrlKey <==> key == "URL"
    ensures KeyOf(key) == CompressionKey <==> key == "Compression"
    ensures KeyOf(key) == HashKey <==> key == "NarHash"
  {
  }

  lemma KeyOfRestExactly(key: string)
    ensures KeyOf(key) == SizeKey <==> key == "NarSize"
    ensures KeyOf(key) == ReferencesKey <==> key == "References"
    ensures KeyOf(key) == DeriverKey <==> key == "Deriver"
    ensures KeyOf(key) == SigKey <==> key == "Sig"
  {
  }

  lemma LastOfAppend(vs: seq<string>, v: string)
    ensures Last(vs + [v]) == Some(v) && LastNonEmpty(vs + [v]) == if v != "" then Some(v) else LastNonEmpty(vs)
  {
    assert (vs + [v])[..|vs|] == vs;
  }

  lemma TakePlaces(f: Fields, line: string)
    ensures Take(f, line).storePath == if IsField(line, "StorePath") then Some(ValueOf(line)) else f.storePath
    ensures Take(f, line).url == if IsField(line, "URL") then Some(ValueOf(line)) else f.url
    ensures Take(f, line).compression == if IsField(line, "Compression") then ValueOf(line) else f.compression
    ensures Take(f, line).narHash == if IsField(line, "NarHash") then HashOf(ValueOf(line)) else f.narHash
  {
    hide HashOf, ParseU64, Words, Trim, IndexOf;
    KeyOfExactly(line[..IndexOf(line, ':')]);
    hide KeyOf;
  }

  lemma TakeLists(f: Fields, line: string)
    ensures Take(f, line).narSize == if IsField(line, "NarSize") then ParseU64(ValueOf(line)) else f.narSize
    ensures Take(f, line).deriver == if IsField(line, "Deriver") then Some(ValueOf(line)) else f.deriver
    ensures Take(f, line).sigs == if IsField(line, "Sig") then f.sigs + [ValueOf(line)] else f.sigs
    ensures Take(f, line).references == if IsField(line, "References") && ValueOf(line) != "" then Words(ValueOf(line)) else f.references
  {
    hide HashOf, ParseU64, Words, Trim, IndexOf;
    KeyOfRestExactly(line[..IndexOf(line, ':')]);
    hide KeyOf;
  }

  /** Store path and URL: each the last value of its key. */
  lemma {:induction false} PlacesExactly(lines: seq<string>)
    ensures TakeAll(START, lines).storePath == Last(Values(lines, "StorePath"))
    ensures TakeAll(START, lines).url == Last(Values(lines, "URL"))
  {
    hide Take, IsField, ValueOf;
    if lines != [] {
      var init, line := lines[..|lines| - 1], lines[|lines| - 1];
      PlacesExactly(init);
      TakePlaces(TakeAll(START, init), line);
      if IsField(line, "StorePath") {
        LastOfAppend(Values(init, "StorePath"), ValueOf(line));
      }
      if IsField(line, "URL") {
        LastOfAppend(Values(init, "URL"), ValueOf(line));
      }
    }
  }

  /** The compression, `none` without one, and the hash, nothing if the last is malformed. */
  lemma {:induction false} HashExactly(lines: seq<string>)
    ensures TakeAll(START, lines).compression == if Values(lines, "Compression") == [] then "none" else Last(Values(lines, "Compression")).value
    ensures TakeAll(START, lines).narHash == if Values(lines, "NarHash") == [] then None else HashOf(Last(Values(lines, "NarHash")).value)
  {
    hide Take, IsField, ValueOf, HashOf;
    if lines != [] {
      var init, line := lines[..|lines| - 1], lines[|lines| - 1];
      HashExactly(init);
      TakePlaces(TakeAll(START, init), line);
      if IsField(line, "Compression") {
        LastOfAppend(Values(init, "Compression"), ValueOf(line));
      }
      if IsField(line, "NarHash") {
        LastOfAppend(Values(init, "NarHash"), ValueOf(line));
      }
    }
  }

  /** The size, nothing if the last is malformed, and the deriver. */
  lemma {:induction false} SizeExactly(lines: seq<string>)
    ensures TakeAll(START, lines).narSize == if Values(lines, "NarSize") == [] then None else ParseU64(Last(Values(lines, "NarSize")).value)
    ensures TakeAll(START, lines).deriver == Last(Values(lines, "Deriver"))
  {
    hide Take, IsField, ValueOf, ParseU64;
    if lines != [] {
      var init, line := lines[..|lines| - 1], lines[|lines| - 1];
      SizeExactly(init);
      TakeLists(TakeAll(START, init), line);
      if IsField(line, "NarSize") {
        LastOfAppend(Values(init, "NarSize"), ValueOf(line));
      }
      if IsField(line, "Deriver") {
        LastOfAppend(Values(init, "Deriver"), ValueOf(line));
      }
    }
  }

  /** The words of the last references there are. */
  function WordsOf(o: Option<string>): seq<string> {
    if o.None? then [] else Words(o.value)
  }

  /** The signatures, all in order, and the references, the words of the last line that has any. */
  lemma {:induction false} ListsExactly(lines: seq<string>)
    ensures TakeAll(START, lines).sigs == Values(lines, "Sig")
    ensures TakeAll(START, lines).references == WordsOf(LastNonEmpty(Values(lines, "References")))
  {
    hide Take, IsField, ValueOf, Words, LastNonEmpty;
    if lines == [] {
      assert LastNonEmpty([]).None? by { NoneIsLast(); }
    } else {
      var init, line := lines[..|lines| - 1], lines[|lines| - 1];
      ListsExactly(init);
      TakeLists(TakeAll(START, init), line);
      if IsField(line, "References") {
        LastOfAppend(Values(init, "References"), ValueOf(line));
      } else {
        assert Values(lines, "References") == Values(init, "References");
      }
    }
  }

  lemma NoneIsLast()
    ensures LastNonEmpty([]).None?
  {
  }

  /** What the parser makes of any text: it fails on the first of the four required fields that is missing, or whose last
      occurrence is malformed, and otherwise gives each field its last value and all signatures. */
  lemma ParseExactly(text: string)
    ensures var ls := Lines(text);
      var hash := if Values(ls, "NarHash") == [] then None else HashOf(Last(Values(ls, "NarHash")).value);
      var size := if Values(ls, "NarSize") == [] then None else ParseU64(Last(Values(ls, "NarSize")).value);
      if Values(ls, "StorePath") == [] then ParseOf(text) == Malformed("missing StorePath")
      else if Values(ls, "URL") == [] then ParseOf(text) == Malformed("missing URL")
      else if hash.None? then ParseOf(text) == Malformed("missing or malformed NarHash")
      else if size.None? then ParseOf(text) == Malformed("missing NarSize")
      else && ParseOf(text).Ok? && var p := ParseOf(text).parsed;
           && Some(p.storePath) == Last(Values(ls, "StorePath")) && Some(p.url) == Last(Values(ls, "URL"))
           && p.compression == (if Values(ls, "Compression") == [] then "none" else Last(Values(ls, "Compression")).value)
           && p.narHash == hash.value && p.narSize == size.value && p.deriver == Last(Values(ls, "Deriver")) && p.sigs == Values(ls, "Sig")
           && p.references == WordsOf(LastNonEmpty(Values(ls, "References")))
  {
    hide TakeAll, HashOf, ParseU64, Lines, Values, Words, WordsOf, LastNonEmpty;
    PlacesExactly(Lines(text));
    HashExactly(Lines(text));
    SizeExactly(Lines(text));
    ListsExactly(Lines(text));
  }

  // ----- the fields only clients read -----

  lemma FieldHasValue(front: seq<string>, k: string, v: string, key: string)
    requires ':' !in k && SquareEdged(v)
    ensures Values(front + [Field(k, v)], key) == Values(front, key) + if k == key then [v] else []
  {
    var line := Field(k, v);
    assert line == k + [':'] + (" " + v);
    IndexOfPrefix(k, ':', " " + v);
    hide IndexOf, Trim;
    assert line[..|k|] == k && line[|k| + 1..] == " " + v;
    TrimIdentity(v);
    assert (front + [line])[..|front|] == front;
  }

  lemma {:induction false} SigsHaveOther(front: seq<string>, sigs: seq<string>, key: string)
    requires AllTidy(sigs) && key != "Sig"
    ensures Values(front + SigLines(sigs), key) == Values(front, key)
  {
    hide Values, Field, Tidy;
    if sigs == [] {
      assert front + SigLines(sigs) == front;
    } else {
      var init, last := sigs[..|sigs| - 1], sigs[|sigs| - 1];
      SigsHaveOther(front, init, key);
      assert Tidy(last);
      TidyIsSquare(last);
      FieldHasValue(front + SigLines(init), "Sig", last, key);
      assert front + SigLines(sigs) == front + SigLines(init) + [Field("Sig", last)];
    }
  }

  lemma TidyIsSquare(v: string)
    requires Tidy(v)
    ensures SquareEdged(v)
  {
  }

  /** A client that looks for the file's hash and size in a rendered narinfo finds those of the file, once each. */
  lemma FileFieldsAreRendered(i: Info)
    requires TidyInfo(i) && i.narSize < U64
    ensures Values(Lines(Rendered(i)), "FileHash") == ["sha256:" + Base32.Encoded(i.fileHash)]
    ensures Values(Lines(Rendered(i)), "FileSize") == [Decimal(i.fileSize)]
  {
    hide Values, Lines, Rendered, Decimal, FullPath, Url, Join;
    FileNames();
    FileFieldHas(i, 3);
    FileFieldHas(i, 4);
    hide HeadNames;
  }

  lemma FileNames()
    ensures HeadNames()[3] == "FileHash" && HeadNames()[4] == "FileSize"
    ensures forall n :: 3 <= n < 5 ==> HeadNames()[n] != "Sig" && HeadNames()[n] != "Deriver"
  {
  }

  lemma FileFieldHas(i: Info, n: nat)
    requires TidyInfo(i) && i.narSize < U64 && 3 <= n < 5 && HeadNames()[n] != "Sig" && HeadNames()[n] != "Deriver"
    ensures Values(Lines(Rendered(i)), HeadNames()[n]) == [HeadValues(i)[n]]
  {
    hide Take, TakeAll, PlainLine, Field, Lines, Unlines, FullPath, Url, HashText, Values, Tidy, SquareEdged, HeadValues, Head;
    HeadIsTaken(i);
    var h, key := Head(i), HeadNames()[n];
    var front := h + DeriverLine(i);
    if i.deriver.Some? {
      DeriverIsTaken(START, h, i.deriver.value);
      TidyIsSquare(i.deriver.value);
      FieldHasNo(h, "Deriver", i.deriver.value, key);
    } else {
      assert front == h;
    }
    SigsAreTaken(START, front, i.sigs);
    LinesOfUnlines(front + SigLines(i.sigs));
    SigsHaveOther(front, i.sigs, key);
    HeadHas(i, n);
  }

  lemma HeadSquare(i: Info)
    requires TidyInfo(i)
    ensures SquareEdged(FullPath(i)) && SquareEdged(Url(i)) && SquareEdged(i.compression) && SquareEdged(HashText(i.fileHash))
    ensures SquareEdged(Decimal(i.fileSize)) && SquareEdged(HashText(i.narHash)) && SquareEdged(Decimal(i.narSize)) && SquareEdged(Join(i.references))
  {
    hide FullPath, Url, HashText, Join, SquareEdged, Decimal, OneLine;
    HashTextIsTidy(i.fileHash);
    HashTextIsTidy(i.narHash);
    DecimalIsTidy(i.fileSize);
    DecimalIsTidy(i.narSize);
    JoinIsTidy(i.references);
  }

  lemma FieldHasNo(front: seq<string>, k: string, v: string, key: string)
    requires ':' !in k && SquareEdged(v) && k != key
    ensures Values(front + [Field(k, v)], key) == Values(front, key)
  {
    hide Values, Field, SquareEdged;
    FieldHasValue(front, k, v, key);
    assert Values(front, key) + [] == Values(front, key);
  }

  /** Lines made of these names and values. */
  function FieldLines(names: seq<string>, values: seq<string>): seq<string>
    requires |names| == |values|
  {
    seq(|names|, n requires 0 <= n < |names| => Field(names[n], values[n]))
  }

  predicate Fielded(names: seq<string>, values: seq<string>) {
    |names| == |values| && forall n :: 0 <= n < |names| ==> ':' !in names[n] && SquareEdged(values[n])
  }

  /** A name that stands only at `n` has only the value there; one that stands nowhere has none. */
  lemma {:induction false} OnlyField(names: seq<string>, values: seq<string>, key: string, n: nat)
    requires Fielded(names, values) && forall i :: 0 <= i < |names| ==> (names[i] == key <==> i == n)
    ensures Values(FieldLines(names, values), key) == if n < |names| then [values[n]] else []
  {
    hide Field, SquareEdged;
    if names == [] {
      NoLines(key);
    } else {
      var last := |names| - 1;
      OnlyField(names[..last], values[..last], key, n);
      hide Values;
      assert FieldLines(names, values) == FieldLines(names[..last], values[..last]) + [Field(names[last], values[last])];
      FieldHasValue(FieldLines(names[..last], values[..last]), names[last], values[last], key);
    }
  }

  lemma NoLines(key: string)
    ensures Values([], key) == []
  {
  }

  function HeadNames(): (names: seq<string>)
    ensures |names| == 8
  {
    ["StorePath", "URL", "Compression", "FileHash", "FileSize", "NarHash", "NarSize", "References"]
  }

  function HeadValues(i: Info): (values: seq<string>)
    ensures |values| == 8
  {
    [FullPath(i), Url(i), i.compression, HashText(i.fileHash), Decimal(i.fileSize), HashText(i.narHash), Decimal(i.narSize), Join(i.references)]
  }

  lemma HeadNamesDiffer(n: nat, i: nat)
    requires 3 <= n < 5 && i < 8
    ensures |HeadNames()| == 8 && ':' !in HeadNames()[i] && (HeadNames()[i] == HeadNames()[n] <==> i == n)
  {
    assert "FileHash"[4] != "FileSize"[4];
  }

  lemma HeadValueSquare(i: Info, n: nat)
    requires TidyInfo(i) && n < 8
    ensures SquareEdged(HeadValues(i)[n])
  {
    hide FullPath, Url, HashText, Tidy, Join, SquareEdged, Decimal, TidyInfo;
    HeadSquare(i);
    if n == 0 {
      assert HeadValues(i)[0] == FullPath(i);
    } else if n < 4 {
      assert HeadValues(i)[n] == [Url(i), i.compression, HashText(i.fileHash)][n - 1];
    } else {
      assert HeadValues(i)[n] == [Decimal(i.fileSize), HashText(i.narHash), Decimal(i.narSize), Join(i.references)][n - 4];
    }
  }

  lemma HeadIsFielded(i: Info)
    requires TidyInfo(i)
    ensures Fielded(HeadNames(), HeadValues(i))
  {
    hide HeadNames, HeadValues, SquareEdged, TidyInfo;
    forall n | 0 <= n < 8
      ensures ':' !in HeadNames()[n] && SquareEdged(HeadValues(i)[n])
    {
      HeadNamesDiffer(3, n);
      HeadValueSquare(i, n);
    }
  }

  lemma HeadIsLines(i: Info)
    ensures Head(i) == FieldLines(HeadNames(), HeadValues(i))
  {
    hide FullPath, Url, HashText, Join, Decimal, Field;
  }

  lemma HeadHas(i: Info, n: nat)
    requires TidyInfo(i) && 3 <= n < 5
    ensures Values(Head(i), HeadNames()[n]) == [HeadValues(i)[n]]
  {
    hide FullPath, Url, HashText, Tidy, Join, SquareEdged, Decimal, Values, HeadNames, HeadValues, Head, FieldLines, Fielded;
    HeadIsFielded(i);
    forall j | 0 <= j < 8
      ensures HeadNames()[j] == HeadNames()[n] <==> j == n
    {
      HeadNamesDiffer(n, j);
    }
    HeadIsLines(i);
    OnlyField(HeadNames(), HeadValues(i), HeadNames()[n], n);
  }

  // ----- full paths -----

  /** `StorePath::from_full`: the directory and a slash taken off. */
  function FromFull(storeDir: string, full: string): Option<string> {
    if storeDir <= full && |full| > |storeDir| && full[|storeDir|] == '/' then Some(full[|storeDir| + 1..]) else None
  }

  /** Reading a printed path back under its own directory gives the path, and whatever reads back was printed so. */
  lemma FullPathRoundTrip(i: Info, full: string)
    ensures FromFull(i.storeDir, FullPath(i)) == Some(i.path)
    ensures FromFull(i.storeDir, full) == Some(i.path) <==> full == FullPath(i)
  {
    assert FullPath(i)[|i.storeDir| + 1..] == i.path;
    if FromFull(i.storeDir, full) == Some(i.path) {
      assert full == full[..|i.storeDir|] + "/" + full[|i.storeDir| + 1..];
    }
  }
}
