/** Computing a store path from content, and checking a push against it (`crates/server/src/store_path.rs`).

    The digests are parameters: nothing here depends on what SHA-256 computes, only on which strings are
    fed to it. Collision-freeness is asked for only of the strings two given pushes actually hash. */
module StorePaths {
  import opened Numerals
  import opened Strings
  import Base32
  import Nar
  import NarCopy
  import NarSlack

  datatype CaMethod = Text | Flat | Recursive

  /** SHA-256 of bytes, SHA-256 of a text's UTF-8, and the latter folded to twenty bytes. */
  datatype Digests = Digests(raw: seq<byte> -> seq<byte>, text: string -> seq<byte>, folded: string -> seq<byte>)

  ghost predicate WellSized(d: Digests) {
    && (forall x :: |d.raw(x)| == 32)
    && (forall x :: |d.text(x)| == 32)
    && (forall x :: |d.folded(x)| == 20)
  }

  datatype ContentAddress = ContentAddress(how: CaMethod, algo: string, hash: seq<byte>)

  datatype Rejection =
    | HashMismatch(declared: string, actual: string)
    | WrongPath(claimed: string, computed: string)
    | Unverifiable(why: string)

  datatype Verdict = Accepted | Refused(why: Rejection)

  /** What a client presents: an address, the references, and the archive. */
  datatype Push = Push(ca: ContentAddress, references: seq<string>, nar: seq<byte>)

  // ----- hexadecimal -----

  const HEX := "0123456789abcdef"

  function Hex(bytes: seq<byte>): (s: string)
    ensures |s| == 2 * |bytes|
  {
    if bytes == [] then "" else [HEX[bytes[0] / 16], HEX[bytes[0] % 16]] + Hex(bytes[1..])
  }

  /** A hexadecimal digit of either case. */
  function Nibble(c: char): Option<nat> {
    if '0' <= c <= '9' then Some(c as int - '0' as int)
    else if 'a' <= c <= 'f' then Some(10 + (c as int - 'a' as int))
    else if 'A' <= c <= 'F' then Some(10 + (c as int - 'A' as int))
    else None
  }

  /** `u8::from_str_radix(_, 16)` on two characters, which also takes a leading plus sign. */
  function HexByte(c: char, d: char): Option<byte> {
    var lo := Nibble(d);
    if lo.None? then None
    else if c == '+' then Some(lo.value)
    else
      var hi := Nibble(c);
      if hi.None? then None else Some(16 * hi.value + lo.value)
  }

  function Unhex(s: string): Option<seq<byte>> {
    if s == "" then Some([])
    else if |s| == 1 then None
    else
      var b, rest := HexByte(s[0], s[1]), Unhex(s[2..]);
      if b.None? || rest.None? then None else Some([b.value] + rest.value)
  }

  lemma NibbleOfHex(n: nat)
    requires n < 16
    ensures |HEX| == 16 && HEX[n] != '+' && Nibble(HEX[n]) == Some(n)
  {
  }

  lemma {:induction false} UnhexHex(bytes: seq<byte>)
    ensures Unhex(Hex(bytes)) == Some(bytes)
  {
    if bytes != [] {
      NibbleOfHex(bytes[0] / 16);
      NibbleOfHex(bytes[0] % 16);
      UnhexHex(bytes[1..]);
      assert Hex(bytes)[2..] == Hex(bytes[1..]);
      assert [bytes[0]] + bytes[1..] == bytes;
    }
  }

  predicate LowerHex(s: string) {
    forall i :: 0 <= i < |s| ==> s[i] in HEX
  }

  lemma HexByteExactly(c: char, d: char)
    requires HexByte(c, d).Some?
    ensures HEX[HexByte(c, d).value / 16] == c && HEX[HexByte(c, d).value % 16] == d <==> c in HEX && d in HEX
  {
    var b := HexByte(c, d).value;
    LetterValue(d);
    if c != '+' {
      LetterValue(c);
      hide Nibble;
      assert b / 16 == Nibble(c).value && b % 16 == Nibble(d).value;
    } else {
      PlusIsNoDigit(b / 16);
    }
  }

  lemma PlusIsNoDigit(n: nat)
    requires n < 16
    ensures '+' !in HEX && HEX[n] != '+'
  {
    NibbleOfHex(n);
  }

  lemma LetterValue(c: char)
    requires Nibble(c).Some?
    ensures Nibble(c).value < 16 && (HEX[Nibble(c).value] == c <==> c in HEX)
  {
    NibbleOfHex(Nibble(c).value);
    if c in HEX {
      var n :| 0 <= n < |HEX| && HEX[n] == c;
      NibbleOfHex(n);
    }
  }

  lemma PairEqual(a: char, b: char, x: string, c: char, d: char, y: string)
    ensures [a, b] + x == [c, d] + y <==> a == c && b == d && x == y
  {
    var s, t := [a, b] + x, [c, d] + y;
    assert s[0] == a && s[1] == b && s[2..] == x && t[0] == c && t[1] == d && t[2..] == y;
  }

  lemma EmptyIsLower()
    ensures LowerHex("")
  {
  }

  lemma LowerHexSplits(s: string)
    requires |s| >= 2
    ensures LowerHex(s) <==> s[0] in HEX && s[1] in HEX && LowerHex(s[2..])
  {
    assert forall i :: 2 <= i < |s| ==> s[i] == s[2..][i - 2];
  }

  /** The parser takes more than the printer writes: what it accepts prints back exactly when it is lower-case
      hexadecimal throughout. */
  lemma {:induction false} UnhexPrintsBackExactly(s: string)
    requires Unhex(s).Some?
    ensures Hex(Unhex(s).value) == s <==> LowerHex(s)
  {
    hide LowerHex, HexByte;
    if s == "" {
      assert LowerHex(s) by { EmptyIsLower(); }
    } else {
      var b, rest := HexByte(s[0], s[1]).value, Unhex(s[2..]).value;
      UnhexPrintsBackExactly(s[2..]);
      HexByteExactly(s[0], s[1]);
      var bytes := Unhex(s).value;
      assert bytes[0] == b && bytes[1..] == rest;
      assert Hex(bytes) == [HEX[b / 16], HEX[b % 16]] + Hex(rest) && s == [s[0], s[1]] + s[2..];
      PairEqual(HEX[b / 16], HEX[b % 16], Hex(rest), s[0], s[1], s[2..]);
      LowerHexSplits(s);
    }
  }

  /** Upper case and a plus sign pass. */
  lemma UnhexTakesMore()
    ensures Unhex("+A") == Some([10]) && Hex([10]) == "0a"
  {
    var ten: seq<byte> := [10];
    var s := "+A";
    assert s[2..] == "" && HexByte(s[0], s[1]) == Some(10) && Unhex("") == Some([]);
    assert Unhex(s) == Some(ten + []);
    assert ten + [] == ten;
    assert ten[1..] == [] && HEX[ten[0] / 16] == '0' && HEX[ten[0] % 16] == 'a';
    assert Hex(ten) == ['0', 'a'] + Hex([]);
  }

  // ----- store paths -----

  /** `StorePath::name`: the `<name>` of `<32-byte hash>-<name>`. */
  function NameOf(path: string): Option<string> {
    var base := AfterLast(path, '/');
    var dash := IndexOf(base, '-');
    if dash == |base| then None
    else
      var hash, name := base[..dash], base[dash + 1..];
      if Utf8Len(hash) == 32 && name != "" then Some(name) else None
  }

  /** `StorePath::hash_part`. */
  function HashPart(path: string): (r: Option<string>)
    ensures r.Some? ==> '/' !in r.value
  {
    var base := AfterLast(path, '/');
    var hash := base[..IndexOf(base, '-')];
    if Utf8Len(hash) == 32 then Some(hash) else None
  }

  /** Every name of the usual shape has its hash part. */
  lemma HashPartOf(hash: string, name: string)
    requires |hash| == 32 && (forall i :: 0 <= i < 32 ==> hash[i] as int < 0x80 && hash[i] != '-')
    requires SlashFree(hash) && SlashFree(name)
    ensures HashPart(hash + "-" + name) == Some(hash)
  {
    hide AfterLast, IndexOf, Utf8Len, SlashFree;
    assert '-' !in hash;
    DashSplits(hash, name);
    AsciiLen(hash);
  }

  /** In general: what precedes the first dash of the last segment, or all of it, exactly if that is 32 bytes. */
  lemma HashPartExactly(hash: string, name: string)
    requires SlashFree(hash) && SlashFree(name) && '-' !in hash
    ensures HashPart(hash + "-" + name) == if Utf8Len(hash) == 32 then Some(hash) else None
    ensures HashPart(hash) == if Utf8Len(hash) == 32 then Some(hash) else None
  {
    hide AfterLast, IndexOf, Utf8Len;
    AfterNone(hash, '/');
    hide SlashFree;
    IndexOfNone(hash, '-');
    DashSplits(hash, name);
    assert hash[..|hash|] == hash;
  }

  lemma DashSplits(hash: string, name: string)
    requires SlashFree(hash) && SlashFree(name) && '-' !in hash
    ensures var path := hash + "-" + name;
      AfterLast(path, '/') == path && IndexOf(path, '-') == |hash| && path[..|hash|] == hash && path[|hash| + 1..] == name
  {
    hide AfterLast, IndexOf;
    var path := hash + "-" + name;
    SlashFreeDash(hash, name);
    AfterNone(path, '/');
    hide SlashFree;
    assert path == hash + ['-'] + name;
    IndexOfPrefix(hash, '-', name);
  }

  lemma SlashFreeDash(hash: string, name: string)
    requires SlashFree(hash) && SlashFree(name)
    ensures SlashFree(hash + "-" + name)
  {
  }

  /** What `make_store_path` hashes. */
  function Description(dir: string, ty: string, hash: string, name: string): string {
    ty + ":" + hash + ":" + dir + ":" + name
  }

  function MakeStorePath(d: Digests, dir: string, ty: string, hash: string, name: string): string {
    Base32.Encoded(d.folded(Description(dir, ty, hash, name))) + "-" + name
  }

  /** The references as `make_type` appends them, each behind a colon and in full. */
  function RefSuffix(dir: string, refs: seq<string>): string {
    if refs == [] then "" else ":" + dir + "/" + refs[0] + RefSuffix(dir, refs[1..])
  }

  function MakeType(dir: string, base: string, refs: seq<string>): string {
    base + RefSuffix(dir, refs)
  }

  function Sha256Name(hash: seq<byte>): string {
    "sha256:" + Hex(hash)
  }

  /** The description of a fixed output, whose digest becomes the path's hash. */
  function FixedOutput(how: CaMethod, algo: string, hash: seq<byte>): string {
    "fixed:out:" + (if how == Recursive then "r:" else "") + algo + ":" + Hex(hash) + ":"
  }

  function StorePathFor(d: Digests, dir: string, name: string, how: CaMethod, algo: string, hash: seq<byte>, refs: seq<string>): Option<string> {
    if how == Text then
      if algo != "sha256" then None
      else Some(MakeStorePath(d, dir, MakeType(dir, "text", refs), Sha256Name(hash), name))
    else if how == Recursive && algo == "sha256" then
      Some(MakeStorePath(d, dir, MakeType(dir, "source", refs), Sha256Name(hash), name))
    else if refs != [] then None
    else
      Some(MakeStorePath(d, dir, "output:out", Sha256Name(d.text(FixedOutput(how, algo, hash))), name))
  }

  /** What the method hashes: the whole archive, or the single file inside it. */
  function HashedContent(p: Push): Option<seq<byte>> {
    if p.ca.how == Recursive then Some(p.nar) else NarCopy.FileContents(p.nar)
  }

  function Verify(d: Digests, dir: string, path: string, p: Push): Verdict {
    var name := NameOf(path);
    if name.None? then Refused(Unverifiable("not a store path"))
    else if p.ca.algo != "sha256" then Refused(Unverifiable("only sha256 is checked"))
    else
      var content := HashedContent(p);
      if content.None? then Refused(Unverifiable("not a single regular file"))
      else
        var actual := d.raw(content.value);
        if actual != p.ca.hash then Refused(HashMismatch(Hex(p.ca.hash), Hex(actual)))
        else
          var computed := StorePathFor(d, dir, name.value, p.ca.how, p.ca.algo, actual, p.references);
          if computed.None? then Refused(Unverifiable("no path for this address"))
          else if computed.value != path then Refused(WrongPath(path, computed.value))
          else Accepted
  }

  /** `verify_fixed_output`: the path a derivation's declared content hash leads to. */
  function VerifyFixedOutput(d: Digests, dir: string, drvName: string, output: string, algo: string, hashHex: string): Option<string> {
    var recursive := |algo| >= 2 && algo[..2] == "r:";
    var hashAlgo := if recursive then algo[2..] else algo;
    var name := if output == "out" then drvName else drvName + "-" + output;
    var hash := Unhex(hashHex);
    if hash.None? then None
    else StorePathFor(d, dir, name, if recursive then Recursive else Flat, hashAlgo, hash.value, [])
  }

  // ----- the type string is unambiguous -----

  predicate NoColon(s: string) {
    ':' !in s
  }

  predicate ColonFree(refs: seq<string>) {
    forall i :: 0 <= i < |refs| ==> NoColon(refs[i])
  }

  /** A reference without a colon ends where the next colon, or the text, does. */
  lemma SameHead(a: string, x: string, b: string, y: string)
    requires a + x == b + y && NoColon(a) && NoColon(b)
    requires x == "" || x[0] == ':'
    requires y == "" || y[0] == ':'
    ensures a == b && x == y
  {
    assert forall i :: 0 <= i < |a| + |x| ==> (a + x)[i] == (b + y)[i];
    assert x != "" ==> (a + x)[|a|] == ':';
    assert y != "" ==> (b + y)[|b|] == ':';
    assert a == (a + x)[..|a|] && x == (a + x)[|a|..];
    assert b == (b + y)[..|b|] && y == (b + y)[|b|..];
  }

  lemma SuffixStarts(dir: string, refs: seq<string>)
    ensures refs == [] <==> RefSuffix(dir, refs) == ""
    ensures refs != [] ==> RefSuffix(dir, refs)[0] == ':'
  {
  }

  function Separator(dir: string): string {
    ":" + dir + "/"
  }

  lemma SuffixUnfolds(dir: string, refs: seq<string>)
    requires refs != []
    ensures RefSuffix(dir, refs) == Separator(dir) + (refs[0] + RefSuffix(dir, refs[1..]))
  {
  }

  /** Colon-free reference lists are recovered from the text, whatever the store directory. */
  lemma {:induction false} RefSuffixInjective(dir: string, a: seq<string>, b: seq<string>)
    requires ColonFree(a) && ColonFree(b) && RefSuffix(dir, a) == RefSuffix(dir, b)
    ensures a == b
    decreases |a|
  {
    SuffixStarts(dir, a);
    SuffixStarts(dir, b);
    if a != [] {
      SuffixUnfolds(dir, a);
      SuffixUnfolds(dir, b);
      var sep := Separator(dir);
      var x, y := RefSuffix(dir, a[1..]), RefSuffix(dir, b[1..]);
      assert (sep + (a[0] + x))[|sep|..] == a[0] + x;
      assert (sep + (b[0] + y))[|sep|..] == b[0] + y;
      SuffixStarts(dir, a[1..]);
      SuffixStarts(dir, b[1..]);
      SameHead(a[0], x, b[0], y);
      RefSuffixInjective(dir, a[1..], b[1..]);
      assert a == [a[0]] + a[1..] && b == [b[0]] + b[1..];
    }
  }

  /** `text`, `source` and `output:out` never meet. */
  function TypeOf(dir: string, p: Push): string {
    match p.ca.how
    case Text => MakeType(dir, "text", p.references)
    case Recursive => MakeType(dir, "source", p.references)
    case Flat => "output:out"
  }

  /** The type text gives away the method and the text of the references, whatever those contain. */
  lemma TypeDetermines(dir: string, p: Push, q: Push)
    requires TypeOf(dir, p) == TypeOf(dir, q)
    ensures p.ca.how == q.ca.how
    ensures p.ca.how != Flat ==> RefSuffix(dir, p.references) == RefSuffix(dir, q.references)
  {
    assert TypeOf(dir, p)[0] == match p.ca.how { case Text => 't' case Recursive => 's' case Flat => 'o' };
    assert TypeOf(dir, q)[0] == match q.ca.how { case Text => 't' case Recursive => 's' case Flat => 'o' };
    var x, y := RefSuffix(dir, p.references), RefSuffix(dir, q.references);
    assert p.ca.how == Text ==> ("text" + x)[4..] == x && ("text" + y)[4..] == y;
    assert p.ca.how == Recursive ==> ("source" + x)[6..] == x && ("source" + y)[6..] == y;
  }

  // ----- one path, one content -----

  /** The hash a push's path is built from. */
  function PathHash(d: Digests, p: Push): seq<byte> {
    if p.ca.how == Flat then d.text(FixedOutput(Flat, "sha256", p.ca.hash)) else p.ca.hash
  }

  function DescriptionOf(d: Digests, dir: string, name: string, p: Push): string {
    Description(dir, TypeOf(dir, p), Sha256Name(PathHash(d, p)), name)
  }

  lemma AcceptedMeans(d: Digests, dir: string, path: string, p: Push)
    requires WellSized(d) && Verify(d, dir, path, p) == Accepted
    ensures NameOf(path).Some? && HashedContent(p).Some?
    ensures p.ca.hash == d.raw(HashedContent(p).value)
    ensures p.ca.how == Flat ==> p.references == []
    ensures path == Base32.Encoded(d.folded(DescriptionOf(d, dir, NameOf(path).value, p))) + "-" + NameOf(path).value
  {
    hide Base32.Encoded, NameOf, NarCopy.FileContents;
  }

  lemma HexInjective(a: seq<byte>, b: seq<byte>)
    requires Hex(a) == Hex(b)
    ensures a == b
  {
    UnhexHex(a);
    UnhexHex(b);
  }

  /** Equal descriptions under one directory and name have equal types and hashes. */
  lemma DescriptionDetermines(dir: string, name: string, t: string, a: seq<byte>, u: string, b: seq<byte>)
    requires |a| == 32 && |b| == 32
    requires Description(dir, t, Sha256Name(a), name) == Description(dir, u, Sha256Name(b), name)
    ensures t == u && a == b
  {
    hide Hex;
    var x, y := ":" + Sha256Name(a), ":" + Sha256Name(b);
    var z := ":" + dir + ":" + name;
    assert Description(dir, t, Sha256Name(a), name) == t + x + z;
    assert Description(dir, u, Sha256Name(b), name) == u + y + z;
    assert |x| == |y| == 72;
    assert t == (t + x + z)[..|t|] && u == (u + y + z)[..|u|];
    assert x == (t + x + z)[|t|..|t| + 72] && y == (u + y + z)[|u|..|u| + 72];
    assert Hex(a) == x[8..] && Hex(b) == y[8..];
    HexInjective(a, b);
  }

  lemma FixedOutputDetermines(a: seq<byte>, b: seq<byte>)
    requires FixedOutput(Flat, "sha256", a) == FixedOutput(Flat, "sha256", b)
    ensures a == b
  {
    hide Hex;
    var x, y := FixedOutput(Flat, "sha256", a), FixedOutput(Flat, "sha256", b);
    assert x == "fixed:out:sha256:" + (Hex(a) + ":") && y == "fixed:out:sha256:" + (Hex(b) + ":");
    assert Hex(a) + ":" == x[17..] && Hex(b) + ":" == y[17..];
    assert Hex(a) == (Hex(a) + ":")[..|Hex(a)|] && Hex(b) == (Hex(b) + ":")[..|Hex(b)|];
    HexInjective(a, b);
  }

  /** The digests do not collide on what these two pushes, of paths with these names, hash. */
  ghost predicate NoCollision(d: Digests, dir: string, m: string, p: Push, n: string, q: Push) {
    && (var x, y := DescriptionOf(d, dir, m, p), DescriptionOf(d, dir, n, q);
        d.folded(x) == d.folded(y) ==> x == y)
    && (var x, y := FixedOutput(Flat, "sha256", p.ca.hash), FixedOutput(Flat, "sha256", q.ca.hash);
        d.text(x) == d.text(y) ==> x == y)
    && (HashedContent(p).Some? && HashedContent(q).Some? ==>
          var x, y := HashedContent(p).value, HashedContent(q).value;
          d.raw(x) == d.raw(y) ==> x == y)
  }

  /** Both pushes are accepted at `path` and their digests do not collide. */
  ghost predicate BothAccepted(d: Digests, dir: string, path: string, p: Push, q: Push) {
    && WellSized(d) && Verify(d, dir, path, p) == Accepted && Verify(d, dir, path, q) == Accepted
    && NameOf(path).Some? && NoCollision(d, dir, NameOf(path).value, p, NameOf(path).value, q)
  }

  /** Two pushes accepted at one path agree on the method, the content that was hashed and the text of the references,
      whatever the references are. */
  lemma OnePathOneContent(d: Digests, dir: string, path: string, p: Push, q: Push)
    requires BothAccepted(d, dir, path, p, q)
    ensures p.ca.how == q.ca.how && RefSuffix(dir, p.references) == RefSuffix(dir, q.references)
    ensures HashedContent(p) == HashedContent(q) && HashedContent(p).Some?
  {
    hide Base32.Encoded, NameOf, Verify, HashedContent, Description, FixedOutput, TypeOf, Sha256Name;
    var name := NameOf(path).value;
    AcceptedMeans(d, dir, path, p);
    AcceptedMeans(d, dir, path, q);
    var x, y := DescriptionOf(d, dir, name, p), DescriptionOf(d, dir, name, q);
    SameHash(d.folded(x), d.folded(y), name);
    assert x == y;
    DescriptionDetermines(dir, name, TypeOf(dir, p), PathHash(d, p), TypeOf(dir, q), PathHash(d, q));
    TypeDetermines(dir, p, q);
    if p.ca.how == Flat {
      FixedOutputDetermines(p.ca.hash, q.ca.hash);
    }
  }

  lemma SameHash(a: seq<byte>, b: seq<byte>, name: string)
    requires |a| == 20 && |b| == 20
    requires Base32.Encoded(a) + "-" + name == Base32.Encoded(b) + "-" + name
    ensures a == b
  {
    hide Base32.Encoded;
    var x, y := Base32.Encoded(a), Base32.Encoded(b);
    Base32.EncodedValue(a);
    Base32.EncodedValue(b);
    assert x == (x + "-" + name)[..|x|] && y == (y + "-" + name)[..|y|];
    Base32.EncodedInjective(a, b);
  }

  // ----- exactly which references keep the type string unambiguous -----

  /** `sep` occurs in `s` at position `i`. */
  predicate OccursAt(s: string, sep: string, i: nat) {
    i + |sep| <= |s| && s[i..i + |sep|] == sep
  }

  predicate SepFree(dir: string, refs: seq<string>) {
    forall k, i :: 0 <= k < |refs| && 0 <= i <= |refs[k]| ==> !OccursAt(refs[k], Separator(dir), i)
  }

  /** With a colon-free directory, a separator inside `a + x` that starts inside `a` lies inside `a`. */
  lemma SameSepHead(dir: string, a: string, x: string, b: string, y: string)
    requires NoColon(dir) && a + x == b + y && |a| <= |b|
    requires x == "" || Separator(dir) <= x
    requires y == "" || Separator(dir) <= y
    requires !OccursAt(b, Separator(dir), |a|)
    ensures a == b && x == y
  {
    var sep, s := Separator(dir), a + x;
    assert x == s[|a|..] && a == s[..|a|];
    assert y == s[|b|..] && b == (b + y)[..|b|] == s[..|b|];
    assert forall off :: 0 < off < |sep| ==> sep[off] != ':';
    assert x != "" ==> sep == x[..|sep|] == s[|a|..|a| + |sep|];
    assert y != "" ==> s[|b|] == ':';
    assert x != "" && |b| < |a| + |sep| <= |s| ==> s[|b|] == s[|a|..|a| + |sep|][|b| - |a|];
    assert forall i, j :: 0 <= i <= j <= |b| ==> b[i..j] == s[i..j];
  }

  lemma {:induction false} SepFreeInjective(dir: string, a: seq<string>, b: seq<string>)
    requires NoColon(dir) && SepFree(dir, a) && SepFree(dir, b)
    requires RefSuffix(dir, a) == RefSuffix(dir, b)
    ensures a == b
    decreases |a|
  {
    SuffixStarts(dir, a);
    SuffixStarts(dir, b);
    if a != [] {
      SuffixUnfolds(dir, a);
      SuffixUnfolds(dir, b);
      var sep := Separator(dir);
      var x, y := RefSuffix(dir, a[1..]), RefSuffix(dir, b[1..]);
      assert (sep + (a[0] + x))[|sep|..] == a[0] + x;
      assert (sep + (b[0] + y))[|sep|..] == b[0] + y;
      StartsWithSeparator(dir, a[1..]);
      StartsWithSeparator(dir, b[1..]);
      if |a[0]| <= |b[0]| {
        SameSepHead(dir, a[0], x, b[0], y);
      } else {
        SameSepHead(dir, b[0], y, a[0], x);
      }
      TailSepFree(dir, a);
      TailSepFree(dir, b);
      SepFreeInjective(dir, a[1..], b[1..]);
      assert a == [a[0]] + a[1..] && b == [b[0]] + b[1..];
    }
  }

  lemma TailSepFree(dir: string, refs: seq<string>)
    requires SepFree(dir, refs) && refs != []
    ensures SepFree(dir, refs[1..])
  {
    forall k, i | 0 <= k < |refs[1..]| && 0 <= i <= |refs[1..][k]|
      ensures !OccursAt(refs[1..][k], Separator(dir), i)
    {
      assert refs[1..][k] == refs[k + 1];
    }
  }

  lemma StartsWithSeparator(dir: string, refs: seq<string>)
    ensures RefSuffix(dir, refs) == "" || Separator(dir) <= RefSuffix(dir, refs)
  {
    if refs != [] {
      SuffixUnfolds(dir, refs);
    }
  }

  lemma {:induction false} RefSuffixConcat(dir: string, a: seq<string>, b: seq<string>)
    ensures RefSuffix(dir, a + b) == RefSuffix(dir, a) + RefSuffix(dir, b)
  {
    if a == [] {
      assert a + b == b;
    } else {
      assert (a + b)[0] == a[0] && (a + b)[1..] == a[1..] + b;
      RefSuffixConcat(dir, a[1..], b);
      SuffixUnfolds(dir, a);
      SuffixUnfolds(dir, a + b);
    }
  }

  /** Cutting a reference at a separator inside it changes the list and not the text. */
  lemma CutReference(dir: string, refs: seq<string>, k: nat, i: nat) returns (cut: seq<string>)
    requires k < |refs| && OccursAt(refs[k], Separator(dir), i)
    ensures RefSuffix(dir, cut) == RefSuffix(dir, refs)
    ensures TotalLength(cut) < TotalLength(refs)
  {
    var r, sep := refs[k], Separator(dir);
    var l, m := r[..i], r[i + |sep|..];
    var pre, post := refs[..k], refs[k + 1..];
    cut := pre + ([l, m] + post);
    assert refs == pre + ([r] + post);
    RefSuffixConcat(dir, pre, [l, m] + post);
    RefSuffixConcat(dir, pre, [r] + post);
    RefSuffixConcat(dir, [l, m], post);
    RefSuffixConcat(dir, [r], post);
    assert RefSuffix(dir, [r]) == sep + r by { SuffixUnfolds(dir, [r]); }
    assert RefSuffix(dir, [m]) == sep + m by { SuffixUnfolds(dir, [m]); }
    assert RefSuffix(dir, [l, m]) == sep + (l + (sep + m)) by {
      SuffixUnfolds(dir, [l, m]);
      assert [l, m][1..] == [m];
    }
    assert r == l + (sep + m);
    TotalConcat(pre, [l, m] + post);
    TotalConcat(pre, [r] + post);
    TotalConcat([l, m], post);
    TotalConcat([r], post);
    TotalConcat([l], [m]);
    assert [l] + [m] == [l, m];
  }

  ghost function TotalLength(refs: seq<string>): nat {
    if refs == [] then 0 else |refs[0]| + TotalLength(refs[1..])
  }

  lemma {:induction false} TotalConcat(a: seq<string>, b: seq<string>)
    ensures TotalLength(a + b) == TotalLength(a) + TotalLength(b)
  {
    if a == [] {
      assert a + b == b;
    } else {
      assert (a + b)[0] == a[0] && (a + b)[1..] == a[1..] + b;
      TotalConcat(a[1..], b);
    }
  }

  /** Every list has the text of a separator-free one. */
  lemma {:induction false} SepFreeForm(dir: string, refs: seq<string>) returns (form: seq<string>)
    ensures SepFree(dir, form) && RefSuffix(dir, form) == RefSuffix(dir, refs)
    decreases TotalLength(refs)
  {
    if SepFree(dir, refs) {
      form := refs;
    } else {
      var k, i :| 0 <= k < |refs| && 0 <= i <= |refs[k]| && OccursAt(refs[k], Separator(dir), i);
      var cut := CutReference(dir, refs, k, i);
      form := SepFreeForm(dir, cut);
    }
  }

  /** Under a colon-free store directory a reference list can be told from every separator-free list
      exactly when it is separator-free itself; otherwise some other list shares its path. */
  lemma UnambiguousExactly(dir: string, refs: seq<string>)
    requires NoColon(dir)
    ensures SepFree(dir, refs)
       <==> forall others :: SepFree(dir, others) && MakeType(dir, "source", others) == MakeType(dir, "source", refs)
              ==> others == refs
  {
    if SepFree(dir, refs) {
      forall others | SepFree(dir, others) && MakeType(dir, "source", others) == MakeType(dir, "source", refs)
        ensures others == refs
      {
        var x, y := RefSuffix(dir, others), RefSuffix(dir, refs);
        assert ("source" + x)[6..] == x && ("source" + y)[6..] == y;
        SepFreeInjective(dir, others, refs);
      }
    } else {
      var form := SepFreeForm(dir, refs);
      assert SepFree(dir, form) && MakeType(dir, "source", form) == MakeType(dir, "source", refs);
      assert form != refs;
    }
  }

  /** They agree on the references when neither has a colon in one; and beside a push without separators, under a
      colon-free directory, exactly the pushes without separators do. */
  lemma OnePathOneReferencesExactly(d: Digests, dir: string, path: string, p: Push, q: Push)
    requires BothAccepted(d, dir, path, p, q)
    ensures ColonFree(p.references) && ColonFree(q.references) ==> p.references == q.references
    ensures NoColon(dir) && SepFree(dir, p.references) ==> (p.references == q.references <==> SepFree(dir, q.references))
  {
    hide BothAccepted, HashedContent, RefSuffix, SepFree;
    OnePathOneContent(d, dir, path, p, q);
    if ColonFree(p.references) && ColonFree(q.references) {
      RefSuffixInjective(dir, p.references, q.references);
    }
    if NoColon(dir) && SepFree(dir, p.references) && SepFree(dir, q.references) {
      SepFreeInjective(dir, p.references, q.references);
    }
  }

  /** References with a colon do meet: one reference spelling out two, at one path for every digest. */
  lemma ColonReferencesCollide(d: Digests, name: string, hash: seq<byte>)
    ensures var dir, one, two := "/nix/store", ["x:/nix/store/y"], ["x", "y"];
      && one != two
      && StorePathFor(d, dir, name, Recursive, "sha256", hash, one)
         == StorePathFor(d, dir, name, Recursive, "sha256", hash, two)
  {
    var dir := "/nix/store";
    var one, two := ["x:/nix/store/y"], ["x", "y"];
    SuffixUnfolds(dir, one);
    SuffixUnfolds(dir, two);
    assert one[1..] == [] && two[1..] == ["y"];
    SuffixUnfolds(dir, ["y"]);
    assert ["y"][1..] == [];
    assert RefSuffix(dir, one) == RefSuffix(dir, two);
  }

  // ----- fixed outputs -----

  /** A derivation declaring the hash of accepted content is given the path that content was accepted at. */
  lemma FixedOutputAgrees(d: Digests, dir: string, path: string, p: Push)
    requires WellSized(d) && Verify(d, dir, path, p) == Accepted
    requires p.ca.how != Text && p.references == []
    ensures NameOf(path).Some?
    ensures VerifyFixedOutput(d, dir, NameOf(path).value, "out",
              if p.ca.how == Recursive then "r:sha256" else "sha256", Hex(p.ca.hash)) == Some(path)
  {
    hide Base32.Encoded, NameOf, NarCopy.FileContents, Hex, Unhex;
    UnhexHex(p.ca.hash);
    assert "r:sha256"[..2] == "r:" && "r:sha256"[2..] == "sha256";
    assert "sha256"[..2] != "r:" by { assert "sha256"[..2][0] == 's'; }
  }

  // ----- the archives behind one path -----

  /** Two pushes accepted at one path carry the same archive always when recursive, and otherwise exactly when the bytes
      that the contents reader skips agree: the executable flag, the string after it, the padding and what trails. */
  lemma OnePathOneArchiveExactly(d: Digests, dir: string, path: string, p: Push, q: Push)
    requires BothAccepted(d, dir, path, p, q)
    ensures p.ca.how == Recursive ==> p.nar == q.nar
    ensures p.ca.how != Recursive ==>
      && NarCopy.FileContents(p.nar).Some? && NarCopy.FileContents(p.nar) == NarCopy.FileContents(q.nar)
      && (p.nar == q.nar <==> NarSlack.FlagOf(p.nar) == NarSlack.FlagOf(q.nar) && NarSlack.SameSlack(p.nar, q.nar))
  {
    hide BothAccepted, NarCopy.FileContents, NarSlack.FlagOf, NarSlack.SameSlack;
    OnePathOneContent(d, dir, path, p, q);
    if p.ca.how != Recursive {
      NarSlack.ArchivesAgreeExactly(p.nar, q.nar);
    }
  }

  /** Among archives a writer produces, only the executable flag is left open by a text or flat address. */
  lemma CanonicalArchivesAgreeExactly(d: Digests, dir: string, path: string, p: Push, q: Push, m: Nar.Node, n: Nar.Node)
    requires Nar.Sized(m) && Nar.Sized(n) && p.nar == Nar.Serialise(m) && q.nar == Nar.Serialise(n)
    requires BothAccepted(d, dir, path, p, q) && p.ca.how != Recursive
    ensures m.Regular? && n.Regular? && m.contents == n.contents
    ensures p.nar == q.nar <==> m.executable == n.executable
  {
    hide BothAccepted, NarCopy.FileContents, Nar.Serialise, Nar.Sized;
    OnePathOneContent(d, dir, path, p, q);
    NarCopy.FileContentsOfTree(m);
    NarCopy.FileContentsOfTree(n);
    if p.nar == q.nar {
      Nar.SerialiseInjective(m, n);
    }
  }

  // ----- what is accepted -----

  /** The last segment of a path: a name exactly behind 32 bytes and a dash, and not empty. */
  lemma NameOfExactly(hash: string, name: string)
    requires SlashFree(hash) && SlashFree(name) && '-' !in hash
    ensures NameOf(hash + "-" + name) == if Utf8Len(hash) == 32 && name != "" then Some(name) else None
  {
    hide AfterLast, IndexOf, Utf8Len, SlashFree;
    DashSplits(hash, name);
  }

  lemma NoDashNoName(path: string)
    requires SlashFree(path) && '-' !in path
    ensures NameOf(path) == None
  {
    hide AfterLast, IndexOf, Utf8Len;
    AfterNone(path, '/');
    IndexOfNone(path, '-');
  }

  /** What precedes the last slash does not matter. */
  lemma NameOfLastSegment(before: string, path: string)
    requires SlashFree(path)
    ensures NameOf(before + "/" + path) == NameOf(path)
  {
    hide AfterLast, IndexOf, Utf8Len;
    AfterNone(path, '/');
    assert AfterLast("/", '/') == "" by { assert '/' !in AfterLast("/", '/'); }
    AfterLastOf(before, "/", path, '/');
  }

  /** Where content of this address, name and references belongs. */
  function PathOf(d: Digests, dir: string, name: string, p: Push): string {
    Base32.Encoded(d.folded(DescriptionOf(d, dir, name, p))) + "-" + name
  }

  /** The check accepts a push exactly when its address is a sha256 of what its method hashes, a flat one without
      references, at the path that follows from them; and otherwise says which of these fails first. */
  lemma VerifyExactly(d: Digests, dir: string, path: string, p: Push)
    ensures NameOf(path).None? ==> Verify(d, dir, path, p) == Refused(Unverifiable("not a store path"))
    ensures NameOf(path).Some? && p.ca.algo != "sha256" ==> Verify(d, dir, path, p) == Refused(Unverifiable("only sha256 is checked"))
    ensures NameOf(path).Some? && p.ca.algo == "sha256" && HashedContent(p).None? ==>
      Verify(d, dir, path, p) == Refused(Unverifiable("not a single regular file"))
    ensures NameOf(path).Some? && p.ca.algo == "sha256" && HashedContent(p).Some? && p.ca.hash != d.raw(HashedContent(p).value) ==>
      Verify(d, dir, path, p) == Refused(HashMismatch(Hex(p.ca.hash), Hex(d.raw(HashedContent(p).value))))
    ensures Honest(d, p) && NameOf(path).Some? && p.ca.how == Flat && p.references != [] ==>
      Verify(d, dir, path, p) == Refused(Unverifiable("no path for this address"))
    ensures Honest(d, p) && NameOf(path).Some? && (p.ca.how == Flat ==> p.references == []) ==>
      Verify(d, dir, path, p) == if path == PathOf(d, dir, NameOf(path).value, p) then Accepted
                                 else Refused(WrongPath(path, PathOf(d, dir, NameOf(path).value, p)))
  {
    hide Base32.Encoded, NameOf, NarCopy.FileContents, Hex;
  }

  /** The address is a sha256 of what its method hashes. */
  predicate Honest(d: Digests, p: Push) {
    p.ca.algo == "sha256" && HashedContent(p).Some? && p.ca.hash == d.raw(HashedContent(p).value)
  }

  /** Every honest push, of any method, content and references, has a path it is accepted at under every name without a
      slash; a flat one without references. */
  lemma HonestPushIsAccepted(d: Digests, dir: string, name: string, p: Push)
    requires WellSized(d) && Honest(d, p) && (p.ca.how == Flat ==> p.references == []) && name != "" && SlashFree(name)
    ensures Verify(d, dir, PathOf(d, dir, name, p), p) == Accepted
    ensures NameOf(PathOf(d, dir, name, p)) == Some(name)
  {
    hide Base32.Encoded, NameOf, HashedContent, Verify, DescriptionOf, Utf8Len;
    var digest := d.folded(DescriptionOf(d, dir, name, p));
    var hash := Base32.Encoded(digest);
    Base32.EncodedValue(digest);
    EncodedIsPlain(digest);
    AsciiLen(hash);
    assert forall c :: c in hash ==> c != '-';
    NameOfExactly(hash, name);
    VerifyExactly(d, dir, PathOf(d, dir, name, p), p);
  }

  // ----- fixed outputs of any algorithm -----

  /** An output other than `out` is named after the derivation and itself, and only malformed hexadecimal has no path. */
  lemma FixedOutputNames(d: Digests, dir: string, drvName: string, output: string, algo: string, hashHex: string)
    ensures output != "out" ==>
      VerifyFixedOutput(d, dir, drvName, output, algo, hashHex) == VerifyFixedOutput(d, dir, drvName + "-" + output, "out", algo, hashHex)
    ensures VerifyFixedOutput(d, dir, drvName, output, algo, hashHex).None? <==> Unhex(hashHex).None?
  {
    hide Base32.Encoded, Unhex, Hex;
  }

  lemma {:induction false} HexHasNoColon(bytes: seq<byte>)
    ensures NoColon(Hex(bytes))
  {
    if bytes != [] {
      HexHasNoColon(bytes[1..]);
      NibbleOfHex(bytes[0] / 16);
      NibbleOfHex(bytes[0] % 16);
    }
  }

  function FixedRest(algo: string, hash: seq<byte>): string {
    algo + (":" + Hex(hash) + ":")
  }

  lemma FixedOutputShape(how: CaMethod, algo: string, hash: seq<byte>)
    ensures FixedOutput(how, algo, hash) == "fixed:out:" + if how == Recursive then "r" + (":" + FixedRest(algo, hash)) else FixedRest(algo, hash)
  {
    hide Hex;
    var h := ":" + Hex(hash) + ":";
    assert FixedOutput(how, algo, hash) == "fixed:out:" + (if how == Recursive then "r:" else "") + algo + h;
    if how == Recursive {
      assert "r" + (":" + (algo + h)) == "r:" + (algo + h);
      Reassociate("fixed:out:" + "r:", algo, h);
      Reassociate("fixed:out:", "r:", algo + h);
    } else {
      assert "fixed:out:" + "" == "fixed:out:";
      Reassociate("fixed:out:", algo, h);
    }
  }

  lemma FixedRestDetermines(algo: string, x: seq<byte>, other: string, y: seq<byte>)
    requires NoColon(algo) && NoColon(other) && FixedRest(algo, x) == FixedRest(other, y)
    ensures algo == other && x == y
  {
    hide Hex;
    var u, v := ":" + Hex(x) + ":", ":" + Hex(y) + ":";
    SameHead(algo, u, other, v);
    assert Hex(x) == u[1..|u| - 1] && Hex(y) == v[1..|v| - 1];
    HexInjective(x, y);
  }

  /** The text of a fixed output gives away its method, algorithm and hash, the algorithm being without a colon. */
  lemma FixedOutputDeterminesAll(how: CaMethod, algo: string, x: seq<byte>, how': CaMethod, other: string, y: seq<byte>)
    requires NoColon(algo) && NoColon(other) && FixedOutput(how, algo, x) == FixedOutput(how', other, y)
    ensures (how == Recursive <==> how' == Recursive) && algo == other && x == y
  {
    hide FixedOutput;
    FixedOutputShape(how, algo, x);
    FixedOutputShape(how', other, y);
    var f := "fixed:out:";
    var a, b := FixedRest(algo, x), FixedRest(other, y);
    assert forall t: string :: (f + t)[10..] == t;
    assert forall t: string :: ("r" + (":" + t))[2..] == t;
    if how == Recursive <==> how' == Recursive {
      FixedRestDetermines(algo, x, other, y);
    } else if how == Recursive {
      PrefixedIsLonger(algo, x, other, y);
    } else {
      PrefixedIsLonger(other, y, algo, x);
    }
  }

  /** The mark of a recursive output cannot be taken for an algorithm: it is followed by one more colon. */
  lemma PrefixedIsLonger(algo: string, x: seq<byte>, other: string, y: seq<byte>)
    requires NoColon(algo) && NoColon(other)
    ensures "r" + (":" + FixedRest(algo, x)) != FixedRest(other, y)
  {
    hide Hex;
    HexHasNoColon(y);
    var u, v := ":" + FixedRest(algo, x), ":" + Hex(y) + ":";
    if "r" + u == other + v {
      SameHead("r", u, other, v);
      assert FixedRest(algo, x) == u[1..] && Hex(y) + ":" == v[1..];
      SameHead(algo, ":" + Hex(x) + ":", Hex(y), ":");
    }
  }

  // ----- one hash part, one path -----

  /** What follows the references in a description. */
  function AfterType(dir: string, hash: seq<byte>, name: string): string {
    Hex(hash) + (":" + dir + ":" + name)
  }

  lemma AfterTypeDetermines(dir: string, a: seq<byte>, m: string, b: seq<byte>, n: string)
    requires |a| == 32 && |b| == 32 && AfterType(dir, a, m) == AfterType(dir, b, n)
    ensures a == b && m == n
  {
    hide Hex;
    var x, y := AfterType(dir, a, m), AfterType(dir, b, n);
    assert Hex(a) == x[..64] && Hex(b) == y[..64];
    HexInjective(a, b);
    var z := ":" + dir + ":";
    assert ":" + dir + ":" + m == z + m && ":" + dir + ":" + n == z + n;
    assert m == x[64 + |z|..] && n == y[64 + |z|..];
  }

  /** The text that ends the references cannot be taken for one: that has a slash before its first colon. */
  lemma EndIsNoReference(dir: string, x: string, y: string)
    requires NoColon(dir)
    ensures ":sha256:" + x != Separator(dir) + y
  {
    var l, r := ":sha256:" + x, Separator(dir) + y;
    assert r[|dir| + 1] == '/' && forall i :: 1 <= i <= |dir| ==> r[i] == dir[i - 1];
    assert l[7] == ':' && forall i :: 1 <= i < 8 ==> l[i] == "sha256:"[i - 1];
  }

  lemma Reassociate(a: string, b: string, c: string)
    ensures (a + b) + c == a + (b + c)
  {
  }

  lemma {:induction false} ReferencesEnd(dir: string, a: seq<string>, x: string, b: seq<string>, y: string)
    requires NoColon(dir) && ColonFree(a) && ColonFree(b)
    requires RefSuffix(dir, a) + (":sha256:" + x) == RefSuffix(dir, b) + (":sha256:" + y)
    ensures a == b && x == y
    decreases |a|
  {
    if a == [] && b == [] {
      assert x == ("" + (":sha256:" + x))[8..] && y == ("" + (":sha256:" + y))[8..];
    } else if a == [] {
      SuffixUnfolds(dir, b);
      assert RefSuffix(dir, a) + (":sha256:" + x) == ":sha256:" + x;
      Reassociate(Separator(dir), b[0] + RefSuffix(dir, b[1..]), ":sha256:" + y);
      EndIsNoReference(dir, x, b[0] + RefSuffix(dir, b[1..]) + (":sha256:" + y));
    } else if b == [] {
      SuffixUnfolds(dir, a);
      assert RefSuffix(dir, b) + (":sha256:" + y) == ":sha256:" + y;
      Reassociate(Separator(dir), a[0] + RefSuffix(dir, a[1..]), ":sha256:" + x);
      EndIsNoReference(dir, y, a[0] + RefSuffix(dir, a[1..]) + (":sha256:" + x));
    } else {
      SuffixUnfolds(dir, a);
      SuffixUnfolds(dir, b);
      var sep := Separator(dir);
      var u, v := RefSuffix(dir, a[1..]) + (":sha256:" + x), RefSuffix(dir, b[1..]) + (":sha256:" + y);
      Reassociate(sep, a[0] + RefSuffix(dir, a[1..]), ":sha256:" + x);
      Reassociate(sep, b[0] + RefSuffix(dir, b[1..]), ":sha256:" + y);
      Reassociate(a[0], RefSuffix(dir, a[1..]), ":sha256:" + x);
      Reassociate(b[0], RefSuffix(dir, b[1..]), ":sha256:" + y);
      assert (sep + (a[0] + u))[|sep|..] == a[0] + u && (sep + (b[0] + v))[|sep|..] == b[0] + v;
      SuffixStarts(dir, a[1..]);
      SuffixStarts(dir, b[1..]);
      SameHead(a[0], u, b[0], v);
      ReferencesEnd(dir, a[1..], x, b[1..], y);
      assert a == [a[0]] + a[1..] && b == [b[0]] + b[1..];
    }
  }

  lemma DescriptionTail(dir: string, ty: string, hash: seq<byte>, name: string)
    ensures Description(dir, ty, Sha256Name(hash), name) == ty + (":sha256:" + AfterType(dir, hash, name))
  {
    hide Hex;
    var h, z := Hex(hash), ":" + dir + ":" + name;
    assert Description(dir, ty, Sha256Name(hash), name) == ty + (":" + ("sha256:" + h)) + z;
    assert ":" + ("sha256:" + h) == ":sha256:" + h;
    Reassociate(ty, ":sha256:" + h, z);
    Reassociate(":sha256:", h, z);
  }

  /** A description begins with the method's word, the references and the end mark. */
  lemma DescriptionShape(d: Digests, dir: string, name: string, p: Push)
    requires p.ca.how == Flat ==> p.references == []
    ensures DescriptionOf(d, dir, name, p)
         == (match p.ca.how { case Text => "text" case Recursive => "source" case Flat => "output:out" })
            + (RefSuffix(dir, p.references) + (":sha256:" + AfterType(dir, PathHash(d, p), name)))
  {
    var base := match p.ca.how { case Text => "text" case Recursive => "source" case Flat => "output:out" };
    assert TypeOf(dir, p) == base + RefSuffix(dir, p.references);
    DescriptionTail(dir, TypeOf(dir, p), PathHash(d, p), name);
    hide PathHash, AfterType, RefSuffix;
    Reassociate(base, RefSuffix(dir, p.references), ":sha256:" + AfterType(dir, PathHash(d, p), name));
  }

  /** Under a colon-free directory and references, a description gives away everything it was made of, the name
      included, colons in the name or not. */
  lemma DescriptionDeterminesAll(d: Digests, dir: string, m: string, p: Push, n: string, q: Push)
    requires NoColon(dir) && ColonFree(p.references) && ColonFree(q.references)
    requires p.ca.how == Flat ==> p.references == []
    requires q.ca.how == Flat ==> q.references == []
    requires |PathHash(d, p)| == 32 && |PathHash(d, q)| == 32
    requires DescriptionOf(d, dir, m, p) == DescriptionOf(d, dir, n, q)
    ensures p.ca.how == q.ca.how && p.references == q.references && PathHash(d, p) == PathHash(d, q) && m == n
  {
    hide RefSuffix, AfterType, PathHash;
    DescriptionShape(d, dir, m, p);
    DescriptionShape(d, dir, n, q);
    hide DescriptionOf;
    var x, y := AfterType(dir, PathHash(d, p), m), AfterType(dir, PathHash(d, q), n);
    var u, v := RefSuffix(dir, p.references) + (":sha256:" + x), RefSuffix(dir, q.references) + (":sha256:" + y);
    assert DescriptionOf(d, dir, m, p)[0] == match p.ca.how { case Text => 't' case Recursive => 's' case Flat => 'o' };
    assert DescriptionOf(d, dir, n, q)[0] == match q.ca.how { case Text => 't' case Recursive => 's' case Flat => 'o' };
    assert p.ca.how == q.ca.how;
    assert p.ca.how == Text ==> ("text" + u)[4..] == u && ("text" + v)[4..] == v;
    assert p.ca.how == Recursive ==> ("source" + u)[6..] == u && ("source" + v)[6..] == v;
    assert p.ca.how == Flat ==> ("output:out" + u)[10..] == u && ("output:out" + v)[10..] == v;
    assert u == v;
    ReferencesEnd(dir, p.references, x, q.references, y);
    AfterTypeDetermines(dir, PathHash(d, p), m, PathHash(d, q), n);
  }

  /** The hash part of a path a push is accepted at is the text of its digest. */
  lemma AcceptedHashPart(d: Digests, dir: string, path: string, p: Push)
    requires WellSized(d) && Verify(d, dir, path, p) == Accepted
    ensures NameOf(path).Some? && HashPart(path) == Some(Base32.Encoded(d.folded(DescriptionOf(d, dir, NameOf(path).value, p))))
  {
    hide Base32.Encoded, Verify, DescriptionOf, HashedContent, AfterLast, IndexOf, Utf8Len;
    AcceptedMeans(d, dir, path, p);
    var name := NameOf(path).value;
    var digest := d.folded(DescriptionOf(d, dir, name, p));
    Base32.EncodedValue(digest);
    EncodedIsPlain(digest);
    NameIsPlain(path);
    HashPartOf(Base32.Encoded(digest), name);
  }

  lemma NameIsPlain(path: string)
    requires NameOf(path).Some?
    ensures SlashFree(NameOf(path).value)
  {
    hide IndexOf, Utf8Len;
    var base := AfterLast(path, '/');
    hide AfterLast;
    assert forall c :: c in NameOf(path).value ==> c in base;
  }

  lemma EncodedIsPlain(bytes: seq<byte>)
    ensures SlashFree(Base32.Encoded(bytes))
    ensures forall i :: 0 <= i < |Base32.Encoded(bytes)| ==> Base32.Encoded(bytes)[i] as int < 0x80 && Base32.Encoded(bytes)[i] != '-'
  {
    hide Base32.Encoded;
    Base32.EncodedValue(bytes);
    var s := Base32.Encoded(bytes);
    forall i | 0 <= i < |s|
      ensures s[i] as int < 0x80 && s[i] != '-' && s[i] != '/'
    {
      assert Base32.Position(s[i]).Some?;
      LetterIsPlain(s[i]);
    }
  }

  lemma LetterIsPlain(c: char)
    requires Base32.Position(c).Some?
    ensures c as int < 0x80 && c != '-' && c != '/'
  {
    hide Base32.PositionFrom;
    assert c in Base32.ALPHABET;
  }

  /** Under a directory with a slash, what follows a description's last one gives away the name. */
  lemma NameFollowsSlash(d: Digests, dir: string, m: string, p: Push, n: string, q: Push)
    requires !SlashFree(dir) && SlashFree(m) && SlashFree(n)
    requires DescriptionOf(d, dir, m, p) == DescriptionOf(d, dir, n, q)
    ensures m == n
  {
    hide TypeOf, PathHash, Sha256Name, AfterLast;
    var a, b := TypeOf(dir, p) + ":" + Sha256Name(PathHash(d, p)) + ":", TypeOf(dir, q) + ":" + Sha256Name(PathHash(d, q)) + ":";
    assert DescriptionOf(d, dir, m, p) == a + dir + (":" + m) && DescriptionOf(d, dir, n, q) == b + dir + (":" + n);
    AfterLastOf(a, dir, ":" + m, '/');
    AfterLastOf(b, dir, ":" + n, '/');
    var x, u, v := AfterLast(dir, '/'), ":" + m, ":" + n;
    assert u == (x + u)[|x|..] && v == (x + v)[|x|..];
    assert m == u[1..] && n == v[1..];
  }

  /** The shared key and the cross-tenant lookup go by hash part: two accepted pushes whose paths share one are at one
      path, and so agree on method, content and the text of the references, whatever the references are, when the store
      directory has a slash, as every absolute one does; without, when neither it nor a reference has a colon. */
  lemma OneHashPartOneContent(d: Digests, dir: string, path: string, p: Push, other: string, q: Push)
    requires WellSized(d) && Verify(d, dir, path, p) == Accepted && Verify(d, dir, other, q) == Accepted
    requires HashPart(path) == HashPart(other)
    requires NameOf(path).Some? && NameOf(other).Some? && NoCollision(d, dir, NameOf(path).value, p, NameOf(other).value, q)
    requires !SlashFree(dir) || (NoColon(dir) && ColonFree(p.references) && ColonFree(q.references))
    ensures path == other && p.ca.how == q.ca.how && RefSuffix(dir, p.references) == RefSuffix(dir, q.references)
    ensures HashedContent(p) == HashedContent(q) && HashedContent(p).Some?
  {
    hide Base32.Encoded, NameOf, HashPart, Verify, HashedContent, DescriptionOf, FixedOutput, ColonFree, RefSuffix;
    AcceptedHashPart(d, dir, path, p);
    AcceptedHashPart(d, dir, other, q);
    AcceptedMeans(d, dir, path, p);
    AcceptedMeans(d, dir, other, q);
    NameIsPlain(path);
    NameIsPlain(other);
    var m, n := NameOf(path).value, NameOf(other).value;
    Base32.EncodedInjective(d.folded(DescriptionOf(d, dir, m, p)), d.folded(DescriptionOf(d, dir, n, q)));
    if SlashFree(dir) {
      DescriptionDeterminesAll(d, dir, m, p, n, q);
    } else {
      NameFollowsSlash(d, dir, m, p, n, q);
    }
    OnePathOneContent(d, dir, path, p, q);
  }

  /** The condition on a directory without a slash is not idle: a reference with a colon can then spell out what a name
      with colons says elsewhere, and two different names share a description, hence a hash part, under every digest. */
  lemma ColonReferencesMeetNames(dir: string, a: seq<byte>, b: seq<byte>)
    ensures var one, two := ["x"], ["x:sha256:" + AfterType(dir, a, "n")];
      Description(dir, MakeType(dir, "source", one), Sha256Name(a), "n:sha256:" + AfterType(dir, b, "m"))
      == Description(dir, MakeType(dir, "source", two), Sha256Name(b), "m")
  {
    var one, two := ["x"], ["x:sha256:" + AfterType(dir, a, "n")];
    assert one[1..] == [] && two[1..] == [] && RefSuffix(dir, []) == "";
    SuffixUnfolds(dir, one);
    SuffixUnfolds(dir, two);
    DescriptionTail(dir, MakeType(dir, "source", one), a, "n:sha256:" + AfterType(dir, b, "m"));
    DescriptionTail(dir, MakeType(dir, "source", two), b, "m");
    NameGrows(dir, a, "n", ":sha256:" + AfterType(dir, b, "m"));
    hide AfterType, RefSuffix, Description, Separator;
    var t, u, v := "source" + Separator(dir), AfterType(dir, a, "n"), ":sha256:" + AfterType(dir, b, "m");
    assert "n" + v == "n:sha256:" + AfterType(dir, b, "m");
    assert MakeType(dir, "source", one) == t + "x" && MakeType(dir, "source", two) == t + ("x:sha256:" + u);
    assert "x:sha256:" + u == "x" + (":sha256:" + u);
    Reassociate(":sha256:", u, v);
    Reassociate(t, "x", ":sha256:" + u);
    Reassociate(t + "x", ":sha256:" + u, v);
  }

  lemma NameGrows(dir: string, hash: seq<byte>, name: string, more: string)
    ensures AfterType(dir, hash, name + more) == AfterType(dir, hash, name) + more
  {
    hide Hex;
  }
}
