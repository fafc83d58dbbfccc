/** Draining the `STDERR_*` frames that precede every reply of the worker protocol
    (`drain_stderr`, `read_fields` and `read_remote_error` of `crates/daemon-protocol/src/connection.rs`).

    Every reader returns what it read in full, including the words the client throws away, so that
    "the frame was there" and "the frame was read" can be stated as an equivalence. */
module Stderr {
  import opened Numerals
  import opened Wire

  const NEXT: nat := 0x6f6c_6d67
  const LAST: nat := 0x616c_7473
  const ERROR: nat := 0x6378_7470
  const START_ACTIVITY: nat := 0x5354_5254
  const STOP_ACTIVITY: nat := 0x5354_4f50
  const RESULT: nat := 0x5253_4c54
  const BUILD_LOG_LINE: nat := 101

  /** A logger field. The reader takes every tag but zero as a string. */
  datatype Field = Int(v: nat) | Text(tag: nat, text: seq<byte>)

  /** One `(havePos, hint)` entry of an error's trace. */
  datatype Trace = Trace(havePos: nat, hint: seq<byte>)

  datatype Signal =
    | Next(line: seq<byte>)
    | Start(id: nat, verbosity: nat, kind: nat, description: seq<byte>, fields: seq<Field>, parent: nat)
    | Stop(id: nat)
    | Result(id: nat, kind: nat, fields: seq<Field>)
    | Last
    | Error(typ: seq<byte>, level: nat, name: seq<byte>, message: seq<byte>, havePos: nat, traces: seq<Trace>)

  // ----- layouts -----

  function FieldLayout(f: Field): Layout {
    match f
    case Int(v) => WordLayout(0) + WordLayout(v)
    case Text(tag, text) => WordLayout(tag) + Str(text)
  }

  function ManyFields(fs: seq<Field>): Layout {
    if fs == [] then [] else FieldLayout(fs[0]) + ManyFields(fs[1..])
  }

  function FieldsLayout(fs: seq<Field>): Layout {
    WordLayout(|fs|) + ManyFields(fs)
  }

  function TraceLayout(t: Trace): Layout {
    WordLayout(t.havePos) + Str(t.hint)
  }

  function ManyTraces(ts: seq<Trace>): Layout {
    if ts == [] then [] else TraceLayout(ts[0]) + ManyTraces(ts[1..])
  }

  function Tag(g: Signal): nat {
    match g
    case Next(_) => NEXT
    case Start(_, _, _, _, _, _) => START_ACTIVITY
    case Stop(_) => STOP_ACTIVITY
    case Result(_, _, _) => RESULT
    case Last => LAST
    case Error(_, _, _, _, _, _) => ERROR
  }

  function StartLayout(id: nat, verbosity: nat, kind: nat, d: seq<byte>, fs: seq<Field>, parent: nat): Layout {
    WordLayout(id) + (WordLayout(verbosity) + (WordLayout(kind) + (Str(d) + (FieldsLayout(fs) + WordLayout(parent)))))
  }

  function ResultLayout(id: nat, kind: nat, fs: seq<Field>): Layout {
    WordLayout(id) + (WordLayout(kind) + FieldsLayout(fs))
  }

  function ErrorHead(typ: seq<byte>, level: nat, name: seq<byte>, message: seq<byte>): Layout {
    Str(typ) + (WordLayout(level) + (Str(name) + Str(message)))
  }

  function ErrorTail(havePos: nat, ts: seq<Trace>): Layout {
    WordLayout(havePos) + (WordLayout(|ts|) + ManyTraces(ts))
  }

  function BodyLayout(g: Signal): Layout {
    match g
    case Next(line) => Str(line)
    case Start(id, v, k, d, fs, p) => StartLayout(id, v, k, d, fs, p)
    case Stop(id) => WordLayout(id)
    case Result(id, k, fs) => ResultLayout(id, k, fs)
    case Last => []
    case Error(t, l, n, m, h, ts) => ErrorHead(t, l, n, m) + ErrorTail(h, ts)
  }

  function SignalLayout(g: Signal): Layout {
    WordLayout(Tag(g)) + BodyLayout(g)
  }

  // ----- what a 64-bit wire can carry -----

  predicate FieldFits(f: Field) {
    match f
    case Int(v) => v < U64
    case Text(tag, text) => 0 < tag < U64 && |text| < U64
  }

  predicate FieldsFit(fs: seq<Field>) {
    |fs| < U64 && forall i :: 0 <= i < |fs| ==> FieldFits(fs[i])
  }

  predicate TraceFits(t: Trace) {
    t.havePos < U64 && |t.hint| < U64
  }

  predicate TracesFit(ts: seq<Trace>) {
    |ts| < U64 && forall i :: 0 <= i < |ts| ==> TraceFits(ts[i])
  }

  predicate SignalFits(g: Signal) {
    match g
    case Next(line) => |line| < U64
    case Start(id, v, k, d, fs, p) => id < U64 && v < U64 && k < U64 && |d| < U64 && FieldsFit(fs) && p < U64
    case Stop(id) => id < U64
    case Result(id, k, fs) => id < U64 && k < U64 && FieldsFit(fs)
    case Last => true
    case Error(t, l, n, m, h, ts) =>
      |t| < U64 && l < U64 && |n| < U64 && |m| < U64 && h < U64 && TracesFit(ts)
  }

  // ----- readers -----

  function ReadField(s: seq<byte>, at: nat): Outcome<Field> {
    var (tag, a) :- ReadWord(s, at);
    if tag == 0 then
      var (v, next) :- ReadWord(s, a);
      Done(Int(v), next)
    else
      var (text, next) :- ReadStr(s, a);
      Done(Text(tag, text), next)
  }

  function ReadManyFields(s: seq<byte>, at: nat, n: nat): (r: Outcome<seq<Field>>)
    ensures r.Done? ==> at <= r.next && |r.value| == n
    ensures r.Done? && at <= |s| ==> r.next <= |s|
    decreases n
  {
    if n == 0 then Done([], at)
    else
      var (f, a) :- ReadField(s, at);
      var (fs, next) :- ReadManyFields(s, a, n - 1);
      Done([f] + fs, next)
  }

  /** `read_fields`. */
  function ReadFields(s: seq<byte>, at: nat): (r: Outcome<seq<Field>>)
    ensures r.Done? ==> at < r.next <= |s|
  {
    var (n, a) :- ReadWord(s, at);
    ReadManyFields(s, a, n)
  }

  function ReadTrace(s: seq<byte>, at: nat): Outcome<Trace> {
    var (h, a) :- ReadWord(s, at);
    var (hint, next) :- ReadStr(s, a);
    Done(Trace(h, hint), next)
  }

  function ReadManyTraces(s: seq<byte>, at: nat, n: nat): (r: Outcome<seq<Trace>>)
    ensures r.Done? ==> at <= r.next && |r.value| == n
    ensures r.Done? && at <= |s| ==> r.next <= |s|
    decreases n
  {
    if n == 0 then Done([], at)
    else
      var (t, a) :- ReadTrace(s, at);
      var (ts, next) :- ReadManyTraces(s, a, n - 1);
      Done([t] + ts, next)
  }

  function ReadStart(s: seq<byte>, at: nat): (r: Outcome<Signal>)
    ensures r.Done? ==> at < r.next <= |s| && r.value.Start?
  {
    var (id, a) :- ReadWord(s, at);
    var (verbosity, b) :- ReadWord(s, a);
    var (kind, c) :- ReadWord(s, b);
    var (description, d) :- ReadStr(s, c);
    var (fields, e) :- ReadFields(s, d);
    var (parent, next) :- ReadWord(s, e);
    Done(Start(id, verbosity, kind, description, fields, parent), next)
  }

  function ReadResult(s: seq<byte>, at: nat): (r: Outcome<Signal>)
    ensures r.Done? ==> at < r.next <= |s| && r.value.Result?
  {
    var (id, a) :- ReadWord(s, at);
    var (kind, b) :- ReadWord(s, a);
    var (fields, next) :- ReadFields(s, b);
    Done(Result(id, kind, fields), next)
  }

  function ReadErrorHead(s: seq<byte>, at: nat): (r: Outcome<(seq<byte>, nat, seq<byte>, seq<byte>)>)
    ensures r.Done? ==> at < r.next <= |s|
  {
    var (typ, a) :- ReadStr(s, at);
    var (level, b) :- ReadWord(s, a);
    var (name, c) :- ReadStr(s, b);
    var (message, next) :- ReadStr(s, c);
    Done((typ, level, name, message), next)
  }

  function ReadErrorTail(s: seq<byte>, at: nat): (r: Outcome<(nat, seq<Trace>)>)
    ensures r.Done? ==> at < r.next <= |s|
  {
    var (havePos, a) :- ReadWord(s, at);
    var (n, b) :- ReadWord(s, a);
    var (traces, next) :- ReadManyTraces(s, b, n);
    Done((havePos, traces), next)
  }

  /** `read_remote_error`, keeping what it discards. */
  function ReadError(s: seq<byte>, at: nat): (r: Outcome<Signal>)
    ensures r.Done? ==> at < r.next <= |s| && r.value.Error?
  {
    var (h, a) :- ReadErrorHead(s, at);
    var (t, next) :- ReadErrorTail(s, a);
    Done(Error(h.0, h.1, h.2, h.3, t.0, t.1), next)
  }

  /** One turn of the drain loop's `match`. */
  function ReadSignal(s: seq<byte>, at: nat): (r: Outcome<Signal>)
    ensures r.Done? ==> at < r.next <= |s|
  {
    var (tag, a) :- ReadWord(s, at);
    if tag == NEXT then
      var (line, next) :- ReadStr(s, a);
      Done(Next(line), next)
    else if tag == START_ACTIVITY then ReadStart(s, a)
    else if tag == STOP_ACTIVITY then
      var (id, next) :- ReadWord(s, a);
      Done(Stop(id), next)
    else if tag == RESULT then ReadResult(s, a)
    else if tag == LAST then Done(Last, a)
    else if tag == ERROR then ReadError(s, a)
    else Failed(UnknownTag(tag))
  }

  // ----- every reader succeeds exactly on the layout of what it returns -----

  lemma WordEnds(s: seq<byte>, at: nat)
    ensures ReadWord(s, at).Done? ==> ReadWord(s, at).value < U64 && ReadWord(s, at).next == at + 8
  {
    if ReadWord(s, at).Done? {
      ReadWordExact(s, at, ReadWord(s, at).value, at + 8);
    }
  }

  lemma ReadFieldExact(s: seq<byte>, at: nat, f: Field, next: nat)
    ensures ReadField(s, at) == Done(f, next)
       <==> FieldFits(f) && next == at + |FieldLayout(f)| && Matches(s, at, FieldLayout(f))
  {
    hide Wire.Str, Wire.Matches, Wire.ReadStr, Wire.ReadWord, Wire.WordLayout;
    WordSize(0);
    WordEnds(s, at);
    match f
    case Int(v) =>
      WordSize(v);
      MatchesConcat(s, at, WordLayout(0), WordLayout(v));
      ReadWordExact(s, at, 0, at + 8);
      ReadWordExact(s, at + 8, v, next);
    case Text(tag, text) =>
      WordSize(tag);
      MatchesConcat(s, at, WordLayout(tag), Str(text));
      ReadWordExact(s, at, tag, at + 8);
      ReadStrExact(s, at + 8, text, next);
  }

  lemma WordSize(v: nat)
    ensures |WordLayout(v)| == 8
  {
  }

  lemma FieldEnds(s: seq<byte>, at: nat)
    ensures var r := ReadField(s, at); r.Done? ==> r.next == at + |FieldLayout(r.value)|
  {
    var r := ReadField(s, at);
    if r.Done? {
      ReadFieldExact(s, at, r.value, r.next);
    }
  }

  lemma {:induction false} ReadManyFieldsExact(s: seq<byte>, at: nat, n: nat, fs: seq<Field>, next: nat)
    requires at <= |s|
    ensures ReadManyFields(s, at, n) == Done(fs, next)
       <==> |fs| == n && (forall i :: 0 <= i < |fs| ==> FieldFits(fs[i]))
            && next == at + |ManyFields(fs)| && Matches(s, at, ManyFields(fs))
    decreases n
  {
    hide Wire.Matches, ReadField, FieldLayout, FieldFits;
    if n == 0 {
      MatchesNothing(s, at);
    } else if |fs| == n {
      var f, rest := fs[0], fs[1..];
      assert fs == [f] + rest;
      var a := at + |FieldLayout(f)|;
      MatchesConcat(s, at, FieldLayout(f), ManyFields(rest));
      ReadFieldExact(s, at, f, a);
      FieldEnds(s, at);
      if a <= |s| {
        ReadManyFieldsExact(s, a, n - 1, rest, next);
      } else {
        MatchBounds(s, at, FieldLayout(f));
      }
    }
  }

  lemma MatchesNothing(s: seq<byte>, at: nat)
    requires at <= |s|
    ensures Matches(s, at, [])
  {
  }

  lemma MatchBounds(s: seq<byte>, at: nat, l: Layout)
    ensures Matches(s, at, l) ==> at + |l| <= |s|
  {
  }

  lemma ReadFieldsExact(s: seq<byte>, at: nat, fs: seq<Field>, next: nat)
    ensures ReadFields(s, at) == Done(fs, next)
       <==> FieldsFit(fs) && next == at + |FieldsLayout(fs)| && Matches(s, at, FieldsLayout(fs))
  {
    hide Wire.Matches, Wire.ReadWord, Wire.WordLayout, ReadManyFields, ManyFields, FieldFits;
    WordSize(|fs|);
    WordEnds(s, at);
    MatchesConcat(s, at, WordLayout(|fs|), ManyFields(fs));
    ReadWordExact(s, at, |fs|, at + 8);
    ReadWordBounds(s, at);
    if at + 8 <= |s| {
      ReadManyFieldsExact(s, at + 8, |fs|, fs, next);
    } else {
      MatchBounds(s, at, WordLayout(|fs|));
    }
  }

  lemma ReadWordBounds(s: seq<byte>, at: nat)
    ensures ReadWord(s, at).Done? <==> at + 8 <= |s|
  {
  }

  lemma FieldsEnd(s: seq<byte>, at: nat)
    ensures var r := ReadFields(s, at); r.Done? ==> r.next == at + |FieldsLayout(r.value)|
  {
    var r := ReadFields(s, at);
    if r.Done? {
      ReadFieldsExact(s, at, r.value, r.next);
    }
  }

  lemma ReadTraceExact(s: seq<byte>, at: nat, t: Trace, next: nat)
    ensures ReadTrace(s, at) == Done(t, next)
       <==> TraceFits(t) && next == at + |TraceLayout(t)| && Matches(s, at, TraceLayout(t))
  {
    hide Wire.Str, Wire.Matches, Wire.ReadStr, Wire.ReadWord, Wire.WordLayout;
    WordSize(t.havePos);
    WordEnds(s, at);
    MatchesConcat(s, at, WordLayout(t.havePos), Str(t.hint));
    ReadWordExact(s, at, t.havePos, at + 8);
    ReadStrExact(s, at + 8, t.hint, next);
  }

  lemma TraceEnds(s: seq<byte>, at: nat)
    ensures var r := ReadTrace(s, at); r.Done? ==> r.next == at + |TraceLayout(r.value)|
  {
    var r := ReadTrace(s, at);
    if r.Done? {
      ReadTraceExact(s, at, r.value, r.next);
    }
  }

  lemma {:induction false} ReadManyTracesExact(s: seq<byte>, at: nat, n: nat, ts: seq<Trace>, next: nat)
    requires at <= |s|
    ensures ReadManyTraces(s, at, n) == Done(ts, next)
       <==> |ts| == n && (forall i :: 0 <= i < |ts| ==> TraceFits(ts[i]))
            && next == at + |ManyTraces(ts)| && Matches(s, at, ManyTraces(ts))
    decreases n
  {
    hide Wire.Matches, ReadTrace, TraceLayout, TraceFits;
    if n == 0 {
      MatchesNothing(s, at);
    } else if |ts| == n {
      var t, rest := ts[0], ts[1..];
      assert ts == [t] + rest;
      var a := at + |TraceLayout(t)|;
      MatchesConcat(s, at, TraceLayout(t), ManyTraces(rest));
      ReadTraceExact(s, at, t, a);
      TraceEnds(s, at);
      if a <= |s| {
        ReadManyTracesExact(s, a, n - 1, rest, next);
      } else {
        MatchBounds(s, at, TraceLayout(t));
      }
    }
  }

  lemma ReadStartExact(s: seq<byte>, at: nat, id: nat, v: nat, k: nat, d: seq<byte>, fs: seq<Field>, p: nat, next: nat)
    ensures ReadStart(s, at) == Done(Start(id, v, k, d, fs, p), next)
       <==> SignalFits(Start(id, v, k, d, fs, p)) && next == at + |StartLayout(id, v, k, d, fs, p)|
            && Matches(s, at, StartLayout(id, v, k, d, fs, p))
  {
    hide Wire.Str, Wire.Matches, Wire.ReadStr, Wire.ReadWord, Wire.WordLayout, ReadFields, FieldsLayout, FieldsFit;
    WordSize(id); WordSize(v); WordSize(k); WordSize(p);
    var tail := Str(d) + (FieldsLayout(fs) + WordLayout(p));
    MatchesConcat(s, at, WordLayout(id), WordLayout(v) + (WordLayout(k) + tail));
    MatchesConcat(s, at + 8, WordLayout(v), WordLayout(k) + tail);
    MatchesConcat(s, at + 16, WordLayout(k), tail);
    WordEnds(s, at); WordEnds(s, at + 8); WordEnds(s, at + 16);
    ReadWordExact(s, at, id, at + 8);
    ReadWordExact(s, at + 8, v, at + 16);
    ReadWordExact(s, at + 16, k, at + 24);
    var c := at + 24;
    var e := c + |Str(d)|;
    var f := e + |FieldsLayout(fs)|;
    MatchesConcat(s, c, Str(d), FieldsLayout(fs) + WordLayout(p));
    MatchesConcat(s, e, FieldsLayout(fs), WordLayout(p));
    ReadStrExact(s, c, d, e);
    ReadStrEnds(s, c);
    ReadFieldsExact(s, e, fs, f);
    FieldsEnd(s, e);
    ReadWordExact(s, f, p, next);
  }

  lemma ReadResultExact(s: seq<byte>, at: nat, id: nat, k: nat, fs: seq<Field>, next: nat)
    ensures ReadResult(s, at) == Done(Result(id, k, fs), next)
       <==> SignalFits(Result(id, k, fs)) && next == at + |ResultLayout(id, k, fs)|
            && Matches(s, at, ResultLayout(id, k, fs))
  {
    hide Wire.Matches, Wire.ReadWord, Wire.WordLayout, ReadFields, FieldsLayout, FieldsFit;
    WordSize(id); WordSize(k);
    MatchesConcat(s, at, WordLayout(id), WordLayout(k) + FieldsLayout(fs));
    MatchesConcat(s, at + 8, WordLayout(k), FieldsLayout(fs));
    WordEnds(s, at); WordEnds(s, at + 8);
    ReadWordExact(s, at, id, at + 8);
    ReadWordExact(s, at + 8, k, at + 16);
    ReadFieldsExact(s, at + 16, fs, next);
  }

  lemma ReadErrorHeadExact(s: seq<byte>, at: nat, t: seq<byte>, l: nat, n: seq<byte>, m: seq<byte>, next: nat)
    ensures ReadErrorHead(s, at) == Done((t, l, n, m), next)
       <==> |t| < U64 && l < U64 && |n| < U64 && |m| < U64
            && next == at + |ErrorHead(t, l, n, m)| && Matches(s, at, ErrorHead(t, l, n, m))
  {
    hide Wire.Str, Wire.Matches, Wire.ReadStr, Wire.ReadWord, Wire.WordLayout;
    WordSize(l);
    var a := at + |Str(t)|;
    var c := a + 8 + |Str(n)|;
    MatchesConcat(s, at, Str(t), WordLayout(l) + (Str(n) + Str(m)));
    MatchesConcat(s, a, WordLayout(l), Str(n) + Str(m));
    MatchesConcat(s, a + 8, Str(n), Str(m));
    ReadStrExact(s, at, t, a);
    ReadStrEnds(s, at);
    ReadWordExact(s, a, l, a + 8);
    WordEnds(s, a);
    ReadStrExact(s, a + 8, n, c);
    ReadStrEnds(s, a + 8);
    ReadStrExact(s, c, m, next);
  }

  lemma ReadErrorTailExact(s: seq<byte>, at: nat, h: nat, ts: seq<Trace>, next: nat)
    ensures ReadErrorTail(s, at) == Done((h, ts), next)
       <==> h < U64 && TracesFit(ts) && next == at + |ErrorTail(h, ts)| && Matches(s, at, ErrorTail(h, ts))
  {
    hide Wire.Matches, Wire.ReadWord, Wire.WordLayout, ReadManyTraces, ManyTraces, TraceFits;
    WordSize(h); WordSize(|ts|);
    MatchesConcat(s, at, WordLayout(h), WordLayout(|ts|) + ManyTraces(ts));
    MatchesConcat(s, at + 8, WordLayout(|ts|), ManyTraces(ts));
    WordEnds(s, at); WordEnds(s, at + 8);
    ReadWordExact(s, at, h, at + 8);
    ReadWordExact(s, at + 8, |ts|, at + 16);
    ReadWordBounds(s, at + 8);
    if at + 16 <= |s| {
      ReadManyTracesExact(s, at + 16, |ts|, ts, next);
    } else {
      MatchBounds(s, at + 8, WordLayout(|ts|));
    }
  }

  lemma ErrorHeadEnds(s: seq<byte>, at: nat)
    ensures var r := ReadErrorHead(s, at);
      r.Done? ==> r.next == at + |ErrorHead(r.value.0, r.value.1, r.value.2, r.value.3)|
  {
    var r := ReadErrorHead(s, at);
    if r.Done? {
      var (t, l, n, m) := r.value;
      ReadErrorHeadExact(s, at, t, l, n, m, r.next);
    }
  }

  lemma ReadErrorExact(s: seq<byte>, at: nat, g: Signal, next: nat)
    requires g.Error?
    ensures ReadError(s, at) == Done(g, next)
       <==> SignalFits(g) && next == at + |BodyLayout(g)| && Matches(s, at, BodyLayout(g))
  {
    hide Wire.Matches, ReadErrorHead, ReadErrorTail, ErrorHead, ErrorTail, TracesFit;
    var Error(t, l, n, m, h, ts) := g;
    var a := at + |ErrorHead(t, l, n, m)|;
    MatchesConcat(s, at, ErrorHead(t, l, n, m), ErrorTail(h, ts));
    ReadErrorHeadExact(s, at, t, l, n, m, a);
    ErrorHeadEnds(s, at);
    ReadErrorTailExact(s, a, h, ts, next);
  }

  /** One frame: read exactly when it is there. */
  lemma ReadSignalExact(s: seq<byte>, at: nat, g: Signal, next: nat)
    ensures ReadSignal(s, at) == Done(g, next)
       <==> SignalFits(g) && next == at + |SignalLayout(g)| && Matches(s, at, SignalLayout(g))
  {
    hide Wire.Str, Wire.Matches, Wire.ReadStr, Wire.ReadWord, Wire.WordLayout,
      ReadStart, ReadResult, ReadError, StartLayout, ResultLayout, ErrorHead, ErrorTail, FieldsFit, TracesFit;
    WordSize(Tag(g));
    var a := at + 8;
    MatchesConcat(s, at, WordLayout(Tag(g)), BodyLayout(g));
    ReadWordExact(s, at, Tag(g), a);
    WordEnds(s, at);
    match g
    case Next(line) => ReadStrExact(s, a, line, next);
    case Start(id, v, k, d, fs, p) => ReadStartExact(s, a, id, v, k, d, fs, p, next);
    case Stop(id) => WordSize(id); ReadWordExact(s, a, id, next);
    case Result(id, k, fs) => ReadResultExact(s, a, id, k, fs, next);
    case Last =>
      ReadWordBounds(s, at);
      MatchBounds(s, at, WordLayout(LAST));
      if a <= |s| {
        MatchesNothing(s, a);
      }
    case Error(t, l, n, m, h, ts) => ReadErrorExact(s, a, g, next);
  }

  // ----- the drain -----

  /** What a drain saw: the frames before it stopped, and how it stopped. */
  datatype Drained = Drained(frames: seq<Signal>, end: Outcome<()>)

  predicate IsFrame(g: Signal) {
    !g.Last? && !g.Error?
  }

  function Drain(s: seq<byte>, at: nat): Drained
    decreases |s| - at
  {
    var r := ReadSignal(s, at);
    if r.Failed? then Drained([], Failed(r.error))
    else if r.value.Last? then Drained([], Done((), r.next))
    else if r.value.Error? then Drained([], Failed(Remote(r.value.level, r.value.message)))
    else
      var rest := Drain(s, r.next);
      Drained([r.value] + rest.frames, rest.end)
  }

  function FramesLayout(gs: seq<Signal>): Layout {
    if gs == [] then [] else SignalLayout(gs[0]) + FramesLayout(gs[1..])
  }

  predicate FramesFit(gs: seq<Signal>) {
    forall i :: 0 <= i < |gs| ==> IsFrame(gs[i]) && SignalFits(gs[i])
  }

  lemma SignalEnds(s: seq<byte>, at: nat)
    ensures var r := ReadSignal(s, at);
      r.Done? ==> SignalFits(r.value) && r.next == at + |SignalLayout(r.value)|
  {
    var r := ReadSignal(s, at);
    if r.Done? {
      ReadSignalExact(s, at, r.value, r.next);
    }
  }

  /** Any closing signal: a stream holding frames and then that signal is drained up to it. */
  lemma {:induction false} DrainReaches(s: seq<byte>, at: nat, gs: seq<Signal>, g: Signal)
    requires FramesFit(gs) && SignalFits(g) && !IsFrame(g)
    requires Matches(s, at, FramesLayout(gs) + SignalLayout(g))
    ensures Drain(s, at).frames == gs
    ensures g.Last? ==> Drain(s, at).end == Done((), at + |FramesLayout(gs)| + |SignalLayout(g)|)
    ensures g.Error? ==> Drain(s, at).end == Failed(Remote(g.level, g.message))
    decreases |gs|
  {
    hide Wire.Matches, ReadSignal, SignalLayout, SignalFits;
    if gs == [] {
      assert FramesLayout(gs) + SignalLayout(g) == SignalLayout(g);
      ReadSignalExact(s, at, g, at + |SignalLayout(g)|);
    } else {
      var f, rest := gs[0], gs[1..];
      assert gs == [f] + rest;
      assert FramesLayout(gs) + SignalLayout(g) == SignalLayout(f) + (FramesLayout(rest) + SignalLayout(g));
      MatchesConcat(s, at, SignalLayout(f), FramesLayout(rest) + SignalLayout(g));
      ReadSignalExact(s, at, f, at + |SignalLayout(f)|);
      DrainReaches(s, at + |SignalLayout(f)|, rest, g);
    }
  }

  /** A drain that ends well stood on exactly the frames it reports and one STDERR_LAST. */
  lemma {:induction false} DrainSound(s: seq<byte>, at: nat)
    requires Drain(s, at).end.Done?
    ensures var d := Drain(s, at); var l := FramesLayout(d.frames) + SignalLayout(Last);
      && FramesFit(d.frames) && d.end == Done((), at + |l|) && Matches(s, at, l)
    decreases |s| - at
  {
    hide Wire.Matches, ReadSignal, SignalLayout, SignalFits;
    var r := ReadSignal(s, at);
    ReadSignalExact(s, at, r.value, r.next);
    SignalEnds(s, at);
    if r.value.Last? {
      assert FramesLayout([]) + SignalLayout(Last) == SignalLayout(Last);
    } else {
      var rest := Drain(s, r.next);
      DrainSound(s, r.next);
      var d := Drain(s, at);
      assert d.frames[1..] == rest.frames;
      assert FramesLayout(d.frames) + SignalLayout(Last)
          == SignalLayout(r.value) + (FramesLayout(rest.frames) + SignalLayout(Last));
      MatchesConcat(s, at, SignalLayout(r.value), FramesLayout(rest.frames) + SignalLayout(Last));
    }
  }

  /** The lines a caller is shown: every NEXT line, and the leading string of every build-log-line result. */
  function LineOf(g: Signal): seq<seq<byte>> {
    match g
    case Next(line) => [line]
    case Result(_, kind, fs) =>
      if kind == BUILD_LOG_LINE && |fs| > 0 && fs[0].Text? then [fs[0].text] else []
    case _ => []
  }

  function Lines(gs: seq<Signal>): seq<seq<byte>> {
    if gs == [] then [] else LineOf(gs[0]) + Lines(gs[1..])
  }

  /** Whatever frames a daemon writes before STDERR_LAST, and whatever bytes follow, the drain stops at those
      bytes having read those frames. */
  lemma DrainStopsAtReply(gs: seq<Signal>, before: seq<byte>, after: seq<byte>)
    requires FramesFit(gs)
    ensures var sent := Fill(FramesLayout(gs) + SignalLayout(Last));
      Drain(before + sent + after, |before|) == Drained(gs, Done((), |before| + |sent|))
  {
    hide Wire.Matches, Drain, FramesLayout, SignalLayout, Wire.Fill;
    var l := FramesLayout(gs) + SignalLayout(Last);
    FilledMatches(l, before, after);
    DrainReaches(before + Fill(l) + after, |before|, gs, Last);
  }

  class Client {
    const input: seq<byte>
    var pos: nat
    var log: seq<seq<byte>>

    constructor (input: seq<byte>)
      ensures this.input == input && pos == 0 && log == []
    {
      this.input := input;
      pos, log := 0, [];
    }

    /** `drain_stderr`: the log grows by the lines of the frames read, whether or not the drain ends well. */
    method DrainStderr() returns (r: Outcome<()>)
      modifies this
      ensures r == Drain(input, old(pos)).end
      ensures r.Done? ==> pos == r.next
      ensures log == old(log) + Lines(Drain(input, old(pos)).frames)
    {
      hide ReadSignal, LineOf;
      ghost var whole := Drain(input, pos);
      while true
        invariant old(pos) <= pos
        invariant Drain(input, pos).end == whole.end
        invariant log + Lines(Drain(input, pos).frames) == old(log) + Lines(whole.frames)
        decreases |input| - pos
      {
        var g := ReadSignal(input, pos);
        if g.Failed? {
          return Failed(g.error);
        }
        if g.value.Error? {
          return Failed(Remote(g.value.level, g.value.message));
        }
        if g.value.Last? {
          pos := g.next;
          return Done((), pos);
        }
        ghost var here, rest := Drain(input, pos), Drain(input, g.next);
        assert here.frames[1..] == rest.frames;
        log := log + LineOf(g.value);
        pos := g.next;
      }
    }
  }

  /** The number four characters spell, first one most significant. */
  function Spells(text: string): nat {
    if text == "" then 0 else 256 * Spells(text[..|text| - 1]) + text[|text| - 1] as int
  }

  /** The frame numbers spell their names. */
  lemma NumbersSpell()
    ensures NEXT == Spells("olmg") && LAST == Spells("alts") && ERROR == Spells("cxtp")
    ensures START_ACTIVITY == Spells("STRT") && STOP_ACTIVITY == Spells("STOP") && RESULT == Spells("RSLT")
  {
    SpellsFour("olmg");
    SpellsFour("alts");
    SpellsFour("cxtp");
    SpellsFour("STRT");
    SpellsFour("STOP");
    SpellsFour("RSLT");
  }

  lemma SpellsFour(t: string)
    requires |t| == 4
    ensures Spells(t) == ((t[0] as int * 256 + t[1] as int) * 256 + t[2] as int) * 256 + t[3] as int
  {
    assert t[..3][..2] == t[..2] && t[..2][..1] == t[..1] && t[..1][..0] == "";
    assert Spells(t[..1]) == t[0] as int;
    assert Spells(t[..2]) == 256 * Spells(t[..1]) + t[1] as int;
    assert Spells(t[..3]) == 256 * Spells(t[..2]) + t[2] as int;
  }

  /** Any other number is reported. */
  lemma UnknownTagIsReported(s: seq<byte>, at: nat)
    requires ReadWord(s, at).Done? && ReadWord(s, at).value !in {NEXT, LAST, ERROR, START_ACTIVITY, STOP_ACTIVITY, RESULT}
    ensures ReadSignal(s, at) == Failed(UnknownTag(ReadWord(s, at).value))
  {
  }

  /** The log of frames and one more: a NEXT frame adds its line, a result of type 101 its leading string, others nothing. */
  lemma {:induction false} LinesGrow(gs: seq<Signal>, g: Signal)
    ensures Lines(gs + [g]) == Lines(gs) + match g {
      case Next(line) => [line]
      case Result(_, kind, fs) => if kind == 101 && fs != [] && fs[0].Text? then [fs[0].text] else []
      case _ => []
    }
  {
    if gs == [] {
      assert gs + [g] == [g];
    } else {
      assert (gs + [g])[0] == gs[0] && (gs + [g])[1..] == gs[1..] + [g];
      LinesGrow(gs[1..], g);
    }
  }
}
