/** An interactive session: guest.rs on the host, relay_pty in the guest.

    Towards the guest two host threads, one for stdin and one for signals, write frames
    to one socket under a mutex. Towards the host the guest turns PTY output into frames
    and ends with the exit code.
 */
module GuestSession {
  import opened Bytes
  import opened Frames
  import opened Outcomes

  // Two writers on one mutex

  datatype Writer = Input | Signals

  /** The frames each thread will ever want to send, in its own order. */
  datatype Plan = Plan(input: seq<Frame>, signals: seq<Frame>) {
    function Of(w: Writer): seq<Frame> {
      if w.Input? then input else signals
    }
  }

  /** `log` says whose frames were completed, in order; `partial` is the beginning of a
      frame already on the wire; `complete` that the holder has only to unlock. */
  datatype Wire = Wire(
    bytes: Blob,
    partial: Blob,
    broken: bool,
    holder: Option<Writer>,
    complete: bool,
    log: seq<Writer>)

  datatype Event =
    | Lock(w: Writer)
    | Put(w: Writer, n: nat)
    | Unlock(w: Writer)
    | Break(w: Writer)

  function Count(log: seq<Writer>, w: Writer): nat {
    if log == [] then 0 else Count(log[..|log| - 1], w) + if log[|log| - 1] == w then 1 else 0
  }

  predicate HasNext(plan: Plan, log: seq<Writer>, w: Writer) {
    Count(log, w) < |plan.Of(w)|
  }

  function Next(plan: Plan, log: seq<Writer>, w: Writer): Frame
    requires HasNext(plan, log, w)
  {
    plan.Of(w)[Count(log, w)]
  }

  /** Where the write that byte `at` belongs to ends: kind, length and payload are three
      writes. */
  function Boundary(f: Frame, at: nat): nat {
    if at < 1 then 1 else if at < 5 then 5 else 5 + |f.payload|
  }

  function Step(plan: Plan, s: Wire, e: Event): Wire
    requires AllSendable(plan.input) && AllSendable(plan.signals)
  {
    match e
    case Lock(w) =>
      if s.holder.None? && HasNext(plan, s.log, w) then s.(holder := Some(w), complete := false) else s
    case Put(w, n) =>
      if s.holder != Some(w) || s.complete || s.broken || !HasNext(plan, s.log, w) then
        s
      else
        var f, at := Next(plan, s.log, w), |s.partial|;
        if n == 0 || at + n > Boundary(f, at) || at + n > |Encode(f)| then
          s
        else if at + n < |Encode(f)| then
          s.(bytes := s.bytes + Encode(f)[at..at + n], partial := s.partial + Encode(f)[at..at + n])
        else
          s.(bytes := s.bytes + Encode(f)[at..], partial := [], complete := true, log := s.log + [w])
    case Unlock(w) =>
      if s.holder == Some(w) && s.complete then s.(holder := None) else s
    case Break(w) =>
      if s.holder == Some(w) && !s.complete then s.(holder := None, broken := true) else s
  }

  function Run(plan: Plan, events: seq<Event>): Wire
    requires AllSendable(plan.input) && AllSendable(plan.signals)
  {
    if events == [] then
      Wire([], [], false, None, false, [])
    else
      Step(plan, Run(plan, events[..|events| - 1]), events[|events| - 1])
  }

  predicate Possible(plan: Plan, log: seq<Writer>) {
    if log == [] then true else Possible(plan, log[..|log| - 1]) && HasNext(plan, log[..|log| - 1], log[|log| - 1])
  }

  /** The completed frames in the order of completion. */
  function Merge(plan: Plan, log: seq<Writer>): seq<Frame>
    requires Possible(plan, log)
  {
    if log == [] then
      []
    else
      var front := log[..|log| - 1];
      Merge(plan, front) + [Next(plan, front, log[|log| - 1])]
  }

  predicate Inv(plan: Plan, s: Wire)
    requires AllSendable(plan.input) && AllSendable(plan.signals)
  {
    && Possible(plan, s.log)
    && AllSendable(Merge(plan, s.log))
    && s.bytes == EncodeAll(Merge(plan, s.log)) + s.partial
    && ReadFrame(s.partial).Incomplete?
    && (s.holder.None? || s.complete ==> s.broken || s.partial == [])
    && (s.holder.Some? && !s.complete ==> HasNext(plan, s.log, s.holder.value))
    && (s.holder.Some? && !s.complete && !s.broken ==>
      var whole := Encode(Next(plan, s.log, s.holder.value));
      |s.partial| < |whole| && s.partial == whole[..|s.partial|])
  }

  lemma OneMoreFrame(plan: Plan, log: seq<Writer>, w: Writer)
    requires AllSendable(plan.input) && AllSendable(plan.signals)
    requires Possible(plan, log) && HasNext(plan, log, w) && AllSendable(Merge(plan, log))
    ensures Possible(plan, log + [w])
    ensures Merge(plan, log + [w]) == Merge(plan, log) + [Next(plan, log, w)]
    ensures AllSendable(Merge(plan, log + [w]))
    ensures EncodeAll(Merge(plan, log + [w])) == EncodeAll(Merge(plan, log)) + Encode(Next(plan, log, w))
  {
    var f := Next(plan, log, w);
    assert (log + [w])[..|log|] == log;
    EncodeAllOneMore(Merge(plan, log), f);
  }

  lemma PartOfFrame(whole: Blob, at: nat, n: nat)
    requires at + n <= |whole|
    ensures whole[..at] + whole[at..at + n] == whole[..at + n]
  {
  }

  lemma RestOfFrame(whole: Blob, at: nat)
    requires at <= |whole|
    ensures whole[..at] + whole[at..] == whole
    ensures forall before: Blob {:trigger before + whole} :: before + whole == before + whole + []
  {
  }

  /** A write inside a frame. */
  lemma PutKeepsInv(plan: Plan, s: Wire, w: Writer, n: nat)
    requires AllSendable(plan.input) && AllSendable(plan.signals) && Inv(plan, s)
    requires s.holder == Some(w) && !s.complete && !s.broken && HasNext(plan, s.log, w)
    requires |s.partial| + n < |Encode(Next(plan, s.log, w))|
    ensures Inv(plan, Step(plan, s, Put(w, n)))
  {
    var f, at := Next(plan, s.log, w), |s.partial|;
    PartOfFrame(Encode(f), at, n);
    PartIsIncomplete(f, at + n);
    Associative(EncodeAll(Merge(plan, s.log)), s.partial, Encode(f)[at..at + n]);
  }

  /** The write that completes a frame. */
  lemma LastPutKeepsInv(plan: Plan, s: Wire, w: Writer, n: nat)
    requires AllSendable(plan.input) && AllSendable(plan.signals) && Inv(plan, s)
    requires s.holder == Some(w) && !s.complete && !s.broken && HasNext(plan, s.log, w)
    requires |s.partial| + n >= |Encode(Next(plan, s.log, w))|
    ensures Inv(plan, Step(plan, s, Put(w, n)))
  {
    var f, at := Next(plan, s.log, w), |s.partial|;
    OneMoreFrame(plan, s.log, w);
    RestOfFrame(Encode(f), at);
    Associative(EncodeAll(Merge(plan, s.log)), s.partial, Encode(f)[at..]);
  }

  lemma StepKeepsInv(plan: Plan, s: Wire, e: Event)
    requires AllSendable(plan.input) && AllSendable(plan.signals) && Inv(plan, s)
    ensures Inv(plan, Step(plan, s, e))
  {
    if e.Put? && Step(plan, s, e) != s {
      if |s.partial| + e.n < |Encode(Next(plan, s.log, e.w))| {
        PutKeepsInv(plan, s, e.w, e.n);
      } else {
        LastPutKeepsInv(plan, s, e.w, e.n);
      }
    }
  }

  lemma {:induction false} RunKeepsInv(plan: Plan, events: seq<Event>)
    requires AllSendable(plan.input) && AllSendable(plan.signals)
    ensures Inv(plan, Run(plan, events))
  {
    if events != [] {
      RunKeepsInv(plan, events[..|events| - 1]);
      StepKeepsInv(plan, Run(plan, events[..|events| - 1]), events[|events| - 1]);
    }
  }

  /** The frames of `w` in a merged sequence. */
  function Project(frames: seq<Frame>, log: seq<Writer>, w: Writer): seq<Frame>
    requires |frames| == |log|
  {
    if log == [] then
      []
    else
      var n := |log| - 1;
      Project(frames[..n], log[..n], w) + if log[n] == w then [frames[n]] else []
  }

  lemma ProjectOneMore(frames: seq<Frame>, f: Frame, log: seq<Writer>, last: Writer, w: Writer)
    requires |frames| == |log|
    ensures Project(frames + [f], log + [last], w) == Project(frames, log, w) + if last == w then [f] else []
  {
    assert (frames + [f])[..|log|] == frames && (log + [last])[..|log|] == log;
  }

  lemma PrefixOneMore(frames: seq<Frame>, k: nat)
    requires k < |frames|
    ensures frames[..k] + [frames[k]] == frames[..k + 1]
  {
  }

  lemma {:induction false} MergeKeepsOrder(plan: Plan, log: seq<Writer>, w: Writer)
    requires Possible(plan, log)
    ensures |Merge(plan, log)| == |log| && Count(log, w) <= |plan.Of(w)|
    ensures Project(Merge(plan, log), log, w) == plan.Of(w)[..Count(log, w)]
  {
    if log != [] {
      var front, last := log[..|log| - 1], log[|log| - 1];
      assert front + [last] == log;
      MergeKeepsOrder(plan, front, w);
      ProjectOneMore(Merge(plan, front), Next(plan, front, last), front, last, w);
      if last == w {
        PrefixOneMore(plan.Of(w), Count(front, w));
      }
    }
  }

  /** Whatever the interleaving of the two threads and however their writes are cut, what
      is on the wire decodes to a merge that keeps the order of each thread, plus at most
      the beginning of one frame. */
  lemma WireIsMerge(plan: Plan, events: seq<Event>)
    requires AllSendable(plan.input) && AllSendable(plan.signals)
    ensures
      var s := Run(plan, events);
      var decoded := ReadAll(s.bytes).0;
      && |decoded| == |s.log|
      && (forall w :: Count(s.log, w) <= |plan.Of(w)| && Project(decoded, s.log, w) == plan.Of(w)[..Count(s.log, w)])
      && ReadAll(s.bytes).1 == s.partial
  {
    RunKeepsInv(plan, events);
    var s := Run(plan, events);
    ReadAllOfEncoded(Merge(plan, s.log), s.partial);
    forall w
      ensures |Merge(plan, s.log)| == |s.log| && Count(s.log, w) <= |plan.Of(w)|
      ensures Project(Merge(plan, s.log), s.log, w) == plan.Of(w)[..Count(s.log, w)]
    {
      MergeKeepsOrder(plan, s.log, w);
    }
  }

  // The mutex never blocks a session

  lemma RunOneMore(plan: Plan, events: seq<Event>, e: Event)
    requires AllSendable(plan.input) && AllSendable(plan.signals)
    ensures Run(plan, events + [e]) == Step(plan, Run(plan, events), e)
  {
    assert (events + [e])[..|events|] == events;
  }

  lemma Continued(events: seq<Event>, first: seq<Event>, rest: seq<Event>)
    ensures events + (first + rest) == events + first + rest
  {
  }

  /** Bytes of the frame at hand that are not on the wire yet. */
  function Missing(plan: Plan, s: Wire): nat
    requires AllSendable(plan.input) && AllSendable(plan.signals)
  {
    if s.holder.None? || !HasNext(plan, s.log, s.holder.value) then 0
    else
      var whole := |Encode(Next(plan, s.log, s.holder.value))|;
      if |s.partial| < whole then whole - |s.partial| else 0
  }

  /** Whoever holds the mutex can complete its frame, one byte at a time if need be. */
  lemma {:induction false} FinishFrame(plan: Plan, events: seq<Event>, w: Writer) returns (more: seq<Event>)
    requires AllSendable(plan.input) && AllSendable(plan.signals)
    requires
      var s := Run(plan, events);
      s.holder == Some(w) && !s.complete && !s.broken
    ensures
      var s, t := Run(plan, events), Run(plan, events + more);
      t.holder == Some(w) && t.complete && !t.broken && t.log == s.log + [w] && t.partial == []
    decreases Missing(plan, Run(plan, events))
  {
    RunKeepsInv(plan, events);
    var e := Put(w, 1);
    RunOneMore(plan, events, e);
    if Missing(plan, Run(plan, events)) == 1 {
      more := [e];
    } else {
      var rest := FinishFrame(plan, events + [e], w);
      more := [e] + rest;
      Continued(events, [e], rest);
    }
  }

  /** The mutex is free and no frame has been cut. */
  predicate Idle(s: Wire) {
    s.holder.None? && !s.broken
  }

  lemma Release(plan: Plan, events: seq<Event>) returns (more: seq<Event>)
    requires AllSendable(plan.input) && AllSendable(plan.signals) && !Run(plan, events).broken
    ensures Idle(Run(plan, events + more))
    ensures
      var s, t := Run(plan, events), Run(plan, events + more);
      t.log == if s.holder.None? || s.complete then s.log else s.log + [s.holder.value]
  {
    var s := Run(plan, events);
    more := [];
    assert events + more == events;
    if s.holder.Some? {
      if !s.complete {
        more := FinishFrame(plan, events, s.holder.value);
      }
      RunOneMore(plan, events + more, Unlock(s.holder.value));
      Continued(events, more, [Unlock(s.holder.value)]);
      more := more + [Unlock(s.holder.value)];
    }
  }

  lemma SendNext(plan: Plan, events: seq<Event>, w: Writer) returns (more: seq<Event>)
    requires AllSendable(plan.input) && AllSendable(plan.signals)
    requires Idle(Run(plan, events)) && HasNext(plan, Run(plan, events).log, w)
    ensures Idle(Run(plan, events + more)) && Run(plan, events + more).log == Run(plan, events).log + [w]
  {
    RunOneMore(plan, events, Lock(w));
    var rest := Release(plan, events + [Lock(w)]);
    more := [Lock(w)] + rest;
    Continued(events, [Lock(w)], rest);
  }

  function Unsent(plan: Plan, log: seq<Writer>, w: Writer): nat {
    if HasNext(plan, log, w) then |plan.Of(w)| - Count(log, w) else 0
  }

  lemma OneFewerUnsent(plan: Plan, log: seq<Writer>, w: Writer)
    requires HasNext(plan, log, w)
    ensures Unsent(plan, log + [w], Input) + Unsent(plan, log + [w], Signals) <
      Unsent(plan, log, Input) + Unsent(plan, log, Signals)
  {
    assert (log + [w])[..|log|] == log;
  }

  lemma {:induction false} SendRest(plan: Plan, events: seq<Event>) returns (more: seq<Event>)
    requires AllSendable(plan.input) && AllSendable(plan.signals) && Idle(Run(plan, events))
    ensures Idle(Run(plan, events + more))
    ensures forall w :: !HasNext(plan, Run(plan, events + more).log, w)
    decreases Unsent(plan, Run(plan, events).log, Input) + Unsent(plan, Run(plan, events).log, Signals)
  {
    var log := Run(plan, events).log;
    if !HasNext(plan, log, Input) && !HasNext(plan, log, Signals) {
      more := [];
      assert events + more == events;
    } else {
      var w := if HasNext(plan, log, Input) then Input else Signals;
      var first := SendNext(plan, events, w);
      OneFewerUnsent(plan, log, w);
      var rest := SendRest(plan, events + first);
      more := first + rest;
      Continued(events, first, rest);
    }
  }

  lemma NothingUnsent(plan: Plan, events: seq<Event>, w: Writer)
    requires AllSendable(plan.input) && AllSendable(plan.signals)
    requires !HasNext(plan, Run(plan, events).log, w)
    ensures
      var s := Run(plan, events);
      var decoded := ReadAll(s.bytes).0;
      |decoded| == |s.log| && Project(decoded, s.log, w) == plan.Of(w)
  {
    RunKeepsInv(plan, events);
    var s := Run(plan, events);
    ReadAllOfEncoded(Merge(plan, s.log), s.partial);
    MergeKeepsOrder(plan, s.log, w);
    assert plan.Of(w)[..|plan.Of(w)|] == plan.Of(w);
  }

  /** No deadlock: as long as no write has failed, every run can be continued until all
      frames of both threads have arrived. */
  lemma NothingBlocks(plan: Plan, events: seq<Event>) returns (more: seq<Event>)
    requires AllSendable(plan.input) && AllSendable(plan.signals) && !Run(plan, events).broken
    ensures
      var s := Run(plan, events + more);
      var decoded := ReadAll(s.bytes).0;
      Idle(s) && |decoded| == |s.log| && forall w :: Project(decoded, s.log, w) == plan.Of(w)
  {
    var first := Release(plan, events);
    var rest := SendRest(plan, events + first);
    more := first + rest;
    Continued(events, first, rest);
    NothingUnsent(plan, events + more, Input);
    NothingUnsent(plan, events + more, Signals);
    forall w
      ensures Project(ReadAll(Run(plan, events + more).bytes).0, Run(plan, events + more).log, w) == plan.Of(w)
    {
      assert w.Input? || w.Signals?;
    }
  }

  /** The payloads of all frames of one kind, in order. */
  function PayloadOf(frames: seq<Frame>, kind: StreamKind): Blob {
    if frames == [] then
      []
    else
      (if frames[0].kind == kind then frames[0].payload else []) + PayloadOf(frames[1..], kind)
  }

  lemma {:induction false} PayloadOfConcat(a: seq<Frame>, b: seq<Frame>, kind: StreamKind)
    ensures PayloadOf(a + b, kind) == PayloadOf(a, kind) + PayloadOf(b, kind)
  {
    if a == [] {
      assert a + b == b && [] + PayloadOf(b, kind) == PayloadOf(b, kind);
    } else {
      PayloadOfConcat(a[1..], b, kind);
      assert (a + b)[1..] == a[1..] + b;
      Associative(if a[0].kind == kind then a[0].payload else [], PayloadOf(a[1..], kind), PayloadOf(b, kind));
    }
  }

  lemma PayloadOfNext(frames: seq<Frame>, f: Frame, kind: StreamKind)
    ensures PayloadOf(frames + [f], kind) == PayloadOf(frames, kind) + if f.kind == kind then f.payload else []
  {
    PayloadOfConcat(frames, [f], kind);
    assert PayloadOf([f], kind) == (if f.kind == kind then f.payload else []) + [];
  }

  predicate OnlyKind(frames: seq<Frame>, kind: StreamKind) {
    forall i :: 0 <= i < |frames| ==> frames[i].kind == kind
  }

  predicate NoKind(frames: seq<Frame>, kind: StreamKind) {
    forall i :: 0 <= i < |frames| ==> frames[i].kind != kind
  }

  lemma PayloadOfPrefix(frames: seq<Frame>, k: nat, kind: StreamKind)
    requires k < |frames|
    ensures PayloadOf(frames[..k + 1], kind) ==
      PayloadOf(frames[..k], kind) + if frames[k].kind == kind then frames[k].payload else []
  {
    assert frames[..k + 1] == frames[..k] + [frames[k]];
    PayloadOfNext(frames[..k], frames[k], kind);
  }

  lemma {:induction false} MergedInput(plan: Plan, log: seq<Writer>)
    requires Possible(plan, log) && OnlyKind(plan.input, Stdin) && NoKind(plan.signals, Stdin)
    ensures Count(log, Input) <= |plan.input|
    ensures PayloadOf(Merge(plan, log), Stdin) == PayloadOf(plan.input[..Count(log, Input)], Stdin)
  {
    if log != [] {
      var front, w := log[..|log| - 1], log[|log| - 1];
      MergedInput(plan, front);
      PayloadOfNext(Merge(plan, front), Next(plan, front, w), Stdin);
      if w == Input {
        PayloadOfPrefix(plan.input, Count(front, Input), Stdin);
      }
    }
  }

  lemma PayloadOfPrefixes(a: seq<Frame>, b: seq<Frame>, kind: StreamKind)
    requires a <= b
    ensures PayloadOf(a, kind) <= PayloadOf(b, kind)
  {
    PayloadOfConcat(a, b[|a|..], kind);
    assert a + b[|a|..] == b;
  }

  /** The guest sees a prefix of what the user typed, in order, with nothing added by the
      signals sent in between. */
  lemma InputArrivesInOrder(plan: Plan, events: seq<Event>)
    requires AllSendable(plan.input) && AllSendable(plan.signals)
    requires OnlyKind(plan.input, Stdin) && NoKind(plan.signals, Stdin)
    ensures PayloadOf(ReadAll(Run(plan, events).bytes).0, Stdin) <= PayloadOf(plan.input, Stdin)
  {
    var s := Run(plan, events);
    RunKeepsInv(plan, events);
    ReadAllOfEncoded(Merge(plan, s.log), s.partial);
    MergedInput(plan, s.log);
    PayloadOfPrefixes(plan.input[..Count(s.log, Input)], plan.input, Stdin);
  }

  lemma {:induction false} ReadAllStarts(frames: seq<Frame>, rest: Blob)
    requires AllSendable(frames)
    ensures frames <= ReadAll(Stacked(frames, rest)).0
  {
    if frames != [] {
      var bytes := Stacked(frames[1..], rest);
      ReadAllStarts(frames[1..], rest);
      FrameRoundTrip(frames[0], bytes);
      var later := ReadAll(bytes).0;
      assert ReadAll(Stacked(frames, rest)).0 == [frames[0]] + later;
      assert later == frames[1..] + later[|frames| - 1..];
    }
  }

  lemma TakenIsPrefix(bytes: Blob, taken: seq<Frame>, rest: Blob)
    requires AllSendable(taken) && bytes == EncodeAll(taken) + rest
    ensures taken <= ReadAll(bytes).0
  {
    StackedIsEncoded(taken, rest);
    ReadAllStarts(taken, rest);
  }

  /** Whatever frames the guest has taken from the wire so far, the command has been fed a
      prefix of what the user typed. */
  lemma FedIsTyped(plan: Plan, events: seq<Event>, taken: seq<Frame>)
    requires AllSendable(plan.input) && AllSendable(plan.signals)
    requires OnlyKind(plan.input, Stdin) && NoKind(plan.signals, Stdin)
    requires AllSendable(taken) && EncodeAll(taken) <= Run(plan, events).bytes
    ensures PayloadOf(taken, Stdin) <= PayloadOf(plan.input, Stdin)
  {
    InputArrivesInOrder(plan, events);
    var bytes := Run(plan, events).bytes;
    TakenIsPrefix(bytes, taken, bytes[|EncodeAll(taken)|..]);
    PayloadOfPrefixes(taken, ReadAll(bytes).0, Stdin);
  }

  // What the signal thread sends

  const SIGHUP := 1
  const SIGINT := 2
  const SIGQUIT := 3
  const SIGTERM := 15
  const SIGWINCH := 28

  function BigEndian16(n: nat): Blob
    requires n < U16
  {
    [(n / 0x100) as byte, (n % 0x100) as byte]
  }

  function FromBigEndian16(b: Blob): nat
    requires |b| == 2
  {
    b[0] as nat * 0x100 + b[1] as nat
  }

  /** `forward_terminal_signals`. */
  function SignalFrame(signal: int, rows: nat, cols: nat): Frame
    requires signal in {SIGINT, SIGTERM, SIGHUP, SIGWINCH} && rows < U16 && cols < U16
  {
    if signal == SIGWINCH then
      Frame(Resize, BigEndian16(rows) + BigEndian16(cols))
    else
      Frame(StreamKind.Signal, BigEndian(TwosComplement(signal)))
  }

  datatype Effect = Feed(input: Blob) | Window(rows: nat, cols: nat) | Kill(signal: int) | Reject

  /** What relay_pty does with a frame: `master.write_all`, `resize_pty`, `signal_child`. */
  function GuestEffect(f: Frame): Effect {
    match f.kind
    case Stdin => Feed(f.payload)
    case Resize =>
      if |f.payload| != 4 then
        Reject
      else
        var rows, cols := FromBigEndian16(f.payload[..2]), FromBigEndian16(f.payload[2..]);
        Window(if rows == 0 then 1 else rows, if cols == 0 then 1 else cols)
    case Signal =>
      if |f.payload| != 4 then
        Reject
      else
        var signal := FromTwosComplement(FromBigEndian(f.payload));
        if signal in {SIGINT, SIGTERM, SIGHUP, SIGQUIT} then Kill(signal) else Reject
    case _ => Reject
  }

  /** The guest accepts every frame of the signal thread and acts on the same signal or
      the same window size, at least one row and one column. */
  lemma SignalsAreUnderstood(signal: int, rows: nat, cols: nat)
    requires signal in {SIGINT, SIGTERM, SIGHUP, SIGWINCH} && rows < U16 && cols < U16
    ensures Sendable(SignalFrame(signal, rows, cols)) && !SignalFrame(signal, rows, cols).kind.Stdin?
    ensures GuestEffect(SignalFrame(signal, rows, cols)) ==
      if signal == SIGWINCH then Window(if rows == 0 then 1 else rows, if cols == 0 then 1 else cols) else Kill(signal)
  {
    var f := SignalFrame(signal, rows, cols);
    if signal == SIGWINCH {
      assert f.payload[..2] == BigEndian16(rows) && f.payload[2..] == BigEndian16(cols);
    } else {
      SignedRoundTrip(signal);
    }
  }

  predicate Accepted(frames: seq<Frame>) {
    forall i :: 0 <= i < |frames| ==> !GuestEffect(frames[i]).Reject?
  }

  /** The signals and the last window size that `frames` tell the guest. */
  function SignalsOf(frames: seq<Frame>): seq<int> {
    if frames == [] then
      []
    else
      var n := |frames| - 1;
      var effect := GuestEffect(frames[n]);
      SignalsOf(frames[..n]) + if effect.Kill? then [effect.signal] else []
  }

  function WindowOf(frames: seq<Frame>, initial: (nat, nat)): (nat, nat) {
    if frames == [] then
      initial
    else
      var n := |frames| - 1;
      var effect := GuestEffect(frames[n]);
      if effect.Window? then (effect.rows, effect.cols) else WindowOf(frames[..n], initial)
  }

  /** Nothing but whole frames that the guest accepts. */
  predicate Understood(bytes: Blob)
    decreases |bytes|
  {
    bytes == [] ||
    match ReadFrame(bytes)
    case Got(f, rest) => !GuestEffect(f).Reject? && Understood(rest)
    case _ => false
  }

  lemma {:induction false} AcceptedIsUnderstood(frames: seq<Frame>)
    requires AllSendable(frames) && Accepted(frames)
    ensures Understood(EncodeAll(frames))
  {
    if frames != [] {
      AcceptedIsUnderstood(frames[1..]);
      FrameRoundTrip(frames[0], EncodeAll(frames[1..]));
    }
  }

  lemma {:induction false} MergeIsAccepted(plan: Plan, log: seq<Writer>)
    requires Possible(plan, log) && Accepted(plan.input) && Accepted(plan.signals)
    ensures Accepted(Merge(plan, log))
  {
    if log != [] {
      MergeIsAccepted(plan, log[..|log| - 1]);
    }
  }

  /** The guest understands everything the two threads send, in whichever order, up to a
      frame that is still incomplete. */
  lemma WireIsUnderstood(plan: Plan, events: seq<Event>)
    requires AllSendable(plan.input) && AllSendable(plan.signals)
    requires OnlyKind(plan.input, Stdin) && Accepted(plan.signals)
    ensures
      var s := Run(plan, events);
      && |s.partial| <= |s.bytes| && s.bytes[|s.bytes| - |s.partial|..] == s.partial
      && Understood(s.bytes[..|s.bytes| - |s.partial|])
  {
    RunKeepsInv(plan, events);
    var s := Run(plan, events);
    var whole := EncodeAll(Merge(plan, s.log));
    assert s.bytes[..|whole|] == whole;
    MergeIsAccepted(plan, s.log);
    AcceptedIsUnderstood(Merge(plan, s.log));
  }

  // Guest to host

  datatype ExitStatus = Exited(code: int) | Signalled(signal: int)

  predicate Legal(status: ExitStatus) {
    match status
    case Exited(code) => 0 <= code < 256
    case Signalled(signal) => 0 < signal < 128
  }

  /** `exit_code`. */
  function ExitCode(status: ExitStatus): (code: int)
    requires Legal(status)
    ensures 0 <= code < 256
  {
    match status
    case Exited(code) => code
    case Signalled(signal) => 128 + signal
  }

  /** What the host can tell from a code: the status itself, except that a command that
      exits with 128 + n looks like one killed by signal n. */
  lemma ExitCodeTells(a: ExitStatus, b: ExitStatus)
    requires Legal(a) && Legal(b)
    ensures ExitCode(a) == ExitCode(b) <==>
      || a == b
      || (a.Exited? && b.Signalled? && a.code == 128 + b.signal)
      || (a.Signalled? && b.Exited? && b.code == 128 + a.signal)
  {
  }

  function ExitFrame(code: int): (f: Frame)
    requires -0x8000_0000 <= code < 0x8000_0000
    ensures Sendable(f)
  {
    Frame(Exit, BigEndian(TwosComplement(code)))
  }

  /** What the host printed, and how its loop ended. */
  datatype Ending = Code(code: int) | Lost | Invalid

  datatype View = View(out: Blob, err: Blob, ending: Ending)

  function ExitEnding(payload: Blob): Ending {
    if |payload| == 4 then Code(FromTwosComplement(FromBigEndian(payload))) else Invalid
  }

  /** The reader loop of `interactive_exec` as a function of the bytes received. */
  function HostView(received: Blob): View
    decreases |received|
  {
    match ReadFrame(received)
    case Incomplete => View([], [], Lost)
    case Refused => View([], [], Lost)
    case Got(f, rest) =>
      match f.kind
      case Stdout => var v := HostView(rest); v.(out := f.payload + v.out)
      case Stderr => var v := HostView(rest); v.(err := f.payload + v.err)
      case Exit =>
        View([], [], ExitEnding(f.payload))
      case _ => View([], [], Invalid)
  }

  /** `interactive_exec`, from the first frame on. */
  method HostLoop(received: Blob) returns (view: View)
    ensures view == HostView(received)
  {
    var out: Blob, err: Blob, rest := [], [], received;
    while true
      invariant HostView(received) ==
        var v := HostView(rest); v.(out := out + v.out, err := err + v.err)
      decreases |rest|
    {
      var reading := ReadFrame(rest);
      if !reading.Got? {
        return View(out, err, Lost);
      }
      var f := reading.frame;
      ghost var later := HostView(reading.rest);
      match f.kind {
        case Stdout =>
          assert out + (f.payload + later.out) == out + f.payload + later.out;
          out := out + f.payload;
        case Stderr =>
          assert err + (f.payload + later.err) == err + f.payload + later.err;
          err := err + f.payload;
        case Exit =>
          return View(out, err, ExitEnding(f.payload));
        case _ =>
          return View(out, err, Invalid);
      }
      rest := reading.rest;
    }
  }

  lemma HostSeesOutput(f: Frame, tail: Blob)
    requires Sendable(f) && (f.kind.Stdout? || f.kind.Stderr?)
    ensures HostView(Encode(f) + tail) == PrintedFirst(f, HostView(tail))
  {
    FrameRoundTrip(f, tail);
  }

  lemma HostSeesExit(code: int, rest: Blob)
    requires -0x8000_0000 <= code < 0x8000_0000
    ensures HostView(Encode(ExitFrame(code)) + rest) == View([], [], Code(code))
  {
    FrameRoundTrip(ExitFrame(code), rest);
    SignedRoundTrip(code);
  }

  function PrintedFirst(f: Frame, v: View): View {
    if f.kind.Stdout? then v.(out := f.payload + v.out) else v.(err := f.payload + v.err)
  }

  /** Output frames printed before `v`. */
  function Printed(frames: seq<Frame>, v: View): View {
    if frames == [] then v else PrintedFirst(frames[0], Printed(frames[1..], v))
  }

  lemma {:induction false} PrintedIsPayload(frames: seq<Frame>, v: View)
    requires forall i :: 0 <= i < |frames| ==> frames[i].kind.Stdout? || frames[i].kind.Stderr?
    ensures Printed(frames, v) ==
      View(PayloadOf(frames, Stdout) + v.out, PayloadOf(frames, Stderr) + v.err, v.ending)
  {
    if frames == [] {
      assert [] + v.out == v.out && [] + v.err == v.err;
    } else {
      PrintedIsPayload(frames[1..], v);
      Associative(frames[0].payload, PayloadOf(frames[1..], Stdout), v.out);
      Associative(frames[0].payload, PayloadOf(frames[1..], Stderr), v.err);
      Associative([], PayloadOf(frames[1..], Stdout), v.out);
      Associative([], PayloadOf(frames[1..], Stderr), v.err);
    }
  }

  lemma {:induction false} HostPrints(frames: seq<Frame>, tail: Blob)
    requires AllSendable(frames)
    requires forall i :: 0 <= i < |frames| ==> frames[i].kind.Stdout? || frames[i].kind.Stderr?
    ensures HostView(Stacked(frames, tail)) == Printed(frames, HostView(tail))
  {
    if frames != [] {
      HostPrints(frames[1..], tail);
      HostSeesOutput(frames[0], Stacked(frames[1..], tail));
    }
  }

  /** The host prints exactly the output frames and returns exactly the code sent. */
  lemma HostSees(frames: seq<Frame>, code: int, rest: Blob)
    requires AllSendable(frames) && -0x8000_0000 <= code < 0x8000_0000
    requires forall i :: 0 <= i < |frames| ==> frames[i].kind.Stdout? || frames[i].kind.Stderr?
    ensures HostView(EncodeAll(frames) + (Encode(ExitFrame(code)) + rest)) ==
      View(PayloadOf(frames, Stdout), PayloadOf(frames, Stderr), Code(code))
  {
    var last := Encode(ExitFrame(code)) + rest;
    HostSeesExit(code, rest);
    HostPrints(frames, last);
    PrintedIsPayload(frames, View([], [], Code(code)));
    StackedIsEncoded(frames, last);
  }

  predicate OutputFrame(f: Frame) {
    f.kind.Stdout? || f.kind.Stderr?
  }

  /** `frames[..n]` carry output, and what follows, if anything, does not. */
  predicate OutputUpTo(frames: seq<Frame>, n: nat) {
    && n <= |frames|
    && (forall i :: 0 <= i < n ==> OutputFrame(frames[i]))
    && (n < |frames| ==> !OutputFrame(frames[n]))
  }

  lemma {:induction false} OutputEnds(frames: seq<Frame>) returns (n: nat)
    ensures OutputUpTo(frames, n)
  {
    n := 0;
    if frames != [] && OutputFrame(frames[0]) {
      var rest := OutputEnds(frames[1..]);
      n := rest + 1;
    }
  }

  lemma PayloadOfFirst(frames: seq<Frame>, n: nat, kind: StreamKind)
    requires 0 < n <= |frames|
    ensures PayloadOf(frames[..n], kind) ==
      (if frames[0].kind == kind then frames[0].payload else []) + PayloadOf(frames[1..][..n - 1], kind)
  {
    assert frames[..n][1..] == frames[1..][..n - 1];
  }

  /** The host's view of any stream, a broken or hostile one included: the first frame that
      is not output decides about the ending, and without one the connection was lost. */
  lemma {:induction false} HostViewIs(received: Blob, n: nat)
    requires OutputUpTo(ReadAll(received).0, n)
    ensures
      var frames := ReadAll(received).0;
      HostView(received) == View(
        PayloadOf(frames[..n], Stdout),
        PayloadOf(frames[..n], Stderr),
        if n == |frames| then Lost else if frames[n].kind.Exit? then ExitEnding(frames[n].payload) else Invalid)
    decreases |received|
  {
    var reading := ReadFrame(received);
    if reading.Got? && OutputFrame(reading.frame) {
      var frames, later := ReadAll(received).0, ReadAll(reading.rest).0;
      assert frames == [reading.frame] + later;
      assert forall i :: 0 <= i < |later| ==> later[i] == frames[i + 1];
      HostViewIs(reading.rest, n - 1);
      PayloadOfFirst(frames, n, Stdout);
      PayloadOfFirst(frames, n, Stderr);
      assert frames[1..] == later;
    }
  }

  /** No exit code is invented: the host returns the code `c` of a stream exactly if output
      frames are followed by an exit frame whose four bytes are `c`. */
  lemma NoCodeInvented(received: Blob, c: int) returns (n: nat)
    ensures OutputUpTo(ReadAll(received).0, n)
    ensures
      var frames := ReadAll(received).0;
      HostView(received).ending == Code(c) <==>
        && n < |frames| && frames[n].kind.Exit? && |frames[n].payload| == 4
        && FromTwosComplement(FromBigEndian(frames[n].payload)) == c
  {
    n := OutputEnds(ReadAll(received).0);
    HostViewIs(received, n);
  }

  /** The connection was lost, and what has been printed is a beginning of the output. */
  predicate BreaksOff(view: View, frames: seq<Frame>) {
    view.ending == Lost && view.out <= PayloadOf(frames, Stdout) && view.err <= PayloadOf(frames, Stderr)
  }

  /** A stream that breaks off anywhere before the end of the exit frame is an error, never
      an exit code, and what has been printed is a beginning of the output. */
  lemma BrokenOffIsLost(frames: seq<Frame>, code: int, n: nat)
    requires AllSendable(frames) && forall i :: 0 <= i < |frames| ==> OutputFrame(frames[i])
    requires -0x8000_0000 <= code < 0x8000_0000
    requires n < |EncodeAll(frames) + Encode(ExitFrame(code))|
    ensures BreaksOff(HostView((EncodeAll(frames) + Encode(ExitFrame(code)))[..n]), frames)
  {
    StackedIsEncoded(frames, Encode(ExitFrame(code)));
    StackBrokenOff(frames, code, n);
  }

  lemma {:induction false} StackBrokenOff(frames: seq<Frame>, code: int, n: nat)
    requires AllSendable(frames) && forall i :: 0 <= i < |frames| ==> OutputFrame(frames[i])
    requires -0x8000_0000 <= code < 0x8000_0000
    requires n < |Stacked(frames, Encode(ExitFrame(code)))|
    ensures BreaksOff(HostView(Stacked(frames, Encode(ExitFrame(code)))[..n]), frames)
  {
    if frames == [] {
      PartIsIncomplete(ExitFrame(code), n);
    } else {
      var first, rest := Encode(frames[0]), Stacked(frames[1..], Encode(ExitFrame(code)));
      CutBehind(first, rest, n);
      if n < |first| {
        PartIsIncomplete(frames[0], n);
      } else {
        StackBrokenOff(frames[1..], code, n - |first|);
        HostSeesOutput(frames[0], rest[..n - |first|]);
        BreaksOffLater(frames, HostView(rest[..n - |first|]));
      }
    }
  }

  lemma CutBehind(first: Blob, rest: Blob, n: nat)
    requires n <= |first + rest|
    ensures (first + rest)[..n] == if n < |first| then first[..n] else first + rest[..n - |first|]
  {
  }

  lemma BreaksOffLater(frames: seq<Frame>, view: View)
    requires frames != [] && OutputFrame(frames[0]) && BreaksOff(view, frames[1..])
    ensures BreaksOff(PrintedFirst(frames[0], view), frames)
  {
    PrefixBehind(frames[0].payload, view.out, PayloadOf(frames[1..], Stdout));
    PrefixBehind(frames[0].payload, view.err, PayloadOf(frames[1..], Stderr));
    assert [] + PayloadOf(frames[1..], Stdout) == PayloadOf(frames[1..], Stdout);
    assert [] + PayloadOf(frames[1..], Stderr) == PayloadOf(frames[1..], Stderr);
  }

  lemma PrefixBehind(front: Blob, a: Blob, b: Blob)
    requires a <= b
    ensures front + a <= front + b
  {
  }

  const PTY_BUFFER: nat := 16 * 1024

  /** The PTY master. Of the output not yet read, `available` can be read now and `later`
      is still to be produced; `input` is what the guest command has been fed. */
  class Pty {
    var available: Blob
    var later: Blob
    var input: Blob
    var signals: seq<int>
    var window: (nat, nat)

    constructor (output: Blob, window: (nat, nat))
      ensures available == [] && later == output && input == [] && signals == [] && this.window == window
    {
      available, later, input, signals, this.window := [], output, [], [], window;
    }

    /** What the guest command has been told since `input`, `signals` and `window`. */
    ghost predicate Told(frames: seq<Frame>, input: Blob, signals: seq<int>, window: (nat, nat))
      reads this`input, this`signals, this`window
    {
      && this.input == input + PayloadOf(frames, Stdin)
      && this.signals == signals + SignalsOf(frames)
      && this.window == WindowOf(frames, window)
    }

    function Unread(): Blob
      reads this`available, this`later
    {
      available + later
    }

    /** Time passes: the command, or what it left behind, may write more. */
    method Produce()
      modifies this`available, this`later
      ensures Unread() == old(Unread())
      ensures old(available) <= available
    {
      var n: int := *;
      if n < 0 || n > |later| {
        n := 0;
      }
      RestOfFrame(later, n);
      Associative(available, later[..n], later[n..]);
      available, later := available + later[..n], later[n..];
    }

    /** A read of what poll(2) reported: some of it, never nothing. */
    method Read() returns (chunk: Blob)
      requires available != []
      modifies this`available
      ensures chunk != [] && |chunk| <= PTY_BUFFER && old(available) == chunk + available
      ensures old(Unread()) == chunk + Unread()
    {
      var n: int := *;
      if n < 1 || n > |available| || n > PTY_BUFFER {
        n := 1;
      }
      chunk := available[..n];
      available := available[n..];
      Associative(chunk, available, later);
    }

    /** One host frame; an invalid one ends the session. */
    method Apply(f: Frame) returns (ok: bool)
      modifies this`input, this`signals, this`window
      ensures input == old(input) + if f.kind.Stdin? then f.payload else []
      ensures ok <==> !GuestEffect(f).Reject?
      ensures signals == old(signals) + if GuestEffect(f).Kill? then [GuestEffect(f).signal] else []
      ensures window == if GuestEffect(f).Window? then (GuestEffect(f).rows, GuestEffect(f).cols) else old(window)
    {
      var effect := GuestEffect(f);
      match effect {
        case Feed(data) => input := input + data;
        case Kill(signal) => signals := signals + [signal];
        case Window(rows, cols) => window := (rows, cols);
        case Reject =>
      }
      return !effect.Reject?;
    }
  }

  /** Output sent so far: whole Stdout frames, and what they hold is what was read. */
  ghost predicate Relayed(stream: Stream, start: Blob, pty: Pty, output: Blob, frames: seq<Frame>)
    reads stream, pty
  {
    && AllSendable(frames) && OnlyKind(frames, Stdout)
    && stream.sent == start + EncodeAll(frames)
    && PayloadOf(frames, Stdout) + pty.Unread() == output
  }

  /** Poll the PTY once; if it has output, read and forward some as one Stdout frame. */
  method Forward(stream: Stream, ghost start: Blob, pty: Pty, ghost output: Blob, ghost frames: seq<Frame>)
    returns (o: Outcome<bool>, ghost frames': seq<Frame>)
    requires Relayed(stream, start, pty, output, frames)
    modifies stream, pty`available, pty`later
    ensures o.Ok? ==> Relayed(stream, start, pty, output, frames') && frames <= frames'
    ensures o.Ok? ==> |frames'| == |frames| + if o.value then 1 else 0
    ensures o.Ok? ==> |PayloadOf(frames', Stdout)| >= |PayloadOf(frames, Stdout)| + if o.value then 1 else 0
    ensures o == Ok(false) ==> old(pty.available) == pty.available == []
    ensures !o.Ok? ==> o.Err? && stream.broken
    ensures stream.reliable && !old(stream.broken) ==> o.Ok? && !stream.broken
    ensures |pty.later| <= |old(pty.later)|
  {
    frames' := frames;
    ghost var unread := pty.Unread();
    pty.Produce();
    assert |pty.later| <= |old(pty.later)| by {
      assert |pty.available| + |pty.later| == |unread|;
    }
    if pty.available == [] {
      return Ok(false), frames;
    }
    var chunk := pty.Read();
    var f := Frame(Stdout, chunk);
    var written := stream.WriteFrame(f);
    if !written.Ok? {
      return Err, frames;
    }
    frames' := frames + [f];
    EncodeAllOneMore(frames, f);
    PayloadOfNext(frames, f, Stdout);
    Associative(start, EncodeAll(frames), Encode(f));
    Associative(PayloadOf(frames, Stdout), chunk, pty.Unread());
    return Ok(true), frames';
  }

  /** Two ways to cut one text: the shorter rest belongs to the longer beginning. */
  lemma LongerBeginning(a: Blob, b: Blob, more: Blob, c: Blob, d: Blob)
    requires a + (more + b) == c + d && |d| <= |b|
    ensures a + more <= c
  {
    Associative(a, more, b);
    var whole := c + d;
    assert whole[..|a + more|] == a + more;
    assert whole[..|c|] == c;
  }

  /** `drain_pty`. It ends when poll finds nothing, and then everything that was available
      when the command exited has been forwarded; or when the deadline passes, which here
      is after some number of reads. */
  method Drain(
    stream: Stream, ghost start: Blob, pty: Pty, ghost output: Blob, ghost frames: seq<Frame>, deadline: nat)
    returns (o: Outcome<()>, ghost frames': seq<Frame>)
    requires Relayed(stream, start, pty, output, frames)
    modifies stream, pty`available, pty`later
    ensures o.Ok? ==> Relayed(stream, start, pty, output, frames') && frames <= frames'
    ensures o.Ok? ==> pty.available == [] || |frames'| == |frames| + deadline
    ensures o.Ok? && pty.available == [] ==>
      PayloadOf(frames, Stdout) + old(pty.available) <= PayloadOf(frames', Stdout)
    ensures o.Ok? ==>
      pty.available == [] || |PayloadOf(frames', Stdout)| >= |PayloadOf(frames, Stdout)| + deadline
    ensures !o.Ok? ==> o.Err? && stream.broken
    ensures stream.reliable && !old(stream.broken) ==> o.Ok? && !stream.broken
  {
    frames' := frames;
    var turns := 0;
    while turns < deadline
      invariant turns <= deadline && frames <= frames' && |frames'| == |frames| + turns
      invariant Relayed(stream, start, pty, output, frames')
      invariant |pty.later| <= |old(pty.later)|
      invariant |PayloadOf(frames', Stdout)| >= |PayloadOf(frames, Stdout)| + turns
      invariant stream.reliable && !old(stream.broken) ==> !stream.broken
    {
      var more: Outcome<bool>;
      more, frames' := Forward(stream, start, pty, output, frames');
      if !more.Ok? {
        return Err, frames';
      }
      if !more.value {
        break;
      }
      turns := turns + 1;
    }
    if pty.available == [] {
      assert pty.Unread() == pty.later;
      LongerBeginning(
        PayloadOf(frames, Stdout), old(pty.later), old(pty.available), PayloadOf(frames', Stdout), pty.later);
    }
    return Ok(()), frames';
  }

  lemma ToldOneMore(frames: seq<Frame>, f: Frame, initial: (nat, nat))
    ensures SignalsOf(frames + [f]) ==
      SignalsOf(frames) + if GuestEffect(f).Kill? then [GuestEffect(f).signal] else []
    ensures WindowOf(frames + [f], initial) ==
      if GuestEffect(f).Window? then (GuestEffect(f).rows, GuestEffect(f).cols) else WindowOf(frames, initial)
  {
    assert (frames + [f])[..|frames|] == frames;
  }

  /** Take one host frame, if poll reported any input; a host that is `gone` shows as input
      that cannot be read. The result is false exactly if there is no whole frame that the
      guest accepts. */
  method TakeInput(
    pty: Pty, arriving: Blob, gone: bool, ghost wire: Blob, ghost taken: seq<Frame>,
    ghost input: Blob, ghost signals: seq<int>, ghost window: (nat, nat))
    returns (ok: bool, rest: Blob, ghost taken': seq<Frame>)
    requires AllSendable(taken) && wire == EncodeAll(taken) + arriving
    requires pty.Told(taken, input, signals, window)
    modifies pty`input, pty`signals, pty`window
    ensures AllSendable(taken') && wire == EncodeAll(taken') + rest
    ensures pty.Told(taken', input, signals, window)
    ensures ok && Accepted(taken) ==> Accepted(taken')
    ensures !ok && ReadFrame(arriving).Got? ==> GuestEffect(ReadFrame(arriving).frame).Reject?
    ensures !gone && Understood(arriving) ==> ok && Understood(rest)
  {
    rest, taken' := arriving, taken;
    var polled: bool := *;
    if !polled || (arriving == [] && !gone) {
      return true, rest, taken';
    }
    var reading := ReadFrame(arriving);
    if !reading.Got? {
      return false, rest, taken';
    }
    var f := reading.frame;
    ReadFrameIsExact(arriving);
    rest, taken' := reading.rest, taken + [f];
    PayloadOfNext(taken, f, Stdin);
    ToldOneMore(taken, f, window);
    EncodeAllOneMore(taken, f);
    Associative(EncodeAll(taken), Encode(f), rest);
    Associative(input, PayloadOf(taken, Stdin), if f.kind.Stdin? then f.payload else []);
    ok := pty.Apply(f);
  }

  /** `relay_pty`. Success means the wire carries the command's output, cut into frames,
      then its exit code: all that was there to be read, unless draining was cut off by the
      deadline. The command was told what the frames taken say, each of which was accepted.
      Over a connection that holds, with a host that sends what the guest understands, it
      succeeds. */
  method Relay(stream: Stream, pty: Pty, status: ExitStatus, wire: Blob, deadline: nat)
    returns (o: Outcome<()>, ghost frames: seq<Frame>, ghost taken: seq<Frame>)
    requires Legal(status)
    modifies stream, pty
    ensures pty.Told(taken, old(pty.input), old(pty.signals), old(pty.window))
    ensures AllSendable(taken) && EncodeAll(taken) <= wire
    ensures o.Ok? ==>
      && AllSendable(frames) && OnlyKind(frames, Stdout) && Accepted(taken)
      && stream.sent == old(stream.sent) + EncodeAll(frames) + Encode(ExitFrame(ExitCode(status)))
      && PayloadOf(frames, Stdout) + pty.Unread() == old(pty.Unread())
      && (pty.available == [] || |PayloadOf(frames, Stdout)| >= deadline)
    ensures stream.reliable && !old(stream.broken) && Understood(wire) ==> o.Ok?
  {
    frames, taken := [], [];
    var arriving := wire;
    var rounds: nat := *;
    while rounds > 0
      invariant Relayed(stream, old(stream.sent), pty, old(pty.Unread()), frames)
      invariant pty.Told(taken, old(pty.input), old(pty.signals), old(pty.window))
      invariant AllSendable(taken) && Accepted(taken) && wire == EncodeAll(taken) + arriving
      invariant stream.reliable && !old(stream.broken) ==> !stream.broken
      invariant stream.reliable && Understood(wire) ==> Understood(arriving)
    {
      var forwarded: Outcome<bool>;
      forwarded, frames := Forward(stream, old(stream.sent), pty, old(pty.Unread()), frames);
      if !forwarded.Ok? {
        return Err, frames, taken;
      }
      var accepted: bool;
      accepted, arriving, taken := TakeInput(
        pty, arriving, !stream.reliable, wire, taken, old(pty.input), old(pty.signals), old(pty.window));
      if !accepted {
        return Err, frames, taken;
      }
      rounds := rounds - 1;
    }
    o, frames := Drain(stream, old(stream.sent), pty, old(pty.Unread()), frames, deadline);
    if o.Ok? {
      o := stream.WriteFrame(ExitFrame(ExitCode(status)));
    }
  }

  lemma FreshStreamIs(sent: Blob, frames: Blob, exit: Blob)
    requires sent == [] + frames + exit
    ensures sent == frames + (exit + [])
  {
  }

  /** Both ends together, if neither loses the connection: the host prints what the guest
      read from the PTY, byte for byte and in order, which is all that could be read unless
      the deadline passed, and returns the exit code of the command. Over a connection that
      holds, with a host that sends what the guest understands, there is such a result. */
  method Interactive(pty: Pty, status: ExitStatus, wire: Blob, deadline: nat, reliable: bool)
    returns (view: Option<View>)
    requires Legal(status)
    modifies pty
    ensures view.Some? ==>
      && view.value.ending == Code(if status.Exited? then status.code else 128 + status.signal)
      && view.value.out + pty.Unread() == old(pty.Unread())
      && (pty.available == [] || |view.value.out| >= deadline)
      && view.value.err == []
    ensures reliable && Understood(wire) ==> view.Some?
  {
    var stream := new Stream(reliable);
    var relayed, frames, _ := Relay(stream, pty, status, wire, deadline);
    if !relayed.Ok? {
      return None;
    }
    var seen := HostLoop(stream.sent);
    view := Some(seen);
    HostSees(frames, ExitCode(status), []);
    OnlyStdout(frames);
    FreshStreamIs(stream.sent, EncodeAll(frames), Encode(ExitFrame(ExitCode(status))));
  }

  lemma {:induction false} OnlyStdout(frames: seq<Frame>)
    requires OnlyKind(frames, Stdout)
    ensures PayloadOf(frames, Stderr) == []
  {
    if frames != [] {
      OnlyStdout(frames[1..]);
    }
  }
}
