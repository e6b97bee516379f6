/** Log-shipping replication within one lifetime of the primary: a follower that
    may drop, reconnect and restart, a primary that appends and compacts. */
module Replication {
  import opened Facts
  import opened FrameLog

  const CODEC_MAX := 5                        // highest record codec the primary writes
  const MAX_PAYLOAD := 64 * 1024 * 1024

  datatype Msg =
    | Welcome(gen: nat, reset: bool)          // the handshake response
    | Data(offset: nat, frame: Frame)
    | Heartbeat(size: nat)
    | Reset
    | Incompatible(at: nat)

  /** The connection the follower is on. `wire` is what is in flight towards it. */
  datatype Session =
    | Offline
    | Hello(fromOff: nat, reqGen: nat)                   // request sent
    | Judged(fromOff: nat, reqGen: nat, curGen: nat)     // the primary read its generation
    | Open(curGen: nat, cursor: nat, wire: seq<Msg>, closed: bool)

  /** `past` holds the logs of earlier generations as they were when compaction
      replaced them, so the current generation is `|past|`. `origin` is for the
      statement only: the generation the follower's frames came from. */
  datatype State = State(
    log: seq<Frame>, past: seq<seq<Frame>>,
    flog: seq<Frame>, fgen: nat, stopped: bool, origin: nat,
    session: Session)

  const Start := State([], [], [], 0, false, 0, Offline)

  function Generation(s: State): nat { |s.past| }

  /** The primary's log in generation `g`. */
  function LogOf(s: State, g: nat): seq<Frame>
    requires g <= Generation(s)
  {
    if g < |s.past| then s.past[g] else s.log
  }

  /** A frame's first byte is its record codec version. */
  function CodecOf(f: Frame): nat { if f.payload == [] then 0 else f.payload[0] }

  datatype Step =
    | Append(frame: Frame)
    | Compact(newlog: seq<Frame>)
    | Connect
    | Judge            // the primary loads its generation
    | Admit            // ... then the log size, and answers
    | SendFrame
    | SendReset
    | SendIncompatible
    | SendHeartbeat
    | Deliver
    | Drop
    | Restart          // the follower process: its log survives, its generation does not

  predicate CanStream(s: State) { s.session.Open? && !s.session.closed }

  predicate NextReadable(ov: Overhead, s: State)
  {
    CanStream(s) && s.session.curGen == Generation(s) && ReadAt(ov, s.log, s.session.cursor).Some?
  }

  predicate Enabled(ov: Overhead, codec: nat, s: State, step: Step)
  {
    match step
    case Append(_) => true
    case Compact(_) => true
    case Connect => s.session == Offline && !s.stopped
    case Judge => s.session.Hello?
    case Admit => s.session.Judged?
    case SendFrame =>
      NextReadable(ov, s) && CodecOf(ReadAt(ov, s.log, s.session.cursor).value) <= Min(codec, CODEC_MAX)
    case SendIncompatible =>
      NextReadable(ov, s) && CodecOf(ReadAt(ov, s.log, s.session.cursor).value) > Min(codec, CODEC_MAX)
    case SendReset => CanStream(s) && s.session.curGen != Generation(s)
    case SendHeartbeat => CanStream(s)
    case Deliver => s.session.Open? && s.session.wire != []
    case Drop => s.session != Offline
    case Restart => true
  }

  function Sent(s: State, m: Msg, cursor: nat, closed: bool): State
    requires s.session.Open?
  {
    s.(session := s.session.(wire := s.session.wire + [m], cursor := cursor, closed := closed))
  }

  /** What the follower does with the next message. */
  function Receive(ov: Overhead, s: State): State
    requires s.session.Open? && s.session.wire != []
  {
    var rest := s.(session := s.session.(wire := s.session.wire[1..]));
    match s.session.wire[0]
    case Welcome(g, reset) => rest.(fgen := g, origin := g, flog := if reset then [] else s.flog)
    case Heartbeat(_) => rest
    case Incompatible(_) => s.(stopped := true, session := Offline)
    case Reset => s.(flog := [], session := Offline)
    case Data(offset, f) =>
      if f.payload == [] || |f.payload| > MAX_PAYLOAD || offset != Size(ov, s.flog) then s.(session := Offline)
      else rest.(flog := s.flog + [f])
  }

  function Apply(ov: Overhead, codec: nat, s: State, step: Step): State
    requires Enabled(ov, codec, s, step)
  {
    match step
    case Append(f) => s.(log := s.log + [f])
    case Compact(newlog) => s.(past := s.past + [s.log], log := newlog)
    case Connect => s.(session := Hello(Size(ov, s.flog), s.fgen))
    case Judge => s.(session := Judged(s.session.fromOff, s.session.reqGen, Generation(s)))
    case Admit =>
      var reset := s.session.reqGen != s.session.curGen || s.session.fromOff > Size(ov, s.log);
      s.(session := Open(s.session.curGen, if reset then 0 else s.session.fromOff,
                         [Welcome(s.session.curGen, reset)], false))
    case SendFrame =>
      var f := ReadAt(ov, s.log, s.session.cursor).value;
      Sent(s, Data(s.session.cursor, f), s.session.cursor + FrameSize(ov, f), false)
    case SendIncompatible => Sent(s, Incompatible(s.session.cursor), s.session.cursor, true)
    case SendReset => Sent(s, Reset, s.session.cursor, true)
    case SendHeartbeat => Sent(s, Heartbeat(Size(ov, s.log)), s.session.cursor, false)
    case Deliver => Receive(ov, s)
    case Drop => s.(session := Offline)
    case Restart => s.(session := Offline, fgen := 0, stopped := false)
  }

  // ----- the invariant --------------------------------------------------------------

  /** The follower's log once it has processed `wire`, were nothing to go wrong. */
  function After(base: seq<Frame>, wire: seq<Msg>): seq<Frame>
    decreases |wire|
  {
    if wire == [] then base
    else
      match wire[0]
      case Welcome(_, reset) => After(if reset then [] else base, wire[1..])
      case Data(_, f) => After(base + [f], wire[1..])
      case _ => After(base, wire[1..])
  }

  /** Every frame in flight is labelled with the offset the follower will be at. */
  ghost predicate Aligned(ov: Overhead, codec: nat, base: seq<Frame>, wire: seq<Msg>)
    decreases |wire|
  {
    wire == [] ||
    match wire[0]
    case Welcome(_, reset) => Aligned(ov, codec, if reset then [] else base, wire[1..])
    case Data(off, f) => off == Size(ov, base) && CodecOf(f) <= codec && Aligned(ov, codec, base + [f], wire[1..])
    case _ => Aligned(ov, codec, base, wire[1..])
  }

  /** A session speaks of one generation, and opens with its welcome. */
  ghost predicate OneGeneration(sess: Session)
  {
    sess.Open? ==>
      forall i :: 0 <= i < |sess.wire| && sess.wire[i].Welcome? ==> i == 0 && sess.wire[i].gen == sess.curGen
  }

  predicate Welcoming(sess: Session) { sess.Open? && sess.wire != [] && sess.wire[0].Welcome? }

  /** The follower's frames are a prefix of the log of the generation they came
      from; what it remembers of that generation is right, or forgotten. */
  ghost predicate FollowerSound(s: State)
  {
    && s.origin <= Generation(s)
    && s.flog <= LogOf(s, s.origin)
    && (s.flog == [] || s.fgen == s.origin || s.fgen == 0)
  }

  ghost predicate SessionSound(ov: Overhead, codec: nat, s: State)
  {
    match s.session
    case Offline => true
    case Hello(off, g) => off == Size(ov, s.flog) && g == s.fgen
    case Judged(off, g, cur) =>
      off == Size(ov, s.flog) && g == s.fgen && cur <= Generation(s) && s.origin <= cur
    case Open(cur, cursor, wire, _) =>
      && cur <= Generation(s)
      && OneGeneration(s.session)
      && Aligned(ov, codec, s.flog, wire)
      && After(s.flog, wire) <= LogOf(s, cur)
      && cursor == Size(ov, After(s.flog, wire))
      && (Welcoming(s.session) ==> wire[0].reset || s.flog == [] || s.origin == cur)
      && (!Welcoming(s.session) ==> s.origin == cur && s.fgen == cur)
  }

  ghost predicate Inv(ov: Overhead, codec: nat, s: State)
  {
    && FollowerSound(s) && SessionSound(ov, codec, s)
    && forall i :: 0 <= i < |s.flog| ==> CodecOf(s.flog[i]) <= codec
  }

  lemma {:induction false} AfterSend(base: seq<Frame>, wire: seq<Msg>, m: Msg)
    requires !m.Welcome?
    ensures After(base, wire + [m]) == if m.Data? then After(base, wire) + [m.frame] else After(base, wire)
    decreases |wire|
  {
    if wire == [] {
      assert wire + [m] == [m] && [m][1..] == [];
    } else {
      assert (wire + [m])[1..] == wire[1..] + [m];
      var next := match wire[0]
        case Welcome(_, reset) => if reset then [] else base
        case Data(_, f) => base + [f]
        case _ => base;
      AfterSend(next, wire[1..], m);
    }
  }

  lemma {:induction false} AlignedSend(ov: Overhead, codec: nat, base: seq<Frame>, wire: seq<Msg>, m: Msg)
    requires Aligned(ov, codec, base, wire) && !m.Welcome?
    requires m.Data? ==> m.offset == Size(ov, After(base, wire)) && CodecOf(m.frame) <= codec
    ensures Aligned(ov, codec, base, wire + [m])
    decreases |wire|
  {
    if wire == [] {
      assert wire + [m] == [m] && [m][1..] == [];
    } else {
      assert (wire + [m])[1..] == wire[1..] + [m];
      var next := match wire[0]
        case Welcome(_, reset) => if reset then [] else base
        case Data(_, f) => base + [f]
        case _ => base;
      AlignedSend(ov, codec, next, wire[1..], m);
    }
  }

  /** Reading at the size of a prefix yields the frame that follows it. */
  lemma ReadNext(ov: Overhead, prefix: seq<Frame>, log: seq<Frame>)
    requires prefix <= log && ReadAt(ov, log, Size(ov, prefix)).Some?
    ensures |prefix| < |log| && ReadAt(ov, log, Size(ov, prefix)) == Some(log[|prefix|])
    ensures prefix + [log[|prefix|]] <= log
    ensures Size(ov, prefix + [log[|prefix|]]) == Size(ov, prefix) + FrameSize(ov, log[|prefix|])
  {
    hide Size;
    var rest := log[|prefix|..];
    assert log == prefix + rest;
    ReadPast(ov, prefix, rest, 0);
    SizeAppend(ov, prefix, log[|prefix|]);
  }

  lemma SendKeeps(ov: Overhead, codec: nat, s: State, m: Msg, cursor: nat, closed: bool)
    requires Inv(ov, codec, s) && CanStream(s) && !m.Welcome?
    requires m.Data? ==>
               && m.offset == s.session.cursor && CodecOf(m.frame) <= codec
               && cursor == Size(ov, After(s.flog, s.session.wire) + [m.frame])
               && After(s.flog, s.session.wire) + [m.frame] <= LogOf(s, s.session.curGen)
    requires !m.Data? ==> cursor == s.session.cursor
    ensures Inv(ov, codec, Sent(s, m, cursor, closed))
  {
    AfterSend(s.flog, s.session.wire, m);
    AlignedSend(ov, codec, s.flog, s.session.wire, m);
  }

  lemma SendFrameKeeps(ov: Overhead, codec: nat, s: State)
    requires Inv(ov, codec, s) && Enabled(ov, codec, s, SendFrame)
    ensures Inv(ov, codec, Apply(ov, codec, s, SendFrame))
  {
    var base := After(s.flog, s.session.wire);
    var f := ReadAt(ov, s.log, s.session.cursor).value;
    ReadNext(ov, base, s.log);
    SendKeeps(ov, codec, s, Data(s.session.cursor, f), s.session.cursor + FrameSize(ov, f), false);
  }

  /** The handshake: without a reset, the follower's frames are of this generation. */
  lemma AdmitKeeps(ov: Overhead, codec: nat, s: State)
    requires Inv(ov, codec, s) && Enabled(ov, codec, s, Admit)
    ensures Inv(ov, codec, Apply(ov, codec, s, Admit))
  {
    var s' := Apply(ov, codec, s, Admit);
    var welcome := s'.session.wire[0];
    assert s'.session.wire[1..] == [];
    assert Size(ov, []) == 0;
  }

  lemma CompactKeeps(ov: Overhead, codec: nat, s: State, newlog: seq<Frame>)
    requires Inv(ov, codec, s)
    ensures Inv(ov, codec, Apply(ov, codec, s, Compact(newlog)))
  {
  }

  lemma AppendKeeps(ov: Overhead, codec: nat, s: State, f: Frame)
    requires Inv(ov, codec, s)
    ensures Inv(ov, codec, Apply(ov, codec, s, Append(f)))
  {
  }

  lemma {:induction false} AfterExtends(base: seq<Frame>, wire: seq<Msg>)
    requires forall i :: 0 <= i < |wire| ==> !wire[i].Welcome?
    ensures base <= After(base, wire)
    decreases |wire|
  {
    if wire != [] {
      AfterExtends(if wire[0].Data? then base + [wire[0].frame] else base, wire[1..]);
    }
  }

  lemma NoSecondWelcome(sess: Session)
    requires sess.Open? && sess.wire != [] && OneGeneration(sess)
    ensures forall i :: 0 <= i < |sess.wire[1..]| ==> !sess.wire[1..][i].Welcome?
  {
  }

  lemma DeliverDataKeeps(ov: Overhead, codec: nat, s: State)
    requires Inv(ov, codec, s) && Enabled(ov, codec, s, Deliver) && s.session.wire[0].Data?
    ensures Inv(ov, codec, Receive(ov, s))
  {
    hide Size, ReadAt;
    NoSecondWelcome(s.session);
    AfterExtends(s.flog + [s.session.wire[0].frame], s.session.wire[1..]);
  }

  lemma DeliverWelcomeKeeps(ov: Overhead, codec: nat, s: State)
    requires Inv(ov, codec, s) && Enabled(ov, codec, s, Deliver) && s.session.wire[0].Welcome?
    ensures Inv(ov, codec, Receive(ov, s))
  {
  }

  lemma DeliverKeeps(ov: Overhead, codec: nat, s: State)
    requires Inv(ov, codec, s) && Enabled(ov, codec, s, Deliver)
    ensures Inv(ov, codec, Apply(ov, codec, s, Deliver))
  {
    hide Size, ReadAt;
    match s.session.wire[0]
    case Data(_, _) => DeliverDataKeeps(ov, codec, s);
    case Welcome(_, _) => DeliverWelcomeKeeps(ov, codec, s);
    case _ => NoSecondWelcome(s.session);
  }

  lemma StepKeeps(ov: Overhead, codec: nat, s: State, step: Step)
    requires Inv(ov, codec, s) && Enabled(ov, codec, s, step)
    ensures Inv(ov, codec, Apply(ov, codec, s, step))
  {
    match step
    case Append(f) => AppendKeeps(ov, codec, s, f);
    case Compact(newlog) => CompactKeeps(ov, codec, s, newlog);
    case Admit => AdmitKeeps(ov, codec, s);
    case SendFrame => SendFrameKeeps(ov, codec, s);
    case SendIncompatible => SendKeeps(ov, codec, s, Incompatible(s.session.cursor), s.session.cursor, true);
    case SendReset => SendKeeps(ov, codec, s, Reset, s.session.cursor, true);
    case SendHeartbeat => SendKeeps(ov, codec, s, Heartbeat(Size(ov, s.log)), s.session.cursor, false);
    case Deliver => DeliverKeeps(ov, codec, s);
    case _ =>
  }

  // ----- whole runs ------------------------------------------------------------------

  ghost predicate Run(ov: Overhead, codec: nat, steps: seq<Step>, states: seq<State>)
  {
    && |states| == |steps| + 1 && states[0] == Start
    && forall i :: 0 <= i < |steps| ==>
         Enabled(ov, codec, states[i], steps[i]) && states[i + 1] == Apply(ov, codec, states[i], steps[i])
  }

  lemma {:induction false} RunKeeps(ov: Overhead, codec: nat, steps: seq<Step>, states: seq<State>, n: nat)
    requires Run(ov, codec, steps, states) && n <= |steps|
    ensures Inv(ov, codec, states[n])
  {
    if n > 0 {
      RunKeeps(ov, codec, steps, states, n - 1);
      StepKeeps(ov, codec, states[n - 1], steps[n - 1]);
    }
  }

  /** The main result. At every point of every run the follower's log is, frame for
      frame and offset for offset, a prefix of one generation of the primary's. */
  lemma FollowerIsPrefix(ov: Overhead, codec: nat, steps: seq<Step>, states: seq<State>, n: nat)
    requires Run(ov, codec, steps, states) && n <= |steps|
    ensures var s := states[n];
            exists g :: 0 <= g <= Generation(s) && s.flog <= LogOf(s, g)
                        && forall off :: 0 <= off < Size(ov, s.flog) ==>
                            ReadAt(ov, s.flog, off) == ReadAt(ov, LogOf(s, g), off)
    ensures forall i :: 0 <= i < |states[n].flog| ==> CodecOf(states[n].flog[i]) <= codec
  {
    RunKeeps(ov, codec, steps, states, n);
    var s := states[n];
    var whole := LogOf(s, s.origin);
    assert whole == s.flog + whole[|s.flog|..];
    forall off | 0 <= off < Size(ov, s.flog) ensures ReadAt(ov, s.flog, off) == ReadAt(ov, whole, off) {
      ReadPrefix(ov, s.flog, whole[|s.flog|..], off);
    }
  }

  /** A frame the follower applies is the next frame of the generation its session
      was opened on, and within the codec it can read. */
  lemma DeliveryIsNext(ov: Overhead, codec: nat, steps: seq<Step>, states: seq<State>, n: nat)
    requires Run(ov, codec, steps, states) && n < |steps| && steps[n].Deliver?
    requires states[n].session.Open? && states[n].session.wire != [] && states[n].session.wire[0].Data?
    ensures var s, m := states[n], states[n].session.wire[0];
            && s.session.curGen <= Generation(s)
            && m.offset == Size(ov, s.flog)
            && |s.flog| < |LogOf(s, s.session.curGen)|
            && m.frame == LogOf(s, s.session.curGen)[|s.flog|]
            && CodecOf(m.frame) <= codec
  {
    RunKeeps(ov, codec, steps, states, n);
    var s, m := states[n], states[n].session.wire[0];
    AfterExtends(s.flog + [m.frame], s.session.wire[1..]);
    assert (s.flog + [m.frame])[|s.flog|] == m.frame;
  }

  /** Nothing in flight, everything sent, same generation: the logs are equal. */
  lemma CaughtUp(ov: Overhead, codec: nat, steps: seq<Step>, states: seq<State>, n: nat)
    requires Run(ov, codec, steps, states) && n <= |steps|
    requires var s := states[n];
             s.session.Open? && s.session.wire == [] && s.session.curGen == Generation(s)
             && s.session.cursor >= Size(ov, s.log)
    ensures states[n].flog == states[n].log
  {
    RunKeeps(ov, codec, steps, states, n);
    var s := states[n];
    assert s.log == s.flog + s.log[|s.flog|..];
    SizeConcat(ov, s.flog, s.log[|s.flog|..]);
  }
}
