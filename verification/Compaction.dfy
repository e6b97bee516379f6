/** Online log compaction, with writers and readers running throughout.

    A step is one critical section. Writers append under `index_lock`; the job
    snapshots under it, copies frame by frame with no lock, and drains and swaps
    under `index_lock` and `log_lock` held for writing; a reader resolves an id
    under `index_lock`, pins `log_lock`, drops `index_lock` and reads later. */
module Compaction {
  import opened Facts
  import opened FrameLog

  /** NewLoc: an id and where its frame is. */
  datatype Loc = Loc(id: nat, entry: Entry)

  datatype Job =
    | Idle
    | Copying(snap: seq<Loc>, end: nat, mark: nat, scratch: seq<Frame>, locs: seq<Loc>)

  /** A reader holding `log_lock`: the offset it resolved, and (for the statement
      only) the version its id had at that moment. */
  datatype Pin = Pin(id: nat, offset: nat, resolved: Frame)

  datatype State = State(log: seq<Frame>, hash: map<nat, Entry>, generation: nat, job: Job, pins: map<nat, Pin>)

  const Empty := State([], map[], 0, Idle, map[])

  datatype Step =
    | Append(frame: Frame)
    | Snapshot(order: seq<nat>)     // the live ids, in hash bucket order
    | Copy
    | Swap
    | Abort
    | Resolve(reader: nat, id: nat)
    | Release(reader: nat)

  predicate DistinctIds(ids: seq<nat>) { forall i, j :: 0 <= i < j < |ids| ==> ids[i] != ids[j] }

  predicate ListsLive(hash: map<nat, Entry>, order: seq<nat>)
  {
    && DistinctIds(order)
    && (forall i :: 0 <= i < |order| ==> order[i] in hash && !hash[order[i]].deleted)
    && (forall id :: id in hash && !hash[id].deleted ==> id in order)
  }

  /** The tail loop: frames from byte `off` to the end, stepping by frame size. */
  function Drain(ov: Overhead, log: seq<Frame>, off: nat): seq<Frame>
    decreases Size(ov, log) - off
  {
    if off >= Size(ov, log) || ReadAt(ov, log, off).None? then []
    else
      var f := ReadAt(ov, log, off).value;
      [f] + Drain(ov, log, off + FrameSize(ov, f))
  }

  /** One location per frame, at the offset the frame got in the scratch log. */
  function LocsOf(ov: Overhead, frames: seq<Frame>): (locs: seq<Loc>)
    ensures |locs| == |frames|
  {
    if frames == [] then []
    else
      var front := frames[..|frames| - 1];
      LocsOf(ov, front) + [Loc(frames[|frames| - 1].id, EntryOf(Size(ov, front), frames[|frames| - 1]))]
  }

  /** hash_index_put of every location, in order. */
  function PutAll(locs: seq<Loc>): map<nat, Entry>
  {
    if locs == [] then map[] else PutAll(locs[..|locs| - 1])[locs[|locs| - 1].id := locs[|locs| - 1].entry]
  }

  predicate CanCopy(ov: Overhead, s: State)
  {
    && s.job.Copying? && |s.job.scratch| < |s.job.snap|
    && ReadAt(ov, s.log, s.job.snap[|s.job.scratch|].entry.offset).Some?
  }

  predicate Enabled(ov: Overhead, s: State, step: Step)
  {
    match step
    case Append(_) => true
    case Snapshot(order) => s.job.Idle? && ListsLive(s.hash, order)
    case Copy => CanCopy(ov, s)
    case Swap => s.job.Copying? && |s.job.scratch| == |s.job.snap| && s.pins == map[]
    case Abort => s.job.Copying?
    case Resolve(r, id) =>
      r !in s.pins && id in s.hash && !s.hash[id].deleted && ReadAt(ov, s.log, s.hash[id].offset).Some?
    case Release(r) => r in s.pins
  }

  function Apply(ov: Overhead, s: State, step: Step): State
    requires Enabled(ov, s, step)
  {
    match step
    case Append(f) =>
      s.(log := s.log + [f], hash := s.hash[f.id := EntryOf(Size(ov, s.log), f)])
    case Snapshot(order) =>
      var snap := seq(|order|, i requires 0 <= i < |order| => Loc(order[i], s.hash[order[i]]));
      s.(job := Copying(snap, Size(ov, s.log), |s.log|, [], []))
    case Copy =>
      var from := s.job.snap[|s.job.scratch|];
      var f := ReadAt(ov, s.log, from.entry.offset).value;
      var entry := Entry(Size(ov, s.job.scratch), |f.payload|, false, from.entry.expires);
      s.(job := s.job.(scratch := s.job.scratch + [f], locs := s.job.locs + [Loc(from.id, entry)]))
    case Swap =>
      var log' := s.job.scratch + Drain(ov, s.log, s.job.end);
      var locs' := s.job.locs + LocsOf(ov, log')[|s.job.scratch|..];
      s.(log := log', hash := PutAll(locs'), generation := s.generation + 1, job := Idle)
    case Abort => s.(job := Idle)
    case Resolve(r, id) =>
      s.(pins := s.pins[r := Pin(id, s.hash[id].offset, ReadAt(ov, s.log, s.hash[id].offset).value)])
    case Release(r) => s.(pins := s.pins - {r})
  }

  /** What a reader of `id` finds: the version the hash points at. */
  function Lookup(ov: Overhead, s: State, id: nat): Option<Frame>
  {
    if id in s.hash then ReadAt(ov, s.log, s.hash[id].offset) else None
  }

  // ----- the invariant -------------------------------------------------------------

  ghost predicate Captures(ov: Overhead, prefix: seq<Frame>, snap: seq<Loc>)
  {
    && (forall i, j :: 0 <= i < j < |snap| ==> snap[i].id != snap[j].id)
    && (forall i :: 0 <= i < |snap| ==>
          snap[i].id in HashOf(ov, prefix) && snap[i].entry == HashOf(ov, prefix)[snap[i].id] && !snap[i].entry.deleted)
    && (forall id :: id in HashOf(ov, prefix) && !HashOf(ov, prefix)[id].deleted ==>
          exists i :: 0 <= i < |snap| && snap[i].id == id)
  }

  /** The scratch log holds the snapshot's frames, as they were at the snapshot. */
  ghost predicate JobSound(ov: Overhead, s: State)
  {
    s.job.Copying? ==>
      && s.job.mark <= |s.log|
      && s.job.end == Size(ov, s.log[..s.job.mark])
      && Captures(ov, s.log[..s.job.mark], s.job.snap)
      && |s.job.scratch| <= |s.job.snap|
      && s.job.locs == LocsOf(ov, s.job.scratch)
      && forall i :: 0 <= i < |s.job.scratch| ==>
           LatestOf(s.log[..s.job.mark], s.job.snap[i].id) == Some(s.job.scratch[i])
  }

  ghost predicate PinsSound(ov: Overhead, s: State)
  {
    forall r :: r in s.pins ==>
      s.pins[r].offset < Size(ov, s.log) && ReadAt(ov, s.log, s.pins[r].offset) == Some(s.pins[r].resolved)
  }

  ghost predicate Inv(ov: Overhead, s: State)
  {
    s.hash == HashOf(ov, s.log) && JobSound(ov, s) && PinsSound(ov, s)
  }

  lemma {:induction false} PutLocs(ov: Overhead, frames: seq<Frame>)
    ensures PutAll(LocsOf(ov, frames)) == HashOf(ov, frames)
  {
    if frames != [] {
      PutLocs(ov, frames[..|frames| - 1]);
      assert LocsOf(ov, frames)[..|frames| - 1] == LocsOf(ov, frames[..|frames| - 1]);
    }
  }

  lemma {:induction false} LocsPrefix(ov: Overhead, a: seq<Frame>, b: seq<Frame>)
    ensures LocsOf(ov, a + b)[..|a|] == LocsOf(ov, a)
  {
    if b == [] {
      assert a + b == a;
    } else {
      assert (a + b)[..|a + b| - 1] == a + b[..|b| - 1];
      LocsPrefix(ov, a, b[..|b| - 1]);
    }
  }

  lemma {:induction false} DrainIsTail(ov: Overhead, a: seq<Frame>, b: seq<Frame>)
    ensures Drain(ov, a + b, Size(ov, a)) == b
    decreases |b|
  {
    SizeConcat(ov, a, b);
    if b == [] {
      assert a + b == a;
    } else {
      ReadPast(ov, a, b, 0);
      assert a + b == (a + [b[0]]) + b[1..];
      SizeAppend(ov, a, b[0]);
      DrainIsTail(ov, a + [b[0]], b[1..]);
    }
  }

  lemma AppendKeeps(ov: Overhead, s: State, f: Frame)
    requires Inv(ov, s)
    ensures Inv(ov, Apply(ov, s, Append(f)))
  {
    var s' := Apply(ov, s, Append(f));
    HashAppend(ov, s.log, f);
    SizeAppend(ov, s.log, f);
    if s.job.Copying? {
      assert s'.log[..s.job.mark] == s.log[..s.job.mark];
    }
    forall r | r in s.pins
      ensures s.pins[r].offset < Size(ov, s'.log) && ReadAt(ov, s'.log, s.pins[r].offset) == Some(s.pins[r].resolved)
    {
      ReadPrefix(ov, s.log, [f], s.pins[r].offset);
    }
  }

  lemma SnapshotKeeps(ov: Overhead, s: State, order: seq<nat>)
    requires Inv(ov, s) && Enabled(ov, s, Snapshot(order))
    ensures Inv(ov, Apply(ov, s, Snapshot(order)))
  {
    var s' := Apply(ov, s, Snapshot(order));
    assert s.log[..|s.log|] == s.log;
    forall id | id in HashOf(ov, s.log) && !HashOf(ov, s.log)[id].deleted
      ensures exists i :: 0 <= i < |s'.job.snap| && s'.job.snap[i].id == id
    {
      var i :| 0 <= i < |order| && order[i] == id;
      assert s'.job.snap[i].id == id;
    }
  }

  /** Copying later reads the same bytes: the captured region never changes. */
  lemma CopyReads(ov: Overhead, s: State, k: nat)
    requires Inv(ov, s) && s.job.Copying? && k < |s.job.snap|
    ensures var from := s.job.snap[k];
            var f := ReadAt(ov, s.log, from.entry.offset);
            && f == LatestOf(s.log[..s.job.mark], from.id)
            && f.Some? && f.value.id == from.id && !f.value.deleted && from.entry == EntryOf(from.entry.offset, f.value)
  {
    var prefix := s.log[..s.job.mark];
    var from := s.job.snap[k];
    HashMeaning(ov, prefix, from.id);
    assert s.log == prefix + s.log[s.job.mark..];
    ReadPrefix(ov, prefix, s.log[s.job.mark..], from.entry.offset);
  }

  lemma CopyKeeps(ov: Overhead, s: State)
    requires Inv(ov, s) && Enabled(ov, s, Copy)
    ensures Inv(ov, Apply(ov, s, Copy))
  {
    hide HashOf, LatestOf, ReadAt, Size, Captures, PinsSound;
    var s' := Apply(ov, s, Copy);
    var k := |s.job.scratch|;
    CopyReads(ov, s, k);
    assert s'.job.scratch[..k] == s.job.scratch;
    assert s'.job.locs == LocsOf(ov, s'.job.scratch);
    assert PinsSound(ov, s') by { PinsSame(ov, s, s'); }
  }

  lemma PinsSame(ov: Overhead, s: State, s': State)
    requires PinsSound(ov, s) && s'.log == s.log && s'.pins == s.pins
    ensures PinsSound(ov, s')
  {
  }

  /** The scratch log holds exactly the live versions of the captured region. */
  lemma ScratchLatest(ov: Overhead, s: State, id: nat)
    requires Inv(ov, s) && s.job.Copying? && |s.job.scratch| == |s.job.snap|
    ensures var before := LatestOf(s.log[..s.job.mark], id);
            LatestOf(s.job.scratch, id) == if before.Some? && !before.value.deleted then before else None
  {
    var prefix := s.log[..s.job.mark];
    HashMeaning(ov, prefix, id);
    if i :| 0 <= i < |s.job.snap| && s.job.snap[i].id == id {
      LatestUnique(s.job.scratch, i);
    } else {
      LatestNone(s.job.scratch, id);
    }
  }

  lemma {:induction false} LatestUnique(frames: seq<Frame>, i: nat)
    requires i < |frames| && forall j, k :: 0 <= j < k < |frames| ==> frames[j].id != frames[k].id
    ensures LatestOf(frames, frames[i].id) == Some(frames[i])
  {
    if i < |frames| - 1 {
      LatestUnique(frames[..|frames| - 1], i);
    }
  }

  lemma {:induction false} LatestNone(frames: seq<Frame>, id: nat)
    requires forall i :: 0 <= i < |frames| ==> frames[i].id != id
    ensures LatestOf(frames, id) == None
  {
  }

  /** What the swap installs: the scratch frames, then everything appended since. */
  lemma SwapLog(ov: Overhead, s: State)
    requires Inv(ov, s) && Enabled(ov, s, Swap)
    ensures var s' := Apply(ov, s, Swap);
            s'.log == s.job.scratch + s.log[s.job.mark..] && s'.hash == HashOf(ov, s'.log)
  {
    hide HashOf, ReadAt, LatestOf, LocsOf, PutAll, Drain;
    var prefix, tail := s.log[..s.job.mark], s.log[s.job.mark..];
    assert s.log == prefix + tail;
    DrainIsTail(ov, prefix, tail);
    LocsPrefix(ov, s.job.scratch, tail);
    var log' := s.job.scratch + tail;
    assert LocsOf(ov, log') == LocsOf(ov, log')[..|s.job.scratch|] + LocsOf(ov, log')[|s.job.scratch|..];
    PutLocs(ov, log');
  }

  lemma StepKeeps(ov: Overhead, s: State, step: Step)
    requires Inv(ov, s) && Enabled(ov, s, step)
    ensures Inv(ov, Apply(ov, s, step))
  {
    match step
    case Append(f) => AppendKeeps(ov, s, f);
    case Snapshot(order) => SnapshotKeeps(ov, s, order);
    case Copy => CopyKeeps(ov, s);
    case Swap => SwapLog(ov, s);
    case Abort =>
    case Resolve(r, id) => HashMeaning(ov, s.log, id);
    case Release(r) =>
  }

  // ----- what compaction preserves --------------------------------------------------

  /** The swap changes no id's version or status. Only a tombstone that was already
      there at the snapshot may be forgotten; one written during the copy stays. */
  lemma SwapPreserves(ov: Overhead, s: State, id: nat)
    requires Inv(ov, s) && Enabled(ov, s, Swap)
    ensures var s' := Apply(ov, s, Swap);
            || Lookup(ov, s', id) == Lookup(ov, s, id)
            || (&& Lookup(ov, s', id) == None
                && Lookup(ov, s, id).Some? && Lookup(ov, s, id).value.deleted
                && LatestOf(s.log[s.job.mark..], id) == None)
  {
    var s' := Apply(ov, s, Swap);
    var prefix, tail := s.log[..s.job.mark], s.log[s.job.mark..];
    assert s.log == prefix + tail;
    SwapLog(ov, s);
    HashMeaning(ov, s.log, id);
    HashMeaning(ov, s'.log, id);
    LatestConcat(prefix, tail, id);
    LatestConcat(s.job.scratch, tail, id);
    ScratchLatest(ov, s, id);
  }

  /** The live records of the store. */
  ghost function Contents(ov: Overhead, s: State): imap<nat, Frame>
  {
    imap id: nat | Lookup(ov, s, id).Some? && !Lookup(ov, s, id).value.deleted :: Lookup(ov, s, id).value
  }

  /** Seen from outside there are only writes: an append replaces or removes its
      own id's record, and every step of compaction or of a reader changes nothing. */
  lemma StepRefines(ov: Overhead, s: State, step: Step, id: nat)
    requires Inv(ov, s) && Enabled(ov, s, step)
    ensures var c, c' := Contents(ov, s), Contents(ov, Apply(ov, s, step));
            if step.Append? && step.frame.id == id
            then (id in c' <==> !step.frame.deleted) && (id in c' ==> c'[id] == step.frame)
            else (id in c' <==> id in c) && (id in c ==> c'[id] == c[id])
  {
    hide ReadAt, HashOf, Inv;
    match step
    case Append(f) => AppendLookup(ov, s, f, id);
    case Swap => SwapPreserves(ov, s, id);
    case _ =>
  }

  lemma AppendLookup(ov: Overhead, s: State, f: Frame, id: nat)
    requires Inv(ov, s)
    ensures Lookup(ov, Apply(ov, s, Append(f)), id) == if id == f.id then Some(f) else Lookup(ov, s, id)
  {
    AppendKeeps(ov, s, f);
    HashMeaning(ov, s.log, id);
    HashMeaning(ov, s.log + [f], id);
    LatestConcat(s.log, [f], id);
    assert [f][..0] == [];
  }

  // ----- whole runs ------------------------------------------------------------------

  ghost predicate Run(ov: Overhead, steps: seq<Step>, states: seq<State>)
  {
    && |states| == |steps| + 1 && states[0] == Empty
    && forall i :: 0 <= i < |steps| ==>
         Enabled(ov, states[i], steps[i]) && states[i + 1] == Apply(ov, states[i], steps[i])
  }

  lemma {:induction false} RunKeeps(ov: Overhead, steps: seq<Step>, states: seq<State>, n: nat)
    requires Run(ov, steps, states) && n <= |steps|
    ensures Inv(ov, states[n])
  {
    if n > 0 {
      RunKeeps(ov, steps, states, n - 1);
      StepKeeps(ov, states[n - 1], steps[n - 1]);
    }
  }

  /** The writes of a run, in order. */
  function Writes(steps: seq<Step>): seq<Frame>
  {
    if steps == [] then []
    else Writes(steps[..|steps| - 1]) + (if steps[|steps| - 1].Append? then [steps[|steps| - 1].frame] else [])
  }

  /** However compactions, aborts and readers interleave with the writes, each id's
      live record is the last version written for it, and a deleted one stays gone. */
  lemma {:induction false} RunContents(ov: Overhead, steps: seq<Step>, states: seq<State>, n: nat, id: nat)
    requires Run(ov, steps, states) && n <= |steps|
    ensures var last := LatestOf(Writes(steps[..n]), id);
            var c := Contents(ov, states[n]);
            (id in c <==> last.Some? && !last.value.deleted) && (id in c ==> c[id] == last.value)
  {
    hide Inv, Contents, LatestOf, Writes;
    if n == 0 {
      EmptyContents(ov, states[0], id);
      assert Writes(steps[..0]) == [] && LatestOf([], id) == None by { NoWrites(steps, id); }
    } else {
      RunContents(ov, steps, states, n - 1, id);
      RunKeeps(ov, steps, states, n - 1);
      StepRefines(ov, states[n - 1], steps[n - 1], id);
      LatestWrite(steps, n, id);
    }
  }

  lemma EmptyContents(ov: Overhead, s: State, id: nat)
    requires s == Empty
    ensures id !in Contents(ov, s)
  {
  }

  lemma NoWrites(steps: seq<Step>, id: nat)
    ensures Writes(steps[..0]) == [] && LatestOf([], id) == None
  {
  }

  lemma LatestWrite(steps: seq<Step>, n: nat, id: nat)
    requires 0 < n <= |steps|
    ensures LatestOf(Writes(steps[..n]), id) ==
            if steps[n - 1].Append? && steps[n - 1].frame.id == id then Some(steps[n - 1].frame)
            else LatestOf(Writes(steps[..n - 1]), id)
  {
    assert steps[..n][..n - 1] == steps[..n - 1];
    if steps[n - 1].Append? {
      LatestConcat(Writes(steps[..n - 1]), [steps[n - 1].frame], id);
      assert [steps[n - 1].frame][..0] == [];
    } else {
      assert Writes(steps[..n]) == Writes(steps[..n - 1]);
    }
  }

  /** A pinned reader gets the version its id had when it resolved it, whatever ran
      in between. `k` is the resolving step, `n` the moment it reads. */
  lemma {:induction false} ReaderConsistent(ov: Overhead, steps: seq<Step>, states: seq<State>, k: nat, n: nat)
    requires Run(ov, steps, states) && k < n <= |steps| && steps[k].Resolve?
    requires forall i :: k < i < n ==> !(steps[i].Release? && steps[i].reader == steps[k].reader)
    ensures var r := steps[k].reader;
            && r in states[n].pins
            && ReadAt(ov, states[n].log, states[n].pins[r].offset) == Lookup(ov, states[k], steps[k].id)
            && Lookup(ov, states[k], steps[k].id).Some?
  {
    PinHeld(ov, steps, states, k, n);
    RunKeeps(ov, steps, states, n);
  }

  lemma {:induction false} PinHeld(ov: Overhead, steps: seq<Step>, states: seq<State>, k: nat, n: nat)
    requires Run(ov, steps, states) && k < n <= |steps| && steps[k].Resolve?
    requires forall i :: k < i < n ==> !(steps[i].Release? && steps[i].reader == steps[k].reader)
    ensures steps[k].reader in states[n].pins && steps[k].id in states[k].hash
    ensures states[n].pins[steps[k].reader] == states[k + 1].pins[steps[k].reader]
    ensures Lookup(ov, states[k], steps[k].id) == Some(states[n].pins[steps[k].reader].resolved)
  {
    assert Enabled(ov, states[k], steps[k]) && states[k + 1] == Apply(ov, states[k], steps[k]);
    if k + 1 < n {
      PinHeld(ov, steps, states, k, n - 1);
      assert Enabled(ov, states[n - 1], steps[n - 1]) && states[n] == Apply(ov, states[n - 1], steps[n - 1]);
    }
  }

  // ----- the phases as the job runs them ---------------------------------------------

  /** Nothing is lost but, possibly, a tombstone. */
  predicate Forgets(before: Option<Frame>, after: Option<Frame>)
  {
    after == before || (after == None && before.value.deleted)
  }

  lemma SwapForgets(ov: Overhead, s: State, bare: State)
    requires Inv(ov, s) && Enabled(ov, s, Swap) && bare.log == s.log && bare.hash == s.hash
    ensures forall id :: Forgets(Lookup(ov, bare, id), Lookup(ov, Apply(ov, s, Swap), id))
  {
    hide Inv;
    forall id ensures Forgets(Lookup(ov, bare, id), Lookup(ov, Apply(ov, s, Swap), id)) {
      SwapPreserves(ov, s, id);
    }
  }

  lemma JobFacts(ov: Overhead, s: State)
    requires Inv(ov, s) && s.job.Copying?
    ensures s.job.mark <= |s.log| && s.job.end == Size(ov, s.log[..s.job.mark])
            && s.job.locs == LocsOf(ov, s.job.scratch)
  {
  }

  class Store {
    const ov: Overhead
    var log: seq<Frame>
    var hash: map<nat, Entry>
    var generation: nat

    ghost function View(job: Job): State
      reads this
    {
      State(log, hash, generation, job, map[])
    }

    constructor (ov: Overhead)
      ensures View(Idle) == Empty && this.ov == ov
    {
      this.ov := ov;
      log, hash, generation := [], map[], 0;
    }

    /** append_and_hash: log the version, then point the hash at it. */
    method AppendAndHash(f: Frame, ghost job: Job)
      requires Inv(ov, View(job))
      modifies this`log, this`hash
      ensures View(job) == Apply(ov, old(View(job)), Append(f)) && Inv(ov, View(job))
    {
      var off := Size(ov, log);
      log := log + [f];
      hash := hash[f.id := EntryOf(off, f)];
      AppendKeeps(ov, old(View(job)), f);
    }

    /** Phase 1: capture the live entries and the log's size. */
    method Snapshot() returns (snap: seq<Loc>, end: nat)
      requires Inv(ov, View(Idle))
      ensures Inv(ov, View(Copying(snap, end, |log|, [], [])))
    {
      hide HashOf, Size, ReadAt, LatestOf;
      var rest := hash.Keys;
      snap := [];
      while rest != {}
        invariant rest <= hash.Keys
        invariant forall i :: 0 <= i < |snap| ==>
                    snap[i].id in hash && snap[i].id !in rest && snap[i].entry == hash[snap[i].id]
                        && !snap[i].entry.deleted
        invariant forall i, j :: 0 <= i < j < |snap| ==> snap[i].id != snap[j].id
        invariant forall id :: id in hash && id !in rest && !hash[id].deleted ==> Loc(id, hash[id]) in snap
        decreases rest
      {
        var id :| id in rest;
        rest := rest - {id};
        if !hash[id].deleted {
          snap := snap + [Loc(id, hash[id])];
        }
      }
      end := Size(ov, log);
      assert log[..|log|] == log;
      forall id | id in hash && !hash[id].deleted ensures exists i :: 0 <= i < |snap| && snap[i].id == id {
        assert Loc(id, hash[id]) in snap;
      }
    }

    /** Phase 2: copy each captured frame into the scratch log. An unreadable frame
        aborts the run; in a sound store there is none. */
    method CopyLive(snap: seq<Loc>, end: nat, ghost mark: nat) returns (ok: bool, scratch: seq<Frame>, locs: seq<Loc>)
      requires Inv(ov, View(Copying(snap, end, mark, [], [])))
      ensures ok && |scratch| == |snap| && Inv(ov, View(Copying(snap, end, mark, scratch, locs)))
    {
      hide Inv;
      scratch, locs := [], [];
      for i := 0 to |snap|
        invariant |scratch| == i && Inv(ov, View(Copying(snap, end, mark, scratch, locs)))
      {
        ghost var before := View(Copying(snap, end, mark, scratch, locs));
        CopyReads(ov, before, i);
        var f := ReadAt(ov, log, snap[i].entry.offset);
        if f.None? {
          return false, scratch, locs;
        }
        CopyKeeps(ov, before);
        locs := locs + [Loc(snap[i].id, Entry(Size(ov, scratch), |f.value.payload|, false, snap[i].entry.expires))];
        scratch := scratch + [f.value];
      }
      ok := true;
    }

    /** Phase 3: drain the frames appended since, swap the log in, rebuild the hash. */
    method DrainAndSwap(snap: seq<Loc>, end: nat, ghost mark: nat, scratch: seq<Frame>, locs: seq<Loc>)
      requires |scratch| == |snap| && Inv(ov, View(Copying(snap, end, mark, scratch, locs)))
      modifies this
      ensures View(Idle) == Apply(ov, old(View(Copying(snap, end, mark, scratch, locs))), Swap)
      ensures Inv(ov, View(Idle))
      ensures forall id :: Forgets(old(Lookup(ov, View(Idle), id)), Lookup(ov, View(Idle), id))
    {
      hide Inv, Lookup, Drain, LocsOf, PutAll;
      ghost var before := View(Copying(snap, end, mark, scratch, locs));
      JobFacts(ov, before);
      var newlog, all := DrainTail(end, mark, scratch, locs);
      var nh := Rebuild(all);
      log, hash, generation := newlog, nh, generation + 1;
      SwapInstalls(ov, before, log, all);
      StepKeeps(ov, before, Swap);
      SwapForgets(ov, before, old(View(Idle)));
    }

    /** Step through the tail by frame size, appending each frame to the scratch log. */
    method DrainTail(end: nat, ghost mark: nat, scratch: seq<Frame>, locs: seq<Loc>)
        returns (newlog: seq<Frame>, all: seq<Loc>)
      requires mark <= |log| && end == Size(ov, log[..mark]) && locs == LocsOf(ov, scratch)
      ensures newlog == scratch + log[mark..] && all == LocsOf(ov, newlog)
    {
      hide Size, ReadAt, LocsOf;
      newlog, all := scratch, locs;
      var tail := end;
      ghost var k := mark;
      assert scratch + log[mark..mark] == scratch;
      SizeSplit(ov, log, mark);
      while tail < Size(ov, log)
        invariant mark <= k <= |log| && tail == Size(ov, log[..k]) <= Size(ov, log)
        invariant newlog == scratch + log[mark..k] && all == LocsOf(ov, newlog)
        decreases |log| - k
      {
        TailInRange(ov, log, k);
        TailStep(ov, log, k);
        var f := ReadAt(ov, log, tail).value;
        assert newlog + [f] == scratch + log[mark..k + 1];
        LocsAppend(ov, newlog, f);
        all := all + [Loc(f.id, EntryOf(Size(ov, newlog), f))];
        newlog := newlog + [f];
        tail := tail + FrameSize(ov, f);
        k := k + 1;
        SizeSplit(ov, log, k);
      }
      TailDone(ov, log, k);
    }

    /** hash_index_put of every location, in order. */
    method Rebuild(all: seq<Loc>) returns (nh: map<nat, Entry>)
      ensures nh == PutAll(all)
    {
      nh := map[];
      for i := 0 to |all|
        invariant nh == PutAll(all[..i])
      {
        nh := nh[all[i].id := all[i].entry];
        assert all[..i + 1][..i] == all[..i];
      }
      assert all[..|all|] == all;
    }
  }

  lemma SizeSplit(ov: Overhead, log: seq<Frame>, k: nat)
    requires k <= |log|
    ensures Size(ov, log[..k]) + Size(ov, log[k..]) == Size(ov, log)
  {
    SizeConcat(ov, log[..k], log[k..]);
    assert log[..k] + log[k..] == log;
  }

  lemma LocsAppend(ov: Overhead, frames: seq<Frame>, f: Frame)
    ensures LocsOf(ov, frames + [f]) == LocsOf(ov, frames) + [Loc(f.id, EntryOf(Size(ov, frames), f))]
  {
  }

  lemma TailInRange(ov: Overhead, log: seq<Frame>, k: nat)
    requires k <= |log| && Size(ov, log[..k]) < Size(ov, log)
    ensures k < |log|
  {
    assert log[..|log|] == log;
  }

  lemma TailStep(ov: Overhead, log: seq<Frame>, k: nat)
    requires k < |log|
    ensures ReadAt(ov, log, Size(ov, log[..k])) == Some(log[k])
    ensures Size(ov, log[..k + 1]) == Size(ov, log[..k]) + FrameSize(ov, log[k])
  {
    assert log == log[..k] + log[k..];
    ReadPast(ov, log[..k], log[k..], 0);
    assert log[..k + 1] == log[..k] + [log[k]];
    SizeAppend(ov, log[..k], log[k]);
  }

  lemma TailDone(ov: Overhead, log: seq<Frame>, k: nat)
    requires k <= |log| && Size(ov, log[..k]) >= Size(ov, log)
    ensures k == |log|
  {
    SizeSplit(ov, log, k);
  }

  lemma SwapInstalls(ov: Overhead, s: State, log': seq<Frame>, all: seq<Loc>)
    requires Inv(ov, s) && Enabled(ov, s, Swap) && log' == s.job.scratch + s.log[s.job.mark..]
             && all == LocsOf(ov, log')
    ensures Apply(ov, s, Swap).log == log' && Apply(ov, s, Swap).hash == PutAll(all)
  {
    SwapLog(ov, s);
    PutLocs(ov, log');
  }
}
