/** The append-only log as a sequence of frames, addressed by byte offset, and the
    hash index as a function of it. `ov` is the per-frame overhead of the log's
    mode (plain or encrypted); only its being positive matters. */
module FrameLog {
  import opened Facts

  type Overhead = x: nat | x > 0 witness 1

  /** One record version as it sits in the log; `payload` is what is framed. */
  datatype Frame = Frame(id: nat, deleted: bool, expires: nat, payload: seq<Byte>)

  /** A hash index entry: where the id's latest version is, and its status. */
  datatype Entry = Entry(offset: nat, length: nat, deleted: bool, expires: nat)

  function FrameSize(ov: Overhead, f: Frame): nat { ov + |f.payload| }

  function Size(ov: Overhead, log: seq<Frame>): nat
  {
    if log == [] then 0 else FrameSize(ov, log[0]) + Size(ov, log[1..])
  }

  /** log_read: the frame that starts at byte `off`, if one does. */
  function ReadAt(ov: Overhead, log: seq<Frame>, off: nat): Option<Frame>
  {
    if log == [] then None
    else if off == 0 then Some(log[0])
    else if off < FrameSize(ov, log[0]) then None
    else ReadAt(ov, log[1..], off - FrameSize(ov, log[0]))
  }

  lemma {:induction false} SizeConcat(ov: Overhead, a: seq<Frame>, b: seq<Frame>)
    ensures Size(ov, a + b) == Size(ov, a) + Size(ov, b)
  {
    if a == [] {
      assert a + b == b;
    } else {
      assert (a + b)[1..] == a[1..] + b;
      SizeConcat(ov, a[1..], b);
    }
  }

  lemma SizeAppend(ov: Overhead, log: seq<Frame>, f: Frame)
    ensures Size(ov, log + [f]) == Size(ov, log) + FrameSize(ov, f)
  {
    SizeConcat(ov, log, [f]);
    assert [f][1..] == [];
  }

  /** Appending changes no offset that was readable before. */
  lemma {:induction false} ReadPrefix(ov: Overhead, a: seq<Frame>, b: seq<Frame>, off: nat)
    requires off < Size(ov, a)
    ensures ReadAt(ov, a + b, off) == ReadAt(ov, a, off)
  {
    if off >= FrameSize(ov, a[0]) {
      assert (a + b)[1..] == a[1..] + b;
      ReadPrefix(ov, a[1..], b, off - FrameSize(ov, a[0]));
    }
  }

  lemma {:induction false} ReadPast(ov: Overhead, a: seq<Frame>, b: seq<Frame>, off: nat)
    ensures ReadAt(ov, a + b, Size(ov, a) + off) == ReadAt(ov, b, off)
  {
    if a == [] {
      assert a + b == b;
    } else {
      assert (a + b)[1..] == a[1..] + b;
      ReadPast(ov, a[1..], b, off);
    }
  }

  function EntryOf(offset: nat, f: Frame): Entry { Entry(offset, |f.payload|, f.deleted, f.expires) }

  /** The hash index that indexing every frame in order produces. */
  function HashOf(ov: Overhead, log: seq<Frame>): map<nat, Entry>
  {
    if log == [] then map[]
    else
      var front := log[..|log| - 1];
      HashOf(ov, front)[log[|log| - 1].id := EntryOf(Size(ov, front), log[|log| - 1])]
  }

  /** The last version of `id` in the log, tombstone or not. */
  function LatestOf(log: seq<Frame>, id: nat): (r: Option<Frame>)
    ensures r.Some? ==> r.value in log && r.value.id == id
  {
    if log == [] then None
    else if log[|log| - 1].id == id then Some(log[|log| - 1])
    else LatestOf(log[..|log| - 1], id)
  }

  lemma {:induction false} LatestConcat(a: seq<Frame>, b: seq<Frame>, id: nat)
    ensures LatestOf(a + b, id) == if LatestOf(b, id).Some? then LatestOf(b, id) else LatestOf(a, id)
  {
    if b == [] {
      assert a + b == a;
    } else {
      assert (a + b)[..|a + b| - 1] == a + b[..|b| - 1];
      LatestConcat(a, b[..|b| - 1], id);
    }
  }

  /** The index points every id at its latest version. */
  lemma {:induction false} HashMeaning(ov: Overhead, log: seq<Frame>, id: nat)
    ensures id in HashOf(ov, log) <==> LatestOf(log, id).Some?
    ensures id in HashOf(ov, log) ==>
              var e := HashOf(ov, log)[id];
              && e.offset < Size(ov, log)
              && ReadAt(ov, log, e.offset) == LatestOf(log, id)
              && e == EntryOf(e.offset, LatestOf(log, id).value)
  {
    if log != [] {
      var front, last := log[..|log| - 1], log[|log| - 1];
      assert log == front + [last];
      SizeAppend(ov, front, last);
      HashMeaning(ov, front, id);
      if last.id == id {
        ReadPast(ov, front, [last], 0);
      } else if id in HashOf(ov, front) {
        ReadPrefix(ov, front, [last], HashOf(ov, front)[id].offset);
      }
    }
  }

  lemma HashAppend(ov: Overhead, log: seq<Frame>, f: Frame)
    ensures HashOf(ov, log + [f]) == HashOf(ov, log)[f.id := EntryOf(Size(ov, log), f)]
  {
  }
}
