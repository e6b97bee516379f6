/** One client connection: bytes in, request lines out of them, responses back. The
    kernel decides how input is split and how much of a write it takes; what the
    client receives does not depend on either. */
module Connection {
  import opened Facts

  const NEWLINE: Byte := 10
  const RETURN: Byte := 13
  const FIRST_CAP := 4096

  /** The request handler as this connection sees it: its n-th request's response may
      depend on anything the server did in between. */
  datatype Service = Service(handle: (nat, seq<Byte>) -> seq<Byte>, tooLarge: seq<Byte>, limit: nat)

  /** What a read call finds: at most `n` bytes, or one of its other returns. */
  datatype ReadEvent = Ready(n: nat) | Eof | ReadInterrupted | ReadFailed

  /** What a write call does; when no event is left it would block. */
  datatype WriteEvent = Takes(n: nat) | WriteInterrupted | WriteFailed

  // ----- the responses a byte stream calls for ---------------------------------------------

  /** Where the first line ends; the length if it does not. */
  function LineEnd(s: seq<Byte>): (i: nat)
    ensures i <= |s|
  {
    if s == [] || s[0] == NEWLINE then 0 else 1 + LineEnd(s[1..])
  }

  /** A line without its carriage return. */
  function Trim(line: seq<Byte>): seq<Byte>
  {
    if line != [] && line[|line| - 1] == RETURN then line[..|line| - 1] else line
  }

  function Respond(sv: Service, n: nat, line: seq<Byte>): seq<Byte> { sv.handle(n, line) }

  /** In order: a response to each complete non-empty line, up to a line longer than
      the limit, which gets one error and ends the stream. */
  function Replies(sv: Service, n: nat, s: seq<Byte>): seq<Byte>
    decreases |s|
  {
    var i := LineEnd(s);
    if i > sv.limit then sv.tooLarge
    else if i == |s| then []
    else
      var line := Trim(s[..i]);
      if line == [] then Replies(sv, n, s[i + 1..]) else Respond(sv, n, line) + Replies(sv, n + 1, s[i + 1..])
  }

  ghost predicate EndsAt(s: seq<Byte>, i: nat)
  {
    i <= |s| && (i < |s| ==> s[i] == NEWLINE) && forall j :: 0 <= j < i ==> s[j] != NEWLINE
  }

  lemma {:induction false} LineEndMeans(s: seq<Byte>)
    ensures EndsAt(s, LineEnd(s))
  {
    if s != [] && s[0] != NEWLINE {
      LineEndMeans(s[1..]);
      assert forall j :: 1 <= j < |s| ==> s[j] == s[1..][j - 1];
    }
  }

  lemma LineEndUnique(s: seq<Byte>, i: nat)
    requires EndsAt(s, i)
    ensures LineEnd(s) == i
  {
    LineEndMeans(s);
  }

  lemma LineEndMore(s: seq<Byte>, more: seq<Byte>)
    ensures LineEnd(s) < |s| ==> LineEnd(s + more) == LineEnd(s)
    ensures LineEnd(s) == |s| ==> LineEnd(s + more) >= |s|
  {
    LineEndMeans(s);
    LineEndMeans(s + more);
    if LineEnd(s) < |s| {
      LineEndUnique(s + more, LineEnd(s));
    }
  }

  /** A complete line's response is settled, whatever follows. */
  lemma FirstLine(sv: Service, n: nat, s: seq<Byte>, more: seq<Byte>)
    requires LineEnd(s) < |s| && LineEnd(s) <= sv.limit
    ensures var i := LineEnd(s);
            var line := Trim(s[..i]);
            Replies(sv, n, s + more)
            == if line == [] then Replies(sv, n, s[i + 1..] + more)
               else Respond(sv, n, line) + Replies(sv, n + 1, s[i + 1..] + more)
  {
    hide LineEnd, Trim, Respond;
    var i := LineEnd(s);
    LineEndMore(s, more);
    assert (s + more)[..i] == s[..i] && (s + more)[i + 1..] == s[i + 1..] + more;
  }

  /** So is an over-long one's. */
  lemma LongLine(sv: Service, n: nat, s: seq<Byte>, more: seq<Byte>)
    requires LineEnd(s) == |s| > sv.limit
    ensures Replies(sv, n, s + more) == sv.tooLarge
  {
    LineEndMore(s, more);
  }

  /** More input only adds to what is owed. */
  lemma {:induction false} RepliesGrow(sv: Service, n: nat, s: seq<Byte>, more: seq<Byte>)
    ensures Replies(sv, n, s) <= Replies(sv, n, s + more)
    decreases |s|
  {
    var i := LineEnd(s);
    if i > sv.limit {
      LineEndMore(s, more);
    } else if i < |s| {
      hide Replies, LineEnd, Trim, Respond;
      var line, rest := Trim(s[..i]), s[i + 1..];
      assert s + [] == s && rest + [] == rest;
      FirstLine(sv, n, s, []);
      FirstLine(sv, n, s, more);
      if line == [] {
        RepliesGrow(sv, n, rest, more);
      } else {
        RepliesGrow(sv, n + 1, rest, more);
        PrefixAfter(Respond(sv, n, line), Replies(sv, n + 1, rest), Replies(sv, n + 1, rest + more));
      }
    }
  }

  lemma PrefixAfter(a: seq<Byte>, b: seq<Byte>, c: seq<Byte>)
    requires b <= c
    ensures a + b <= a + c
  {
  }

  /** The kernel has input, and the first read finds some of it. */
  predicate Offers(source: seq<Byte>, events: seq<ReadEvent>)
  {
    source != [] && events != [] && events[0].Ready? && events[0].n > 0
  }

  // ----- the connection ------------------------------------------------------------------------

  /** All of `input`'s replies: those sent or staged, then those of what is buffered. */
  ghost predicate Owed(sv: Service, received: seq<Byte>, done: seq<Byte>, requests: nat, rbuf: seq<Byte>, closing: bool)
  {
    forall more :: OwedWith(sv, received, done, requests, rbuf, closing, more)
  }

  ghost predicate OwedWith(sv: Service, received: seq<Byte>, done: seq<Byte>, requests: nat, rbuf: seq<Byte>,
                           closing: bool, more: seq<Byte>)
  {
    Replies(sv, 0, received + more) == if closing then done else done + Replies(sv, requests, rbuf + more)
  }

  class Conn {
    const sv: Service
    var rbuf: seq<Byte>
    var rcap: nat
    var wbuf: seq<Byte>
    var woff: nat
    var wantWrite: bool
    var closeAfterWrite: bool
    var requests: nat
    var received: seq<Byte>   // every byte read off the socket so far
    var sent: seq<Byte>       // every byte the kernel took

    ghost predicate Valid()
      reads this
    {
      && |rbuf| <= rcap <= sv.limit + 1
      && woff <= |wbuf| && (!wantWrite ==> wbuf == [])
      && Owed(sv, received, sent + wbuf[woff..], requests, rbuf, closeAfterWrite)
    }

    constructor (sv: Service)
      ensures Valid() && this.sv == sv && received == [] && sent == []
      ensures !wantWrite && !closeAfterWrite && rbuf == [] && requests == 0
    {
      this.sv := sv;
      rbuf, rcap, wbuf, woff, wantWrite, closeAfterWrite, requests := [], 0, [], 0, false, false, 0;
      received, sent := [], [];
      new;
      assert sent + wbuf[woff..] == [];
      assert forall r: seq<Byte> :: [] + r == r;
    }

    /** Read until the kernel has no more, or a line's worth is buffered. */
    method Read(source: seq<Byte>, events: seq<ReadEvent>) returns (eof: bool, failed: bool, used: nat)
      requires Valid() && !wantWrite && !closeAfterWrite
      modifies this`rbuf, this`rcap, this`received
      ensures Valid() && used <= |source| && received == old(received) + source[..used]
      ensures Offers(source, events) && |old(rbuf)| <= sv.limit ==> used > 0
    {
      hide Owed;
      used := 0;
      eof, failed := false, false;
      assert received + source[..0] == received;
      for e := 0 to |events|
        invariant Valid() && !eof && !failed
        invariant used <= |source| && received == old(received) + source[..used] && (e == 0 ==> rbuf == old(rbuf))
        invariant e > 0 && Offers(source, events) && |old(rbuf)| <= sv.limit ==> used > 0
      {
        if |rbuf| == rcap {
          if rcap > sv.limit {
            return;
          }
          Grow();
        }
        match events[e]
        case Eof => eof := true; return;
        case ReadFailed => failed := true; return;
        case ReadInterrupted =>
        case Ready(n) =>
          var k := Min(n, Min(rcap - |rbuf|, |source| - used));
          if k == 0 {
            return;
          }
          assert source[..used + k] == source[..used] + source[used..used + k];
          Take(source[used..used + k]);
          used := used + k;
      }
    }

    /** Double the buffer, to one byte past the limit at most. */
    method Grow()
      requires Valid() && rcap <= sv.limit
      modifies this`rcap
      ensures Valid() && rcap > old(rcap)
    {
      hide Owed;
      var cap := if rcap > 0 then rcap * 2 else FIRST_CAP;
      rcap := if cap > sv.limit + 1 then sv.limit + 1 else cap;
    }

    method Take(chunk: seq<Byte>)
      requires Valid() && !closeAfterWrite && |rbuf| + |chunk| <= rcap
      modifies this`rbuf, this`received
      ensures Valid() && rbuf == old(rbuf) + chunk && received == old(received) + chunk
    {
      hide Owed;
      OwedMore(sv, received, sent + wbuf[woff..], requests, rbuf, chunk);
      rbuf, received := rbuf + chunk, received + chunk;
    }

    /** Push the staged response out as far as the kernel takes it. */
    method Flush(events: seq<WriteEvent>) returns (close: bool, rest: seq<WriteEvent>)
      requires Valid()
      modifies this`wbuf, this`woff, this`wantWrite, this`sent
      ensures Valid() && |rest| <= |events| && old(sent) <= sent
      ensures wantWrite ==> old(wantWrite)
      ensures !close && !wantWrite ==> !closeAfterWrite
      ensures !close && wantWrite ==> rest == []
    {
      hide Owed;
      rest := events;
      while woff < |wbuf|
        invariant Valid() && |rest| <= |events| && wantWrite == old(wantWrite) && old(sent) <= sent
        decreases |rest|
      {
        if rest == [] {
          return false, rest;
        }
        var e := rest[0];
        rest := rest[1..];
        match e
        case WriteInterrupted =>
        case WriteFailed => return true, rest;
        case Takes(n) =>
          var k := Min(n, |wbuf| - woff);
          assert sent + wbuf[woff..] == (sent + wbuf[woff..woff + k]) + wbuf[woff + k..];
          sent, woff := sent + wbuf[woff..woff + k], woff + k;
      }
      assert sent + wbuf[woff..] == sent + [];
      wbuf, woff, wantWrite := [], 0, false;
      close := closeAfterWrite;
    }

    method FindNewline() returns (i: nat)
      ensures i == LineEnd(rbuf)
    {
      i := 0;
      while i < |rbuf| && rbuf[i] != NEWLINE
        invariant i <= |rbuf| && forall j :: 0 <= j < i ==> rbuf[j] != NEWLINE
      {
        i := i + 1;
      }
      LineEndUnique(rbuf, i);
    }

    /** An over-long line: one error, then the connection closes. */
    method Refuse(events: seq<WriteEvent>) returns (close: bool, rest: seq<WriteEvent>)
      requires Valid() && !wantWrite && !closeAfterWrite && LineEnd(rbuf) == |rbuf| > sv.limit
      modifies this`wbuf, this`woff, this`wantWrite, this`closeAfterWrite, this`sent
      ensures Valid() && closeAfterWrite && |rest| <= |events| && old(sent) <= sent
      ensures close || (wantWrite && rest == [])
    {
      hide Owed, LineEnd;
      assert sent + wbuf[woff..] == sent;
      OwedLong(sv, received, sent, requests, rbuf);
      wbuf, woff, wantWrite, closeAfterWrite := sv.tooLarge, 0, true, true;
      assert wbuf[woff..] == sv.tooLarge;
      close, rest := Flush(events);
    }

    /** Consume the line ending at `i`, and send what it calls for. */
    method Answer(i: nat, events: seq<WriteEvent>) returns (close: bool, rest: seq<WriteEvent>)
      requires Valid() && !wantWrite && !closeAfterWrite && i == LineEnd(rbuf) < |rbuf|
      modifies this`rbuf, this`wbuf, this`woff, this`wantWrite, this`requests, this`sent
      ensures Valid() && |rest| <= |events| && old(sent) <= sent && |rbuf| < old(|rbuf|)
      ensures !close && wantWrite ==> rest == []
    {
      hide Owed, LineEnd, Trim, Respond;
      assert sent + wbuf[woff..] == sent;
      OwedLine(sv, received, sent, requests, rbuf);
      var eff := i;
      if eff > 0 && rbuf[eff - 1] == RETURN {
        eff := eff - 1;
      }
      var line := rbuf[..eff];
      TrimIs(rbuf, i, eff);
      rbuf := rbuf[i + 1..];
      if eff == 0 {
        return false, events;
      }
      var resp := Respond(sv, requests, line);
      requests, wbuf, woff, wantWrite := requests + 1, resp, 0, true;
      assert wbuf[woff..] == resp;
      close, rest := Flush(events);
    }

    /** Answer buffered lines one at a time, stopping when one is incomplete or a
        response is not fully sent. */
    method Advance(events: seq<WriteEvent>) returns (close: bool, rest: seq<WriteEvent>)
      requires Valid() && !(closeAfterWrite && !wantWrite)
      modifies this`rbuf, this`wbuf, this`woff, this`wantWrite, this`closeAfterWrite, this`requests, this`sent
      ensures Valid() && |rest| <= |events| && old(sent) <= sent
      ensures !close && closeAfterWrite ==> wantWrite
      ensures !close && !wantWrite ==> LineEnd(rbuf) == |rbuf| <= sv.limit
      ensures !close && wantWrite && !old(wantWrite) ==> rest == []
    {
      hide Owed, LineEnd, Trim, Respond;
      rest := events;
      while !wantWrite
        invariant Valid() && |rest| <= |events| && (closeAfterWrite ==> wantWrite) && old(sent) <= sent
        invariant wantWrite && !old(wantWrite) ==> rest == []
        decreases |rbuf|, !wantWrite
      {
        var i := FindNewline();
        if i == |rbuf| {
          if |rbuf| > sv.limit {
            close, rest := Refuse(rest);
            return;
          }
          return false, rest;
        }
        close, rest := Answer(i, rest);
        if close {
          return;
        }
      }
      close := false;
    }
  }

  lemma TrimIs(rbuf: seq<Byte>, i: nat, eff: nat)
    requires i <= |rbuf| && eff == if i > 0 && rbuf[i - 1] == RETURN then i - 1 else i
    ensures Trim(rbuf[..i]) == rbuf[..eff]
  {
  }

  lemma OwedMore(sv: Service, received: seq<Byte>, done: seq<Byte>, requests: nat, rbuf: seq<Byte>, chunk: seq<Byte>)
    requires Owed(sv, received, done, requests, rbuf, false)
    ensures Owed(sv, received + chunk, done, requests, rbuf + chunk, false)
  {
    forall more ensures OwedWith(sv, received + chunk, done, requests, rbuf + chunk, false, more) {
      assert OwedWith(sv, received, done, requests, rbuf, false, chunk + more);
      assert received + chunk + more == received + (chunk + more) && rbuf + chunk + more == rbuf + (chunk + more);
    }
  }

  lemma OwedLine(sv: Service, received: seq<Byte>, done: seq<Byte>, requests: nat, rbuf: seq<Byte>)
    requires Owed(sv, received, done, requests, rbuf, false) && LineEnd(rbuf) < |rbuf| && LineEnd(rbuf) <= sv.limit
    ensures var i := LineEnd(rbuf);
            var line := Trim(rbuf[..i]);
            if line == [] then Owed(sv, received, done, requests, rbuf[i + 1..], false)
            else Owed(sv, received, done + Respond(sv, requests, line), requests + 1, rbuf[i + 1..], false)
  {
    hide OwedWith, LineEnd, Trim, Respond;
    var i := LineEnd(rbuf);
    var line := Trim(rbuf[..i]);
    var rest := rbuf[i + 1..];
    if line == [] {
      forall more ensures OwedWith(sv, received, done, requests, rest, false, more) {
        LineAnswered(sv, received, done, requests, rbuf, more);
      }
    } else {
      var done', n := done + Respond(sv, requests, line), requests + 1;
      forall more ensures OwedWith(sv, received, done', n, rest, false, more) {
        LineAnswered(sv, received, done, requests, rbuf, more);
      }
    }
  }

  lemma LineAnswered(sv: Service, received: seq<Byte>, done: seq<Byte>, requests: nat, rbuf: seq<Byte>, more: seq<Byte>)
    requires OwedWith(sv, received, done, requests, rbuf, false, more) && LineEnd(rbuf) < |rbuf|
             && LineEnd(rbuf) <= sv.limit
    ensures var i := LineEnd(rbuf);
            var line := Trim(rbuf[..i]);
            if line == [] then OwedWith(sv, received, done, requests, rbuf[i + 1..], false, more)
            else OwedWith(sv, received, done + Respond(sv, requests, line), requests + 1, rbuf[i + 1..], false, more)
  {
    hide Replies, LineEnd, Trim, Respond;
    var i := LineEnd(rbuf);
    var line, tail := Trim(rbuf[..i]), rbuf[i + 1..];
    FirstLine(sv, requests, rbuf, more);
    if line != [] {
      Regroup(done, Respond(sv, requests, line), Replies(sv, requests + 1, tail + more));
    }
  }

  lemma Regroup(a: seq<Byte>, b: seq<Byte>, c: seq<Byte>)
    ensures a + (b + c) == a + b + c
  {
  }

  lemma OwedLong(sv: Service, received: seq<Byte>, done: seq<Byte>, requests: nat, rbuf: seq<Byte>)
    requires Owed(sv, received, done, requests, rbuf, false) && LineEnd(rbuf) == |rbuf| > sv.limit
    ensures Owed(sv, received, done + sv.tooLarge, requests, rbuf, true)
  {
    hide Replies, LineEnd;
    forall more ensures OwedWith(sv, received, done + sv.tooLarge, requests, rbuf, true, more) {
      assert OwedWith(sv, received, done, requests, rbuf, false, more);
      LongLine(sv, requests, rbuf, more);
    }
  }

  /** What has gone out is a front of the replies, to the input so far and to any longer. */
  lemma SentIsFront(sv: Service, received: seq<Byte>, sent: seq<Byte>, staged: seq<Byte>, requests: nat,
                    rbuf: seq<Byte>, closing: bool, more: seq<Byte>)
    requires Owed(sv, received, sent + staged, requests, rbuf, closing)
    ensures sent <= Replies(sv, 0, received + more)
  {
    hide Replies;
    assert OwedWith(sv, received, sent + staged, requests, rbuf, closing, more);
  }

  lemma AllAnswered(sv: Service, received: seq<Byte>, sent: seq<Byte>, requests: nat, rbuf: seq<Byte>)
    requires Owed(sv, received, sent, requests, rbuf, false) && LineEnd(rbuf) == |rbuf| <= sv.limit
    ensures sent == Replies(sv, 0, received)
  {
    assert OwedWith(sv, received, sent, requests, rbuf, false, []);
    assert received + [] == received && rbuf + [] == rbuf;
  }

  // ----- a whole session ------------------------------------------------------------------------

  /** One wake-up of the loop for this connection. */
  datatype Wake = Wake(arrivals: seq<ReadEvent>, departures: seq<WriteEvent>)

  /** Whatever the kernel does, what the client has received is a front of the replies
      its input calls for; and when the server is waiting for input, all of them. */
  method Session(sv: Service, input: seq<Byte>, wakes: seq<Wake>)
    returns (sent: seq<Byte>, taken: nat, closed: bool, waiting: bool)
    ensures taken <= |input| && sent <= Replies(sv, 0, input[..taken])
    ensures sent <= Replies(sv, 0, input)
    ensures waiting ==> !closed && sent == Replies(sv, 0, input[..taken])
    ensures wakes != [] && Offers(input, wakes[0].arrivals) ==> taken > 0
  {
    hide Replies, LineEnd, Owed, Offers;
    var c := new Conn(sv);
    taken, closed := 0, false;
    for i := 0 to |wakes|
      invariant c.Valid() && c.sv == sv
      invariant taken <= |input| && c.received == input[..taken]
                && (i == 0 ==> !c.wantWrite && c.rbuf == [] && taken == 0)
      invariant i > 0 && Offers(input, wakes[0].arrivals) ==> taken > 0
      invariant c.closeAfterWrite ==> c.wantWrite
      invariant !c.wantWrite ==> LineEnd(c.rbuf) == |c.rbuf| <= sv.limit
    {
      var eof, failed, used, rest := false, false, 0, wakes[i].departures;
      if c.wantWrite {
        closed, rest := c.Flush(rest);
      } else {
        assert input[0..] == input;
        eof, failed, used := c.Read(input[taken..], wakes[i].arrivals);
        taken := taken + used;
        closed := failed;
      }
      if !closed {
        closed, rest := c.Advance(rest);
      }
      if closed || eof {
        closed := true;
        break;
      }
    }
    sent, waiting := c.sent, !closed && !c.wantWrite;
    SentIsFront(sv, c.received, c.sent, c.wbuf[c.woff..], c.requests, c.rbuf, c.closeAfterWrite, input[taken..]);
    SentIsFront(sv, c.received, c.sent, c.wbuf[c.woff..], c.requests, c.rbuf, c.closeAfterWrite, []);
    assert c.received + input[taken..] == input && c.received + [] == c.received;
    if waiting {
      assert c.sent + c.wbuf[c.woff..] == c.sent;
      AllAnswered(sv, c.received, c.sent, c.requests, c.rbuf);
    }
  }
}
