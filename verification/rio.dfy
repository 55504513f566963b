/** The stream of bytes that a program sees through `rio_t`, whatever way `read` delivers it. */
module RioStreams {
  /** What one call of `read` may return. */
  datatype ReadResult = Data(bytes: seq<char>) | Eintr | Error | Eof

  const RIO_BUFSIZE := 8192

  /** What a caller can tell apart: a byte, a failed read, or an end of file. */
  datatype Event = Byte(c: char) | Fail | End

  /** A read delivers at least one byte and at most a buffer of them. */
  ghost predicate Deliverable(script: seq<ReadResult>) {
    forall i {:trigger script[i]} :: 0 <= i < |script| && script[i].Data? ==> 1 <= |script[i].bytes| <= RIO_BUFSIZE
  }

  ghost function Bytes(bs: seq<char>): (ev: seq<Event>)
    ensures |ev| == |bs| && forall i :: 0 <= i < |bs| ==> ev[i] == Byte(bs[i])
  {
    seq(|bs|, i requires 0 <= i < |bs| => Byte(bs[i]))
  }

  ghost function EventsOf(r: ReadResult): seq<Event> {
    match r
    case Data(bs) => Bytes(bs)
    case Eintr => []
    case Error => [Fail]
    case Eof => [End]
  }

  /** The events of the reads to come; after the last of them there is nothing but end of file. */
  ghost function Flatten(script: seq<ReadResult>): seq<Event> {
    if script == [] then [] else EventsOf(script[0]) + Flatten(script[1..])
  }

  lemma {:induction false} FlattenConcat(s: seq<ReadResult>, t: seq<ReadResult>)
    ensures Flatten(s + t) == Flatten(s) + Flatten(t)
  {
    if s == [] {
      assert s + t == t;
    } else {
      assert (s + t)[1..] == s[1..] + t;
      FlattenConcat(s[1..], t);
    }
  }

  /** What one read adds to the stream depends on nothing but its events. */
  lemma FlattenInside(s: seq<ReadResult>, x: seq<ReadResult>, t: seq<ReadResult>)
    ensures Flatten(s + x + t) == Flatten(s) + Flatten(x) + Flatten(t)
  {
    FlattenConcat(s + x, t);
    FlattenConcat(s, x);
  }

  lemma FlattenShort(r: ReadResult, q: ReadResult)
    ensures Flatten([r]) == EventsOf(r)
    ensures Flatten([r, q]) == EventsOf(r) + EventsOf(q)
  {
    hide EventsOf;
    assert [r][1..] == [] && [r, q][1..] == [q] && [q][1..] == [];
    assert Flatten([q]) == EventsOf(q);
  }

  /** What a read adds to the stream, wherever it happens: its bytes, one failure, or one end of file. */
  lemma ReadAdds(s: seq<ReadResult>, bs: seq<char>, t: seq<ReadResult>)
    ensures Flatten([]) == []
    ensures Flatten(s + [Data(bs)] + t) == Flatten(s) + Bytes(bs) + Flatten(t)
    ensures Flatten(s + [Error] + t) == Flatten(s) + [Fail] + Flatten(t)
    ensures Flatten(s + [Eof] + t) == Flatten(s) + [End] + Flatten(t)
  {
    FlattenInside(s, [Data(bs)], t);
    FlattenInside(s, [Error], t);
    FlattenInside(s, [Eof], t);
    FlattenShort(Data(bs), Eof);
    FlattenShort(Error, Eof);
    FlattenShort(Eof, Eof);
  }

  /** An interrupted read leaves no trace, wherever it happens. */
  lemma EintrIsInvisible(s: seq<ReadResult>, t: seq<ReadResult>)
    ensures Flatten(s + [Eintr] + t) == Flatten(s + t)
  {
    hide Flatten;
    FlattenInside(s, [Eintr], t);
    FlattenConcat(s, t);
    FlattenShort(Eintr, Eintr);
    assert Flatten(s) + [] == Flatten(s);
  }

  /** It makes no difference whether bytes arrive in one read or in two. */
  lemma ShortReadsAreInvisible(s: seq<ReadResult>, a: seq<char>, b: seq<char>, t: seq<ReadResult>)
    ensures Flatten(s + [Data(a + b)] + t) == Flatten(s + [Data(a), Data(b)] + t)
  {
    hide Flatten, Bytes;
    FlattenInside(s, [Data(a + b)], t);
    FlattenInside(s, [Data(a), Data(b)], t);
    FlattenShort(Data(a + b), Eof);
    FlattenShort(Data(a), Data(b));
    BytesConcat(a, b);
  }

  lemma BytesConcat(a: seq<char>, b: seq<char>)
    ensures Bytes(a + b) == Bytes(a) + Bytes(b)
  {
  }

  // ---------- What a call takes from the stream ----------

  datatype Reason = Full | Newline | Ended | Failed

  datatype Collected = Collected(bytes: seq<char>, why: Reason, rest: seq<Event>)

  /** Bytes are taken until there are `n` of them, or the stream ends or fails, or, when reading
      a line, a newline has been taken. */
  ghost function Collect(ev: seq<Event>, n: nat, line: bool): Collected
    decreases n
  {
    if n == 0 then Collected([], Full, ev)
    else if ev == [] then Collected([], Ended, [])
    else match ev[0]
      case Fail => Collected([], Failed, ev[1..])
      case End => Collected([], Ended, ev[1..])
      case Byte(c) =>
        if line && c == '\n' then Collected([c], Newline, ev[1..])
        else Prepend([c], Collect(ev[1..], n - 1, line))
  }

  ghost function Prepend(bs: seq<char>, c: Collected): Collected {
    c.(bytes := bs + c.bytes)
  }

  lemma PrependTwice(a: seq<char>, b: seq<char>, c: Collected)
    ensures Prepend(a, Prepend(b, c)) == Prepend(a + b, c) && Prepend([], c) == c
  {
    assert a + (b + c.bytes) == (a + b) + c.bytes;
    assert [] + c.bytes == c.bytes;
  }

  /** Bytes that end no line can be taken in one go. */
  lemma CollectNext(c: char, ev: seq<Event>, n: nat, line: bool)
    requires n > 0 && !(line && c == '\n')
    ensures Collect([Byte(c)] + ev, n, line) == Prepend([c], Collect(ev, n - 1, line))
  {
    assert ([Byte(c)] + ev)[1..] == ev;
  }

  lemma FirstByte(bs: seq<char>, ev: seq<Event>)
    requires bs != []
    ensures Bytes(bs) + ev == [Byte(bs[0])] + (Bytes(bs[1..]) + ev) && [bs[0]] + bs[1..] == bs
  {
  }

  lemma NoBytesBefore(ev: seq<Event>)
    ensures Bytes([]) + ev == ev
  {
  }

  lemma {:induction false} CollectChunk(bs: seq<char>, ev: seq<Event>, n: nat, line: bool)
    requires |bs| <= n && (line ==> '\n' !in bs)
    ensures Collect(Bytes(bs) + ev, n, line) == Prepend(bs, Collect(ev, n - |bs|, line))
    decreases |bs|
  {
    hide Collect, Prepend, Bytes;
    if bs == [] {
      NoBytesBefore(ev);
      PrependTwice([], [], Collect(ev, n, line));
    } else {
      FirstByte(bs, ev);
      CollectNext(bs[0], Bytes(bs[1..]) + ev, n, line);
      CollectChunk(bs[1..], ev, n - 1, line);
      PrependTwice([bs[0]], bs[1..], Collect(ev, n - |bs|, line));
    }
  }

  lemma {:induction false} CollectTakes(ev: seq<Event>, n: nat, line: bool)
    ensures var r := Collect(ev, n, line);
            && |r.bytes| <= n
            && (line ==> forall i :: 0 <= i < |r.bytes| - 1 ==> r.bytes[i] != '\n')
            && (r.why == Newline <==> line && r.bytes != [] && r.bytes[|r.bytes| - 1] == '\n')
            && (r.why == Full <==> |r.bytes| == n && r.why != Newline)
    ensures Taken(ev, Collect(ev, n, line))
    decreases n
  {
    hide Taken, Bytes;
    if n == 0 || ev == [] {
      NothingTaken(ev);
    } else if !ev[0].Byte? || (line && ev[0].c == '\n') {
      OneTaken(ev);
    } else {
      CollectTakes(ev[1..], n - 1, line);
      TakenAfter(ev, Collect(ev[1..], n - 1, line));
    }
  }

  /** A call stops exactly at the first newline (if it reads a line), at `n` bytes, at an end of file or at a failure,
      and takes from the stream the bytes that it hands out and, in the last two cases, the event that stopped it. */
  lemma CollectStops(ev: seq<Event>, n: nat, line: bool)
    ensures var r := Collect(ev, n, line);
            && |r.bytes| <= n
            && (line ==> forall i :: 0 <= i < |r.bytes| - 1 ==> r.bytes[i] != '\n')
            && (r.why == Newline <==> line && r.bytes != [] && r.bytes[|r.bytes| - 1] == '\n')
            && (r.why == Full <==> |r.bytes| == n && r.why != Newline)
    ensures var r := Collect(ev, n, line);
            match r.why
            case Full => ev == Bytes(r.bytes) + r.rest
            case Newline => ev == Bytes(r.bytes) + r.rest
            case Failed => ev == Bytes(r.bytes) + [Fail] + r.rest
            case Ended => ev == Bytes(r.bytes) + [End] + r.rest || (ev == Bytes(r.bytes) && r.rest == [])
  {
    hide Collect, Bytes;
    CollectTakes(ev, n, line);
  }

  /** `r` is what was taken from `ev`: the bytes and the event that consumed none, if it was one. */
  ghost predicate Taken(ev: seq<Event>, r: Collected) {
    match r.why
    case Full => ev == Bytes(r.bytes) + r.rest
    case Newline => ev == Bytes(r.bytes) + r.rest
    case Failed => ev == Bytes(r.bytes) + [Fail] + r.rest
    case Ended => ev == Bytes(r.bytes) + [End] + r.rest || (ev == Bytes(r.bytes) && r.rest == [])
  }

  lemma NothingTaken(ev: seq<Event>)
    ensures Taken(ev, Collected([], Full, ev)) && Taken([], Collected([], Ended, []))
  {
    NoBytesBefore(ev);
  }

  lemma OneTaken(ev: seq<Event>)
    requires ev != []
    ensures match ev[0]
            case Fail => Taken(ev, Collected([], Failed, ev[1..]))
            case End => Taken(ev, Collected([], Ended, ev[1..]))
            case Byte(c) => Taken(ev, Collected([c], Newline, ev[1..]))
  {
    assert ev == [ev[0]] + ev[1..];
  }

  lemma AfterFirst(x: seq<Event>, y: seq<Event>, rest: seq<Event>)
    ensures x + (y + rest) == (x + y) + rest
    ensures forall e :: x + (y + [e] + rest) == (x + y) + [e] + rest
  {
  }

  lemma TakenAfter(ev: seq<Event>, r: Collected)
    requires ev != [] && ev[0].Byte? && Taken(ev[1..], r)
    ensures Taken(ev, Prepend([ev[0].c], r))
  {
    hide Bytes;
    BytesConcat([ev[0].c], r.bytes);
    FirstEvent(ev);
    AfterFirst([ev[0]], Bytes(r.bytes), r.rest);
  }

  lemma FirstEvent(ev: seq<Event>)
    requires ev != [] && ev[0].Byte?
    ensures ev == [ev[0]] + ev[1..] && Bytes([ev[0].c]) == [ev[0]]
  {
  }

  /** The stream ends here, and goes on with `rest` when it is read again. */
  ghost predicate AtEnd(ev: seq<Event>, rest: seq<Event>) {
    ev == [End] + rest || (ev == [] && rest == [])
  }

  /** What is still to collect after a chunk of bytes has been stored. */
  lemma CollectMore(done: seq<char>, ev: seq<Event>, chunk: seq<char>, rest: seq<Event>, n: nat, line: bool)
    requires ev == Bytes(chunk) + rest && |chunk| <= n && (line ==> '\n' !in chunk)
    ensures Prepend(done, Collect(ev, n, line)) == Prepend(done + chunk, Collect(rest, n - |chunk|, line))
  {
    CollectChunk(chunk, rest, n, line);
    PrependTwice(done, chunk, Collect(rest, n - |chunk|, line));
  }

  lemma CollectFull(ev: seq<Event>, line: bool)
    ensures Collect(ev, 0, line) == Collected([], Full, ev)
  {
  }

  lemma CollectNewline(ev: seq<Event>, rest: seq<Event>, n: nat)
    requires n > 0 && ev == Bytes(['\n']) + rest
    ensures Collect(ev, n, true) == Collected(['\n'], Newline, rest)
  {
    assert ev[1..] == rest;
  }

  /** A call that finds the end of the stream, or a failure, collects nothing. */
  lemma CollectNothing(ev: seq<Event>, rest: seq<Event>, n: nat, line: bool)
    requires n > 0
    ensures AtEnd(ev, rest) ==> Collect(ev, n, line) == Collected([], Ended, rest)
    ensures ev == [Fail] + rest ==> Collect(ev, n, line) == Collected([], Failed, rest)
  {
  }

  // ---------- Runs of calls ----------

  datatype Call = ReadNb(n: nat) | ReadLineb(maxlen: nat)

  /** The most bytes that a call takes: a line is followed by a null character. */
  function Limit(call: Call): nat {
    match call
    case ReadNb(n) => n
    case ReadLineb(maxlen) => if maxlen == 0 then 0 else maxlen - 1
  }

  ghost function Outcome(ev: seq<Event>, call: Call): Collected {
    Collect(ev, Limit(call), call.ReadLineb?)
  }

  /** The bytes that a call hands out: a call that returns -1 does not say how many it has stored. */
  ghost function Handed(r: Collected): seq<char> {
    if r.why == Failed then [] else r.bytes
  }

  /** The bytes that a run of calls hands out, whether no call failed, and the events that it leaves. */
  ghost function Run(ev: seq<Event>, calls: seq<Call>): (seq<char>, bool, seq<Event>)
    decreases |calls|
  {
    if calls == [] then ([], true, ev)
    else
      var r := Outcome(ev, calls[0]);
      var (bs, ok, rest) := Run(r.rest, calls[1..]);
      (Handed(r) + bs, r.why != Failed && ok, rest)
  }

  ghost function BytesIn(ev: seq<Event>): seq<char> {
    if ev == [] then [] else (if ev[0].Byte? then [ev[0].c] else []) + BytesIn(ev[1..])
  }

  lemma {:induction false} BytesInConcat(a: seq<Event>, b: seq<Event>)
    ensures BytesIn(a + b) == BytesIn(a) + BytesIn(b)
  {
    if a == [] {
      assert a + b == b;
    } else {
      var first := if a[0].Byte? then [a[0].c] else [];
      assert (a + b)[1..] == a[1..] + b && (a + b)[0] == a[0];
      BytesInConcat(a[1..], b);
      assert BytesIn(a + b) == first + (BytesIn(a[1..]) + BytesIn(b));
      hide BytesIn;
      assert first + (BytesIn(a[1..]) + BytesIn(b)) == (first + BytesIn(a[1..])) + BytesIn(b);
    }
  }

  lemma {:induction false} BytesInBytes(bs: seq<char>)
    ensures BytesIn(Bytes(bs)) == bs
  {
    if bs != [] {
      assert Bytes(bs)[1..] == Bytes(bs[1..]);
      BytesInBytes(bs[1..]);
    }
  }

  /** A run in which no call fails hands out the bytes of the stream in order and loses none. */
  lemma {:induction false} RunConserves(ev: seq<Event>, calls: seq<Call>)
    ensures var (bs, ok, rest) := Run(ev, calls);
            ok ==> BytesIn(ev) == bs + BytesIn(rest)
    decreases |calls|
  {
    if calls != [] {
      var r := Outcome(ev, calls[0]);
      CollectFailsIff(ev, Limit(calls[0]), calls[0].ReadLineb?);
      OutcomeConserves(ev, calls[0]);
      RunConserves(r.rest, calls[1..]);
    }
  }

  lemma NoBytes()
    ensures BytesIn([End]) == [] && BytesIn([Fail]) == [] && BytesIn([]) == []
  {
  }

  lemma TakenConserves(ev: seq<Event>, r: Collected)
    requires Taken(ev, r)
    ensures BytesIn(ev) == r.bytes + BytesIn(r.rest)
  {
    hide Bytes, BytesIn;
    BytesInBytes(r.bytes);
    NoBytes();
    assert r.bytes + [] == r.bytes;
    match r.why
    case Full => BytesInConcat(Bytes(r.bytes), r.rest);
    case Newline => BytesInConcat(Bytes(r.bytes), r.rest);
    case Failed =>
      BytesInConcat(Bytes(r.bytes), [Fail]);
      BytesInConcat(Bytes(r.bytes) + [Fail], r.rest);
    case Ended =>
      BytesInConcat(Bytes(r.bytes), [End]);
      BytesInConcat(Bytes(r.bytes) + [End], r.rest);
  }

  /** The stream fails after `k` bytes, which are fewer than `n` and, when reading a line, have no newline
      among them. */
  ghost predicate FailsAfter(ev: seq<Event>, n: nat, line: bool, k: nat) {
    && k < n && k < |ev| && ev[k] == Fail
    && forall i :: 0 <= i < k ==> ev[i].Byte? && (line ==> ev[i].c != '\n')
  }

  lemma {:induction false} CollectFailsIff(ev: seq<Event>, n: nat, line: bool)
    ensures var r := Collect(ev, n, line);
            forall k :: FailsAfter(ev, n, line, k) <==> r.why == Failed && |r.bytes| == k
    decreases n
  {
    if n > 0 && ev != [] && ev[0].Byte? && !(line && ev[0].c == '\n') {
      var rest := ev[1..];
      CollectFailsIff(rest, n - 1, line);
      forall k: nat
        ensures FailsAfter(ev, n, line, k) <==> k > 0 && FailsAfter(rest, n - 1, line, k - 1)
      {
        FailsLater(ev, n, line, k);
      }
    }
  }

  lemma FailsLater(ev: seq<Event>, n: nat, line: bool, k: nat)
    requires n > 0 && ev != [] && ev[0].Byte? && (line ==> ev[0].c != '\n')
    ensures FailsAfter(ev, n, line, k) <==> k > 0 && FailsAfter(ev[1..], n - 1, line, k - 1)
  {
    if k > 0 && FailsAfter(ev[1..], n - 1, line, k - 1) {
      forall i | 0 <= i < k
        ensures ev[i].Byte? && (line ==> ev[i].c != '\n')
      {
        assert i > 0 ==> ev[i] == ev[1..][i - 1];
      }
    }
  }

  /** A call loses bytes exactly when the stream fails after at least one byte that the call takes. */
  lemma OutcomeConserves(ev: seq<Event>, call: Call)
    ensures var r := Outcome(ev, call);
            BytesIn(ev) == Handed(r) + BytesIn(r.rest)
            <==> !exists k :: k >= 1 && FailsAfter(ev, Limit(call), call.ReadLineb?, k)
  {
    hide Collect, FailsAfter, BytesIn, Taken;
    var r := Outcome(ev, call);
    CollectTakes(ev, Limit(call), call.ReadLineb?);
    CollectFailsIff(ev, Limit(call), call.ReadLineb?);
    TakenConserves(ev, r);
    assert |r.bytes + BytesIn(r.rest)| == |r.bytes| + |BytesIn(r.rest)|;
    assert [] + BytesIn(r.rest) == BytesIn(r.rest);
    assert FailsAfter(ev, Limit(call), call.ReadLineb?, |r.bytes|) <==> r.why == Failed;
  }
}

/** `rio_t`, and the descriptor that it reads from. */
module Rio {
  import opened RioStreams

  lemma TakeSome(unread: seq<char>, cnt: nat, rest: seq<Event>)
    requires cnt <= |unread|
    ensures Bytes(unread) + rest == Bytes(unread[..cnt]) + (Bytes(unread[cnt..]) + rest)
  {
    BytesConcat(unread[..cnt], unread[cnt..]);
    assert unread[..cnt] + unread[cnt..] == unread;
  }

  /** The memory after `bs` was stored at `off`. */
  ghost function Put(mem: seq<char>, off: nat, bs: seq<char>): (m: seq<char>)
    requires off + |bs| <= |mem|
    ensures |m| == |mem|
  {
    mem[..off] + bs + mem[off + |bs|..]
  }

  lemma PutNothing(mem: seq<char>, off: nat)
    requires off <= |mem|
    ensures Put(mem, off, []) == mem
  {
  }

  lemma PutParts(mem: seq<char>, bs: seq<char>)
    requires |bs| <= |mem|
    ensures var m := Put(mem, 0, bs);
            && m[..|bs|] == bs && m[|bs|..] == mem[|bs|..]
            && (|bs| < |mem| ==> m[|bs|] == mem[|bs|] && m[|bs| + 1..] == mem[|bs| + 1..])
  {
  }

  lemma Unterminated(m: seq<char>, bs: seq<char>, end: char)
    requires |bs| < |m| && m[..|bs + [end]|] == bs + [end]
    ensures m[..|bs|] == bs && m[|bs|] == end
  {
    assert m[..|bs|] == m[..|bs| + 1][..|bs|];
    assert m[|bs|] == m[..|bs| + 1][|bs|];
  }

  lemma PutMore(mem: seq<char>, off: nat, a: seq<char>, b: seq<char>)
    requires off + |a| + |b| <= |mem|
    ensures Put(Put(mem, off, a), off + |a|, b) == Put(mem, off, a + b)
  {
  }

  lemma PutOne(mem: seq<char>, bs: seq<char>)
    requires |mem| == |bs|
    ensures Put(mem, 0, bs) == bs
  {
  }

  lemma CollectedOne(done: seq<char>, c: char, r: Collected)
    requires r.bytes == [c]
    ensures Prepend(done, r) == Collected(done + [c], r.why, r.rest)
  {
  }

  lemma PutAt(mem: seq<char>, done: seq<char>, c: char)
    requires |done| < |mem|
    ensures Put(mem, 0, done)[|done| := c] == Put(mem, 0, done + [c])
  {
  }

  lemma CollectedBefore(done: seq<char>, c: Collected)
    requires c.bytes == []
    ensures Prepend(done, c) == Collected(done, c.why, c.rest)
  {
    assert done + [] == done;
  }

  lemma ReadDelivers(delivered: seq<char>, script: seq<ReadResult>)
    requires script != []
    ensures var bs := if script[0].Data? then script[0].bytes else [];
            delivered + BytesIn(Flatten(script)) == delivered + bs + BytesIn(Flatten(script[1..]))
  {
    BytesInConcat(EventsOf(script[0]), Flatten(script[1..]));
    NoBytes();
    if script[0].Data? {
      BytesInBytes(script[0].bytes);
    }
  }

  lemma SameBytes(delivered: seq<char>, handed: seq<char>, unread: seq<char>, rest: seq<Event>)
    requires delivered + BytesIn(rest) == handed + BytesIn(Bytes(unread) + rest)
    ensures handed + unread == delivered
  {
    hide Bytes, BytesIn;
    BytesInConcat(Bytes(unread), rest);
    BytesInBytes(unread);
    assert handed + (unread + BytesIn(rest)) == (handed + unread) + BytesIn(rest);
    SameFront(handed + unread, delivered, BytesIn(rest));
  }

  lemma SameFront(a: seq<char>, b: seq<char>, c: seq<char>)
    requires a + c == b + c
    ensures a == b
  {
    assert |a + c| == |b + c|;
    assert a == (a + c)[..|a|] && b == (b + c)[..|b|];
  }

  class RioBuffer {
    var rioCnt: int
    var rioBufptr: nat
    const rioBuf: array<char>
    /** What the calls of `read` to come will return; once there are no more, they return 0. */
    var script: seq<ReadResult>
    /** The bytes that `read` has delivered. */
    ghost var delivered: seq<char>

    ghost predicate Valid()
      reads this
    {
      && rioBuf.Length == RIO_BUFSIZE && Deliverable(script)
      && (rioCnt > 0 ==> rioBufptr + rioCnt <= RIO_BUFSIZE)
    }

    ghost function Unread(): seq<char>
      requires Valid()
      reads this, rioBuf
    {
      if rioCnt > 0 then rioBuf[rioBufptr..rioBufptr + rioCnt] else []
    }

    /** The stream that is left for the callers. */
    ghost function Events(): seq<Event>
      requires Valid()
      reads this, rioBuf
    {
      Bytes(Unread()) + Flatten(script)
    }

    /** The bytes that `read` has delivered or will deliver. */
    ghost function AllBytes(): seq<char>
      reads this`delivered, this`script
    {
      delivered + BytesIn(Flatten(script))
    }

    /** When the callers have all the bytes that the stream no longer has, and nothing was lost by `read`,
        then nothing was lost between `read` and the callers. */
    lemma NothingIsLost(all: seq<ReadResult>, handed: seq<char>)
      requires Valid() && AllBytes() == BytesIn(Flatten(all))
      requires BytesIn(Flatten(all)) == handed + BytesIn(Events())
      ensures handed + Unread() == delivered
    {
      SameBytes(delivered, handed, Unread(), Flatten(script));
    }

    /** `rio_readinitb`. */
    constructor (script: seq<ReadResult>)
      requires Deliverable(script)
      ensures Valid() && fresh(rioBuf) && this.script == script && AllBytes() == BytesIn(Flatten(script))
      ensures Unread() == [] && Events() == Flatten(script)
    {
      this.script := script;
      rioCnt, rioBufptr, delivered := 0, 0, [];
      rioBuf := new char[RIO_BUFSIZE];
      new;
      assert AllBytes() == [] + BytesIn(Flatten(script));
    }

    /** `read` into the internal buffer, and whether it set `errno` to `EINTR`. */
    method SysRead() returns (cnt: int, eintr: bool)
      requires Valid() && rioCnt <= 0
      modifies this`script, this`delivered, rioBuf
      ensures Valid() && -1 <= cnt <= RIO_BUFSIZE && AllBytes() == old(AllBytes())
      ensures cnt > 0 ==> old(Events()) == Bytes(rioBuf[..cnt]) + Flatten(script)
      ensures cnt == 0 ==> AtEnd(old(Events()), Flatten(script))
      ensures cnt == -1 && eintr ==> Flatten(script) == old(Events())
      ensures cnt != 0 ==> |script| < |old(script)|
      ensures cnt == -1 && !eintr ==> old(Events()) == [Fail] + Flatten(script)
    {
      if script == [] {
        return 0, false;
      }
      ReadDelivers(delivered, script);
      var result := script[0];
      script := script[1..];
      delivered := delivered + (if result.Data? then result.bytes else []);
      match result
      case Data(bytes) =>
        forall i | 0 <= i < |bytes| {
          rioBuf[i] := bytes[i];
        }
        assert rioBuf[..|bytes|] == bytes;
        return |bytes|, false;
      case Eintr => return -1, true;
      case Error => return -1, false;
      case Eof => return 0, false;
    }

    /** The loop of `rio_read`, which ends with an unread byte unless it returns 0 or -1. */
    method Refill() returns (status: int)
      requires Valid()
      modifies this`rioCnt, this`rioBufptr, this`script, this`delivered, rioBuf
      ensures AllBytes() == old(AllBytes())
      ensures Valid() && -1 <= status <= 1
      ensures status == 1 ==> rioCnt > 0 && Events() == old(Events())
      ensures status == 0 ==> AtEnd(old(Events()), Events())
      ensures status == -1 ==> old(Events()) == [Fail] + Events()
    {
      hide Bytes, Flatten, RioBuffer.AllBytes;
      assert Bytes([]) == [];
      while rioCnt <= 0
        invariant Valid() && Events() == old(Events()) && AllBytes() == old(AllBytes())
        decreases |script|
      {
        var eintr;
        rioCnt, eintr := SysRead();
        assert forall ev: seq<Event> :: [] + ev == ev;
        if rioCnt < 0 {
          if !eintr {
            return -1;
          }
        } else if rioCnt == 0 {
          return 0;
        } else {
          rioBufptr := 0;
          assert Unread() == rioBuf[..rioCnt];
        }
      }
      return 1;
    }

    /** `rio_read`, to `usrbuf + off`. A call that asks for no byte may still fill the buffer, or find the end. */
    method Read(usrbuf: array<char>, off: nat, n: nat) returns (cnt: int, ghost chunk: seq<char>)
      requires Valid() && usrbuf != rioBuf && off + n <= usrbuf.Length
      modifies this`rioCnt, this`rioBufptr, this`script, this`delivered, rioBuf, usrbuf
      ensures AllBytes() == old(AllBytes())
      ensures Valid() && -1 <= cnt <= n && |chunk| == (if cnt > 0 then cnt else 0)
      ensures usrbuf[..] == Put(old(usrbuf[..]), off, chunk)
      ensures cnt > 0 ==> old(Events()) == Bytes(chunk) + Events()
      ensures cnt == 0 ==> AtEnd(old(Events()), Events()) || (n == 0 && Events() == old(Events()))
      ensures cnt == -1 ==> old(Events()) == [Fail] + Events()
    {
      hide Bytes, Flatten, Put, RioBuffer.AllBytes;
      ghost var mem := usrbuf[..];
      PutNothing(mem, off);
      cnt := Refill();
      assert usrbuf[..] == mem;
      chunk := [];
      if cnt <= 0 {
        return;
      }
      cnt := n;
      if rioCnt < n {
        cnt := rioCnt;
      }
      ghost var unread := Unread();
      chunk := unread[..cnt];
      assert chunk == rioBuf[rioBufptr..rioBufptr + cnt];
      Memcpy(usrbuf, off, rioBuf, rioBufptr, cnt);
      rioBufptr := rioBufptr + cnt;
      rioCnt := rioCnt - cnt;
      assert Unread() == unread[cnt..];
      TakeSome(unread, cnt, Flatten(script));
    }

    /** `rio_readnb`. */
    method ReadNb(usrbuf: array<char>, n: nat) returns (ret: int)
      requires Valid() && usrbuf != rioBuf && n <= usrbuf.Length
      modifies this`rioCnt, this`rioBufptr, this`script, this`delivered, rioBuf, usrbuf
      ensures AllBytes() == old(AllBytes())
      ensures Valid()
      ensures var r, mem := Collect(old(Events()), n, false), old(usrbuf[..]);
              var len := |r.bytes|;
              && Events() == r.rest && ret == (if r.why == Failed then -1 else len)
              && len <= n && usrbuf[..len] == r.bytes && usrbuf[len..] == mem[len..]
    {
      hide Bytes, Flatten, Collect, AtEnd, Put, Prepend;
      hide RioBuffer.Events, RioBuffer.AllBytes, RioBuffer.Unread, RioBuffer.Valid;
      var nleft, bufp := n, 0;
      ghost var mem, done := usrbuf[..], [];
      ghost var r := Collect(Events(), n, false);
      PrependTwice([], [], r);
      PutNothing(mem, 0);
      while nleft > 0
        invariant Valid() && AllBytes() == old(AllBytes()) && 0 <= nleft && bufp + nleft == n && |done| == bufp
        invariant r == Prepend(done, Collect(Events(), nleft, false))
        invariant usrbuf[..] == Put(mem, 0, done)
      {
        ghost var here := Events();
        var nread;
        ghost var chunk;
        nread, chunk := Read(usrbuf, bufp, nleft);
        PutMore(mem, 0, done, chunk);
        if nread <= 0 {
          CollectNothing(here, Events(), nleft, false);
          CollectedBefore(done, Collect(here, nleft, false));
          assert done + chunk == done;
          PutParts(mem, done);
          return if nread < 0 then -1 else n - nleft;
        }
        CollectMore(done, here, chunk, Events(), nleft, false);
        done := done + chunk;
        nleft := nleft - nread;
        bufp := bufp + nread;
      }
      CollectFull(Events(), false);
      CollectedBefore(done, Collect(Events(), 0, false));
      PutParts(mem, done);
      return n - nleft;
    }

    /** `rio_read` of one byte into a variable. */
    method ReadChar() returns (rc: int, c: char)
      requires Valid()
      modifies this`rioCnt, this`rioBufptr, this`script, this`delivered, rioBuf
      ensures AllBytes() == old(AllBytes())
      ensures Valid() && -1 <= rc <= 1
      ensures rc == 1 ==> old(Events()) == Bytes([c]) + Events()
      ensures rc == 0 ==> AtEnd(old(Events()), Events())
      ensures rc == -1 ==> old(Events()) == [Fail] + Events()
    {
      hide Bytes, Flatten, RioBuffer.Events, RioBuffer.AllBytes, AtEnd, Put;
      var cell := new char[1];
      ghost var chunk, mem := [], cell[..];
      rc, chunk := Read(cell, 0, 1);
      if rc == 1 {
        PutOne(mem, chunk);
        assert cell[..] == [cell[0]];
      }
      c := cell[0];
    }

    /** The loop of `rio_readlineb`, which leaves the place of the terminator in `n - 1` and says how it ended. */
    method LineBytes(usrbuf: array<char>, maxlen: nat) returns (n: nat, why: Reason, ghost done: seq<char>)
      requires Valid() && usrbuf != rioBuf && 1 < maxlen <= usrbuf.Length
      modifies this`rioCnt, this`rioBufptr, this`script, this`delivered, rioBuf, usrbuf
      ensures AllBytes() == old(AllBytes())
      ensures Valid() && n - 1 == |done| < maxlen
      ensures Collect(old(Events()), maxlen - 1, true) == Collected(done, why, Events())
      ensures usrbuf[..] == Put(old(usrbuf[..]), 0, done)
    {
      hide Bytes, Flatten, Collect, AtEnd, Put, Prepend;
      hide RioBuffer.Events, RioBuffer.AllBytes, RioBuffer.Unread, RioBuffer.Valid;
      ghost var mem, ev := usrbuf[..], Events();
      PrependTwice([], [], Collect(ev, maxlen - 1, true));
      PutNothing(mem, 0);
      n, done := 1, [];
      while n < maxlen
        invariant Valid() && AllBytes() == old(AllBytes()) && n - 1 == |done| < maxlen
        invariant Collect(ev, maxlen - 1, true) == Prepend(done, Collect(Events(), maxlen - n, true))
        invariant usrbuf[..] == Put(mem, 0, done)
      {
        ghost var here := Events();
        var rc, c := ReadChar();
        if rc != 1 {
          CollectNothing(here, Events(), maxlen - n, true);
          CollectedBefore(done, Collect(here, maxlen - n, true));
          return n, if rc == 0 then Ended else Failed, done;
        }
        Store(usrbuf, n - 1, c, mem, done);
        if c == '\n' {
          CollectNewline(here, Events(), maxlen - n);
          CollectedOne(done, c, Collect(here, maxlen - n, true));
          return n + 1, Newline, done + [c];
        }
        CollectMore(done, here, [c], Events(), maxlen - n, true);
        n, done := n + 1, done + [c];
      }
      CollectFull(Events(), true);
      CollectedBefore(done, Collect(Events(), 0, true));
      return n, Full, done;
    }

    /** `rio_readlineb`. There is room for the terminator, which is written even when `maxlen` is 0;
        it is not written when nothing was read before the end of the stream, or when a read fails. */
    method ReadLineb(usrbuf: array<char>, maxlen: nat) returns (ret: int)
      requires Valid() && usrbuf != rioBuf && maxlen <= usrbuf.Length && 1 <= usrbuf.Length
      modifies this`rioCnt, this`rioBufptr, this`script, this`delivered, rioBuf, usrbuf
      ensures AllBytes() == old(AllBytes())
      ensures Valid()
      ensures var r, mem := Collect(old(Events()), if maxlen == 0 then 0 else maxlen - 1, true), old(usrbuf[..]);
              var len := |r.bytes|;
              && Events() == r.rest && ret == (if r.why == Failed then -1 else len)
              && len < usrbuf.Length && usrbuf[..len] == r.bytes && usrbuf[len + 1..] == mem[len + 1..]
              && (maxlen <= 1 ==> ret == 0 && usrbuf[0] == '\0')
              && (ret > 0 ==> usrbuf[ret] == '\0')
              && (maxlen > 1 && ret == 0 ==> usrbuf[0] == mem[0])
              && (ret == -1 ==> usrbuf[len] == mem[len])
    {
      hide Bytes, Flatten, Collect, RioBuffer.Events, RioBuffer.AllBytes, RioBuffer.Unread, RioBuffer.Valid, AtEnd, Put;
      var n, why := 1, Full;
      ghost var mem, done := usrbuf[..], [];
      PutNothing(mem, 0);
      CollectFull(Events(), true);
      if 1 < maxlen {
        n, why, done := LineBytes(usrbuf, maxlen);
        CollectStops(old(Events()), maxlen - 1, true);
        PutParts(mem, done);
        if why == Ended && n == 1 {
          return 0;
        }
        if why == Failed {
          return -1;
        }
      }
      Store(usrbuf, n - 1, '\0', mem, done);
      PutParts(mem, done + ['\0']);
      Unterminated(usrbuf[..], done, '\0');
      return n - 1;
    }
  }

  method Memcpy(dst: array<char>, off: nat, src: array<char>, from: nat, cnt: nat)
    requires dst != src && off + cnt <= dst.Length && from + cnt <= src.Length
    modifies dst
    ensures dst[..] == Put(old(dst[..]), off, src[from..from + cnt])
  {
    forall i | 0 <= i < cnt {
      dst[off + i] := src[from + i];
    }
  }

  method Store(usrbuf: array<char>, i: nat, c: char, ghost mem: seq<char>, ghost done: seq<char>)
    requires i == |done| < |mem| == usrbuf.Length && usrbuf[..] == Put(mem, 0, done)
    modifies usrbuf
    ensures usrbuf[..] == Put(mem, 0, done + [c])
  {
    ghost var before := usrbuf[..];
    PutAt(mem, done, c);
    usrbuf[i] := c;
    assert usrbuf[..] == before[i := c];
  }

  /** One call into a new buffer that is large enough. */
  method Perform(rio: RioBuffer, call: Call) returns (handed: seq<char>, ok: bool)
    requires rio.Valid()
    modifies rio, rio.rioBuf
    ensures rio.Valid() && rio.AllBytes() == old(rio.AllBytes())
    ensures var r := Outcome(old(rio.Events()), call);
            rio.Events() == r.rest && handed == Handed(r) && ok == (r.why != Failed)
  {
    hide Bytes, Flatten, Collect, RioBuffer.Events, RioBuffer.AllBytes, RioBuffer.Unread, RioBuffer.Valid, Put;
    var size := if call.ReadNb? then call.n else call.maxlen + 1;
    var usrbuf := new char[size];
    var ret;
    match call {
      case ReadNb(n) => ret := rio.ReadNb(usrbuf, n);
      case ReadLineb(maxlen) => ret := rio.ReadLineb(usrbuf, maxlen);
    }
    ok := ret >= 0;
    handed := if ok then usrbuf[..ret] else [];
  }

  /** Any sequence of calls: the callers see the stream and nothing else, and as long as no call returns -1,
      what they were handed and what is still in the buffer are all the bytes that `read` has delivered. */
  method Session(script: seq<ReadResult>, calls: seq<Call>) returns (rio: RioBuffer, handed: seq<char>, ok: bool)
    requires forall i {:trigger script[i]} :: 0 <= i < |script| && script[i].Data? ==> 1 <= |script[i].bytes| <= 8192
    ensures rio.Valid() && Run(Flatten(script), calls) == (handed, ok, rio.Events())
    ensures ok ==> handed + rio.Unread() == rio.delivered
  {
    hide Bytes, Flatten, Collect, RioBuffer.Events, RioBuffer.AllBytes, RioBuffer.Unread, RioBuffer.Valid, Run, Outcome;
    rio := new RioBuffer(script);
    handed, ok := [], true;
    assert calls[0..] == calls;
    RunStarts(Flatten(script), calls);
    for i := 0 to |calls|
      invariant rio.Valid() && fresh(rio) && fresh(rio.rioBuf) && rio.AllBytes() == BytesIn(Flatten(script))
      invariant Run(Flatten(script), calls) == After(handed, ok, Run(rio.Events(), calls[i..]))
    {
      RunGoesOn(handed, ok, rio.Events(), calls[i..]);
      assert calls[i..][1..] == calls[i + 1..];
      var bs, fine := Perform(rio, calls[i]);
      handed, ok := handed + bs, fine && ok;
    }
    RunStops(handed, ok, rio.Events(), calls[|calls|..]);
    RunConserves(Flatten(script), calls);
    if ok {
      rio.NothingIsLost(script, handed);
    }
  }

  ghost function After(bs: seq<char>, ok: bool, r: (seq<char>, bool, seq<Event>)): (seq<char>, bool, seq<Event>) {
    (bs + r.0, ok && r.1, r.2)
  }

  lemma RunStarts(ev: seq<Event>, calls: seq<Call>)
    ensures After([], true, Run(ev, calls)) == Run(ev, calls)
  {
    assert [] + Run(ev, calls).0 == Run(ev, calls).0;
  }

  lemma FirstCall(ev: seq<Event>, calls: seq<Call>)
    requires calls != []
    ensures var r := Outcome(ev, calls[0]); var (bs, ok, rest) := Run(r.rest, calls[1..]);
            Run(ev, calls) == (Handed(r) + bs, r.why != Failed && ok, rest)
  {
    hide Outcome, Handed;
  }

  lemma RunGoesOn(bs: seq<char>, ok: bool, ev: seq<Event>, calls: seq<Call>)
    requires calls != []
    ensures var r := Outcome(ev, calls[0]);
            After(bs, ok, Run(ev, calls)) == After(bs + Handed(r), r.why != Failed && ok, Run(r.rest, calls[1..]))
  {
    hide Run, Outcome, Handed;
    FirstCall(ev, calls);
    var r := Outcome(ev, calls[0]);
    assert bs + (Handed(r) + Run(r.rest, calls[1..]).0) == (bs + Handed(r)) + Run(r.rest, calls[1..]).0;
  }

  lemma RunStops(bs: seq<char>, ok: bool, ev: seq<Event>, calls: seq<Call>)
    requires calls == []
    ensures After(bs, ok, Run(ev, calls)) == (bs, ok, ev)
  {
    assert bs + [] == bs;
  }
}
