/** Commands between threads over a byte stream (src/mqthread.cpp, lines 176-246): a 16-bit command, the 16-bit length
    of its parameter, and the parameter. */
module CommandFraming {
  import opened Bytes

  datatype Command = Command(cmd: nat, param: seq<Byte>)
  {
    /** What SendCommand asserts, and that the command fits 16 bits. */
    predicate Valid() {
      cmd < 65536 && |param| < 4000
    }
  }

  const BUFFER_SIZE := 4096

  /** A 16-bit number in the byte order of the host. */
  function U16(x: nat): (r: seq<Byte>)
    requires x < 65536
    ensures |r| == 2 && Join16(r[0], r[1]) == x
  {
    [x % 256, x / 256]
  }

  /** The bytes SendCommand sends. */
  function Frame(c: Command): (r: seq<Byte>)
    requires c.Valid()
    ensures |r| == 4 + |c.param|
  {
    U16(c.cmd) + U16(|c.param|) + c.param
  }

  ghost predicate AllValid(cs: seq<Command>) {
    forall k {:trigger cs[k]} :: 0 <= k < |cs| ==> cs[k].Valid()
  }

  /** The bytes of a sequence of commands. */
  ghost function Stream(cs: seq<Command>): seq<Byte>
    requires AllValid(cs)
  {
    if cs == [] then [] else Frame(cs[0]) + Stream(cs[1..])
  }

  function CmdOf(b: seq<Byte>): nat
    requires |b| >= 4
  {
    Join16(b[0], b[1])
  }

  function LenOf(b: seq<Byte>): nat
    requires |b| >= 4
  {
    Join16(b[2], b[3])
  }

  /** A whole command is at the front. */
  predicate HasCommand(b: seq<Byte>) {
    |b| >= 4 && |b| >= 4 + LenOf(b)
  }

  function FirstCommand(b: seq<Byte>): Command
    requires HasCommand(b)
  {
    Command(CmdOf(b), b[4..4 + LenOf(b)])
  }

  /** All commands at the front. */
  ghost function Parsed(b: seq<Byte>): seq<Command>
    decreases |b|
  {
    if HasCommand(b) then [FirstCommand(b)] + Parsed(b[4 + LenOf(b)..]) else []
  }

  /** What is left behind them. */
  ghost function Rest(b: seq<Byte>): (r: seq<Byte>)
    ensures !HasCommand(r) && |r| <= |b|
    decreases |b|
  {
    if HasCommand(b) then Rest(b[4 + LenOf(b)..]) else b
  }

  /** More bytes behind a whole command do not change it. */
  lemma HeadConcat(a: seq<Byte>, b: seq<Byte>)
    requires HasCommand(a)
    ensures HasCommand(a + b) && LenOf(a + b) == LenOf(a) && FirstCommand(a + b) == FirstCommand(a)
    ensures (a + b)[4 + LenOf(a)..] == a[4 + LenOf(a)..] + b
  {
    var n := 4 + LenOf(a);
    assert (a + b)[4..n] == a[4..n];
  }

  /** Parsing can stop anywhere and go on when more bytes have come. */
  lemma {:induction false} ParsedConcat(a: seq<Byte>, b: seq<Byte>)
    ensures Parsed(a + b) == Parsed(a) + Parsed(Rest(a) + b) && Rest(a + b) == Rest(Rest(a) + b)
    decreases |a|
  {
    if HasCommand(a) {
      HeadConcat(a, b);
      var tail := a[4 + LenOf(a)..];
      ParsedConcat(tail, b);
      ParsedFrom(a + b, FirstCommand(a), tail + b, Parsed(tail), Parsed(Rest(tail) + b));
    }
  }

  /** The commands of a buffer, from those behind the first. */
  lemma ParsedFrom(b: seq<Byte>, c: Command, tail: seq<Byte>, x: seq<Command>, y: seq<Command>)
    requires HasCommand(b) && FirstCommand(b) == c && b[4 + LenOf(b)..] == tail && Parsed(tail) == x + y
    ensures Parsed(b) == [c] + x + y && Rest(b) == Rest(tail)
  {
  }

  /** Parsing what was sent gives back the commands. */
  lemma {:induction false} ParsedStream(cs: seq<Command>)
    requires AllValid(cs)
    ensures Parsed(Stream(cs)) == cs && Rest(Stream(cs)) == []
    decreases |cs|
  {
    if cs != [] {
      var b, c := Stream(cs), cs[0];
      assert b[..4 + |c.param|] == Frame(c);
      assert b[0] == Frame(c)[0] && b[1] == Frame(c)[1] && b[2] == Frame(c)[2] && b[3] == Frame(c)[3];
      assert LenOf(b) == |c.param| && b[4 + |c.param|..] == Stream(cs[1..]);
      assert b[4..4 + |c.param|] == Frame(c)[4..] == c.param;
      ParsedStream(cs[1..]);
      assert cs == [c] + cs[1..];
    }
  }

  /** A prefix of what was sent parses to a prefix of the commands; the rest begins the next command and is no whole
      command. */
  lemma {:induction false} ParsedPrefix(cs: seq<Command>, b: seq<Byte>)
    requires AllValid(cs) && b <= Stream(cs)
    ensures Parsed(b) <= cs
    ensures |Parsed(b)| < |cs| ==> Rest(b) < Frame(cs[|Parsed(b)|])
    ensures |Parsed(b)| == |cs| ==> Rest(b) == []
    decreases |cs|
  {
    if cs != [] {
      var all, c := Stream(cs), cs[0];
      var n := 4 + |c.param|;
      assert all[..n] == Frame(c) && all[n..] == Stream(cs[1..]);
      if |b| >= 4 {
        assert b[0] == Frame(c)[0] && b[1] == Frame(c)[1] && b[2] == Frame(c)[2] && b[3] == Frame(c)[3];
        assert LenOf(b) == |c.param|;
      }
      if |b| >= n {
        assert b[4..n] == Frame(c)[4..] == c.param;
        assert b[n..] <= Stream(cs[1..]);
        ParsedPrefix(cs[1..], b[n..]);
        PrefixOf(c, Parsed(b[n..]), cs);
        ParsedFrom(b, c, b[n..], Parsed(b[n..]), []);
      } else {
        assert !HasCommand(b);
        assert b == all[..|b|] == Frame(c)[..|b|];
      }
    }
  }

  lemma PrefixOf(c: Command, front: seq<Command>, cs: seq<Command>)
    requires cs != [] && cs[0] == c && front <= cs[1..]
    ensures [c] + front <= cs
    ensures |front| < |cs| - 1 ==> cs[1..][|front|] == cs[1 + |front|]
  {
  }

  /** What is left always leaves room in the buffer. */
  lemma RestFits(cs: seq<Command>, b: seq<Byte>)
    requires AllValid(cs) && b <= Stream(cs)
    ensures |Rest(b)| < BUFFER_SIZE
  {
    ParsedPrefix(cs, b);
  }

  /** The bytes received in the past and in the first n chunks. */
  ghost function Joined(past: seq<Byte>, chunks: seq<seq<Byte>>, n: nat): seq<Byte>
    requires n <= |chunks|
  {
    if n == 0 then past else Joined(past, chunks, n - 1) + chunks[n - 1]
  }

  lemma {:induction false} JoinedPrefix(past: seq<Byte>, chunks: seq<seq<Byte>>, m: nat, n: nat)
    requires m <= n <= |chunks|
    ensures Joined(past, chunks, m) <= Joined(past, chunks, n)
  {
    if m < n {
      JoinedPrefix(past, chunks, m, n - 1);
    }
  }

  lemma JoinedWithin(past: seq<Byte>, chunks: seq<seq<Byte>>, k: nat, all: seq<Byte>)
    requires k < |chunks| && Joined(past, chunks, |chunks|) <= all
    ensures Joined(past, chunks, k + 1) == Joined(past, chunks, k) + chunks[k] && Joined(past, chunks, k + 1) <= all
  {
    JoinedPrefix(past, chunks, k + 1, |chunks|);
  }

  lemma PastWithin(past: seq<Byte>, chunks: seq<seq<Byte>>, all: seq<Byte>)
    requires Joined(past, chunks, |chunks|) <= all
    ensures past <= all
  {
    JoinedPrefix(past, chunks, 0, |chunks|);
  }

  /** The commands before place ptr are dispatched. */
  ghost predicate Progress(b: seq<Byte>, ptr: nat, dispatched: seq<Command>) {
    ptr <= |b| && Parsed(b) == dispatched + Parsed(b[ptr..]) && Rest(b) == Rest(b[ptr..])
  }

  lemma ProgressInitially(b: seq<Byte>)
    ensures Progress(b, 0, [])
  {
    assert b[0..] == b;
  }

  lemma ProgressNext(b: seq<Byte>, ptr: nat, dispatched: seq<Command>)
    requires Progress(b, ptr, dispatched) && HasCommand(b[ptr..])
    ensures Progress(b, ptr + 4 + LenOf(b[ptr..]), dispatched + [FirstCommand(b[ptr..])])
    ensures dispatched + [FirstCommand(b[ptr..])] <= Parsed(b)
  {
    var at := b[ptr..];
    var next, c := b[ptr + 4 + LenOf(at)..], FirstCommand(at);
    assert at[4 + LenOf(at)..] == next;
    var x := Parsed(next);
    ParsedFrom(at, c, next, x, []);
    ProgressGlue(b, ptr, dispatched, c, x);
    Assoc(dispatched, c, x);
  }

  lemma ProgressGlue(b: seq<Byte>, ptr: nat, dispatched: seq<Command>, c: Command, x: seq<Command>)
    requires Progress(b, ptr, dispatched) && Parsed(b[ptr..]) == [c] + x + []
    ensures Parsed(b) == dispatched + ([c] + x) && Rest(b) == Rest(b[ptr..])
  {
    assert [c] + x + [] == [c] + x;
  }

  lemma Assoc(front: seq<Command>, c: Command, x: seq<Command>)
    ensures front + ([c] + x) == (front + [c]) + x
  {
  }

  lemma ProgressEnd(b: seq<Byte>, ptr: nat, dispatched: seq<Command>)
    requires Progress(b, ptr, dispatched) && !HasCommand(b[ptr..])
    ensures dispatched == Parsed(b) && b[ptr..] == Rest(b)
  {
  }

  /** What is at place ptr of a buffer of which n bytes are used. */
  lemma HeadAt(buf: seq<Byte>, n: nat, ptr: nat, at: seq<Byte>)
    requires ptr + 4 <= n <= |buf| && at == buf[..n][ptr..]
    ensures CmdOf(at) == Join16(buf[ptr], buf[ptr + 1]) && LenOf(at) == Join16(buf[ptr + 2], buf[ptr + 3])
    ensures HasCommand(at) <==> ptr + 4 + LenOf(at) <= n
    ensures HasCommand(at) ==> FirstCommand(at) == Command(CmdOf(at), buf[ptr + 4..ptr + 4 + LenOf(at)])
  {
    if HasCommand(at) {
      assert at == buf[ptr..n];
      SubSlice(buf, ptr, n, 4, 4 + LenOf(at));
    }
  }

  lemma SubSlice(s: seq<Byte>, a: nat, b: nat, c: nat, d: nat)
    requires a <= b <= |s| && c <= d <= b - a
    ensures s[a..b][c..d] == s[a + c..a + d]
  {
    forall k | 0 <= k < d - c
      ensures s[a..b][c..d][k] == s[a + c..a + d][k]
    {
      assert s[a..b][c + k] == s[a + c + k];
    }
  }

  class MQThread {
    const cmdBuf: array<Byte>
    var cmdIndex: nat

    ghost predicate Valid()
      reads this
    {
      cmdBuf.Length == BUFFER_SIZE && cmdIndex <= BUFFER_SIZE
    }

    /** The bytes not parsed yet. */
    ghost function Buffered(): seq<Byte>
      requires Valid()
      reads this, cmdBuf
    {
      cmdBuf[..cmdIndex]
    }

    constructor ()
      ensures Valid() && Buffered() == [] && fresh(cmdBuf)
    {
      cmdBuf := new Byte[BUFFER_SIZE](_ => 0);
      cmdIndex := 0;
    }

    /** Puts received bytes behind those in the buffer. */
    method Append(chunk: seq<Byte>)
      requires Valid() && cmdIndex + |chunk| <= BUFFER_SIZE
      modifies this, cmdBuf
      ensures Valid() && Buffered() == old(Buffered()) + chunk
    {
      for k := 0 to |chunk|
        modifies cmdBuf
        invariant cmdBuf[..cmdIndex] == old(cmdBuf[..cmdIndex]) && cmdBuf[cmdIndex..cmdIndex + k] == chunk[..k]
      {
        cmdBuf[cmdIndex + k] := chunk[k];
        assert cmdBuf[cmdIndex..cmdIndex + k + 1] == cmdBuf[cmdIndex..cmdIndex + k] + [chunk[k]];
      }
      ghost var n := cmdIndex;
      cmdIndex := cmdIndex + |chunk|;
      assert cmdBuf[..cmdIndex] == cmdBuf[..n] + cmdBuf[n..cmdIndex];
    }

    /** Dispatches the commands in the buffer, and returns where the rest begins. The handler can stop it. */
    method ParseCommands(handler: Command -> bool) returns (ptr: nat, dispatched: seq<Command>, go: bool)
      requires Valid()
      ensures ptr <= cmdIndex
      ensures go ==> dispatched == Parsed(Buffered()) && Buffered()[ptr..] == Rest(Buffered())
      ensures go ==> AllAccepted(dispatched, handler)
      ensures !go ==> dispatched != [] && dispatched <= Parsed(Buffered()) && !handler(dispatched[|dispatched| - 1])
    {
      ptr, dispatched, go := 0, [], true;
      ghost var all := cmdBuf[..];
      ghost var b := all[..cmdIndex];
      assert b == Buffered();
      ProgressInitially(b);
      while ptr + 4 <= cmdIndex
        invariant Progress(b, ptr, dispatched)
        invariant AllAccepted(dispatched, handler)
        decreases cmdIndex - ptr
      {
        var cmd := Join16(cmdBuf[ptr], cmdBuf[ptr + 1]);
        var paramlen := Join16(cmdBuf[ptr + 2], cmdBuf[ptr + 3]);
        ghost var at := b[ptr..];
        HeadAt(all, cmdIndex, ptr, at);
        if ptr + 4 + paramlen <= cmdIndex {
          var c := Command(cmd, cmdBuf[ptr + 4..ptr + 4 + paramlen]);
          assert c.param == all[ptr + 4..ptr + 4 + paramlen];
          ProgressNext(b, ptr, dispatched);
          dispatched := dispatched + [c];
          if !handler(c) {
            go := false;
            return;
          }
          ptr := ptr + 4 + paramlen;
        } else {
          break;
        }
      }
      ProgressEnd(b, ptr, dispatched);
    }

    /** Moves the rest to the front of the buffer. */
    method Shift(ptr: nat)
      requires Valid() && ptr <= cmdIndex
      modifies this, cmdBuf
      ensures Valid() && Buffered() == old(Buffered())[ptr..]
    {
      if ptr > 0 {
        ghost var b := cmdBuf[..];
        for k := 0 to cmdIndex - ptr
          modifies cmdBuf
          invariant cmdBuf[..k] == b[ptr..ptr + k] && cmdBuf[ptr + k..] == b[ptr + k..]
        {
          assert cmdBuf[ptr + k..][0] == b[ptr + k..][0];
          cmdBuf[k] := cmdBuf[ptr + k];
          assert cmdBuf[..k + 1] == cmdBuf[..k] + [b[ptr + k]];
          assert b[ptr..ptr + k + 1] == b[ptr..ptr + k] + [b[ptr + k]];
        }
        cmdIndex := cmdIndex - ptr;
      }
    }

    /** One chunk received into the room of the buffer. */
    method ReceiveChunk(chunk: seq<Byte>, handler: Command -> bool) returns (dispatched: seq<Command>, go: bool)
      requires Valid() && |chunk| <= BUFFER_SIZE - cmdIndex
      modifies this, cmdBuf
      ensures Valid()
      ensures go ==> dispatched == Parsed(old(Buffered()) + chunk) && Buffered() == Rest(old(Buffered()) + chunk)
      ensures go ==> AllAccepted(dispatched, handler)
      ensures !go ==> dispatched != [] && dispatched <= Parsed(old(Buffered()) + chunk) && !handler(dispatched[|dispatched| - 1])
    {
      Append(chunk);
      var ptr;
      ptr, dispatched, go := ParseCommands(handler);
      if go {
        Shift(ptr);
      }
    }

    /** Receives the chunks one by one; each is what one call of Recv returned, and past are the bytes of earlier calls.
        Whatever the cuts, the commands dispatched so far are the first that were sent, in order, what is left of the
        stream is kept, and the buffer never fills up. A command that the handler refuses is the last. */
    method HandleCmdRecvSocket(chunks: seq<seq<Byte>>, handler: Command -> bool, ghost past: seq<Byte>, ghost sent: seq<Command>)
      returns (dispatched: seq<Command>, go: bool)
      requires Valid() && Buffered() == Rest(past) && AllValid(sent) && Joined(past, chunks, |chunks|) <= Stream(sent)
      requires forall k {:trigger chunks[k]} :: 0 <= k < |chunks| ==> |chunks[k]| <= BUFFER_SIZE - |Rest(Joined(past, chunks, k))|
      modifies this, cmdBuf
      ensures go ==> Valid() && cmdIndex < BUFFER_SIZE && Buffered() == Rest(Joined(past, chunks, |chunks|)) && AllAccepted(dispatched, handler)
      ensures go ==> Parsed(past) + dispatched == Parsed(Joined(past, chunks, |chunks|)) && Parsed(past) + dispatched <= sent
      ensures !go ==> Refused(past, dispatched, sent, handler)
    {
      PastWithin(past, chunks, Stream(sent));
      TakenInitially(past, sent);
      assert Upto(past, past, [], sent, handler);
      dispatched, go := ReceiveAll(chunks, handler, past, sent);
      if go {
        UptoMeans(past, Joined(past, chunks, |chunks|), dispatched, sent, handler);
      }
    }

    /** The loop over the chunks. */
    method ReceiveAll(chunks: seq<seq<Byte>>, handler: Command -> bool, ghost past: seq<Byte>, ghost sent: seq<Command>)
      returns (dispatched: seq<Command>, go: bool)
      requires Upto(past, past, [], sent, handler) && AllValid(sent) && Joined(past, chunks, |chunks|) <= Stream(sent)
      requires forall k {:trigger chunks[k]} :: 0 <= k < |chunks| ==> |chunks[k]| <= BUFFER_SIZE - |Rest(Joined(past, chunks, k))|
      modifies this, cmdBuf
      ensures go ==> Upto(past, Joined(past, chunks, |chunks|), dispatched, sent, handler)
      ensures !go ==> Refused(past, dispatched, sent, handler)
    {
      dispatched, go := [], true;
      var k := 0;
      while k < |chunks|
        invariant k <= |chunks| && go && Upto(past, Joined(past, chunks, k), dispatched, sent, handler)
      {
        dispatched, go := TakeNext(chunks, k, handler, dispatched, past, sent);
        if !go {
          return;
        }
        k := k + 1;
      }
    }

    /** Of the bytes got, the commands behind those of past are dispatched, and the rest is in the buffer. */
    ghost predicate Upto(past: seq<Byte>, got: seq<Byte>, dispatched: seq<Command>, sent: seq<Command>, handler: Command -> bool)
      reads this, cmdBuf
    {
      Valid() && cmdIndex < BUFFER_SIZE && Buffered() == Rest(got) && Taken(past, got, dispatched, sent) && AllAccepted(dispatched, handler)
    }

    lemma UptoMeans(past: seq<Byte>, got: seq<Byte>, dispatched: seq<Command>, sent: seq<Command>, handler: Command -> bool)
      requires Upto(past, got, dispatched, sent, handler)
      ensures Valid() && cmdIndex < BUFFER_SIZE && Buffered() == Rest(got) && AllAccepted(dispatched, handler)
      ensures Parsed(past) + dispatched == Parsed(got) && Parsed(past) + dispatched <= sent
    {
      TakenMeans(past, got, dispatched, sent);
    }

    /** Receives chunk k. */
    method TakeNext(chunks: seq<seq<Byte>>, k: nat, handler: Command -> bool, dispatched: seq<Command>, ghost past: seq<Byte>,
                    ghost sent: seq<Command>)
      returns (all: seq<Command>, go: bool)
      requires k < |chunks| && Upto(past, Joined(past, chunks, k), dispatched, sent, handler)
      requires AllValid(sent) && Joined(past, chunks, |chunks|) <= Stream(sent) && |chunks[k]| <= BUFFER_SIZE - |Rest(Joined(past, chunks, k))|
      modifies this, cmdBuf
      ensures go ==> Upto(past, Joined(past, chunks, k + 1), all, sent, handler)
      ensures !go ==> Refused(past, all, sent, handler)
    {
      JoinedWithin(past, chunks, k, Stream(sent));
      all, go := TakeChunk(chunks[k], handler, dispatched, past, Joined(past, chunks, k), Joined(past, chunks, k + 1), sent);
    }

    /** Receives one chunk after the bytes got. */
    method TakeChunk(chunk: seq<Byte>, handler: Command -> bool, dispatched: seq<Command>, ghost past: seq<Byte>, ghost got: seq<Byte>,
                     ghost next: seq<Byte>, ghost sent: seq<Command>)
      returns (all: seq<Command>, go: bool)
      requires Upto(past, got, dispatched, sent, handler) && |chunk| <= BUFFER_SIZE - |Rest(got)|
      requires AllValid(sent) && next == got + chunk && next <= Stream(sent)
      modifies this, cmdBuf
      ensures go ==> Upto(past, next, all, sent, handler)
      ensures !go ==> Refused(past, all, sent, handler)
    {
      var more;
      more, go := ReceiveChunk(chunk, handler);
      TakenNext(past, got, chunk, dispatched, more, sent);
      all := dispatched + more;
    }
  }

  /** The commands dispatched were sent, and the last one is refused. */
  ghost predicate Refused(past: seq<Byte>, dispatched: seq<Command>, sent: seq<Command>, handler: Command -> bool) {
    dispatched != [] && Parsed(past) + dispatched <= sent && !handler(dispatched[|dispatched| - 1])
  }

  ghost predicate AllAccepted(cs: seq<Command>, handler: Command -> bool) {
    forall k {:trigger cs[k]} :: 0 <= k < |cs| ==> handler(cs[k])
  }

  /** Of the bytes got the commands behind those of past are dispatched. */
  ghost predicate Taken(past: seq<Byte>, got: seq<Byte>, dispatched: seq<Command>, sent: seq<Command>) {
    Parsed(past) + dispatched == Parsed(got) && Parsed(got) <= sent
  }

  lemma TakenInitially(past: seq<Byte>, sent: seq<Command>)
    requires AllValid(sent) && past <= Stream(sent)
    ensures Taken(past, past, [], sent) && |Rest(past)| < BUFFER_SIZE
  {
    ParsedPrefix(sent, past);
    RestFits(sent, past);
    assert Parsed(past) + [] == Parsed(past);
  }

  lemma TakenMeans(past: seq<Byte>, got: seq<Byte>, dispatched: seq<Command>, sent: seq<Command>)
    requires Taken(past, got, dispatched, sent)
    ensures Parsed(past) + dispatched == Parsed(got) && Parsed(got) <= sent && Parsed(past) + dispatched <= sent
  {
  }

  /** What is dispatched next was sent too. */
  lemma TakenNext(past: seq<Byte>, got: seq<Byte>, chunk: seq<Byte>, before: seq<Command>, more: seq<Command>, sent: seq<Command>)
    requires Taken(past, got, before, sent) && AllValid(sent) && got + chunk <= Stream(sent) && more <= Parsed(Rest(got) + chunk)
    ensures Parsed(past) + (before + more) <= sent
    ensures more == Parsed(Rest(got) + chunk) ==> Taken(past, got + chunk, before + more, sent)
    ensures Rest(Rest(got) + chunk) == Rest(got + chunk) && |Rest(got + chunk)| < BUFFER_SIZE
  {
    TakenMeans(past, got, before, sent);
    ParsedConcat(got, chunk);
    ParsedPrefix(sent, got + chunk);
    RestFits(sent, got + chunk);
    MoreOf(Parsed(past), before, Parsed(Rest(got) + chunk), more, sent);
  }

  lemma MoreOf(first: seq<Command>, before: seq<Command>, next: seq<Command>, more: seq<Command>, sent: seq<Command>)
    requires first + before + next <= sent && more <= next
    ensures first + (before + more) <= sent && first + (before + next) == first + before + next
  {
    assert first + (before + more) == first + before + more;
    assert more == next[..|more|];
  }

  /** When the whole stream has come, all commands sent are dispatched, and nothing is left. */
  lemma WholeStream(past: seq<Byte>, got: seq<Byte>, dispatched: seq<Command>, sent: seq<Command>)
    requires AllValid(sent) && Parsed(past) + dispatched == Parsed(got) && got == Stream(sent)
    ensures Parsed(past) + dispatched == sent && Rest(got) == []
  {
    ParsedStream(sent);
  }
}
