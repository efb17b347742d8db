/** The emulator's line assembler: a fixed 128-byte buffer fed by arbitrary reads
    (gnss_atcmd_main.c). */
module AtLines {
  import opened Bytes

  const RBUF_SIZE := 128

  predicate Terminator(b: byte) {
    b == 13 || b == 10 || b == 0
  }

  predicate Plain(s: seq<byte>) {
    forall i :: 0 <= i < |s| ==> !Terminator(s[i])
  }

  datatype Assembly = Assembly(lines: seq<seq<byte>>, pending: seq<byte>)

  // --------------------------------------------- what the emulator executes

  /** The length of s up to its first terminator. */
  function PlainPrefix(s: seq<byte>): (n: nat)
    ensures n <= |s| && Plain(s[..n]) && (n < |s| ==> Terminator(s[n]))
  {
    if s == [] || Terminator(s[0]) then 0
    else
      var n := 1 + PlainPrefix(s[1..]);
      assert s[..n] == [s[0]] + s[1..][..n - 1];
      n
  }

  /** One pass of the loop with input ready: pending bytes, then the bytes just read. */
  function Feed(pending: seq<byte>, chunk: seq<byte>): (a: Assembly) {
    FeedAt(pending, chunk, PlainPrefix(chunk))
  }

  /** The same with the place of the first terminator known. */
  function FeedAt(pending: seq<byte>, chunk: seq<byte>, n: nat): (a: Assembly)
    requires n <= |chunk|
  {
    if |pending + chunk| >= RBUF_SIZE then Assembly([(pending + chunk)[..RBUF_SIZE - 1]], [])
    else if n == |chunk| then Assembly([], pending + chunk)
    else Assembly([pending + chunk[..n]], [])
  }

  /** The lines executed over a list of reads. */
  function Assemble(pending: seq<byte>, chunks: seq<seq<byte>>): (a: Assembly)
    decreases |chunks|
  {
    if chunks == [] then Assembly([], pending)
    else
      var now := Feed(pending, chunks[0]);
      var later := Assemble(now.pending, chunks[1..]);
      Assembly(now.lines + later.lines, later.pending)
  }

  /** read() never returns more than the space left. */
  ghost predicate Readable(pending: seq<byte>, chunks: seq<seq<byte>>)
    decreases |chunks|
  {
    && |pending| < RBUF_SIZE
    && (chunks != [] ==>
          && |pending| + |chunks[0]| <= RBUF_SIZE
          && Readable(Feed(pending, chunks[0]).pending, chunks[1..]))
  }

  /** Carriage return, line feed and NUL end a line, and no other byte does: a text without them
      waits in the buffer, each of them behind it makes it a command, and 128 bytes are a
      command of 127 in any case. */
  lemma OneLine(text: seq<byte>, end: byte)
    requires forall k :: 0 <= k < |text| ==> text[k] != 13 && text[k] != 10 && text[k] != 0
    ensures |text| < 128 ==> Feed([], text) == Assembly([], text)
    ensures |text| < 127 && (end == 13 || end == 10 || end == 0) ==> Feed([], text + [end]) == Assembly([text], [])
    ensures |text| == 128 ==> Feed([], text) == Assembly([text[..127]], [])
  {
    assert Plain(text);
    assert [] + text == text && [] + (text + [end]) == text + [end];
    if Terminator(end) {
      PrefixEnds(text, end);
      assert (text + [end])[..|text|] == text;
    }
  }

  lemma {:induction false} PrefixEnds(text: seq<byte>, end: byte)
    requires Plain(text) && Terminator(end)
    ensures PlainPrefix(text + [end]) == |text|
  {
    if text != [] {
      PrefixEnds(text[1..], end);
      assert (text + [end])[1..] == text[1..] + [end];
    }
  }

  // ------------------------------------------------- what the stream contains

  /** The stream split at its terminators. */
  ghost function Split(acc: seq<byte>, s: seq<byte>): (a: Assembly)
    decreases |s|
  {
    if s == [] then Assembly([], acc)
    else if Terminator(s[0]) then
      var rest := Split([], s[1..]);
      Assembly([acc] + rest.lines, rest.pending)
    else Split(acc + [s[0]], s[1..])
  }

  lemma {:induction false} SplitPlain(acc: seq<byte>, s: seq<byte>, rest: seq<byte>)
    requires Plain(s)
    ensures Split(acc, s + rest) == Split(acc + s, rest)
    decreases |s|
  {
    if s == [] {
      assert s + rest == rest && acc + s == acc;
    } else {
      assert (s + rest)[1..] == s[1..] + rest;
      SplitPlain(acc + [s[0]], s[1..], rest);
      assert acc + [s[0]] + s[1..] == acc + s;
    }
  }

  lemma SplitLine(acc: seq<byte>, s: seq<byte>, end: byte, rest: seq<byte>)
    requires Plain(s) && Terminator(end)
    ensures var later := Split([], rest);
            Split(acc, s + [end] + rest) == Assembly([acc + s] + later.lines, later.pending)
  {
    assert s + [end] + rest == s + ([end] + rest);
    SplitPlain(acc, s, [end] + rest);
    assert ([end] + rest)[1..] == rest;
  }

  // ----------------------------------------------------- when the two agree

  /** A terminator, if any, is the last byte of its read. */
  predicate EndsOnly(chunk: seq<byte>) {
    PlainPrefix(chunk) >= |chunk| - 1
  }

  ghost predicate Short(a: Assembly) {
    |a.pending| < 128 && forall k :: 0 <= k < |a.lines| ==> |a.lines[k]| < 128
  }

  lemma {:induction false} CleanRun(pending: seq<byte>, chunks: seq<seq<byte>>)
    requires Readable(pending, chunks) && Plain(pending)
    requires forall k :: 0 <= k < |chunks| ==> EndsOnly(chunks[k])
    requires Short(Split(pending, Concat(chunks)))
    ensures Assemble(pending, chunks) == Split(pending, Concat(chunks))
    decreases |chunks|
  {
    if chunks != [] {
      var c, rest := chunks[0], Concat(chunks[1..]);
      var n := PlainPrefix(c);
      if n == |c| {
        assert c[..n] == c;
        SplitPlain(pending, c, rest);
        LongPending(pending + c, rest);
        CleanRun(pending + c, chunks[1..]);
      } else {
        var line := pending + c[..n];
        assert c == c[..n] + [c[n]];
        assert c + rest == c[..n] + [c[n]] + rest;
        SplitLine(pending, c[..n], c[n], rest);
        ShortCons(line, Split([], rest));
        FeedLine(pending, c, n);
        CleanRun([], chunks[1..]);
      }
    }
  }

  lemma ShortCons(line: seq<byte>, later: Assembly)
    requires Short(Assembly([line] + later.lines, later.pending))
    ensures |line| < 128 && Short(later)
  {
    var lines := [line] + later.lines;
    assert lines[0] == line;
    forall k | 0 <= k < |later.lines| ensures |later.lines[k]| < 128 {
      assert lines[k + 1] == later.lines[k];
    }
  }

  /** A read that ends with its terminator and fills the buffer at most closes the line. */
  lemma FeedLine(pending: seq<byte>, c: seq<byte>, n: nat)
    requires n == |c| - 1 && |pending| + n < RBUF_SIZE
    ensures FeedAt(pending, c, n) == Assembly([pending + c[..n]], [])
  {
    assert (pending + c)[..|pending| + n] == pending + c[..n];
  }

  /** Pending bytes stay at the front of whatever they become part of. */
  lemma {:induction false} LongPending(acc: seq<byte>, s: seq<byte>)
    requires Short(Split(acc, s))
    ensures |acc| < RBUF_SIZE
    decreases |s|
  {
    if s != [] && !Terminator(s[0]) {
      LongPending(acc + [s[0]], s[1..]);
    } else if s != [] {
      assert Split(acc, s).lines[0] == acc;
    }
  }

  /** Bytes of executed lines, terminators included. */
  ghost function Volume(a: Assembly): (n: nat) {
    LineBytes(a.lines) + |a.pending|
  }

  ghost function LineBytes(lines: seq<seq<byte>>): (n: nat) {
    if lines == [] then 0 else |lines[0]| + 1 + LineBytes(lines[1..])
  }

  lemma {:induction false} LineBytesAppend(a: seq<seq<byte>>, b: seq<seq<byte>>)
    ensures LineBytes(a + b) == LineBytes(a) + LineBytes(b)
  {
    if a == [] {
      assert a + b == b;
    } else {
      assert (a + b)[1..] == a[1..] + b;
      LineBytesAppend(a[1..], b);
    }
  }

  /** Splitting loses nothing and its lines hold no terminator. */
  lemma {:induction false} SplitAccounts(acc: seq<byte>, s: seq<byte>)
    requires Plain(acc)
    ensures Volume(Split(acc, s)) == |acc| + |s|
    ensures forall k :: 0 <= k < |Split(acc, s).lines| ==> Plain(Split(acc, s).lines[k])
    decreases |s|
  {
    if s != [] {
      if Terminator(s[0]) {
        SplitAccounts([], s[1..]);
        var rest := Split([], s[1..]);
        assert ([acc] + rest.lines)[1..] == rest.lines;
      } else {
        SplitAccounts(acc + [s[0]], s[1..]);
      }
    }
  }

  /** Bytes read behind a terminator are thrown away. */
  ghost function Dropped(pending: seq<byte>, chunk: seq<byte>): (n: nat) {
    var p := PlainPrefix(chunk);
    if |pending + chunk| >= RBUF_SIZE || p == |chunk| then 0 else |chunk| - p - 1
  }

  ghost function AllDropped(pending: seq<byte>, chunks: seq<seq<byte>>): (n: nat)
    decreases |chunks|
  {
    if chunks == [] then 0
    else Dropped(pending, chunks[0]) + AllDropped(Feed(pending, chunks[0]).pending, chunks[1..])
  }

  lemma {:induction false} AssembleAccounts(pending: seq<byte>, chunks: seq<seq<byte>>)
    requires Readable(pending, chunks)
    ensures Volume(Assemble(pending, chunks)) + AllDropped(pending, chunks) == |pending| + |Concat(chunks)|
    ensures Short(Assemble(pending, chunks))
    decreases |chunks|
  {
    if chunks != [] {
      var now := Feed(pending, chunks[0]);
      FeedAccounts(pending, chunks[0]);
      AssembleAccounts(now.pending, chunks[1..]);
      LineBytesAppend(now.lines, Assemble(now.pending, chunks[1..]).lines);
    }
  }

  lemma FeedAccounts(pending: seq<byte>, chunk: seq<byte>)
    requires |pending| < RBUF_SIZE && |pending| + |chunk| <= RBUF_SIZE
    ensures var now := Feed(pending, chunk);
            Volume(now) + Dropped(pending, chunk) == |pending| + |chunk| && Short(now)
  {
    var now := Feed(pending, chunk);
    if now.lines != [] {
      assert now.lines[1..] == [];
      assert LineBytes(now.lines) == |now.lines[0]| + 1;
    }
  }

  lemma {:induction false} NothingDropped(pending: seq<byte>, chunks: seq<seq<byte>>)
    requires Readable(pending, chunks) && AllDropped(pending, chunks) == 0
    requires forall k :: 0 <= k < |Assemble(pending, chunks).lines| ==> Plain(Assemble(pending, chunks).lines[k])
    ensures forall k :: 0 <= k < |chunks| ==> EndsOnly(chunks[k])
    decreases |chunks|
  {
    if chunks != [] {
      var now := Feed(pending, chunks[0]);
      var later, all := Assemble(now.pending, chunks[1..]), Assemble(pending, chunks);
      forall k | 0 <= k < |later.lines|
        ensures Plain(later.lines[k])
      {
        assert all.lines[k + |now.lines|] == later.lines[k];
      }
      NothingDropped(now.pending, chunks[1..]);
      if |pending + chunks[0]| >= RBUF_SIZE {
        FullLine(pending, chunks[0]);
        assert all.lines[0] == now.lines[0];
      }
      assert forall k :: 1 <= k < |chunks| ==> chunks[k] == chunks[1..][k - 1];
    }
  }

  lemma FullLine(pending: seq<byte>, chunk: seq<byte>)
    requires |pending| < RBUF_SIZE == |pending + chunk|
    ensures Plain((pending + chunk)[..RBUF_SIZE - 1]) ==> EndsOnly(chunk)
  {
    var line, n := (pending + chunk)[..RBUF_SIZE - 1], PlainPrefix(chunk);
    if n < |chunk| - 1 {
      assert line[|pending| + n] == chunk[n];
    }
  }

  /** Main result, for every way of reading the stream: the executed lines and the
      buffered rest are the stream split at its terminators exactly when every
      terminator ends its read and no line outgrows the buffer. */
  lemma LineAssembly(chunks: seq<seq<byte>>)
    requires Readable([], chunks)
    ensures var stream := Concat(chunks);
            Assemble([], chunks) == Split([], stream) <==>
            Short(Split([], stream)) && forall k :: 0 <= k < |chunks| ==> EndsOnly(chunks[k])
  {
    var stream := Concat(chunks);
    if Assemble([], chunks) == Split([], stream) {
      AgreementIsClean(chunks);
    } else if Short(Split([], stream)) && forall k :: 0 <= k < |chunks| ==> EndsOnly(chunks[k]) {
      CleanRun([], chunks);
    }
  }

  lemma AgreementIsClean(chunks: seq<seq<byte>>)
    requires Readable([], chunks) && Assemble([], chunks) == Split([], Concat(chunks))
    ensures Short(Split([], Concat(chunks))) && forall k :: 0 <= k < |chunks| ==> EndsOnly(chunks[k])
  {
    SplitAccounts([], Concat(chunks));
    AssembleAccounts([], chunks);
    NothingDropped([], chunks);
  }

  /** One more read. */
  lemma {:induction false} AssembleSnoc(pending: seq<byte>, chunks: seq<seq<byte>>, c: seq<byte>)
    ensures var a := Assemble(pending, chunks);
            var now := Feed(a.pending, c);
            Assemble(pending, chunks + [c]) == Assembly(a.lines + now.lines, now.pending)
    decreases |chunks|
  {
    if chunks == [] {
      assert ([] + [c])[1..] == [] && [] + [c] == [c];
      assert Feed(pending, c).lines + [] == Feed(pending, c).lines;
    } else {
      var first := Feed(pending, chunks[0]);
      assert (chunks + [c])[1..] == chunks[1..] + [c];
      AssembleSnoc(first.pending, chunks[1..], c);
      var a := Assemble(first.pending, chunks[1..]);
      var now := Feed(a.pending, c);
      assert first.lines + (a.lines + now.lines) == (first.lines + a.lines) + now.lines;
    }
  }

  lemma AssembleNext(pending: seq<byte>, chunks: seq<seq<byte>>, k: nat, lines: seq<seq<byte>>, p: seq<byte>)
    requires k < |chunks| && Assemble(pending, chunks[..k]) == Assembly(lines, p)
    ensures var now := Feed(p, chunks[k]);
            Assemble(pending, chunks[..k + 1]) == Assembly(lines + now.lines, now.pending)
  {
    AssembleSnoc(pending, chunks[..k], chunks[k]);
    assert chunks[..k + 1] == chunks[..k] + [chunks[k]];
  }

  // ----------------------------------------------------- the imperative code

  datatype Command = NoCommand | Execute(line: seq<byte>)

  class LineReader {
    const rbuf: array<byte>
    var bufhead: nat
    var remain: nat

    ghost predicate Valid()
      reads this, rbuf
    {
      && rbuf.Length == RBUF_SIZE
      && 1 <= remain
      && bufhead + remain == RBUF_SIZE
      && Plain(rbuf[..bufhead])
    }

    ghost function Pending(): (s: seq<byte>)
      requires Valid()
      reads this, rbuf
    {
      rbuf[..bufhead]
    }

    constructor ()
      ensures Valid() && Pending() == [] && fresh(rbuf)
    {
      rbuf := new byte[RBUF_SIZE](_ => 0);
      bufhead := 0;
      remain := RBUF_SIZE;
    }

    /** read(READ_FD, bufhead, remain) returning the bytes of chunk. */
    method Read(chunk: seq<byte>)
      requires Valid() && |chunk| <= remain
      modifies rbuf
      ensures rbuf[..bufhead + |chunk|] == old(Pending()) + chunk
    {
      for k := 0 to |chunk|
        invariant rbuf[..bufhead] == old(rbuf[..bufhead])
        invariant forall j :: 0 <= j < k ==> rbuf[bufhead + j] == chunk[j]
      {
        rbuf[bufhead + k] := chunk[k];
      }
    }

    /** The scan for a terminator among the sz bytes at bufhead. */
    method Scan(sz: nat, ghost chunk: seq<byte>) returns (n: nat)
      requires bufhead + sz <= rbuf.Length && chunk == rbuf[bufhead..bufhead + sz]
      modifies this`bufhead
      ensures n == PlainPrefix(chunk) && bufhead == old(bufhead) + n
    {
      n := 0;
      while n < sz && !Terminator(rbuf[bufhead])
        invariant 0 <= n <= PlainPrefix(chunk) && bufhead == old(bufhead) + n
        decreases sz - n
      {
        assert rbuf[bufhead] == chunk[n];
        n := n + 1;
        bufhead := bufhead + 1;
      }
      if n < sz {
        assert rbuf[bufhead] == chunk[n];
      }
    }

    /** One pass with input ready.  The command is the buffer handed to gnss_atcmd_exec,
        its closing NUL included. */
    method Step(chunk: seq<byte>) returns (cmd: Command)
      requires Valid() && |chunk| <= remain
      modifies this, rbuf
      ensures Valid()
      ensures var a := Feed(old(Pending()), chunk);
              && Pending() == a.pending
              && (cmd.NoCommand? <==> a.lines == [])
              && (cmd.Execute? ==> a.lines != [] && cmd.line == a.lines[0] + [0])
    {
      ghost var full := Pending() + chunk;
      Read(chunk);
      remain := remain - |chunk|;
      var sz := |chunk|;
      if remain > 0 {
        assert rbuf[bufhead..bufhead + sz] == full[bufhead..] == chunk;
        var n := Scan(sz, chunk);
        if n == sz {
          assert chunk[..n] == chunk;
          return NoCommand;
        }
        assert full[..bufhead] == old(Pending()) + chunk[..n];
        sz := bufhead + 1;
      } else {
        sz := RBUF_SIZE;
        bufhead := sz - 1;
      }
      assert rbuf[..bufhead] == full[..bufhead];
      cmd := Dispatch(sz);
    }

    /** Closes the line at bufhead, hands it over and empties the buffer. */
    method Dispatch(sz: nat) returns (cmd: Command)
      requires bufhead + 1 == sz <= rbuf.Length == RBUF_SIZE
      modifies this, rbuf
      ensures Valid() && Pending() == []
      ensures cmd == Execute(old(rbuf[..bufhead]) + [0])
    {
      rbuf[bufhead] := 0;
      cmd := Execute(rbuf[..sz]);
      remain := RBUF_SIZE;
      bufhead := 0;
    }

    /** The loop over a list of reads: the lines executed, closing NULs left off, and how many
        reads were used.  shutdown tells which command answers -ESHUTDOWN; the loop ends with
        the first of them. */
    method Emulate(chunks: seq<seq<byte>>, shutdown: nat -> bool) returns (lines: seq<seq<byte>>, used: nat)
      requires Valid() && Readable(Pending(), chunks)
      modifies this, rbuf
      ensures Valid() && used <= |chunks|
      ensures Assembly(lines, Pending()) == Assemble(old(Pending()), chunks[..used])
      ensures forall n :: 0 <= n < |lines| - 1 ==> !shutdown(n)
      ensures used < |chunks| ==> lines != [] && shutdown(|lines| - 1)
      ensures lines != [] && shutdown(|lines| - 1) ==>
                used > 0 && Assemble(old(Pending()), chunks[..used - 1]).lines == lines[..|lines| - 1]
    {
      lines, used := [], 0;
      ghost var p0, p := Pending(), Pending();
      assert chunks[0..] == chunks;
      while used < |chunks|
        invariant used <= |chunks| && Valid() && p == Pending() && Readable(p, chunks[used..])
        invariant Assemble(p0, chunks[..used]) == Assembly(lines, p)
        invariant forall n :: 0 <= n < |lines| ==> !shutdown(n)
      {
        ghost var now := Feed(p, chunks[used]);
        assert chunks[used..][1..] == chunks[used + 1..];
        AssembleNext(p0, chunks, used, lines, p);
        var cmd := Step(chunks[used]);
        p := now.pending;
        used := used + 1;
        if cmd.Execute? {
          assert now.lines == [cmd.line[..|cmd.line| - 1]];
          lines := lines + [cmd.line[..|cmd.line| - 1]];
          if shutdown(|lines| - 1) {
            break;
          }
        } else {
          assert lines + now.lines == lines;
        }
      }
    }
  }
}
