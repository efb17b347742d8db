/** Firmware package streaming (fwupdate_package.c): a parser of type/size/data records
    that hands each payload to the downloader in chunks of bounded size. */
module FwPackage {
  import opened Bytes
  import opened LittleEndian

  const HEADER_SIZE := 8
  const ENOENT := 2
  const ENOMEM := 12
  const ENODATA := 61

  /** What the environment answers when the n-th chunk of the update is due:
      malloc fails, or the download call returns a value. */
  datatype Reply = NoMemory | Answer(ret: int)
  type Replies = nat -> Reply

  /** Calls made on the update client after init. */
  datatype Call = Download(fwtype: nat, fwsize: nat, chunk: seq<byte>) | Update

  /** After one record: result, unread file, calls made and number of the next chunk. */
  datatype Progress = Progress(ret: int, rest: seq<byte>, calls: seq<Call>, n: nat)

  datatype Outcome = Outcome(ret: int, calls: seq<Call>)

  // ------------------------------------------------------------ the code, on values

  /** do_partial_download from the point where remain bytes are still to come. */
  function Partial(file: seq<byte>, fwtype: nat, fwsize: nat, remain: nat, work: nat,
                   replies: Replies, n: nat): (p: Progress)
    requires work > 0
    decreases remain
  {
    var size := Min(remain, work);
    if replies(n) == NoMemory then Progress(-ENOMEM, file, [], n + 1)
    else if |file| < size then Progress(-ENODATA, [], [], n + 1)
    else
      var call := Download(fwtype, fwsize, file[..size]);
      if remain <= size then Progress(replies(n).ret, file[size..], [call], n + 1)
      else
        var later := Partial(file[size..], fwtype, fwsize, remain - size, work, replies, n + 1);
        later.(calls := [call] + later.calls)
  }

  /** do_package_download on the unread part of the file. */
  ghost function Package(file: seq<byte>, work: nat, replies: Replies, n: nat): (o: Outcome)
    requires work > 0
    decreases |file|, 1
  {
    if |file| < HEADER_SIZE then Outcome(|file|, [])
    else PackageBody(FromLe(file[..4]), FromLe(file[4..8]), file[8..], work, replies, n)
  }

  /** The rest of the package loop once a header has been read. */
  ghost function PackageBody(fwtype: nat, fwsize: nat, file: seq<byte>, work: nat, replies: Replies, n: nat)
    : (o: Outcome)
    requires work > 0
    decreases |file|, 2
  {
    if fwsize == 0 then Outcome(-ENOENT, [])
    else
      var p := Partial(file, fwtype, fwsize, fwsize, work, replies, n);
      PartialConsumes(file, fwtype, fwsize, fwsize, work, replies, n);
      if p.ret != 0 then Outcome(p.ret, p.calls)
      else After(p.calls, Package(p.rest, work, replies, p.n))
  }

  ghost function After(calls: seq<Call>, o: Outcome): (r: Outcome) {
    Outcome(o.ret, calls + o.calls)
  }

  lemma {:induction false} PartialConsumes(file: seq<byte>, fwtype: nat, fwsize: nat, remain: nat, work: nat,
                                           replies: Replies, n: nat)
    requires work > 0
    ensures |Partial(file, fwtype, fwsize, remain, work, replies, n).rest| <= |file|
    decreases remain
  {
    var size := Min(remain, work);
    if replies(n) != NoMemory && size <= |file| && size < remain {
      PartialConsumes(file[size..], fwtype, fwsize, remain - size, work, replies, n + 1);
    }
  }

  /** fwupdate_package: the update call is made unless the download reported an error. */
  ghost function CallsOf(o: Outcome): (calls: seq<Call>) {
    if o.ret < 0 then o.calls else o.calls + [Update]
  }

  // ---------------------------------------------------------- packages and chunks

  datatype Record = Record(fwtype: nat, data: seq<byte>)

  /** The bytes of one record: type, size and as much data as the size says. */
  predicate IsBlock(s: seq<byte>) {
    |s| > HEADER_SIZE && FromLe(s[4..8]) == |s| - HEADER_SIZE
  }

  predicate AllBlocks(ss: seq<seq<byte>>) {
    forall i :: 0 <= i < |ss| ==> IsBlock(ss[i])
  }

  function RecordOf(s: seq<byte>): (r: Record)
    requires |s| >= HEADER_SIZE
  {
    Record(FromLe(s[..4]), s[8..])
  }

  function RecordsOf(ss: seq<seq<byte>>): (rs: seq<Record>)
    requires AllBlocks(ss)
  {
    if ss == [] then [] else [RecordOf(ss[0])] + RecordsOf(ss[1..])
  }

  /** A package file: its records one after the other, then whatever follows them. */
  function File(ss: seq<seq<byte>>, tail: seq<byte>): (s: seq<byte>) {
    if ss == [] then tail else ss[0] + File(ss[1..], tail)
  }

  /** Every non-empty firmware image with 32-bit type and size has such bytes. */
  lemma EncodeRecord(r: Record) returns (s: seq<byte>)
    requires r.fwtype < Pow256(4) && 0 < |r.data| < Pow256(4)
    ensures IsBlock(s) && RecordOf(s) == r
  {
    s := ToLe(r.fwtype, 4) + ToLe(|r.data|, 4) + r.data;
    assert s[..4] == ToLe(r.fwtype, 4) && s[4..8] == ToLe(|r.data|, 4) && s[8..] == r.data;
    FieldExact(r.fwtype, 4);
    FieldExact(|r.data|, 4);
  }

  /** The chunks of a payload: full work-size pieces and one last, shorter or equal. */
  function ChunkCalls(fwtype: nat, fwsize: nat, data: seq<byte>, work: nat): (calls: seq<Call>)
    requires work > 0
    ensures calls != []
    decreases |data|
  {
    if |data| <= work then [Download(fwtype, fwsize, data)]
    else [Download(fwtype, fwsize, data[..work])] + ChunkCalls(fwtype, fwsize, data[work..], work)
  }

  function RecordCalls(r: Record, work: nat): (calls: seq<Call>)
    requires work > 0
    ensures calls != []
  {
    ChunkCalls(r.fwtype, |r.data|, r.data, work)
  }

  lemma {:induction false} ChunkBounds(fwtype: nat, fwsize: nat, data: seq<byte>, work: nat)
    requires work > 0 && data != []
    ensures forall i :: 0 <= i < |ChunkCalls(fwtype, fwsize, data, work)| ==>
              var c := ChunkCalls(fwtype, fwsize, data, work)[i];
              c.Download? && 0 < |c.chunk| <= work
    decreases |data|
  {
    if |data| > work {
      ChunkBounds(fwtype, fwsize, data[work..], work);
    }
  }

  /** The receiving end: chunks are joined until the announced size is reached. */
  ghost function Reassemble(acc: seq<byte>, calls: seq<Call>): (rs: seq<Record>)
    decreases |calls|
  {
    if calls == [] then []
    else if calls[0].Update? then Reassemble(acc, calls[1..])
    else
      var now := acc + calls[0].chunk;
      if |now| == calls[0].fwsize then [Record(calls[0].fwtype, now)] + Reassemble([], calls[1..])
      else Reassemble(now, calls[1..])
  }

  lemma {:induction false} ReassembleChunks(acc: seq<byte>, fwtype: nat, fwsize: nat, data: seq<byte>, work: nat,
                                            rest: seq<Call>)
    requires work > 0 && data != [] && fwsize == |acc| + |data|
    ensures Reassemble(acc, ChunkCalls(fwtype, fwsize, data, work) + rest) ==
            [Record(fwtype, acc + data)] + Reassemble([], rest)
    decreases |data|
  {
    var calls := ChunkCalls(fwtype, fwsize, data, work);
    if |data| <= work {
      assert (calls + rest)[1..] == rest;
    } else {
      var head, tail := data[..work], data[work..];
      ReassembleChunks(acc + head, fwtype, fwsize, tail, work, rest);
      assert (acc + head) + tail == acc + data by { assert data == head + tail; }
      assert (calls + rest)[1..] == ChunkCalls(fwtype, fwsize, tail, work) + rest;
    }
  }

  // ------------------------------------------------------------- what is delivered

  /** How many of the m chunks numbered from n on get memory before a malloc fails. */
  function Reach(replies: Replies, n: nat, m: nat): (k: nat)
    ensures k <= m
    decreases m
  {
    if m == 0 || replies(n) == NoMemory then 0 else 1 + Reach(replies, n + 1, m - 1)
  }

  /** The result of passing on m chunks numbered from n on: the reply to the last one, unless a
      malloc failed before. */
  function ChunksRet(replies: Replies, n: nat, m: nat): (ret: int)
    requires m > 0
  {
    if Reach(replies, n, m) < m then -ENOMEM
    else if replies(n + m - 1) == NoMemory then -ENOMEM
    else replies(n + m - 1).ret
  }

  lemma ChunksRetStep(replies: Replies, n: nat, m: nat)
    requires m > 1 && replies(n) != NoMemory
    ensures Reach(replies, n, m) == 1 + Reach(replies, n + 1, m - 1)
    ensures ChunksRet(replies, n, m) == ChunksRet(replies, n + 1, m - 1)
  {
  }

  /** What passing on the given chunks comes to. */
  ghost predicate Passes(p: Progress, calls: seq<Call>, rest: seq<byte>, replies: Replies, n: nat)
    requires calls != []
  {
    && p.ret == ChunksRet(replies, n, |calls|)
    && p.calls == calls[..Reach(replies, n, |calls|)]
    && (Reach(replies, n, |calls|) == |calls| ==> p.rest == rest && p.n == n + |calls|)
  }

  /** One record: its chunks are passed on in order until a malloc fails; the reply to the last
      one is the result, and earlier replies are overwritten. */
  lemma {:induction false} PartialDelivers(data: seq<byte>, rest: seq<byte>, fwtype: nat, fwsize: nat, work: nat,
                                           replies: Replies, n: nat)
    requires work > 0 && data != []
    ensures var calls := ChunkCalls(fwtype, fwsize, data, work);
            var p := Partial(data + rest, fwtype, fwsize, |data|, work, replies, n);
            calls != [] && Passes(p, calls, rest, replies, n)
    decreases |data|
  {
    var file := data + rest;
    if |data| <= work {
      assert file[..|data|] == data && file[|data|..] == rest;
      assert Reach(replies, n + 1, 0) == 0;
    } else {
      assert file[..work] == data[..work] && file[work..] == data[work..] + rest;
      PartialDelivers(data[work..], rest, fwtype, fwsize, work, replies, n + 1);
      var later := ChunkCalls(fwtype, fwsize, data[work..], work);
      if replies(n) != NoMemory {
        ChunksRetStep(replies, n, 1 + |later|);
        TakeCons(Download(fwtype, fwsize, data[..work]), later, Reach(replies, n + 1, |later|));
      }
    }
  }

  lemma TakeCons(call: Call, later: seq<Call>, k: nat)
    requires k <= |later|
    ensures ([call] + later)[..k + 1] == [call] + later[..k]
  {
  }

  /** A payload that ends early is an error, whatever the downloader answers. */
  lemma {:induction false} PartialRunsDry(file: seq<byte>, fwtype: nat, fwsize: nat, remain: nat, work: nat,
                                          replies: Replies, n: nat)
    requires work > 0 && |file| < remain
    ensures var ret := Partial(file, fwtype, fwsize, remain, work, replies, n).ret;
            ret == -ENODATA || (ret == -ENOMEM && exists k :: k >= n && replies(k) == NoMemory)
    decreases remain
  {
    var size := Min(remain, work);
    if replies(n) != NoMemory && size <= |file| {
      PartialRunsDry(file[size..], fwtype, fwsize, remain - size, work, replies, n + 1);
    }
  }

  /** The result of a record whose chunks are numbered from n on. */
  ghost function RecordRet(r: Record, work: nat, replies: Replies, n: nat): (ret: int)
    requires work > 0
  {
    ChunksRet(replies, n, |RecordCalls(r, work)|)
  }

  /** The downloads it makes: all its chunks, or those in front of a failed malloc. */
  ghost function RecordDone(r: Record, work: nat, replies: Replies, n: nat): (calls: seq<Call>)
    requires work > 0
  {
    var calls := RecordCalls(r, work);
    calls[..Reach(replies, n, |calls|)]
  }

  lemma DoneUnlessError(r: Record, work: nat, replies: Replies, n: nat)
    requires work > 0 && RecordRet(r, work, replies, n) != -ENOMEM
    ensures RecordDone(r, work, replies, n) == RecordCalls(r, work)
  {
    var calls := RecordCalls(r, work);
    assert calls[..|calls|] == calls;
  }

  /** What a record contributes in front of the outcome of what follows it. */
  ghost function Decide(r: Record, work: nat, replies: Replies, n: nat, later: Outcome): (o: Outcome)
    requires work > 0
  {
    var calls, ret := RecordDone(r, work, replies, n), RecordRet(r, work, replies, n);
    if ret != 0 then Outcome(ret, calls) else After(calls, later)
  }

  lemma BodyDelivers(r: Record, rest: seq<byte>, work: nat, replies: Replies, n: nat)
    requires work > 0 && r.data != []
    ensures PackageBody(r.fwtype, |r.data|, r.data + rest, work, replies, n) ==
            Decide(r, work, replies, n, Package(rest, work, replies, n + |RecordCalls(r, work)|))
  {
    PartialDelivers(r.data, rest, r.fwtype, |r.data|, work, replies, n);
  }

  lemma ParseBlock(s: seq<byte>, rest: seq<byte>, work: nat, replies: Replies, n: nat)
    requires work > 0 && IsBlock(s)
    ensures var r := RecordOf(s);
            Package(s + rest, work, replies, n) ==
            Decide(r, work, replies, n, Package(rest, work, replies, n + |RecordCalls(r, work)|))
  {
    var file := s + rest;
    assert file[..4] == s[..4] && file[4..8] == s[4..8] && file[8..] == s[8..] + rest;
    BodyDelivers(RecordOf(s), rest, work, replies, n);
  }

  /** The package loop, record by record instead of byte by byte; `last` is what becomes
      of the bytes behind the records. */
  ghost function Replay(rs: seq<Record>, last: nat -> Outcome, work: nat, replies: Replies, n: nat): (o: Outcome)
    requires work > 0
    decreases |rs|
  {
    if rs == [] then last(n)
    else Decide(rs[0], work, replies, n, Replay(rs[1..], last, work, replies, n + |RecordCalls(rs[0], work)|))
  }

  lemma ReplayStep(r: Record, rs: seq<Record>, last: nat -> Outcome, work: nat, replies: Replies, n: nat)
    requires work > 0
    ensures Replay([r] + rs, last, work, replies, n) ==
            Decide(r, work, replies, n, Replay(rs, last, work, replies, n + |RecordCalls(r, work)|))
  {
    assert ([r] + rs)[1..] == rs;
  }

  ghost function Tail(tail: seq<byte>, work: nat, replies: Replies): (last: nat -> Outcome)
    requires work > 0
  {
    (n: nat) => Package(tail, work, replies, n)
  }

  /** Main lemma: parsing a package meets its records one by one, whatever follows them and
      whatever malloc and the downloader answer. */
  lemma {:induction false} PackageReplays(ss: seq<seq<byte>>, tail: seq<byte>, work: nat, replies: Replies, n: nat)
    requires work > 0 && AllBlocks(ss)
    ensures Package(File(ss, tail), work, replies, n) ==
            Replay(RecordsOf(ss), Tail(tail, work, replies), work, replies, n)
    decreases |ss|
  {
    if ss != [] {
      var r, rest := RecordOf(ss[0]), File(ss[1..], tail);
      ParseBlock(ss[0], rest, work, replies, n);
      PackageReplays(ss[1..], tail, work, replies, n + |RecordCalls(r, work)|);
      ReplayStep(r, RecordsOf(ss[1..]), Tail(tail, work, replies), work, replies, n);
      assert RecordsOf(ss) == [r] + RecordsOf(ss[1..]);
    } else {
      assert File(ss, tail) == tail && RecordsOf(ss) == [];
    }
  }

  /** The result for a package: that of the first record whose result is not 0, or the number
      of stray bytes at the end. */
  ghost function Verdict(rs: seq<Record>, stray: int, work: nat, replies: Replies, n: nat): (v: int)
    requires work > 0
    decreases |rs|
  {
    if rs == [] then stray
    else
      var ret := RecordRet(rs[0], work, replies, n);
      if ret != 0 then ret else Verdict(rs[1..], stray, work, replies, n + |RecordCalls(rs[0], work)|)
  }

  /** Every record but the last gets a 0 for its last chunk, and the last one no error. */
  ghost predicate Completes(rs: seq<Record>, work: nat, replies: Replies, n: nat)
    requires work > 0
    decreases |rs|
  {
    if rs == [] then true
    else
      var ret := RecordRet(rs[0], work, replies, n);
      if |rs| == 1 then ret >= 0
      else ret == 0 && Completes(rs[1..], work, replies, n + |RecordCalls(rs[0], work)|)
  }

  ghost predicate AllAccepted(replies: Replies) {
    forall k :: replies(k) == Answer(0)
  }

  ghost predicate BoundedDownloads(calls: seq<Call>, work: nat) {
    forall i :: 0 <= i < |calls| ==> calls[i].Download? && 0 < |calls[i].chunk| <= work
  }

  lemma {:induction false} ReassembleUpdate(acc: seq<byte>, calls: seq<Call>)
    ensures Reassemble(acc, calls + [Update]) == Reassemble(acc, calls)
    decreases |calls|
  {
    if calls != [] {
      assert (calls + [Update])[1..] == calls[1..] + [Update];
      var now := if calls[0].Update? then acc else acc + calls[0].chunk;
      ReassembleUpdate(now, calls[1..]);
      ReassembleUpdate([], calls[1..]);
    }
  }

  ghost predicate AllPayloads(rs: seq<Record>) {
    forall i :: 0 <= i < |rs| ==> rs[i].data != []
  }

  lemma {:induction false} RecordsHavePayloads(ss: seq<seq<byte>>)
    requires AllBlocks(ss)
    ensures AllPayloads(RecordsOf(ss))
  {
    if ss != [] { RecordsHavePayloads(ss[1..]); }
  }

  lemma ReassembleRecord(r: Record, work: nat, rest: seq<Call>)
    requires work > 0 && r.data != []
    ensures Reassemble([], RecordCalls(r, work) + rest) == [r] + Reassemble([], rest)
  {
    assert [] + r.data == r.data;
    ReassembleChunks([], r.fwtype, |r.data|, r.data, work, rest);
  }

  /** What a package of these records comes to. */
  ghost predicate Delivers(o: Outcome, rs: seq<Record>, stray: nat, work: nat, replies: Replies, n: nat)
    requires work > 0
  {
    && o.ret == Verdict(rs, stray, work, replies, n)
    && (o.ret >= 0 ==> Reassemble([], o.calls) <= rs)
    && (o.ret >= 0 && Reassemble([], o.calls) == rs <==> Completes(rs, work, replies, n))
    && BoundedDownloads(o.calls, work)
  }

  lemma {:induction false} ReplayDelivers(rs: seq<Record>, last: nat -> Outcome, stray: nat, work: nat,
                                          replies: Replies, n: nat)
    requires work > 0 && AllPayloads(rs) && forall m :: last(m) == Outcome(stray, [])
    ensures Delivers(Replay(rs, last, work, replies, n), rs, stray, work, replies, n)
    decreases |rs|
  {
    if rs != [] {
      var calls, rest := RecordCalls(rs[0], work), rs[1..];
      var later := Replay(rest, last, work, replies, n + |calls|);
      ReplayDelivers(rest, last, stray, work, replies, n + |calls|);
      assert rs == [rs[0]] + rest;
      DecideDelivers(rs[0], rest, later, stray, work, replies, n);
    }
  }

  lemma DecideDelivers(r: Record, rest: seq<Record>, later: Outcome, stray: nat, work: nat, replies: Replies, n: nat)
    requires work > 0 && r.data != []
    requires Delivers(later, rest, stray, work, replies, n + |RecordCalls(r, work)|)
    ensures Delivers(Decide(r, work, replies, n, later), [r] + rest, stray, work, replies, n)
  {
    HeadDecides(r, rest, stray, work, replies, n);
    var ret, calls := RecordRet(r, work, replies, n), RecordCalls(r, work);
    ChunkBounds(r.fwtype, |r.data|, r.data, work);
    if ret >= 0 {
      DoneUnlessError(r, work, replies, n);
    }
    if ret == 0 {
      Joined(r, rest, later.calls, work);
    } else if ret > 0 {
      assert calls + [] == calls;
      Joined(r, rest, [], work);
    }
  }

  lemma HeadDecides(r: Record, rest: seq<Record>, stray: nat, work: nat, replies: Replies, n: nat)
    requires work > 0
    ensures var ret, m := RecordRet(r, work, replies, n), n + |RecordCalls(r, work)|;
            && Verdict([r] + rest, stray, work, replies, n) ==
               (if ret != 0 then ret else Verdict(rest, stray, work, replies, m))
            && (Completes([r] + rest, work, replies, n) <==>
                if ret == 0 then Completes(rest, work, replies, m) else ret > 0 && rest == [])
  {
    assert ([r] + rest)[1..] == rest;
  }

  /** A whole record in front of further downloads. */
  lemma Joined(r: Record, rest: seq<Record>, more: seq<Call>, work: nat)
    requires work > 0 && r.data != [] && BoundedDownloads(more, work)
    ensures var all, later := Reassemble([], RecordCalls(r, work) + more), Reassemble([], more);
            && (all == [r] + rest <==> later == rest)
            && (later <= rest ==> all <= [r] + rest)
            && BoundedDownloads(RecordCalls(r, work) + more, work)
  {
    ReassembleRecord(r, work, more);
    ConsPrefix(r, Reassemble([], more), rest);
    ChunkBounds(r.fwtype, |r.data|, r.data, work);
  }

  lemma ConsPrefix(r: Record, a: seq<Record>, b: seq<Record>)
    ensures [r] + a == [r] + b <==> a == b
    ensures a <= b ==> [r] + a <= [r] + b
  {
    assert ([r] + a)[1..] == a && ([r] + b)[1..] == b;
  }

  lemma PackageDelivers(ss: seq<seq<byte>>, stray: seq<byte>, work: nat, replies: Replies, n: nat)
    requires work > 0 && AllBlocks(ss) && |stray| < HEADER_SIZE
    ensures Delivers(Package(File(ss, stray), work, replies, n), RecordsOf(ss), |stray|, work, replies, n)
  {
    PackageReplays(ss, stray, work, replies, n);
    RecordsHavePayloads(ss);
    ReplayDelivers(RecordsOf(ss), Tail(stray, work, replies), |stray|, work, replies, n);
  }

  /** Download errors are noticed on the last chunk of a record and nowhere else. */
  lemma PackageVerdict(ss: seq<seq<byte>>, stray: seq<byte>, work: nat, replies: Replies, n: nat)
    requires work > 0 && AllBlocks(ss) && |stray| < HEADER_SIZE
    ensures Package(File(ss, stray), work, replies, n).ret == Verdict(RecordsOf(ss), |stray|, work, replies, n)
  {
    PackageDelivers(ss, stray, work, replies, n);
  }

  /** For every package and all answers: the update call is made exactly when the first record
      whose result is not 0, if any, ends without an error; and it follows a complete delivery
      exactly when every record but the last gets a 0 for its last chunk and the last no error. */
  lemma UpdateIff(ss: seq<seq<byte>>, stray: seq<byte>, work: nat, replies: Replies)
    requires work > 0 && AllBlocks(ss) && |stray| < HEADER_SIZE
    ensures var calls, rs := CallsOf(Package(File(ss, stray), work, replies, 0)), RecordsOf(ss);
            && (Update in calls <==> Verdict(rs, |stray|, work, replies, 0) >= 0)
            && (Update in calls ==> calls[|calls| - 1] == Update && Reassemble([], calls) <= rs)
            && (Update in calls && Reassemble([], calls) == rs <==> Completes(rs, work, replies, 0))
  {
    PackageDelivers(ss, stray, work, replies, 0);
    var o := Package(File(ss, stray), work, replies, 0);
    ReassembleUpdate([], o.calls);
    OnlyDownloads(o.calls, work);
  }

  lemma OnlyDownloads(calls: seq<Call>, work: nat)
    requires BoundedDownloads(calls, work)
    ensures Update !in calls
  {
  }

  /** A positive reply to the last chunk of the first record: the other records are never sent,
      and the update call is made all the same. */
  lemma PositiveReplySkips(ss: seq<seq<byte>>, stray: seq<byte>, work: nat, replies: Replies)
    requires work > 0 && AllBlocks(ss) && ss != [] && RecordRet(RecordOf(ss[0]), work, replies, 0) > 0
    ensures CallsOf(Package(File(ss, stray), work, replies, 0)) == RecordCalls(RecordOf(ss[0]), work) + [Update]
  {
    ParseBlock(ss[0], File(ss[1..], stray), work, replies, 0);
    DoneUnlessError(RecordOf(ss[0]), work, replies, 0);
  }

  lemma {:induction false} AcceptedRet(replies: Replies, n: nat, m: nat)
    requires AllAccepted(replies)
    ensures Reach(replies, n, m) == m && (m > 0 ==> ChunksRet(replies, n, m) == 0)
    decreases m
  {
    if m > 0 { AcceptedRet(replies, n + 1, m - 1); }
  }

  lemma {:induction false} AcceptedCompletes(rs: seq<Record>, work: nat, replies: Replies, n: nat)
    requires work > 0 && AllAccepted(replies)
    ensures Completes(rs, work, replies, n)
    decreases |rs|
  {
    if rs != [] {
      var m := |RecordCalls(rs[0], work)|;
      AcceptedRet(replies, n, m);
      AcceptedCompletes(rs[1..], work, replies, n + m);
    }
  }

  /** With a downloader that accepts everything, the downloaded chunks are non-empty, no larger
      than the work memory and join to exactly the records of the package; the update call
      follows, once and last. */
  lemma Delivery(ss: seq<seq<byte>>, stray: seq<byte>, work: nat, replies: Replies)
    requires work > 0 && AllBlocks(ss) && |stray| < HEADER_SIZE && AllAccepted(replies)
    ensures var calls := CallsOf(Package(File(ss, stray), work, replies, 0));
            && calls != [] && calls[|calls| - 1] == Update
            && Reassemble([], calls) == RecordsOf(ss)
            && BoundedDownloads(calls[..|calls| - 1], work)
  {
    AcceptedCompletes(RecordsOf(ss), work, replies, 0);
    PackageDelivers(ss, stray, work, replies, 0);
    var o := Package(File(ss, stray), work, replies, 0);
    ReassembleUpdate([], o.calls);
    assert (o.calls + [Update])[..|o.calls|] == o.calls;
  }

  // ------------------------------------------------------- records in bytes, and empty ones

  /** A record on the wire: type and size, low byte first, then the data. */
  lemma WireRecord(s: seq<byte>)
    requires |s| >= HEADER_SIZE
    ensures RecordOf(s).fwtype == Word(s[0], s[1], s[2], s[3]) && RecordOf(s).data == s[8..]
    ensures IsBlock(s) <==> |s| > 8 && Word(s[4], s[5], s[6], s[7]) == |s| - 8
  {
    FromWord(s[..4]);
    FromWord(s[4..8]);
  }

  lemma {:induction false} ReplayVerdict(rs: seq<Record>, last: nat -> Outcome, v: int, work: nat,
                                         replies: Replies, n: nat)
    requires work > 0 && forall m :: last(m).ret == v
    ensures Replay(rs, last, work, replies, n).ret == Verdict(rs, v, work, replies, n)
    decreases |rs|
  {
    if rs != [] {
      ReplayVerdict(rs[1..], last, v, work, replies, n + |RecordCalls(rs[0], work)|);
    }
  }

  lemma EmptyRecord(z: seq<byte>, work: nat, replies: Replies, n: nat)
    requires work > 0 && |z| >= HEADER_SIZE && z[4] == z[5] == z[6] == z[7] == 0
    ensures Package(z, work, replies, n) == Outcome(-ENOENT, [])
  {
    FromWord(z[4..8]);
  }

  /** A record of size 0 behind any others, for all answers: the package fails with -ENOENT and
      is not updated, unless one of the records in front of it has decided already. */
  lemma EmptyRecordFails(ss: seq<seq<byte>>, z: seq<byte>, work: nat, replies: Replies)
    requires work > 0 && AllBlocks(ss) && |z| >= HEADER_SIZE && z[4] == z[5] == z[6] == z[7] == 0
    ensures var o, v := Package(File(ss, z), work, replies, 0), Verdict(RecordsOf(ss), -2, work, replies, 0);
            && o.ret == v && (Update in CallsOf(o) <==> v >= 0)
            && (AllAccepted(replies) ==> v == -2)
  {
    PackageReplays(ss, z, work, replies, 0);
    var last := Tail(z, work, replies);
    forall m: nat ensures last(m).ret == -2 {
      EmptyRecord(z, work, replies, m);
    }
    ReplayVerdict(RecordsOf(ss), last, -2, work, replies, 0);
    PackageDownloads(File(ss, z), work, replies, 0);
    if AllAccepted(replies) {
      ReplayRet(RecordsOf(ss), last, -2, work, replies, 0);
    }
  }

  lemma {:induction false} PartialDownloads(file: seq<byte>, fwtype: nat, fwsize: nat, remain: nat, work: nat,
                                            replies: Replies, n: nat)
    requires work > 0
    ensures Update !in Partial(file, fwtype, fwsize, remain, work, replies, n).calls
    decreases remain
  {
    var size := Min(remain, work);
    if replies(n) != NoMemory && size <= |file| && size < remain {
      PartialDownloads(file[size..], fwtype, fwsize, remain - size, work, replies, n + 1);
    }
  }

  /** The package loop only ever downloads. */
  lemma {:induction false} PackageDownloads(file: seq<byte>, work: nat, replies: Replies, n: nat)
    requires work > 0
    ensures Update !in Package(file, work, replies, n).calls
    decreases |file|
  {
    if |file| >= HEADER_SIZE {
      var fwtype, fwsize, rest := FromLe(file[..4]), FromLe(file[4..8]), file[8..];
      if fwsize > 0 {
        var p := Partial(rest, fwtype, fwsize, fwsize, work, replies, n);
        PartialDownloads(rest, fwtype, fwsize, fwsize, work, replies, n);
        PartialConsumes(rest, fwtype, fwsize, fwsize, work, replies, n);
        if p.ret == 0 {
          PackageDownloads(p.rest, work, replies, p.n);
        }
      }
    }
  }

  // ------------------------------------------------------------------ cut packages

  /** A record cut off: in its header nothing is noticed, in its payload the parser fails. */
  lemma CutRecord(s: seq<byte>, cut: nat, work: nat, replies: Replies, n: nat)
    requires work > 0 && IsBlock(s) && cut < |s| && AllAccepted(replies)
    ensures Package(s[..cut], work, replies, n).ret == if cut < HEADER_SIZE then cut else -ENODATA
  {
    if cut >= HEADER_SIZE {
      var tail, r := s[..cut], RecordOf(s);
      assert tail[..4] == s[..4] && tail[4..8] == s[4..8];
      PartialRunsDry(tail[8..], r.fwtype, |r.data|, |r.data|, work, replies, n);
    }
  }

  /** A package cut anywhere in its last record: the loss is noticed, and the update call
      withheld, exactly when the cut lies behind the record's header. */
  lemma Truncation(ss: seq<seq<byte>>, s: seq<byte>, cut: nat, work: nat, replies: Replies)
    requires work > 0 && AllBlocks(ss) && IsBlock(s) && cut < |s| && AllAccepted(replies)
    ensures var o := Package(File(ss, s[..cut]), work, replies, 0);
            && o.ret == (if cut < HEADER_SIZE then cut else -ENODATA)
            && (o.ret < 0 <==> cut >= HEADER_SIZE)
            && (CallsOf(o) == o.calls + [Update] <==> cut < HEADER_SIZE)
  {
    var last, ret := Tail(s[..cut], work, replies), if cut < HEADER_SIZE then cut else -ENODATA;
    PackageReplays(ss, s[..cut], work, replies, 0);
    forall n: nat
      ensures last(n).ret == ret
    {
      CutRecord(s, cut, work, replies, n);
    }
    ReplayRet(RecordsOf(ss), last, ret, work, replies, 0);
    var o := Package(File(ss, s[..cut]), work, replies, 0);
    assert |o.calls + [Update]| > |o.calls|;
  }

  lemma {:induction false} ReplayRet(rs: seq<Record>, last: nat -> Outcome, ret: int, work: nat, replies: Replies,
                                     n: nat)
    requires work > 0 && AllAccepted(replies) && forall m :: last(m).ret == ret
    ensures Replay(rs, last, work, replies, n).ret == ret
    decreases |rs|
  {
    if rs != [] {
      var m := |RecordCalls(rs[0], work)|;
      AcceptedRet(replies, n, m);
      ReplayRet(rs[1..], last, ret, work, replies, n + m);
    }
  }

  // -------------------------------------------------------------- ignored replies

  /** Two ways to answer that agree on malloc and on the last chunk of every record. */
  ghost predicate SameEnds(rs: seq<Record>, work: nat, a: Replies, b: Replies, n: nat)
    requires work > 0
    decreases |rs|
  {
    rs == [] ||
    var m := |RecordCalls(rs[0], work)|;
    a(n + m - 1) == b(n + m - 1) && SameEnds(rs[1..], work, a, b, n + m)
  }

  ghost predicate SameMemory(a: Replies, b: Replies) {
    forall k :: a(k).NoMemory? <==> b(k).NoMemory?
  }

  lemma {:induction false} SameReach(a: Replies, b: Replies, n: nat, m: nat)
    requires SameMemory(a, b)
    ensures Reach(a, n, m) == Reach(b, n, m)
    decreases m
  {
    if m > 0 { SameReach(a, b, n + 1, m - 1); }
  }

  lemma {:induction false} ReplaySame(rs: seq<Record>, last: nat -> Outcome, work: nat, a: Replies, b: Replies, n: nat)
    requires work > 0 && SameMemory(a, b) && SameEnds(rs, work, a, b, n)
    ensures Replay(rs, last, work, a, n) == Replay(rs, last, work, b, n)
    decreases |rs|
  {
    if rs != [] {
      var m := |RecordCalls(rs[0], work)|;
      SameReach(a, b, n, m);
      ReplaySame(rs[1..], last, work, a, b, n + m);
    }
  }

  lemma ReplayTail(rs: seq<Record>, last: nat -> Outcome, other: nat -> Outcome, work: nat, replies: Replies, n: nat)
    requires work > 0 && forall m :: last(m) == other(m)
    ensures Replay(rs, last, work, replies, n) == Replay(rs, other, work, replies, n)
    decreases |rs|
  {
    if rs != [] {
      ReplayTail(rs[1..], last, other, work, replies, n + |RecordCalls(rs[0], work)|);
    }
  }

  /** For every package: replies to chunks that are not the last of their record have no effect,
      neither on the calls made nor on the result. */
  lemma OtherRepliesIgnored(ss: seq<seq<byte>>, stray: seq<byte>, work: nat, a: Replies, b: Replies)
    requires work > 0 && AllBlocks(ss) && |stray| < HEADER_SIZE
    requires SameMemory(a, b) && SameEnds(RecordsOf(ss), work, a, b, 0)
    ensures Package(File(ss, stray), work, a, 0) == Package(File(ss, stray), work, b, 0)
  {
    PackageReplays(ss, stray, work, a, 0);
    PackageReplays(ss, stray, work, b, 0);
    ReplaySame(RecordsOf(ss), Tail(stray, work, a), work, a, b, 0);
    ReplayTail(RecordsOf(ss), Tail(stray, work, a), Tail(stray, work, b), work, b, 0);
  }

  /** Chunk k of the package is the last one of some record. */
  ghost predicate EndsRecord(rs: seq<Record>, work: nat, k: nat, n: nat)
    requires work > 0
    decreases |rs|
  {
    rs != [] &&
    var m := |RecordCalls(rs[0], work)|;
    k == n + m - 1 || EndsRecord(rs[1..], work, k, n + m)
  }

  /** All downloads accepted but that of chunk k. */
  function FailsAt(k: nat, e: int): (replies: Replies) {
    (i: nat) => if i == k then Answer(e) else Answer(0)
  }

  lemma {:induction false} ReachAll(replies: Replies, n: nat, m: nat)
    requires forall k :: replies(k).Answer?
    ensures Reach(replies, n, m) == m
    decreases m
  {
    if m > 0 { ReachAll(replies, n + 1, m - 1); }
  }

  lemma {:induction false} FailureNoticed(rs: seq<Record>, stray: nat, work: nat, k: nat, e: int, n: nat)
    requires work > 0 && e < 0
    ensures Verdict(rs, stray, work, FailsAt(k, e), n) == if EndsRecord(rs, work, k, n) then e else stray
    decreases |rs|
  {
    if rs != [] {
      var m := |RecordCalls(rs[0], work)|;
      ReachAll(FailsAt(k, e), n, m);
      FailureNoticed(rs[1..], stray, work, k, e, n + m);
    }
  }

  /** One failed download, of any chunk of any package and with any error, withholds the update
      exactly when that chunk is the last of its record. */
  lemma MidRecordErrorIgnored(ss: seq<seq<byte>>, stray: seq<byte>, work: nat, k: nat, e: int)
    requires work > 0 && AllBlocks(ss) && |stray| < HEADER_SIZE && e < 0
    ensures Update !in CallsOf(Package(File(ss, stray), work, FailsAt(k, e), 0)) <==>
            EndsRecord(RecordsOf(ss), work, k, 0)
  {
    UpdateIff(ss, stray, work, FailsAt(k, e));
    FailureNoticed(RecordsOf(ss), |stray|, work, k, e, 0);
  }

  // ------------------------------------------------------------- the imperative code

  ghost function Prepend(calls: seq<Call>, p: Progress): (q: Progress) {
    p.(calls := calls + p.calls)
  }

  /** What the chunk loop will have done in the end, seen from one of its heads. */
  ghost function Goal(ret: int, calls: seq<Call>, file: seq<byte>, fwtype: nat, fwsize: nat, remain: nat, work: nat,
                      replies: Replies, n: nat): (p: Progress)
    requires work > 0
  {
    if remain == 0 then Progress(ret, file, calls, n)
    else Prepend(calls, Partial(file, fwtype, fwsize, remain, work, replies, n))
  }

  lemma GoalStep(ret: int, calls: seq<Call>, file: seq<byte>, fwtype: nat, fwsize: nat, remain: nat, work: nat,
                 replies: Replies, n: nat)
    requires work > 0 && remain > 0
    ensures var size := Min(remain, work);
            Goal(ret, calls, file, fwtype, fwsize, remain, work, replies, n) ==
            if replies(n) == NoMemory then Progress(-ENOMEM, file, calls, n + 1)
            else if |file| < size then Progress(-ENODATA, [], calls, n + 1)
            else Goal(replies(n).ret, calls + [Download(fwtype, fwsize, file[..size])], file[size..],
                      fwtype, fwsize, remain - size, work, replies, n + 1)
  {
    var size := Min(remain, work);
    assert calls + [] == calls;
    if size <= |file| && size < remain {
      var call := Download(fwtype, fwsize, file[..size]);
      var later := Partial(file[size..], fwtype, fwsize, remain - size, work, replies, n + 1).calls;
      assert calls + ([call] + later) == (calls + [call]) + later;
    }
  }

  method DoPartialDownload(file: seq<byte>, at: nat, fwtype: nat, fwsize: nat, work: nat, replies: Replies, n0: nat)
    returns (ret: int, pos: nat, calls: seq<Call>, n: nat)
    requires work > 0 && at <= |file| && fwsize > 0
    ensures pos <= |file|
    ensures Progress(ret, file[pos..], calls, n) == Partial(file[at..], fwtype, fwsize, fwsize, work, replies, n0)
  {
    ret, pos, calls, n := 0, at, [], n0;
    var remain: nat := fwsize;
    ghost var goal := Partial(file[at..], fwtype, fwsize, fwsize, work, replies, n0);
    while 0 < remain    // a do-while loop entered with remain > 0
      invariant pos <= |file|
      invariant goal == Goal(ret, calls, file[pos..], fwtype, fwsize, remain, work, replies, n)
    {
      var size: nat := Min(remain, work);
      var reply := replies(n);
      GoalStep(ret, calls, file[pos..], fwtype, fwsize, remain, work, replies, n);
      n := n + 1;
      if reply == NoMemory {
        return -ENOMEM, pos, calls, n;
      }
      if |file| - pos < size {
        assert file[|file|..] == [];
        return -ENODATA, |file|, calls, n;
      }
      assert file[pos..][..size] == file[pos..pos + size] && file[pos..][size..] == file[pos + size..];
      calls := calls + [Download(fwtype, fwsize, file[pos..pos + size])];
      ret := reply.ret;
      remain := remain - size;
      pos := pos + size;
    }
  }

  lemma PackageStep(calls: seq<Call>, file: seq<byte>, pos: nat, work: nat, replies: Replies, n: nat)
    requires work > 0 && pos + HEADER_SIZE <= |file|
    ensures var fwtype, fwsize := FromLe(file[pos..pos + 4]), FromLe(file[pos + 4..pos + 8]);
            After(calls, Package(file[pos..], work, replies, n)) ==
            After(calls, PackageBody(fwtype, fwsize, file[pos + 8..], work, replies, n))
  {
    var rest := file[pos..];
    assert rest[..4] == file[pos..pos + 4] && rest[4..8] == file[pos + 4..pos + 8] && rest[8..] == file[pos + 8..];
  }

  lemma AfterAfter(a: seq<Call>, b: seq<Call>, o: Outcome)
    ensures After(a, After(b, o)) == After(a + b, o)
  {
    assert a + (b + o.calls) == (a + b) + o.calls;
  }

  method DoPackageDownload(file: seq<byte>, work: nat, replies: Replies) returns (ret: int, calls: seq<Call>)
    requires work > 0
    ensures Outcome(ret, calls) == Package(file, work, replies, 0)
  {
    calls := [];
    var pos, n := 0, 0;
    ghost var goal := Package(file, work, replies, 0);
    assert file[0..] == file;
    while true
      invariant pos <= |file|
      invariant goal == After(calls, Package(file[pos..], work, replies, n))
      decreases |file| - pos
    {
      if |file| - pos < HEADER_SIZE {
        return |file| - pos, calls;
      }
      var fwtype, fwsize := FromLe(file[pos..pos + 4]), FromLe(file[pos + 4..pos + 8]);
      PackageStep(calls, file, pos, work, replies, n);
      if fwsize <= 0 {
        return -ENOENT, calls;
      }
      PartialConsumes(file[pos + 8..], fwtype, fwsize, fwsize, work, replies, n);
      var more;
      ret, pos, more, n := DoPartialDownload(file, pos + 8, fwtype, fwsize, work, replies, n);
      if ret != 0 {
        return ret, calls + more;
      }
      AfterAfter(calls, more, Package(file[pos..], work, replies, n));
      calls := calls + more;
    }
  }

  method UpdatePackage(file: seq<byte>, work: nat, replies: Replies, updateRet: int)
    returns (ret: int, calls: seq<Call>)
    requires work > 0
    ensures var o := Package(file, work, replies, 0);
            calls == CallsOf(o) && ret == if o.ret < 0 then o.ret else updateRet
  {
    ret, calls := DoPackageDownload(file, work, replies);
    if ret < 0 {
      return;
    }
    calls := calls + [Update];
    ret := updateRet;
  }
}
