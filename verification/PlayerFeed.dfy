/** Feeding a player (audio_dual_players_main.cxx): the application reads the file and
    offers to the ring buffer while the audio sub-system polls it.  Every memory access
    of the two sides is one step, so a run is any interleaving of them. */
module PlayerFeed {
  import opened Bytes
  import opened SimpleFifo

  const ELEMENT_SIZE := 3840 * 2
  const ELEMENT_NUM := 20
  const QUEUE_SIZE := ELEMENT_SIZE * ELEMENT_NUM
  const PUSH_NUM_MAX := 10

  /** The application: pushes left, in the first filling or in a refill. */
  datatype Producer =
    | Checking                                                    // about to ask for the vacant size
    | Pushing(left: nat, first: bool)                             // about to read the file
    | Loaded(left: nat, first: bool, held: seq<byte>)             // about to offer what was read
    | Copying(left: nat, first: bool, held: seq<byte>, seen: nat, done: nat)  // Offer, read pointer seen
    | Failed                                                      // FIFO_RESULT_ERR
    | AtEnd                                                       // FIFO_RESULT_EOF
    | Refused                                                     // FIFO_RESULT_FUL, the bytes read are gone

  /** The sub-system: the bytes got so far of a Poll of sz. */
  datatype Consumer = Resting | Taking(sz: nat, newRp: int, got: seq<byte>)

  datatype State = State(mem: seq<byte>, wp: nat, rp: nat, unread: seq<byte>, size: int,
                         consumed: seq<byte>, producer: Producer, consumer: Consumer)

  ghost predicate Initial(s: State, file: seq<byte>) {
    && |s.mem| == QUEUE_SIZE && s.wp == s.rp == 0
    && s.unread == file && s.size == |file| && s.consumed == []
    && s.producer == Pushing(ELEMENT_NUM - 1, true) && s.consumer == Resting
  }

  // ------------------------------------------------------------------ the steps
  // Conditions such as RingShape only make a step's expressions well-formed; the
  // invariant below implies them in every reachable state.

  /** Where the push loop goes once a push has returned OK or EOF. */
  ghost function AfterPush(left: nat, first: bool, size: int): (p: Producer)
    requires left > 0
  {
    if first then (if size == 0 || left == 1 then Checking else Pushing(left - 1, true))
    else if left > 1 then Pushing(left - 1, false)
    else if size == 0 then AtEnd else Checking
  }

  ghost predicate RingShape(s: State) {
    |s.mem| == QUEUE_SIZE && s.wp < QUEUE_SIZE && s.rp < QUEUE_SIZE
  }

  /** CMN_SimpleFifoGetVacantSize and the number of pushes derived from it. */
  ghost predicate Check(s: State, t: State) {
    && s.producer == Checking && RingShape(s)
    && var vacant := Vacant(QUEUE_SIZE, s.wp, s.rp);
       t == s.(producer := if vacant > ELEMENT_SIZE
                           then Pushing(Min(vacant / ELEMENT_SIZE, PUSH_NUM_MAX), false)
                           else Checking)
  }

  /** read() returns n bytes, an error when n is negative. */
  ghost predicate Read(s: State, t: State, n: int) {
    && s.producer.Pushing? && s.producer.left > 0
    && n <= Min(ELEMENT_SIZE, |s.unread|)
    && var p := s.producer;
       t == if n < 0 then s.(producer := Failed)
            else if n == 0 then s.(producer := AfterPush(p.left, p.first, s.size))
            else s.(unread := s.unread[n..], producer := Loaded(p.left, p.first, s.unread[..n]))
  }

  /** Offer compares the sizes against the read pointer it sees now. */
  ghost predicate StartOffer(s: State, t: State) {
    && s.producer.Loaded? && RingShape(s)
    && var p := s.producer;
       t == s.(producer := if Vacant(QUEUE_SIZE, s.wp, s.rp) < |p.held| then Refused
                           else Copying(p.left, p.first, p.held, s.rp, 0))
  }

  ghost predicate CopyByte(s: State, t: State) {
    && s.producer.Copying? && s.producer.done < |s.producer.held| && RingShape(s)
    && |s.producer.held| < QUEUE_SIZE
    && var p := s.producer;
       t == s.(mem := s.mem[Wrap(QUEUE_SIZE, s.wp + p.done) := p.held[p.done]],
               producer := p.(done := p.done + 1))
  }

  ghost predicate FinishOffer(s: State, t: State) {
    && s.producer.Copying? && s.producer.done == |s.producer.held| && s.producer.left > 0
    && RingShape(s) && s.producer.seen < QUEUE_SIZE
    && var p := s.producer;
       var newWp := NewWp(QUEUE_SIZE, s.wp, p.seen, |p.held|);
       var size := s.size - |p.held|;
       newWp >= 0 && t == s.(wp := newWp, size := size, producer := AfterPush(p.left, p.first, size))
  }

  /** Poll of sz bytes; with too few queued it returns at once. */
  ghost predicate StartPoll(s: State, t: State, sz: nat) {
    && s.consumer == Resting && RingShape(s)
    && t == if Occupied(QUEUE_SIZE, s.wp, s.rp) < sz then s
            else s.(consumer := Taking(sz, NewRp(QUEUE_SIZE, s.wp, s.rp, sz), []))
  }

  ghost predicate TakeByte(s: State, t: State) {
    && s.consumer.Taking? && |s.consumer.got| < s.consumer.sz < QUEUE_SIZE && RingShape(s)
    && var c := s.consumer;
       t == s.(consumer := c.(got := c.got + [s.mem[Wrap(QUEUE_SIZE, s.rp + |c.got|)]]))
  }

  ghost predicate FinishPoll(s: State, t: State) {
    && s.consumer.Taking? && |s.consumer.got| == s.consumer.sz && s.consumer.newRp >= 0
    && t == s.(rp := s.consumer.newRp, consumed := s.consumed + s.consumer.got, consumer := Resting)
  }

  ghost predicate Next(s: State, t: State) {
    || s == t
    || Check(s, t) || (exists n :: Read(s, t, n)) || StartOffer(s, t) || CopyByte(s, t) || FinishOffer(s, t)
    || (exists sz :: StartPoll(s, t, sz)) || TakeByte(s, t) || FinishPoll(s, t)
  }

  ghost predicate Run(run: seq<State>, file: seq<byte>) {
    && run != [] && Initial(run[0], file)
    && forall i :: 0 <= i < |run| - 1 ==> Next(run[i], run[i + 1])
  }

  // -------------------------------------------------------------- the invariant

  /** Bytes read from the file and not yet queued. */
  ghost function Held(p: Producer): (h: seq<byte>) {
    if p.Loaded? || p.Copying? then p.held else []
  }

  ghost function Queued(s: State): (q: seq<byte>)
    requires RingShape(s)
  {
    Contents(s.mem, s.wp, s.rp)
  }

  /** No byte is lost, doubled or reordered. */
  ghost predicate Conserved(s: State, file: seq<byte>) {
    RingShape(s) && s.consumed + Queued(s) + Held(s.producer) + s.unread == file
  }

  /** The pushes still to come fit, however little the consumer has taken. */
  ghost predicate Room(s: State)
    requires RingShape(s)
  {
    var p, vacant := s.producer, Vacant(QUEUE_SIZE, s.wp, s.rp);
    match p
    case Pushing(left, _) => left > 0 && left * ELEMENT_SIZE <= vacant
    case Loaded(left, _, held) => left > 0 && left * ELEMENT_SIZE <= vacant && 0 < |held| <= ELEMENT_SIZE
    case Copying(left, _, held, seen, done) =>
      && left > 0 && left * ELEMENT_SIZE <= vacant && 0 < |held| <= ELEMENT_SIZE
      && done <= |held| && Stored(s.mem, s.wp, held[..done])
      && seen < QUEUE_SIZE && |held| <= Vacant(QUEUE_SIZE, s.wp, seen)
    case Refused => false
    case _ => true
  }

  ghost predicate PollSound(s: State)
    requires RingShape(s)
  {
    s.consumer.Taking? ==>
      && s.consumer.sz <= Occupied(QUEUE_SIZE, s.wp, s.rp)
      && s.consumer.newRp == Wrap(QUEUE_SIZE, s.rp + s.consumer.sz)
      && s.consumer.got <= Queued(s)[..s.consumer.sz]
  }

  ghost predicate Inv(s: State, file: seq<byte>) {
    && Conserved(s, file) && Room(s) && PollSound(s)
    && s.size == |Held(s.producer)| + |s.unread|
    && (s.producer == AtEnd ==> s.size == 0)
  }

  lemma InitialInv(s: State, file: seq<byte>)
    requires Initial(s, file)
    ensures Inv(s, file)
  {
    assert Queued(s) == [];
    assert [] + Queued(s) + [] + s.unread == file;
  }

  lemma CheckInv(s: State, t: State, file: seq<byte>)
    requires Inv(s, file) && Check(s, t)
    ensures Inv(t, file)
  {
  }

  lemma ReadInv(s: State, t: State, n: int, file: seq<byte>)
    requires Inv(s, file) && Read(s, t, n)
    ensures Inv(t, file)
  {
    if n > 0 {
      assert s.unread == s.unread[..n] + s.unread[n..];
      assert s.consumed + Queued(s) + [] + s.unread == s.consumed + Queued(s) + s.unread[..n] + s.unread[n..];
    } else {
      var p := s.producer;
      AfterPushRoom(s, p.left, p.first);
    }
  }

  lemma AfterPushRoom(s: State, left: nat, first: bool)
    requires RingShape(s) && left > 0 && (left - 1) * ELEMENT_SIZE <= Vacant(QUEUE_SIZE, s.wp, s.rp)
    ensures Room(s.(producer := AfterPush(left, first, s.size)))
    ensures Held(AfterPush(left, first, s.size)) == []
  {
  }

  lemma StartOfferInv(s: State, t: State, file: seq<byte>)
    requires Inv(s, file) && StartOffer(s, t)
    ensures Inv(t, file)
  {
    assert Held(t.producer) == Held(s.producer);
    assert s.producer.held[..0] == [];
  }

  lemma CopyByteInv(s: State, t: State, file: seq<byte>)
    requires Inv(s, file) && CopyByte(s, t)
    ensures Inv(t, file)
  {
    var p := s.producer;
    var b, stored := p.held[p.done], p.held[..p.done];
    WriteAhead(s.mem, s.wp, s.rp, p.done, b);
    StoreNext(s.mem, s.wp, stored, b);
    assert stored + [b] == p.held[..p.done + 1];
  }

  lemma FinishOfferInv(s: State, t: State, file: seq<byte>)
    requires Inv(s, file) && FinishOffer(s, t)
    ensures Inv(t, file)
  {
    var p := s.producer;
    assert p.held[..p.done] == p.held;
    NewWpWraps(QUEUE_SIZE, s.wp, p.seen, |p.held|);
    NewWpWraps(QUEUE_SIZE, s.wp, s.rp, |p.held|);
    Publish(s.mem, s.wp, s.rp, p.held);
    assert Queued(t) == Queued(s) + p.held;
    OccupiedPlusVacant(QUEUE_SIZE, s.wp, s.rp);
    OccupiedPlusVacant(QUEUE_SIZE, t.wp, s.rp);
    AfterPushRoom(t, p.left, p.first);
    HandOver(s.consumed, Queued(s), p.held, s.unread);
  }

  lemma HandOver(consumed: seq<byte>, q: seq<byte>, held: seq<byte>, unread: seq<byte>)
    ensures consumed + (q + held) + [] + unread == consumed + q + held + unread
  {
  }

  lemma StartPollInv(s: State, t: State, sz: nat, file: seq<byte>)
    requires Inv(s, file) && StartPoll(s, t, sz)
    ensures Inv(t, file)
  {
    if t.consumer.Taking? {
      NewRpWraps(QUEUE_SIZE, s.wp, s.rp, sz);
    }
  }

  lemma TakeByteInv(s: State, t: State, file: seq<byte>)
    requires Inv(s, file) && TakeByte(s, t)
    ensures Inv(t, file)
  {
    var c := s.consumer;
    assert Queued(s)[|c.got|] == s.mem[Wrap(QUEUE_SIZE, s.rp + |c.got|)];
  }

  lemma FinishPollInv(s: State, t: State, file: seq<byte>)
    requires Inv(s, file) && FinishPoll(s, t)
    ensures Inv(t, file)
  {
    var c := s.consumer;
    Release(s.mem, s.wp, s.rp, c.sz);
    var q := Queued(s);
    assert c.got == q[..c.sz];
    assert Queued(t) == q[c.sz..];
    MoveAcross(s.consumed, q, c.sz, Held(s.producer), s.unread);
    ReleaseRoom(s, t.rp, c.sz);
  }

  lemma MoveAcross(consumed: seq<byte>, q: seq<byte>, k: nat, held: seq<byte>, unread: seq<byte>)
    requires k <= |q|
    ensures (consumed + q[..k]) + q[k..] + held + unread == consumed + q + held + unread
  {
    assert q == q[..k] + q[k..];
    assert (consumed + q[..k]) + q[k..] == consumed + q;
  }

  /** Taking bytes out only makes room. */
  lemma ReleaseRoom(s: State, rp: nat, sz: nat)
    requires RingShape(s) && Room(s) && sz <= Occupied(QUEUE_SIZE, s.wp, s.rp) && rp == Wrap(QUEUE_SIZE, s.rp + sz)
    ensures Room(s.(rp := rp))
  {
    NewRpWraps(QUEUE_SIZE, s.wp, s.rp, sz);
    OccupiedPlusVacant(QUEUE_SIZE, s.wp, s.rp);
    OccupiedPlusVacant(QUEUE_SIZE, s.wp, rp);
  }

  lemma NextInv(s: State, t: State, file: seq<byte>)
    requires Inv(s, file) && Next(s, t)
    ensures Inv(t, file)
  {
    if s == t {
    } else if Check(s, t) {
      CheckInv(s, t, file);
    } else if exists n :: Read(s, t, n) {
      var n :| Read(s, t, n);
      ReadInv(s, t, n, file);
    } else if StartOffer(s, t) {
      StartOfferInv(s, t, file);
    } else if CopyByte(s, t) {
      CopyByteInv(s, t, file);
    } else if FinishOffer(s, t) {
      FinishOfferInv(s, t, file);
    } else if TakeByte(s, t) {
      TakeByteInv(s, t, file);
    } else if FinishPoll(s, t) {
      FinishPollInv(s, t, file);
    } else {
      var sz :| StartPoll(s, t, sz);
      StartPollInv(s, t, sz, file);
    }
  }

  /** Main result: in every state of every interleaving, with any short reads, what was
      consumed, what is queued, what is in hand and what is unread make up the file in
      order; no offer is refused; and the end is reported only with every byte queued. */
  lemma {:induction false} FeedConserves(run: seq<State>, file: seq<byte>, i: nat)
    requires Run(run, file) && i < |run|
    ensures Inv(run[i], file)
    ensures Conserved(run[i], file)
    ensures run[i].producer != Refused
    ensures run[i].producer == AtEnd ==> run[i].consumed + Queued(run[i]) == file
  {
    if i == 0 {
      InitialInv(run[0], file);
    } else {
      FeedConserves(run, file, i - 1);
      NextInv(run[i - 1], run[i], file);
    }
    var s := run[i];
    if s.producer == AtEnd {
      assert s.unread == [];
      assert s.consumed + Queued(s) + [] + [] == s.consumed + Queued(s);
    }
  }

  /** Whatever has been played is a prefix of the file. */
  lemma PlayedIsPrefix(run: seq<State>, file: seq<byte>, i: nat)
    requires Run(run, file) && i < |run|
    ensures run[i].consumed <= file
  {
    FeedConserves(run, file, i);
    var s := run[i];
    assert file == s.consumed + (Queued(s) + Held(s.producer) + s.unread);
  }

  /** The last push of a refill ends: what was read is published, or the read found nothing. */
  ghost predicate LastPushEnds(s: State, t: State) {
    && ((s.producer.Pushing? && Read(s, t, 0)) || FinishOffer(s, t))
    && s.producer.left == 1 && !s.producer.first
  }

  /** At that point the end of the file is reported exactly when every byte has been queued. */
  lemma EndIffQueued(run: seq<State>, file: seq<byte>, i: nat)
    requires Run(run, file) && i + 1 < |run| && LastPushEnds(run[i], run[i + 1])
    ensures RingShape(run[i + 1])
    ensures run[i + 1].producer == AtEnd <==> run[i + 1].consumed + Queued(run[i + 1]) == file
  {
    FeedConserves(run, file, i + 1);
    var t := run[i + 1];
    assert Held(t.producer) == [];
    assert t.consumed + Queued(t) + [] + t.unread == (t.consumed + Queued(t)) + t.unread;
    assert |file| == |t.consumed + Queued(t)| + |t.unread|;
  }

  /** Behind an offer, the first filling goes on exactly while the file holds more and pushes are
      left; a refill goes on exactly while pushes are left. */
  lemma PushesGoOn(run: seq<State>, file: seq<byte>, i: nat)
    requires Run(run, file) && i + 1 < |run| && FinishOffer(run[i], run[i + 1])
    ensures var p, t := run[i].producer, run[i + 1];
            t.producer == Pushing(p.left - 1, p.first) <==> p.left > 1 && (!p.first || t.unread != [])
  {
    FeedConserves(run, file, i + 1);
    assert Held(run[i + 1].producer) == [];
  }

  /** A refill pushes when more than one element of 7680 bytes is vacant: as many as fit, and
      ten at most. */
  lemma RefillAmount(s: State, t: State)
    requires Check(s, t)
    ensures var vacant := Vacant(153600, s.wp, s.rp);
            if vacant > 7680
            then t.producer.Pushing? && !t.producer.first && var left := t.producer.left;
                 left <= 10 && left * 7680 <= vacant && (left == 10 || vacant < (left + 1) * 7680)
            else t == s
  {
  }

  /** The first filling pushes nineteen elements at most, into a ring of twenty. */
  lemma FirstFilling(s: State, file: seq<byte>)
    requires Initial(s, file)
    ensures |s.mem| == 153600 && s.producer == Pushing(19, true) && 19 * 7680 < Vacant(153600, s.wp, s.rp)
  {
  }
}
