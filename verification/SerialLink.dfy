/** The serial image link: the board's 7-into-8 packer (web_source_main.c) and
    the PC's receive and decode loops (WebServer.cs). */
module SerialLink {
  import opened Bytes

  /** "EndOfFile" and its terminating NUL, as written by the board. */
  const MARKER: seq<byte> := [69, 110, 100, 79, 102, 70, 105, 108, 101, 0]

  // ------------------------------------------------------------ bit access

  /** Bit k of v in two's complement. */
  function Bit(v: int, k: nat): (b: int)
    ensures 0 <= b < 2
    decreases k
  {
    if k == 0 then v % 2 else Bit(v / 2, k - 1)
  }

  /** v | (1 << k) */
  function OrBit(v: nat, k: nat): (r: nat) {
    if k == 0 then v - v % 2 + 1 else 2 * OrBit(v / 2, k - 1) + v % 2
  }

  function Pow2(n: nat): (p: nat)
    ensures p > 0
  {
    if n == 0 then 1 else 2 * Pow2(n - 1)
  }

  lemma BitOfDouble(q: nat, b: nat, k: nat)
    requires b < 2
    ensures Bit(2 * q + b, k) == if k == 0 then b else Bit(q, k - 1)
  {
    Halves(q, b);
  }

  lemma Halves(q: nat, b: nat)
    requires b < 2
    ensures (2 * q + b) / 2 == q && (2 * q + b) % 2 == b
  {
  }

  lemma {:induction false} OrBitSetsOnly(v: nat, m: nat, k: nat, n: nat)
    requires v < Pow2(n) && m < n
    ensures OrBit(v, m) < Pow2(n)
    ensures Bit(OrBit(v, m), k) == if k == m then 1 else Bit(v, k)
    decreases m
  {
    var q, b := v / 2, v % 2;
    BitOfDouble(q, b, k);
    if m == 0 {
      assert OrBit(v, 0) == 2 * q + 1;
      BitOfDouble(q, 1, k);
    } else {
      OrBitSetsOnly(q, m - 1, if k == 0 then 0 else k - 1, n - 1);
      BitOfDouble(OrBit(q, m - 1), b, k);
    }
  }

  // ------------------------------------------------------------- the packer

  /** Moves a 7-bit value past the control characters and DEL. */
  function Shift(v: nat): (b: byte)
    requires v < 128
  {
    if v + 32 >= 127 then v + 32 + 33 else v + 32
  }

  /** The PC's inverse of Shift, an int that may be negative for a stray byte. */
  function Unshift(b: byte): (d: int) {
    if b - 32 >= 127 then b - 32 - 33 else b - 32
  }

  /** The carry byte after the first j bytes of a group: byte i's top bit lands in bit 6 - i. */
  function Carry(g: seq<byte>, j: nat): (a: nat)
    requires j <= |g| <= 7
  {
    if j == 0 then 0
    else if g[j - 1] >= 128 then OrBit(Carry(g, j - 1), 7 - j)
    else Carry(g, j - 1)
  }

  lemma {:induction false} CarryBitsBelow(g: seq<byte>, j: nat, k: nat, n: nat)
    requires j <= |g| <= 7 == n && k < 7
    ensures Carry(g, j) < Pow2(n)
    ensures Bit(Carry(g, j), 6 - k) == if k < j && g[k] >= 128 then 1 else 0
    decreases j
  {
    if j == 0 {
      ZeroBits(6 - k);
    } else {
      CarryBitsBelow(g, j - 1, k, n);
      CarryStep(Carry(g, j - 1), Carry(g, j), g[j - 1] >= 128, 7 - j, 6 - k, n);
    }
  }

  lemma CarryStep(before: nat, after: nat, top: bool, m: nat, k: nat, n: nat)
    requires before < Pow2(n) && m < n && after == if top then OrBit(before, m) else before
    ensures after < Pow2(n) && Bit(after, k) == if top && k == m then 1 else Bit(before, k)
  {
    OrBitSetsOnly(before, m, k, n);
  }

  lemma CarryBits(g: seq<byte>, j: nat, k: nat)
    requires j <= |g| <= 7 && k < 7
    ensures Carry(g, j) < Pow2(7) == 128
    ensures Bit(Carry(g, j), 6 - k) == if k < j && g[k] >= 128 then 1 else 0
  {
    Pow2Of7();
    CarryBitsBelow(g, j, k, 7);
  }

  lemma Pow2Of7()
    ensures Pow2(7) == 128
  {
    assert Pow2(3) == 8;
    assert Pow2(5) == 32;
  }

  lemma {:induction false} ZeroBits(k: nat)
    ensures Bit(0, k) == 0
  {
    if k > 0 { ZeroBits(k - 1); }
  }

  /** Shift lists the printable bytes in order: it keeps the order, and reaches each of them. */
  lemma AlphabetInOrder(v: nat, w: nat, b: byte)
    requires v < w < 128
    ensures Printable(Shift(v)) && Printable(Shift(w)) && Shift(v) < Shift(w)
    ensures Printable(b) ==> 0 <= Unshift(b) < 128 && Shift(Unshift(b)) == b
  {
  }

  ghost function Pack(g: seq<byte>): (w: seq<byte>)
    requires |g| <= 7
    ensures |w| == |g| + 1
  {
    CarryBits(g, |g|, 0);
    seq(|g|, i requires 0 <= i < |g| => Shift(g[i] % 128)) + [Shift(Carry(g, |g|))]
  }

  ghost function Body(p: seq<byte>): (w: seq<byte>) {
    if p == [] then []
    else if |p| <= 7 then Pack(p)
    else Pack(p[..7]) + Body(p[7..])
  }

  /** Everything the board writes for payload p. */
  ghost function Frame(p: seq<byte>): (w: seq<byte>) {
    Body(p) + MARKER
  }

  // ----------------------------------------------------------- the unpacker

  /** (byte)(d | (0x80 & (a << (j + 1)))) */
  function Rejoin(d: int, a: int, j: nat): (b: byte)
    requires j < 7
  {
    if Bit(a, 6 - j) == 1 && d % 256 < 128 then d % 256 + 128 else d % 256
  }

  function Unpack(w: seq<byte>): (g: seq<byte>)
    requires 1 <= |w| <= 8
    ensures |g| == |w| - 1
  {
    seq(|w| - 1, j requires 0 <= j < |w| - 1 => Rejoin(Unshift(w[j]), Unshift(w[|w| - 1]), j))
  }

  /** The decode loop: groups start at every multiple of 8 below data, and a
      group is as long as avail allows, at most 8. */
  function Decode(w: seq<byte>, data: nat, avail: nat): (p: seq<byte>)
    requires data <= avail <= |w|
  {
    if data == 0 then []
    else if data <= 8 then Unpack(w[..Min(8, avail)])
    else Unpack(w[..8]) + Decode(w[8..], data - 8, avail - 8)
  }

  /** The loop as written: the group length comes from size, marker included. */
  function DecodeAsWritten(w: seq<byte>): (p: seq<byte>)
    requires |w| >= 10
  {
    Decode(w, |w| - 10, |w|)
  }

  /** The variant whose group length leaves the marker out. */
  function DecodeTrimmed(w: seq<byte>): (p: seq<byte>)
    requires |w| >= 10
  {
    Decode(w, |w| - 10, |w| - 10)
  }

  // ------------------------------------------------------------- round trip

  lemma UnshiftShift(v: nat)
    requires v < 128
    ensures Unshift(Shift(v)) == v
  {
  }

  lemma UnpackPack(g: seq<byte>)
    requires |g| <= 7
    ensures Unpack(Pack(g)) == g
  {
    forall j | 0 <= j < |g|
      ensures Unpack(Pack(g))[j] == g[j]
    {
      UnpackPackAt(g, j);
    }
  }

  lemma UnpackPackAt(g: seq<byte>, j: nat)
    requires j < |g| <= 7
    ensures Unpack(Pack(g))[j] == g[j]
  {
    var w := Pack(g);
    var a := Carry(g, |g|);
    CarryBits(g, |g|, j);
    assert w[j] == Shift(g[j] % 128) && w[|w| - 1] == Shift(a);
    UnshiftShift(g[j] % 128);
    UnshiftShift(a);
    RejoinSplit(g[j], a, j);
  }

  lemma RejoinSplit(v: byte, a: nat, j: nat)
    requires j < 7 && Bit(a, 6 - j) == if v >= 128 then 1 else 0
    ensures Rejoin(v % 128, a, j) == v
  {
  }

  lemma {:induction false} BodyLength(p: seq<byte>)
    ensures |Body(p)| == |p| + (|p| + 6) / 7
  {
    if |p| > 7 { BodyLength(p[7..]); }
  }

  /** What the code returns for a last group of r bytes, 0 < r < 7: the window
      reaches 7 - r bytes into the marker, whose byte 6 - r is read as the carry. */
  ghost function Spoiled(tail: seq<byte>): (g: seq<byte>)
    requires 0 < |tail| < 7
    ensures |g| == 7
  {
    Unpack(Pack(tail) + MARKER[..7 - |tail|])
  }

  /** The part of a payload made of whole groups. */
  function Whole(n: nat): (cut: nat)
    ensures cut <= n < cut + 7
    ensures cut % 7 == 0
  {
    n - n % 7
  }

  lemma BodyStep(p: seq<byte>)
    requires |p| >= 7
    ensures Body(p) == Pack(p[..7]) + Body(p[7..])
  {
    if |p| == 7 {
      assert p[..7] == p;
    }
  }

  /** With the group length taken without the marker, every payload comes back. */
  lemma {:induction false} RoundTripTrimmed(p: seq<byte>, rest: seq<byte>)
    ensures Decode(Body(p) + rest, |Body(p)|, |Body(p)|) == p
  {
    if p == [] {
    } else if |p| < 7 {
      assert (Pack(p) + rest)[..|p| + 1] == Pack(p);
      UnpackPack(p);
    } else {
      TrimmedStep(p, rest);
      RoundTripTrimmed(p[7..], rest);
      assert p[..7] + p[7..] == p;
    }
  }

  lemma TrimmedStep(p: seq<byte>, rest: seq<byte>)
    requires |p| >= 7
    ensures var tail := Body(p[7..]);
            Decode(Body(p) + rest, |Body(p)|, |Body(p)|) == p[..7] + Decode(tail + rest, |tail|, |tail|)
  {
    var head, tail := Pack(p[..7]), Body(p[7..]);
    BodyStep(p);
    UnpackPack(p[..7]);
    DecodeStep(head, tail + rest, |tail|, |tail|);
    assert (head + tail) + rest == head + (tail + rest);
  }

  lemma DecodeStep(head: seq<byte>, rest: seq<byte>, data: nat, avail: nat)
    requires |head| == 8 && data <= avail <= |rest|
    ensures Decode(head + rest, data + 8, avail + 8) == Unpack(head) + Decode(rest, data, avail)
  {
    assert (head + rest)[..8] == head && (head + rest)[8..] == rest;
  }

  lemma FrameStep(p: seq<byte>)
    requires |p| >= 7
    ensures |Body(p)| == 8 + |Body(p[7..])|
    ensures Frame(p) == Pack(p[..7]) + Frame(p[7..])
  {
    BodyStep(p);
    assert (Pack(p[..7]) + Body(p[7..])) + MARKER == Pack(p[..7]) + (Body(p[7..]) + MARKER);
  }

  /** Whole groups come back unharmed, a shorter last group is spoiled. */
  ghost function Rebuilt(p: seq<byte>): (out: seq<byte>) {
    var cut := Whole(|p|);
    p[..cut] + if cut == |p| then [] else Spoiled(p[cut..])
  }

  lemma RebuiltStep(p: seq<byte>)
    requires |p| >= 7
    ensures Rebuilt(p) == p[..7] + Rebuilt(p[7..])
  {
    var cut := Whole(|p|);
    assert Whole(|p[7..]|) == cut - 7;
    SplitHead(p, cut, if cut == |p| then [] else Spoiled(p[cut..]));
  }

  lemma SplitHead(p: seq<byte>, cut: nat, tail: seq<byte>)
    requires 7 <= cut <= |p|
    ensures p[7..][cut - 7..] == p[cut..]
    ensures p[..cut] + tail == p[..7] + (p[7..][..cut - 7] + tail)
  {
    assert p[..cut] == p[..7] + p[7..][..cut - 7];
  }

  lemma {:induction false} AsWrittenSplits(p: seq<byte>)
    ensures DecodeAsWritten(Frame(p)) == Rebuilt(p)
  {
    if |p| < 7 {
      AsWrittenShort(p);
    } else {
      calc {
        DecodeAsWritten(Frame(p));
      ==  { AsWrittenStep(p); }
        p[..7] + DecodeAsWritten(Frame(p[7..]));
      ==  { AsWrittenSplits(p[7..]); }
        p[..7] + Rebuilt(p[7..]);
      ==  { RebuiltStep(p); }
        Rebuilt(p);
      }
    }
  }

  lemma AsWrittenShort(p: seq<byte>)
    requires |p| < 7
    ensures DecodeAsWritten(Frame(p)) == Rebuilt(p)
  {
    if p != [] {
      assert Frame(p)[..8] == Pack(p) + MARKER[..7 - |p|];
      assert Whole(|p|) == 0 && p[0..] == p && p[..0] == [];
    }
  }

  lemma AsWrittenStep(p: seq<byte>)
    requires |p| >= 7
    ensures DecodeAsWritten(Frame(p)) == p[..7] + DecodeAsWritten(Frame(p[7..]))
  {
    FrameStep(p);
    var rest := Frame(p[7..]);
    DecodeStep(Pack(p[..7]), rest, |rest| - 10, |rest|);
    UnpackPack(p[..7]);
  }

  /** The top bit that the marker forces on byte j of an r-byte last group. */
  ghost predicate MarkerSetsTop(r: nat, j: nat)
    requires 0 < r < 7 && j < 7
  {
    Bit(MARKER[6 - r] - 32, 6 - j) == 1
  }

  /** The seven bits at place j of the window over a short last group: the payload's, then
      those of its carry byte, then those of the marker. */
  ghost function WindowBits(tail: seq<byte>, j: nat): (v: int)
    requires 0 < |tail| < 7 && j < 7
  {
    if j < |tail| then tail[j] % 128
    else if j == |tail| then Carry(tail, |tail|)
    else MARKER[j - |tail| - 1] - 32
  }

  lemma RejoinTop(v: nat, a: int, j: nat)
    requires v < 128 && j < 7
    ensures Rejoin(v, a, j) == v + if Bit(a, 6 - j) == 1 then 128 else 0
  {
  }

  lemma WindowRead(tail: seq<byte>, j: nat)
    requires 0 < |tail| < 7 && j < 7
    ensures var w := Pack(tail) + MARKER[..7 - |tail|];
            && 0 <= Unshift(w[j]) == WindowBits(tail, j) < 128
            && Unshift(w[7]) == MARKER[6 - |tail|] - 32
  {
    var w := Pack(tail) + MARKER[..7 - |tail|];
    CarryBits(tail, |tail|, 0);
    if j < |tail| {
      assert w[j] == Shift(tail[j] % 128);
    } else if j == |tail| {
      assert w[j] == Shift(Carry(tail, |tail|));
    } else {
      assert w[j] == MARKER[j - |tail| - 1];
    }
    assert w[7] == MARKER[6 - |tail|];
  }

  lemma SpoiledBytes(tail: seq<byte>, j: nat)
    requires 0 < |tail| < 7 && j < 7
    ensures Spoiled(tail)[j] == WindowBits(tail, j) + if MarkerSetsTop(|tail|, j) then 128 else 0
  {
    WindowRead(tail, j);
    RejoinTop(WindowBits(tail, j), MARKER[6 - |tail|] - 32, j);
  }

  /** The bytes that come back behind the whole groups, for a payload with a short last group. */
  ghost predicate TailReceived(p: seq<byte>, out: seq<byte>)
    requires |p| % 7 != 0
  {
    var cut := Whole(|p|);
    && |out| == cut + 7
    && forall j :: cut <= j < cut + 7 ==>
         out[j] == WindowBits(p[cut..], j - cut) + if MarkerSetsTop(|p| - cut, j - cut) then 128 else 0
  }

  lemma RebuiltTail(p: seq<byte>)
    requires |p| % 7 != 0
    ensures TailReceived(p, Rebuilt(p))
  {
    var cut := Whole(|p|);
    var out, tail, spoiled := Rebuilt(p), p[cut..], Spoiled(p[cut..]);
    assert |p[..cut]| == cut && out == p[..cut] + spoiled;
    forall j | cut <= j < cut + 7
      ensures out[j] == WindowBits(tail, j - cut) + if MarkerSetsTop(|p| - cut, j - cut) then 128 else 0
    {
      SpoiledBytes(tail, j - cut);
      assert out[j] == spoiled[j - cut];
    }
  }

  /** The link as written, for every payload: how many bytes come back, which are
      exact, and the value of every other one. */
  lemma ReceivedImage(p: seq<byte>)
    ensures var out, cut := DecodeAsWritten(Frame(p)), Whole(|p|);
            && |out| == (if cut == |p| then cut else cut + 7)
            && out[..cut] == p[..cut]
            && (cut < |p| ==> TailReceived(p, out))
  {
    AsWrittenSplits(p);
    if |p| % 7 != 0 {
      RebuiltTail(p);
    }
  }

  /** The link is the identity exactly on whole groups; taking the group length
      without the marker makes it the identity on every payload. */
  lemma RoundTrip(p: seq<byte>)
    ensures DecodeAsWritten(Frame(p)) == p <==> |p| % 7 == 0
    ensures DecodeTrimmed(Frame(p)) == p
  {
    ReceivedImage(p);
    if |p| % 7 == 0 {
      assert p[..|p|] == p;
      assert DecodeAsWritten(Frame(p))[..|p|] == DecodeAsWritten(Frame(p));
    }
    RoundTripTrimmed(p, MARKER);
  }

  /** The top bits of the last group happen to be those that the marker sets. */
  ghost predicate SpellsMarker(p: seq<byte>) {
    forall j :: Whole(|p|) <= j < |p| ==> (p[j] >= 128 <==> MarkerSetsTop(|p| - Whole(|p|), j - Whole(|p|)))
  }

  lemma TailByteExact(p: seq<byte>, out: seq<byte>, j: nat)
    requires |p| % 7 != 0 && TailReceived(p, out) && Whole(|p|) <= j < |p|
    ensures out[j] == p[j] <==> (p[j] >= 128 <==> MarkerSetsTop(|p| - Whole(|p|), j - Whole(|p|)))
  {
    assert p[Whole(|p|)..][j - Whole(|p|)] == p[j];
  }

  /** Cutting the surplus off does not repair it: the first |p| bytes are right
      exactly when the last group's top bits happen to spell the marker. */
  lemma PrefixExact(p: seq<byte>)
    ensures p <= DecodeAsWritten(Frame(p)) <==> SpellsMarker(p)
  {
    ReceivedImage(p);
    var out, cut := DecodeAsWritten(Frame(p)), Whole(|p|);
    forall j | 0 <= j < |p|
      ensures out[j] == p[j] <==> j < cut || (p[j] >= 128 <==> MarkerSetsTop(|p| - cut, j - cut))
    {
      if j < cut {
        assert out[..cut][j] == p[..cut][j];
      } else {
        TailByteExact(p, out, j);
      }
    }
  }

  // ---------------------------------------------------------------- framing

  predicate Printable(b: byte) {
    32 <= b <= 126 || 160 <= b <= 192
  }

  lemma {:induction false} BodyIsPrintable(p: seq<byte>, i: nat)
    requires i < |Body(p)|
    ensures Printable(Body(p)[i])
  {
    if |p| > 7 && i >= 8 {
      BodyIsPrintable(p[7..], i - 8);
    } else {
      var g := if |p| <= 7 then p else p[..7];
      CarryBits(g, |g|, 0);
    }
  }

  predicate EndsWithMarker(got: seq<byte>) {
    |got| >= 10 && got[|got| - 10..] == MARKER
  }

  /** The only zero byte of a frame is its last one. */
  lemma ZeroIsLast(p: seq<byte>, i: nat)
    requires i < |Frame(p)|
    ensures Frame(p)[i] == 0 <==> i == |Frame(p)| - 1
  {
    if i < |Body(p)| {
      BodyIsPrintable(p, i);
    } else {
      assert Frame(p)[i] == MARKER[i - |Body(p)|];
    }
  }

  /** A prefix of a frame ends with the marker only when it is the whole frame. */
  lemma OnlyWholeFrameEnds(p: seq<byte>, got: seq<byte>)
    requires got <= Frame(p)
    ensures EndsWithMarker(got) <==> got == Frame(p)
  {
    if EndsWithMarker(got) && |got| < |Frame(p)| {
      assert got[|got| - 1] == got[|got| - 10..][9] == 0;
      ZeroIsLast(p, |got| - 1);
    }
    if got == Frame(p) {
      assert got[|got| - 10..] == MARKER;
    }
  }

  datatype Outcome =
    | Complete(bytes: seq<byte>)   // the loop broke with these bytes in the buffer
    | Waiting(bytes: seq<byte>)    // no more reads so far
    | OutOfRange                   // isEnd indexed below zero
    | Overrun                      // the read did not fit the buffer

  /** The receive loop over the blocks that successive reads return. */
  ghost function Received(cap: nat, got: seq<byte>, blocks: seq<seq<byte>>): (o: Outcome)
    decreases |blocks|
  {
    if blocks == [] then Waiting(got)
    else
      var now := got + blocks[0];
      if |now| > cap then Overrun
      else if |now| < 10 then OutOfRange
      else if EndsWithMarker(now) then Complete(now)
      else Received(cap, now, blocks[1..])
  }

  lemma ReceivedStep(cap: nat, got: seq<byte>, blocks: seq<seq<byte>>, n: nat)
    requires n < |blocks|
    ensures var now := got + blocks[n];
            Received(cap, got, blocks[n..]) ==
            if |now| > cap then Overrun
            else if |now| < 10 then OutOfRange
            else if EndsWithMarker(now) then Complete(now)
            else Received(cap, now, blocks[n + 1..])
  {
    assert blocks[n..][1..] == blocks[n + 1..];
  }

  lemma {:induction false} ReceivedPrefix(cap: nat, got: seq<byte>, blocks: seq<seq<byte>>, p: seq<byte>)
    requires got + Concat(blocks) <= Frame(p) && |Frame(p)| <= cap
    requires got != Frame(p) && (|got| >= 10 || (blocks != [] && |got + blocks[0]| >= 10))
    ensures Received(cap, got, blocks) ==
            if got + Concat(blocks) == Frame(p) then Complete(Frame(p)) else Waiting(got + Concat(blocks))
    decreases |blocks|
  {
    if blocks == [] {
      assert got + Concat(blocks) == got;
    } else {
      var now := got + blocks[0];
      assert got + Concat(blocks) == now + Concat(blocks[1..]);
      OnlyWholeFrameEnds(p, now);
      if now == Frame(p) {
        assert Concat(blocks[1..]) == [];
      } else {
        ReceivedPrefix(cap, now, blocks[1..], p);
      }
    }
  }

  /** However a frame is cut into reads, the loop stops at its last byte and not
      before; it fails exactly when the first read brings fewer than ten bytes. */
  lemma Framing(cap: nat, blocks: seq<seq<byte>>, p: seq<byte>)
    requires blocks != [] && Concat(blocks) <= Frame(p) && |Frame(p)| <= cap
    ensures Received(cap, [], blocks) ==
            if |blocks[0]| < 10 then OutOfRange
            else if Concat(blocks) == Frame(p) then Complete(Frame(p))
            else Waiting(Concat(blocks))
  {
    assert [] + blocks[0] == blocks[0];
    assert [] + Concat(blocks) == Concat(blocks);
    if |blocks[0]| >= 10 {
      ReceivedPrefix(cap, [], blocks, p);
    }
  }

  /** A frame that is longer than the buffer overruns it. */
  lemma {:induction false} Overlong(cap: nat, got: seq<byte>, blocks: seq<seq<byte>>, p: seq<byte>)
    requires got + Concat(blocks) == Frame(p) && |got| <= cap < |Frame(p)|
    requires blocks != [] && |got + blocks[0]| >= 10
    ensures Received(cap, got, blocks) == Overrun
    decreases |blocks|
  {
    var now := got + blocks[0];
    assert got + Concat(blocks) == now + Concat(blocks[1..]);
    if |now| <= cap {
      OnlyWholeFrameEnds(p, now);
      assert |now + Concat(blocks[1..])| > |now|;
      Overlong(cap, now, blocks[1..], p);
    }
  }

  /** The whole link, for every payload, buffer and way the frame is cut into reads: the image
      arrives unharmed exactly when the first read brings ten bytes or more, the frame fits the
      buffer and the payload is made of whole groups. */
  lemma EndToEnd(cap: nat, blocks: seq<seq<byte>>, p: seq<byte>)
    requires blocks != [] && Concat(blocks) == Frame(p)
    ensures Received(cap, [], blocks) == Complete(Frame(p)) && DecodeAsWritten(Frame(p)) == p <==>
            |blocks[0]| >= 10 && |p| + (|p| + 6) / 7 + 10 <= cap && |p| % 7 == 0
  {
    BodyLength(p);
    RoundTrip(p);
    assert [] + blocks[0] == blocks[0] && [] + Concat(blocks) == Concat(blocks);
    if |Frame(p)| <= cap {
      Framing(cap, blocks, p);
    } else if |blocks[0]| >= 10 {
      Overlong(cap, [], blocks, p);
    }
  }

  // ----------------------------------------------------- the imperative code

  const YUVSIZE := 320 * 240 * 2

  /** The image part of a capture, empty when the capture holds no image. */
  ghost function Payload(mem: seq<byte>, usedLen: int): (p: seq<byte>)
    requires usedLen <= |mem|
  {
    if usedLen <= YUVSIZE then [] else mem[YUVSIZE..usedLen]
  }

  /** The image is what lies behind the first 153600 bytes of a capture. */
  lemma ImagePart(mem: seq<byte>, usedLen: int, k: nat)
    requires usedLen <= |mem|
    ensures |Payload(mem, usedLen)| == if usedLen <= 153600 then 0 else usedLen - 153600
    ensures k + 153600 < usedLen ==> Payload(mem, usedLen)[k] == mem[153600 + k]
  {
  }

  /** Without an image the board writes the text EndOfFile and a NUL. */
  lemma EmptyCapture(mem: seq<byte>, usedLen: int)
    requires usedLen <= |mem| && usedLen <= 153600
    ensures var w, text := Frame(Payload(mem, usedLen)), "EndOfFile\0";
            |w| == |text| == 10 && forall k :: 0 <= k < 10 ==> w[k] == text[k] as int
  {
    assert Frame([]) == MARKER;
    forall k | 0 <= k < 10 ensures MARKER[k] == "EndOfFile\0"[k] as int {
      MarkerSpelled(k);
    }
  }

  lemma MarkerSpelled(k: nat)
    requires k < 10
    ensures MARKER[k] == "EndOfFile\0"[k] as int
  {
  }

  /** The payload bytes still to be sent after i groups. */
  ghost function Unsent(p: seq<byte>, i: nat): (s: seq<byte>) {
    p[Min(i * 7, |p|)..]
  }

  lemma SendStep(p: seq<byte>, i: nat)
    requires i * 7 < |p|
    ensures Body(Unsent(p, i)) == Pack(p[i * 7..Min(i * 7 + 7, |p|)]) + Body(Unsent(p, i + 1))
  {
    var rest := Unsent(p, i);
    var hi := Min(i * 7 + 7, |p|);
    assert rest[..hi - i * 7] == p[i * 7..hi];
    assert rest[hi - i * 7..] == Unsent(p, i + 1);
    if |rest| >= 7 {
      BodyStep(rest);
    } else {
      assert p[i * 7..hi] == rest;
    }
  }

  lemma SentMore(p: seq<byte>, i: nat, wire: seq<byte>, sent: seq<byte>)
    requires i * 7 < |p| && sent == Pack(p[i * 7..Min(i * 7 + 7, |p|)])
    ensures wire + Body(Unsent(p, i)) == (wire + sent) + Body(Unsent(p, i + 1))
  {
    SendStep(p, i);
    ghost var rest := Body(Unsent(p, i + 1));
    assert wire + (sent + rest) == (wire + sent) + rest;
  }

  lemma PayloadSlice(mem: seq<byte>, usedLen: int, lo: nat, hi: nat)
    requires usedLen <= |mem| && lo <= hi <= usedLen - YUVSIZE
    ensures |Payload(mem, usedLen)| == usedLen - YUVSIZE || hi == 0
    ensures hi > 0 ==> Payload(mem, usedLen)[lo..hi] == mem[YUVSIZE + lo..YUVSIZE + hi]
  {
    if hi > 0 {
      SliceSlice(mem, YUVSIZE, usedLen, lo, hi);
    }
  }

  /** The inner loop: fills wbuf with the wSize - 1 bytes at `at` and their carry. */
  method FillGroup(mem: seq<byte>, at: nat, wbuf: array<byte>, wSize: nat)
    requires 1 < wSize <= 8 == wbuf.Length && at + wSize - 1 <= |mem|
    modifies wbuf
    ensures wbuf[..wSize] == Pack(mem[at..at + wSize - 1])
  {
    ghost var g := mem[at..at + wSize - 1];
    var append := 0;
    var j := 0;
    while j < wSize - 1
      invariant 0 <= j <= wSize - 1
      invariant append == Carry(g, j)
      invariant forall i :: 0 <= i < j ==> wbuf[i] == Shift(g[i] % 128)
    {
      assert g[j] == mem[at + j];
      wbuf[j] := Shift(mem[at + j] % 128);
      if mem[at + j] >= 128 {
        append := OrBit(append, 6 - j);
      }
      j := j + 1;
    }
    CarryBits(g, |g|, 0);
    wbuf[wSize - 1] := Shift(append);
  }

  /** One pass of the outer loop: the bytes handed to write for group i. */
  method SendGroup(mem: seq<byte>, usedLen: int, i: nat) returns (sent: seq<byte>)
    requires usedLen <= |mem| && i * 7 < usedLen - YUVSIZE
    ensures sent == Pack(Payload(mem, usedLen)[i * 7..Min(i * 7 + 7, usedLen - YUVSIZE)])
  {
    var wSize := usedLen - YUVSIZE - i * 7;
    if wSize > 7 {
      wSize := 7;
    }
    wSize := wSize + 1;
    var wbuf := new byte[8](_ => 0);
    FillGroup(mem, YUVSIZE + i * 7, wbuf, wSize);
    PayloadSlice(mem, usedLen, i * 7, i * 7 + wSize - 1);
    sent := wbuf[..wSize];
  }

  /** The "camera" command of the board: everything written to the port. */
  method SendImage(mem: seq<byte>, usedLen: int) returns (wire: seq<byte>)
    requires usedLen <= |mem|
    ensures wire == Frame(Payload(mem, usedLen))
  {
    var jpgLen := usedLen - YUVSIZE;
    ghost var p := Payload(mem, usedLen);
    wire := [];
    var i := 0;
    assert Unsent(p, 0) == p;
    while i * 7 < jpgLen
      invariant 0 <= i
      invariant Body(p) == wire + Body(Unsent(p, i))
    {
      var sent := SendGroup(mem, usedLen, i);
      SentMore(p, i, wire, sent);
      wire := wire + sent;
      i := i + 1;
    }
    assert Unsent(p, i) == [];
    wire := wire + MARKER;
  }

  /** What the decode loop still has to append when it has done i groups. */
  ghost function DecodeFrom(w: seq<byte>, i: nat): (rest: seq<byte>)
    requires |w| >= 10
  {
    if i * 8 < |w| - 10 then Decode(w[i * 8..], |w| - 10 - i * 8, |w| - i * 8) else []
  }

  lemma DecodeFromStart(w: seq<byte>)
    requires |w| >= 10
    ensures DecodeFrom(w, 0) == DecodeAsWritten(w)
  {
    assert w[0..] == w;
  }

  lemma DecodeFromStep(w: seq<byte>, i: nat)
    requires i * 8 < |w| - 10
    ensures DecodeFrom(w, i) == Unpack(w[i * 8..Min(i * 8 + 8, |w|)]) + DecodeFrom(w, i + 1)
  {
    var rest := w[i * 8..];
    assert rest[..8] == w[i * 8..Min(i * 8 + 8, |w|)];
    assert |rest| - 10 > 8 ==> rest[8..] == w[(i + 1) * 8..];
  }

  lemma DecodedMore(w: seq<byte>, i: nat, res: seq<byte>, group: seq<byte>)
    requires i * 8 < |w| - 10 && group == Unpack(w[i * 8..Min(i * 8 + 8, |w|)])
    ensures res + DecodeFrom(w, i) == (res + group) + DecodeFrom(w, i + 1)
  {
    DecodeFromStep(w, i);
    assert res + (group + DecodeFrom(w, i + 1)) == (res + group) + DecodeFrom(w, i + 1);
  }

  /** The receiving side: m_buffer is written by the reads and decoded in place. */
  class WebServer {
    const buffer: array<byte>

    constructor ()
      ensures buffer.Length == 1024 * 1024 && fresh(buffer)
    {
      buffer := new byte[1024 * 1024](_ => 0);
    }

    /** inRange is false where the original raises the exception for a negative index. */
    method IsEnd(size: nat) returns (inRange: bool, end: bool)
      requires size <= buffer.Length
      ensures inRange <==> size >= 10
      ensures inRange ==> (end <==> EndsWithMarker(buffer[..size]))
    {
      inRange, end := size >= 10, false;
      if !inRange {
        return;
      }
      ghost var tail := buffer[..size][size - 10..];
      for i := 0 to 10
        invariant forall k :: 0 <= k < i ==> tail[k] == MARKER[k]
      {
        assert tail[i] == buffer[size - 10 + i];
        if buffer[size - 10 + i] != MARKER[i] {
          return;
        }
      }
      end := true;
    }

    /** port.Read(m_buffer, size, count) for a block that fits. */
    method Read(size: nat, block: seq<byte>)
      requires size + |block| <= buffer.Length
      modifies buffer
      ensures buffer[..size + |block|] == old(buffer[..size]) + block
    {
      for i := 0 to |block|
        invariant buffer[..size] == old(buffer[..size])
        invariant forall k :: 0 <= k < i ==> buffer[size + k] == block[k]
      {
        buffer[size + i] := block[i];
      }
    }

    /** The body of the receive loop for a block that fits. */
    method ReadAndTest(size: nat, block: seq<byte>, ghost got: seq<byte>) returns (inRange: bool, end: bool)
      requires size + |block| <= buffer.Length && got == buffer[..size]
      modifies buffer
      ensures buffer[..size + |block|] == got + block
      ensures inRange <==> |got + block| >= 10
      ensures inRange ==> (end <==> EndsWithMarker(got + block))
    {
      Read(size, block);
      inRange, end := IsEnd(size + |block|);
    }

    method Receive(blocks: seq<seq<byte>>) returns (outcome: Outcome, size: nat)
      modifies buffer
      ensures outcome == Received(buffer.Length, [], blocks)
      ensures outcome.Complete? || outcome.Waiting? ==> size <= buffer.Length && buffer[..size] == outcome.bytes
    {
      size := 0;
      var n := 0;
      ghost var got: seq<byte> := [];
      ghost var goal := Received(buffer.Length, [], blocks);
      assert blocks[0..] == blocks;
      while n < |blocks|
        invariant n <= |blocks| && size == |got| <= buffer.Length
        invariant got == buffer[..size]
        invariant goal == Received(buffer.Length, got, blocks[n..])
      {
        ReceivedStep(buffer.Length, got, blocks, n);
        if size + |blocks[n]| > buffer.Length {
          return Overrun, size;
        }
        var inRange, end := ReadAndTest(size, blocks[n], got);
        got := got + blocks[n];
        size := size + |blocks[n]|;
        n := n + 1;
        if !inRange {
          return OutOfRange, size;
        }
        if end {
          return Complete(buffer[..size]), size;
        }
      }
      outcome := Waiting(buffer[..size]);
    }

    /** The inner decode loop, over the len bytes of the group that starts at `at`. */
    method DecodeGroup(at: nat, len: nat, ghost w: seq<byte>) returns (res: seq<byte>)
      requires 1 <= len <= 8 && at + len <= |w| <= buffer.Length && w == buffer[..|w|]
      ensures res == Unpack(w[at..at + len])
    {
      ghost var group := w[at..at + len];
      var aByte := Unshift(buffer[at + len - 1]);
      res := [];
      for j := 0 to len - 1
        invariant |res| == j
        invariant forall k :: 0 <= k < j ==> res[k] == Unpack(group)[k]
      {
        var dByte := Unshift(buffer[at + j]);
        res := res + [Rejoin(dByte, aByte, j)];
      }
    }

    method DecodeBuffer(size: nat) returns (res: seq<byte>)
      requires 10 <= size <= buffer.Length
      ensures res == DecodeAsWritten(buffer[..size])
    {
      ghost var w := buffer[..size];
      ghost var goal := DecodeAsWritten(w);
      res := [];
      var i := 0;
      DecodeFromStart(w);
      while i * 8 < size - 10
        invariant 0 <= i
        invariant goal == res + DecodeFrom(w, i)
      {
        var len := size - i * 8;
        if len > 8 {
          len := 8;
        }
        var group := DecodeGroup(8 * i, len, w);
        DecodedMore(w, i, res, group);
        res := res + group;
        i := i + 1;
      }
    }
  }
}
