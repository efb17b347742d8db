/** The SDK's ring buffer between one producer and one consumer (CMN_SimpleFifo.c).
    One cell always stays free, so equal pointers mean empty. */
module SimpleFifo {
  import opened Bytes

  // ------------------------------------------------------------ index arithmetic

  function Occupied(n: nat, wp: nat, rp: nat): (o: nat)
    requires wp < n && rp < n
  {
    if wp == rp then 0 else if wp < rp then wp + n - rp else wp - rp
  }

  function Vacant(n: nat, wp: nat, rp: nat): (v: nat)
    requires wp < n && rp < n
  {
    if wp == rp then n - 1 else if wp < rp then rp - wp - 1 else n - (wp - rp) - 1
  }

  function Wrap(n: nat, i: nat): (r: nat)
    requires i < 2 * n
    ensures r < n
  {
    if i < n then i else i - n
  }

  /** The write pointer that Offer stores for sz bytes, region by region. */
  function NewWp(n: nat, wp: nat, rp: nat, sz: nat): (r: int)
    requires wp < n && rp < n
  {
    if wp < rp then wp + sz
    else
      var region1 := Min(n - wp, sz);
      if region1 < sz then sz - region1
      else if wp + region1 >= n then 0 else wp + region1
  }

  /** The read pointer that the peek behind Poll computes for sz bytes. */
  function NewRp(n: nat, wp: nat, rp: nat, sz: nat): (r: int)
    requires wp < n && rp < n
  {
    if rp <= wp then (if rp + sz >= n then 0 else rp + sz)
    else
      var region1 := Min(n - rp, sz);
      if region1 < sz then (if sz - region1 >= n then 0 else sz - region1)
      else if rp + region1 >= n then 0 else rp + region1
  }

  lemma OccupiedPlusVacant(n: nat, wp: nat, rp: nat)
    requires wp < n && rp < n
    ensures Occupied(n, wp, rp) + Vacant(n, wp, rp) == n - 1
  {
  }

  lemma NewWpWraps(n: nat, wp: nat, rp: nat, sz: nat)
    requires wp < n && rp < n && sz <= Vacant(n, wp, rp)
    ensures NewWp(n, wp, rp, sz) == Wrap(n, wp + sz)
    ensures Occupied(n, Wrap(n, wp + sz), rp) == Occupied(n, wp, rp) + sz
  {
  }

  lemma NewRpWraps(n: nat, wp: nat, rp: nat, sz: nat)
    requires wp < n && rp < n && sz <= Occupied(n, wp, rp)
    ensures NewRp(n, wp, rp, sz) == Wrap(n, rp + sz)
    ensures Occupied(n, wp, Wrap(n, rp + sz)) == Occupied(n, wp, rp) - sz
  {
  }

  // --------------------------------------------------------------- the contents

  /** The queued bytes, oldest first. */
  ghost function Contents(mem: seq<byte>, wp: nat, rp: nat): (q: seq<byte>)
    requires wp < |mem| && rp < |mem|
    ensures |q| == Occupied(|mem|, wp, rp)
  {
    seq(Occupied(|mem|, wp, rp), i requires 0 <= i < Occupied(|mem|, wp, rp) => mem[Wrap(|mem|, rp + i)])
  }

  /** buf lies in the cells from wp on. */
  ghost predicate Stored(mem: seq<byte>, wp: nat, buf: seq<byte>)
    requires wp < |mem|
  {
    |buf| < |mem| && forall i :: 0 <= i < |buf| ==> mem[Wrap(|mem|, wp + i)] == buf[i]
  }

  /** Writing ahead of the write pointer is invisible to the consumer. */
  lemma WriteAhead(mem: seq<byte>, wp: nat, rp: nat, k: nat, b: byte)
    requires wp < |mem| && rp < |mem| && k < Vacant(|mem|, wp, rp)
    ensures Contents(mem[Wrap(|mem|, wp + k) := b], wp, rp) == Contents(mem, wp, rp)
  {
    var n, mem' := |mem|, mem[Wrap(|mem|, wp + k) := b];
    forall i | 0 <= i < Occupied(n, wp, rp)
      ensures Contents(mem', wp, rp)[i] == Contents(mem, wp, rp)[i]
    {
      assert Wrap(n, rp + i) != Wrap(n, wp + k);
    }
  }

  lemma StoreNext(mem: seq<byte>, wp: nat, buf: seq<byte>, b: byte)
    requires wp < |mem| && |buf| + 1 < |mem| && Stored(mem, wp, buf)
    ensures Stored(mem[Wrap(|mem|, wp + |buf|) := b], wp, buf + [b])
  {
  }

  /** Moving the write pointer queues what was stored behind it. */
  lemma Publish(mem: seq<byte>, wp: nat, rp: nat, buf: seq<byte>)
    requires wp < |mem| && rp < |mem| && |buf| <= Vacant(|mem|, wp, rp) && Stored(mem, wp, buf)
    ensures Contents(mem, Wrap(|mem|, wp + |buf|), rp) == Contents(mem, wp, rp) + buf
  {
    var n := |mem|;
    var wp' := Wrap(n, wp + |buf|);
    NewWpWraps(n, wp, rp, |buf|);
    forall i | 0 <= i < Occupied(n, wp', rp)
      ensures Contents(mem, wp', rp)[i] == (Contents(mem, wp, rp) + buf)[i]
    {
      var o := Occupied(n, wp, rp);
      if i >= o {
        assert Wrap(n, rp + i) == Wrap(n, wp + (i - o));
      }
    }
  }

  /** Moving the read pointer removes the oldest bytes. */
  lemma Release(mem: seq<byte>, wp: nat, rp: nat, sz: nat)
    requires wp < |mem| && rp < |mem| && sz <= Occupied(|mem|, wp, rp)
    ensures Contents(mem, wp, Wrap(|mem|, rp + sz)) == Contents(mem, wp, rp)[sz..]
  {
    var n := |mem|;
    NewRpWraps(n, wp, rp, sz);
    var q, q' := Contents(mem, wp, rp), Contents(mem, wp, Wrap(n, rp + sz));
    forall i | 0 <= i < |q'|
      ensures q'[i] == q[sz..][i]
    {
      assert Wrap(n, Wrap(n, rp + sz) + i) == Wrap(n, rp + (sz + i));
    }
  }

  // ----------------------------------------------------------- the imperative code

  class Fifo {
    const buf: array<byte>
    var wp: nat
    var rp: nat

    ghost predicate Valid()
      reads this
    {
      wp < buf.Length && rp < buf.Length
    }

    ghost function Queue(): (q: seq<byte>)
      requires Valid()
      reads this, buf
    {
      Contents(buf[..], wp, rp)
    }

    constructor (area: array<byte>)
      requires area.Length > 1
      ensures Valid() && buf == area && Queue() == []
    {
      buf := area;
      wp, rp := 0, 0;
    }

    /** copierFunc(&m_pBuf[at], src, len) */
    method CopyIn(at: nat, src: seq<byte>)
      requires at + |src| <= buf.Length
      modifies buf
      ensures forall k :: 0 <= k < buf.Length ==> buf[k] == if at <= k < at + |src| then src[k - at] else old(buf[k])
    {
      for i := 0 to |src|
        invariant forall k :: 0 <= k < buf.Length ==> buf[k] == if at <= k < at + i then src[k - at] else old(buf[k])
      {
        buf[at + i] := src[i];
      }
    }

    method Offer(element: seq<byte>) returns (n: nat)
      requires Valid()
      modifies this`wp, buf
      ensures Valid()
      ensures if |element| <= old(Vacant(buf.Length, wp, rp))
              then n == |element| && Queue() == old(Queue()) + element
              else n == 0 && Queue() == old(Queue())
    {
      var sz := |element|;
      if Vacant(buf.Length, wp, rp) < sz {
        return 0;
      }
      ghost var mem := buf[..];
      if wp < rp {
        CopyIn(wp, element);
      } else {
        var region1 := Min(buf.Length - wp, sz);
        CopyIn(wp, element[..region1]);
        if region1 < sz {
          CopyIn(0, element[region1..]);
        }
      }
      OfferStores(mem, buf[..], wp, rp, element);
      NewWpWraps(buf.Length, wp, rp, sz);
      Publish(buf[..], wp, rp, element);
      wp := NewWp(buf.Length, wp, rp, sz);
      n := sz;
    }

    method Poll(sz: nat) returns (data: seq<byte>)
      requires Valid()
      modifies this`rp
      ensures Valid()
      ensures if sz <= |old(Queue())|
              then data == old(Queue())[..sz] && Queue() == old(Queue())[sz..]
              else data == [] && Queue() == old(Queue())
    {
      if Occupied(buf.Length, wp, rp) < sz {
        return [];
      }
      if rp <= wp {
        data := buf[rp..rp + sz];
      } else {
        var region1 := Min(buf.Length - rp, sz);
        data := buf[rp..rp + region1] + buf[..sz - region1];
      }
      forall i | 0 <= i < sz
        ensures data[i] == Queue()[i]
      {
        assert Queue()[i] == buf[..][Wrap(buf.Length, rp + i)];
      }
      assert data == Queue()[..sz];
      NewRpWraps(buf.Length, wp, rp, sz);
      Release(buf[..], wp, rp, sz);
      rp := NewRp(buf.Length, wp, rp, sz);
    }
  }

  /** The two copied regions are the cells from wp on, and leave the queue alone. */
  lemma OfferStores(mem: seq<byte>, mem': seq<byte>, wp: nat, rp: nat, e: seq<byte>)
    requires |mem'| == |mem| && wp < |mem| && rp < |mem| && |e| <= Vacant(|mem|, wp, rp)
    requires forall k :: 0 <= k < |mem| ==>
               mem'[k] == if wp <= k < wp + |e| then e[k - wp]
                          else if k + |mem| < wp + |e| then e[k + |mem| - wp]
                          else mem[k]
    ensures Stored(mem', wp, e)
    ensures Contents(mem', wp, rp) == Contents(mem, wp, rp)
  {
    forall i | 0 <= i < Occupied(|mem|, wp, rp)
      ensures Contents(mem', wp, rp)[i] == Contents(mem, wp, rp)[i]
    {
      assert mem'[Wrap(|mem|, rp + i)] == mem[Wrap(|mem|, rp + i)];
    }
  }
}
