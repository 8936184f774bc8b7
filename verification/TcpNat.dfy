/** One TCP flow of the NAT bridge (netstack.c): the stack terminates the guest's connection and
    carries its bytes to a host socket and back through two bounded buffers.

    The ghost fields say what the flow is about: the stream the guest sends, the stream the host
    sends, and how far each has been carried.  Sequence numbers are 32-bit; the ghost counters are
    their unwrapped values. */
module TcpNat {
  import opened Basics

  type Seq32 = x: int | 0 <= x < 0x1_0000_0000

  const Buf: nat := 32768
  const Mss: nat := 1460

  function Wrap(x: int): Seq32 { x % P32 }
  function One(b: bool): nat { if b then 1 else 0 }

  datatype State = Free | Connecting | SynRcvd | Estab

  datatype Segment = Segment(seqno: Seq32, ackno: Seq32, syn: bool, fin: bool, rst: bool, ack: bool, wnd: nat, payload: seq<Byte>)

  /** A segment sent to the guest. */
  datatype Out = Out(seqno: Seq32, ackno: Seq32, syn: bool, fin: bool, rst: bool, window: int, payload: seq<Byte>)

  // ---- Guest to host ----------------------------------------------------------------------

  /** The accepted prefix of the guest's stream is what the host has taken followed by what is
      buffered; the host's send side is shut down once, after the guest's FIN and the last byte. */
  ghost predicate GuestSide(isn: Seq32, stream: seq<Byte>, rcvd: nat, rcvNxt: Seq32, g2h: seq<Byte>, toHost: seq<Byte>,
                            guestFin: bool, pending: bool, shutdowns: nat) {
    && |g2h| <= Buf && rcvd <= |stream| && toHost + g2h == stream[..rcvd]
    && rcvNxt == Wrap(isn + 1 + rcvd + One(guestFin))
    && (guestFin ==> rcvd == |stream|) && (pending ==> guestFin)
    && shutdowns == One(guestFin && !pending)
  }

  /** The segment is the slice of the stream at offset o, and its FIN, if any, ends the stream. */
  ghost predicate IsSlice(isn: Seq32, stream: seq<Byte>, seg: Segment, o: nat) {
    && o + |seg.payload| <= |stream| && seg.payload == stream[o..o + |seg.payload|]
    && seg.seqno == Wrap(isn + 1 + o)
    && (seg.fin ==> o + |seg.payload| == |stream|)
  }

  /** Within 2^32 of the accepted prefix, so that equality of 32-bit numbers is equality. */
  predicate Near(rcvd: nat, seg: Segment, o: nat) { rcvd < o + P32 && o + |seg.payload| < rcvd + P32 }

  lemma WrapEqual(isn: Seq32, a: nat, b: nat)
    requires a < b + P32 && b < a + P32
    ensures Wrap(isn + 1 + a) == Wrap(isn + 1 + b) <==> a == b
  {
  }

  /** What the 32-bit comparison decides for segments at any distance: a segment passes for the next
      one exactly when it is a multiple of 2^32 away from it. */
  lemma SequenceAlias(isn: Seq32, a: nat, b: nat)
    ensures Wrap(isn + 1 + a) == Wrap(isn + 1 + b) <==> (a - b) % P32 == 0
  {
  }

  /** A stream of a one and then 2^32 twos, of which nothing has been accepted: the segment with its last
      byte carries the number of its first, and another byte. */
  lemma AliasAt(isn: Seq32)
    ensures var stream := seq(P32 + 1, k => if k == 0 then 1 else 2);
      var seg := Segment(Wrap(isn + 1 + P32), 0, false, false, false, true, 0, [2]);
      IsSlice(isn, stream, seg, P32) && seg.seqno == Wrap(isn + 1 + 0) && seg.payload != stream[0..1]
  {
    var stream := seq(P32 + 1, k => if k == 0 then 1 else 2);
    SequenceAlias(isn, P32, 0);
    assert stream[P32..P32 + 1] == [2];
    assert stream[0..1][0] == 1;
  }

  lemma WrapPlus(x: int, n: int)
    ensures Wrap(Wrap(x) + n) == Wrap(x + n)
  {
  }

  /** An in-order segment extends the accepted prefix by what fits. */
  lemma TakeData(isn: Seq32, stream: seq<Byte>, rcvd: nat, rcvNxt: Seq32, g2h: seq<Byte>, toHost: seq<Byte>, pending: bool,
                 shutdowns: nat, seg: Segment, o: nat, take: nat)
    requires GuestSide(isn, stream, rcvd, rcvNxt, g2h, toHost, false, pending, shutdowns) && IsSlice(isn, stream, seg, o) && Near(rcvd, seg, o)
    requires seg.seqno == rcvNxt && take <= |seg.payload| && take <= Buf - |g2h|
    ensures o == rcvd
    ensures GuestSide(isn, stream, rcvd + take, Wrap(rcvNxt + take), g2h + seg.payload[..take], toHost, false, pending, shutdowns)
  {
    WrapEqual(isn, o, rcvd);
    WrapPlus(isn + 1 + rcvd, take);
    assert seg.payload[..take] == stream[o..o + |seg.payload|][..take];
    assert stream[o..o + |seg.payload|][..take] == stream[o..o + take];
    assert stream[..rcvd + take] == stream[..rcvd] + stream[rcvd..rcvd + take];
    assert toHost + (g2h + seg.payload[..take]) == (toHost + g2h) + seg.payload[..take];
  }

  lemma TakeFin(isn: Seq32, stream: seq<Byte>, rcvd: nat, rcvNxt: Seq32, g2h: seq<Byte>, toHost: seq<Byte>, pending: bool,
                shutdowns: nat, seg: Segment, o: nat)
    requires GuestSide(isn, stream, rcvd, rcvNxt, g2h, toHost, false, pending, shutdowns)
    requires seg.fin && IsSlice(isn, stream, seg, o) && rcvd < o + |seg.payload| + P32 && o + |seg.payload| < rcvd + P32
    requires Wrap(seg.seqno + |seg.payload|) == rcvNxt
    ensures rcvd == |stream|
    ensures GuestSide(isn, stream, rcvd, Wrap(rcvNxt + 1), g2h, toHost, true, true, shutdowns)
  {
    WrapPlus(isn + 1 + o, |seg.payload|);
    WrapEqual(isn, o + |seg.payload|, rcvd);
    WrapPlus(isn + 1 + rcvd, 1);
  }

  lemma HostTakes(isn: Seq32, stream: seq<Byte>, rcvd: nat, rcvNxt: Seq32, g2h: seq<Byte>, toHost: seq<Byte>, guestFin: bool,
                  pending: bool, shutdowns: nat, n: nat)
    requires GuestSide(isn, stream, rcvd, rcvNxt, g2h, toHost, guestFin, pending, shutdowns) && n <= |g2h|
    ensures GuestSide(isn, stream, rcvd, rcvNxt, g2h[n..], toHost + g2h[..n], guestFin, pending, shutdowns)
  {
    assert (toHost + g2h[..n]) + g2h[n..] == toHost + g2h;
  }

  // ---- Host to guest ----------------------------------------------------------------------

  /** The payload bytes of what was sent, in order. */
  function Payloads(out: seq<Out>): seq<Byte> {
    if out == [] then [] else Payloads(out[..|out| - 1]) + out[|out| - 1].payload
  }

  function Fins(out: seq<Out>): nat {
    if out == [] then 0 else Fins(out[..|out| - 1]) + One(out[|out| - 1].fin)
  }

  lemma PayloadsAppend(out: seq<Out>, x: Out)
    ensures Payloads(out + [x]) == Payloads(out) + x.payload && Fins(out + [x]) == Fins(out) + One(x.fin)
  {
    assert (out + [x])[..|out|] == out;
  }

  /** A data segment or a FIN carries the stream offset it starts at; nothing follows the FIN. */
  ghost predicate Placed(isn: Seq32, before: seq<Out>, x: Out) {
    && (x.payload != [] || x.fin ==> x.seqno == Wrap(isn + 1 + |Payloads(before)|) && Fins(before) == 0)
    && (x.fin ==> x.payload == [])
  }

  ghost predicate AllPlaced(isn: Seq32, out: seq<Out>) {
    out != [] ==> AllPlaced(isn, out[..|out| - 1]) && Placed(isn, out[..|out| - 1], out[|out| - 1])
  }

  /** Everything sent is a prefix of the host's stream, cut into segments whose sequence numbers are
      their stream offsets; the rest is buffered; the FIN goes out once, at the end. */
  ghost predicate HostSide(isn: Seq32, stream: seq<Byte>, out: seq<Out>, h2g: seq<Byte>, eof: bool, finSent: bool) {
    && |h2g| <= Buf && AllPlaced(isn, out)
    && stream == Payloads(out) + h2g
    && (finSent ==> eof && h2g == []) && Fins(out) == One(finSent)
  }

  /** Any data segment sent so far carries the host's stream at the offset its sequence number
      names. */
  lemma {:induction false} SegmentCarriesStream(isn: Seq32, stream: seq<Byte>, out: seq<Out>, j: nat)
    requires AllPlaced(isn, out) && Payloads(out) <= stream && j < |out|
    ensures var o := |Payloads(out[..j])|;
      && o + |out[j].payload| <= |stream| && out[j].payload == stream[o..o + |out[j].payload|]
      && (out[j].payload != [] ==> out[j].seqno == Wrap(isn + 1 + o))
    decreases |out|
  {
    var n := |out| - 1;
    if j < n {
      assert Payloads(out[..n]) <= stream;
      SegmentCarriesStream(isn, stream, out[..n], j);
      assert out[..n][..j] == out[..j];
    } else {
      assert out[..j] == out[..n];
    }
  }

  /** The one FIN is sent at the end of the stream: every byte precedes it. */
  lemma {:induction false} FinAtEnd(isn: Seq32, out: seq<Out>, j: nat)
    requires AllPlaced(isn, out) && j < |out| && out[j].fin
    ensures Payloads(out[..j]) == Payloads(out) && out[j].seqno == Wrap(isn + 1 + |Payloads(out)|)
    ensures Fins(out[..j]) == 0 && Fins(out) == 1
    decreases |out|
  {
    var n := |out| - 1;
    if j < n {
      FinAtEnd(isn, out[..n], j);
      assert out[..n][..j] == out[..j];
    } else {
      assert out[..j] == out[..n];
    }
  }

  /** The counters: what is in flight is at most one window and the FIN. */
  ghost predicate Counters(isn: Seq32, una: nat, nxt: nat, sndUna: Seq32, sndNxt: Seq32) {
    && una <= nxt <= una + 65536
    && sndUna == Wrap(isn + una) && sndNxt == Wrap(isn + nxt)
  }

  lemma InFlight(isn: Seq32, una: nat, nxt: nat, sndUna: Seq32, sndNxt: Seq32)
    requires Counters(isn, una, nxt, sndUna, sndNxt)
    ensures Wrap(sndNxt - sndUna) == nxt - una
  {
  }

  /** Sending one more segment that carries the next bytes of the buffer, or none. */
  lemma SendData(isn: Seq32, stream: seq<Byte>, out: seq<Out>, h2g: seq<Byte>, eof: bool, finSent: bool, x: Out, n: nat)
    requires HostSide(isn, stream, out, h2g, eof, finSent) && n <= |h2g| && (n > 0 ==> !finSent)
    requires x.payload == h2g[..n] && !x.fin && (n > 0 ==> x.seqno == Wrap(isn + 1 + |Payloads(out)|))
    ensures HostSide(isn, stream, out + [x], h2g[n..], eof, finSent)
    ensures |Payloads(out + [x])| == |Payloads(out)| + n
  {
    PayloadsAppend(out, x);
    assert (out + [x])[..|out|] == out;
    assert (Payloads(out) + h2g[..n]) + h2g[n..] == stream;
  }

  lemma SendFin(isn: Seq32, stream: seq<Byte>, out: seq<Out>, x: Out)
    requires HostSide(isn, stream, out, [], true, false)
    requires x.payload == [] && x.fin && x.seqno == Wrap(isn + 1 + |Payloads(out)|)
    ensures HostSide(isn, stream, out + [x], [], true, true) && Payloads(out + [x]) == Payloads(out)
  {
    PayloadsAppend(out, x);
    assert (out + [x])[..|out|] == out;
  }

  lemma HostSends(isn: Seq32, stream: seq<Byte>, out: seq<Out>, h2g: seq<Byte>, data: seq<Byte>)
    requires HostSide(isn, stream, out, h2g, false, false) && |data| <= Buf - |h2g|
    ensures HostSide(isn, stream + data, out, h2g + data, false, false)
  {
    assert stream + data == Payloads(out) + (h2g + data);
  }

  lemma ShutDown(isn: Seq32, stream: seq<Byte>, rcvd: nat, rcvNxt: Seq32, g2h: seq<Byte>, toHost: seq<Byte>, guestFin: bool, shutdowns: nat)
    requires GuestSide(isn, stream, rcvd, rcvNxt, g2h, toHost, guestFin, true, shutdowns)
    ensures guestFin && GuestSide(isn, stream, rcvd, rcvNxt, g2h, toHost, guestFin, false, shutdowns + 1)
  {
  }

  lemma Advance(isn: Seq32, una: nat, nxt: nat, sndUna: Seq32, sndNxt: Seq32, n: nat)
    requires Counters(isn, una, nxt, sndUna, sndNxt) && nxt + n <= una + 65536
    ensures Counters(isn, una, nxt + n, sndUna, Wrap(sndNxt + n))
  {
    WrapPlus(isn + nxt, n);
  }

  /** An acknowledgement inside the window moves the unacknowledged boundary forward, whatever its
      32-bit value; one outside is ignored. */
  lemma Acknowledge(isn: Seq32, una: nat, nxt: nat, sndUna: Seq32, sndNxt: Seq32, ackno: Seq32)
    requires Counters(isn, una, nxt, sndUna, sndNxt) && Wrap(ackno - sndUna) <= Wrap(sndNxt - sndUna)
    ensures una + Wrap(ackno - sndUna) <= nxt
    ensures Counters(isn, una + Wrap(ackno - sndUna), nxt, ackno, sndNxt)
  {
    InFlight(isn, una, nxt, sndUna, sndNxt);
    WrapPlus(isn + una, Wrap(ackno - sndUna));
    WrapBack(sndUna, ackno);
  }

  lemma FirstNumber(isn: Seq32, una: nat, nxt: nat, sndUna: Seq32, sndNxt: Seq32)
    requires Counters(isn, una, nxt, sndUna, sndNxt) && nxt == 0
    ensures sndNxt == isn
  {
  }

  lemma WrapBack(x: Seq32, y: Seq32)
    ensures Wrap(x + Wrap(y - x)) == y
  {
  }

  /** The end of a segment is the end of the accepted prefix exactly when its numbers say so. */
  lemma FinInOrder(isn: Seq32, stream: seq<Byte>, rcvd: nat, rcvNxt: Seq32, g2h: seq<Byte>, toHost: seq<Byte>, pending: bool,
                   shutdowns: nat, seg: Segment, o: nat)
    requires GuestSide(isn, stream, rcvd, rcvNxt, g2h, toHost, false, pending, shutdowns) && IsSlice(isn, stream, seg, o)
    requires rcvd < o + |seg.payload| + P32 && o + |seg.payload| < rcvd + P32
    ensures Wrap(seg.seqno + |seg.payload|) == rcvNxt <==> o + |seg.payload| == rcvd
  {
    WrapPlus(isn + 1 + o, |seg.payload|);
    WrapEqual(isn, o + |seg.payload|, rcvd);
  }

  /** How many bytes of a segment are taken: what fits, if it is the next in order. */
  function Accepted(state: State, guestFin: bool, rcvd: nat, buffered: nat, seg: Segment, o: nat): int {
    if state == Estab && !guestFin && o == rcvd then Min(|seg.payload|, Buf - buffered) else 0
  }

  lemma BufferBound(isn: Seq32, stream: seq<Byte>, rcvd: nat, rcvNxt: Seq32, g2h: seq<Byte>, toHost: seq<Byte>, guestFin: bool,
                    pending: bool, shutdowns: nat)
    requires GuestSide(isn, stream, rcvd, rcvNxt, g2h, toHost, guestFin, pending, shutdowns)
    ensures |g2h| <= Buf
  {
  }

  /** Sequence equality is stream position. */
  lemma InOrder(isn: Seq32, stream: seq<Byte>, rcvd: nat, rcvNxt: Seq32, g2h: seq<Byte>, toHost: seq<Byte>, pending: bool,
                shutdowns: nat, seg: Segment, o: nat)
    requires GuestSide(isn, stream, rcvd, rcvNxt, g2h, toHost, false, pending, shutdowns) && IsSlice(isn, stream, seg, o) && Near(rcvd, seg, o)
    ensures seg.seqno == rcvNxt <==> o == rcvd
  {
    WrapEqual(isn, o, rcvd);
  }

  /** From index `from` on, every data segment ends inside the guest's window. */
  ghost predicate InWindow(out: seq<Out>, from: nat, una: nat, wnd: nat) {
    forall j :: from <= j < |out| && out[j].payload != [] ==>
      |out[j].payload| <= Mss && 1 + |Payloads(out[..j])| + |out[j].payload| <= una + wnd
  }

  /** From index `from` on, nothing carries data. */
  ghost predicate NoData(out: seq<Out>, from: nat) {
    forall j :: from <= j < |out| ==> out[j].payload == []
  }

  lemma NoDataInWindow(out: seq<Out>, from: nat, una: nat, wnd: nat)
    requires NoData(out, from)
    ensures InWindow(out, from, una, wnd)
  {
  }

  lemma NoDataThen(a: seq<Out>, b: seq<Out>, c: seq<Out>)
    requires a <= b <= c && NoData(b, |a|) && NoData(c, |b|)
    ensures NoData(c, |a|)
  {
    forall j | |a| <= j < |c| ensures c[j].payload == [] { if j < |b| { assert c[j] == b[j]; } }
  }

  lemma NoDataThenWindow(a: seq<Out>, b: seq<Out>, c: seq<Out>, una: nat, wnd: nat)
    requires a <= b <= c && NoData(b, |a|) && InWindow(c, |b|, una, wnd)
    ensures InWindow(c, |a|, una, wnd)
  {
    hide Payloads;
    forall j | |a| <= j < |c| ensures c[j].payload != [] ==> j >= |b| { if j < |b| { assert c[j] == b[j]; } }
  }

  lemma NothingNew(out: seq<Out>, una: nat, wnd: nat)
    ensures InWindow(out, |out|, una, wnd)
  {
  }

  lemma InWindowAppend(out: seq<Out>, more: seq<Out>, from: nat, una: nat, wnd: nat)
    requires InWindow(out, from, una, wnd) && |more| == |out| + 1 && more[..|out|] == out
    requires var x := more[|out|];
      x.payload != [] ==> |x.payload| <= Mss && 1 + |Payloads(out)| + |x.payload| <= una + wnd
    ensures InWindow(more, from, una, wnd)
  {
    hide Payloads;
    forall j | from <= j < |more| && more[j].payload != []
      ensures |more[j].payload| <= Mss && 1 + |Payloads(more[..j])| + |more[j].payload| <= una + wnd
    {
      if j < |out| { assert more[..j] == out[..j] && more[j] == out[j]; } else { assert more[..j] == out; }
    }
  }

  /** The counters count the SYN, the bytes sent and the FIN; data and FIN wait for the handshake. */
  ghost predicate Numbered(isn: Seq32, una: nat, nxt: nat, sndUna: Seq32, sndNxt: Seq32, state: State, out: seq<Out>,
                           finSent: bool, wnd: nat) {
    && Counters(isn, una, nxt, sndUna, sndNxt)
    && nxt == One(state != Connecting) + |Payloads(out)| + One(finSent)
    && (state != Estab ==> Payloads(out) == [] && !finSent)
    && 1 <= wnd <= 65535 && nxt <= una + 65535 + One(finSent)
  }

  lemma UnfinishedWithData(isn: Seq32, stream: seq<Byte>, out: seq<Out>, h2g: seq<Byte>, eof: bool, finSent: bool)
    requires HostSide(isn, stream, out, h2g, eof, finSent)
    ensures h2g != [] ==> !finSent
    ensures !eof ==> !finSent
  {
  }

  lemma HostEnds(isn: Seq32, stream: seq<Byte>, out: seq<Out>, h2g: seq<Byte>, eof: bool, finSent: bool)
    requires HostSide(isn, stream, out, h2g, eof, finSent)
    ensures HostSide(isn, stream, out, h2g, true, finSent)
  {
  }

  // ---- The flow ---------------------------------------------------------------------------

  datatype Ending = Open | Orderly | Aborted

  class NatFlow {
    const isn: Seq32
    const guestIsn: Seq32
    var state: State
    var guestFin: bool
    var hostEof: bool
    var finSent: bool
    var shutdownPending: bool
    var sndNxt: Seq32
    var sndUna: Seq32
    var rcvNxt: Seq32
    var guestWnd: nat
    var g2h: seq<Byte>
    var h2g: seq<Byte>
    /** What the outside has seen: segments sent to the guest, bytes and shutdowns given to the host. */
    var out: seq<Out>
    var toHost: seq<Byte>
    var shutdowns: nat

    ghost const guestStream: seq<Byte>
    ghost var hostStream: seq<Byte>
    ghost var rcvd: nat
    ghost var una: nat
    ghost var nxt: nat
    ghost var ending: Ending

    ghost predicate Live()
      reads this
    {
      && GuestSide(guestIsn, guestStream, rcvd, rcvNxt, g2h, toHost, guestFin, shutdownPending, shutdowns)
      && HostSide(isn, hostStream, out, h2g, hostEof, finSent)
      && Numbered(isn, una, nxt, sndUna, sndNxt, state, out, finSent, guestWnd)
      && ending == Open && state != Free
    }

    /** Both streams carried whole, each side told of the other's end exactly once. */
    ghost predicate Delivered()
      reads this
    {
      toHost == guestStream && Payloads(out) == hostStream && shutdowns == 1 && Fins(out) == 1
    }

    ghost predicate Valid()
      reads this
    {
      && (state != Free ==> Live() && (shutdownPending ==> g2h != []))
      && (state == Free ==> ending != Open)
      && (ending == Orderly ==> Delivered())
    }

    /** A SYN from the guest opens the flow (the connection to the host is under way). */
    constructor (isn: Seq32, seg: Segment, ghost stream: seq<Byte>)
      requires seg.wnd <= 65535
      ensures Valid() && state == Connecting && guestStream == stream && rcvd == 0 && this.guestIsn == seg.seqno
    {
      this.isn, guestIsn := isn, seg.seqno;
      state := Connecting;
      guestFin, hostEof, finSent, shutdownPending := false, false, false, false;
      sndNxt, sndUna, rcvNxt := isn, isn, Wrap(seg.seqno + 1);
      guestWnd := if seg.wnd > 0 then seg.wnd else 1;
      g2h, h2g, out, toHost, shutdowns := [], [], [], [], 0;
      guestStream, hostStream, rcvd, una, nxt, ending := stream, [], 0, 0, 0, Open;
    }

    /** tcp_out of a segment without data or FIN. */
    method SendAck(rst: bool)
      requires Live()
      modifies this`out
      ensures Live() && |out| == |old(out)| + 1 && out[..|old(out)|] == old(out)
      ensures out[|old(out)|].payload == [] && !out[|old(out)|].fin && out[|old(out)|].rst == rst
      ensures out[|old(out)|].ackno == rcvNxt && out[|old(out)|].window == Buf - |g2h|
    {
      hide GuestSide, HostSide, Counters;
      var x := Out(sndNxt, rcvNxt, false, false, rst, Buf - |g2h|, []);
      SendData(isn, hostStream, out, h2g, hostEof, finSent, x, 0);
      PayloadsAppend(out, x);
      out := out + [x];
      assert h2g[0..] == h2g;
    }

    /** flow_free after an error or a reset. */
    method Abort()
      requires Live()
      modifies this
      ensures Valid() && state == Free && ending == Aborted
      ensures toHost == old(toHost) && out == old(out)
    {
      state, ending := Free, Aborted;
    }

    /** The host socket takes some of the offered bytes, or fails. */
    method HostSend(len: nat) returns (n: int)
      ensures -1 <= n <= len
    {
      n :| -1 <= n <= len;
    }

    /** tcp_drain_g2h. */
    method DrainG2h() returns (alive: bool)
      requires Live()
      modifies this
      ensures Valid() && alive == (state != Free) && (!alive ==> ending == Aborted)
      ensures alive ==> Live() && state == old(state) && rcvNxt == old(rcvNxt) && rcvd == old(rcvd) && guestFin == old(guestFin)
      ensures alive ==> out == old(out) && h2g == old(h2g) && hostEof == old(hostEof) && finSent == old(finSent)
      ensures alive ==> hostStream == old(hostStream) && una == old(una) && guestWnd == old(guestWnd) && |g2h| <= |old(g2h)|
      ensures old(toHost) <= toHost && old(out) <= out && NoData(out, |old(out)|)
    {
      hide GuestSide, HostSide, Numbered, Payloads, Delivered;
      if |g2h| > 0 {
        var n := HostSend(|g2h|);
        if n < 0 {
          SendAck(true);
          Abort();
          return false;
        }
        if n > 0 {
          HostTakes(guestIsn, guestStream, rcvd, rcvNxt, g2h, toHost, guestFin, shutdownPending, shutdowns, n);
          toHost, g2h := toHost + g2h[..n], g2h[n..];
        }
      }
      if shutdownPending && |g2h| == 0 {
        ShutDown(guestIsn, guestStream, rcvd, rcvNxt, g2h, toHost, guestFin, shutdowns);
        shutdowns := shutdowns + 1;
        shutdownPending := false;
      }
      return true;
    }

    /** tcp_flush_h2g: send what the guest's window allows, then the FIN once the host is done. */
    method FlushH2g()
      requires Live()
      modifies this`out, this`sndNxt, this`h2g, this`finSent, this`nxt
      ensures Live() && old(out) <= out
      ensures state == Estab ==> h2g == [] || nxt - una >= guestWnd
      ensures state == Estab && hostEof && h2g == [] ==> finSent
      ensures InWindow(out, |old(out)|, una, guestWnd)
    {
      hide GuestSide, HostSide, Counters, Payloads, InWindow, Numbered;
      NothingNew(out, una, guestWnd);
      if state != Estab { return; }
      SendBuffered();
      if hostEof && |h2g| == 0 && !finSent {
        ghost var before := out;
        Finish();
        InWindowAppend(before, out, |old(out)|, una, guestWnd);
      }
    }

    method Finish()
      requires Live() && state == Estab && hostEof && h2g == [] && !finSent
      modifies this`out, this`sndNxt, this`finSent, this`nxt
      ensures Live() && finSent
      ensures |out| == |old(out)| + 1 && out[..|old(out)|] == old(out) && out[|old(out)|].payload == []
    {
      hide GuestSide, HostSide, Counters, Payloads;
      var x := Out(sndNxt, rcvNxt, false, true, false, Buf - |g2h|, []);
      NextNumber();
      SendFin(isn, hostStream, out, x);
      Advance(isn, una, nxt, sndUna, sndNxt, 1);
      out := out + [x];
      sndNxt := Wrap(sndNxt + 1);
      finSent := true;
      nxt := nxt + 1;
    }

    /** The sequence number of the next byte. */
    lemma NextNumber()
      requires Live() && state == Estab && !finSent
      ensures sndNxt == Wrap(isn + 1 + |Payloads(out)|)
    {
      hide GuestSide, HostSide, Payloads;
    }

    method SendBuffered()
      requires Live() && state == Estab
      modifies this`out, this`sndNxt, this`h2g, this`nxt
      ensures Live() && old(out) <= out
      ensures h2g == [] || nxt - una >= guestWnd
      ensures InWindow(out, |old(out)|, una, guestWnd)
    {
      hide GuestSide, HostSide, Counters, Payloads, InWindow;
      assert InWindow(out, |out|, una, guestWnd) by { NothingNew(out, una, guestWnd); }
      while |h2g| > 0
        invariant Live() && old(out) <= out
        invariant InWindow(out, |old(out)|, una, guestWnd)
        decreases |h2g|
      {
        InFlight(isn, una, nxt, sndUna, sndNxt);
        var inflight := Wrap(sndNxt - sndUna);
        if inflight >= guestWnd { break; }
        ghost var before := out;
        SendChunk(guestWnd - inflight);
        InWindowAppend(before, out, |old(out)|, una, guestWnd);
      }
    }

    method SendChunk(room: nat)
      requires Live() && state == Estab && h2g != [] && room == guestWnd - (nxt - una) && room > 0
      modifies this`out, this`sndNxt, this`h2g, this`nxt
      ensures Live() && |h2g| < |old(h2g)|
      ensures |out| == |old(out)| + 1 && out[..|old(out)|] == old(out)
      ensures var x := out[|old(out)|];
        |x.payload| <= Mss && 1 + |Payloads(old(out))| + |x.payload| <= una + guestWnd
    {
      hide GuestSide, HostSide, Counters, Payloads;
      UnfinishedWithData(isn, hostStream, out, h2g, hostEof, finSent);
      var chunk := |h2g|;
      if chunk > room { chunk := room; }
      if chunk > Mss { chunk := Mss; }
      NextNumber();
      var x := Out(sndNxt, rcvNxt, false, false, false, Buf - |g2h|, h2g[..chunk]);
      SendData(isn, hostStream, out, h2g, hostEof, finSent, x, chunk);
      Advance(isn, una, nxt, sndUna, sndNxt, chunk);
      out := out + [x];
      sndNxt := Wrap(sndNxt + chunk);
      h2g := h2g[chunk..];
      nxt := nxt + chunk;
    }

    /** tcp_maybe_close. */
    method MaybeClose()
      requires Valid() && state != Free
      modifies this
      ensures Valid() && toHost == old(toHost) && out == old(out) && una == old(una) && guestWnd == old(guestWnd)
      ensures state == Free || unchanged(this)
      ensures state == Free ==> ending == Orderly
      ensures state == Free <==> old(guestFin && finSent && g2h == [] && h2g == [])
    {
      if guestFin && finSent && |g2h| == 0 && |h2g| == 0 {
        AllDelivered();
        state, ending := Free, Orderly;
      }
    }

    lemma AllDelivered()
      requires Valid() && state != Free && guestFin && finSent && g2h == [] && h2g == []
      ensures Delivered()
    {
      hide Payloads, AllPlaced;
      assert guestStream[..rcvd] == guestStream;
      assert toHost + [] == toHost;
      assert Payloads(out) + [] == Payloads(out);
    }

    /** The window and acknowledgement fields of a segment; the handshake may complete here. */
    method TakeAck(seg: Segment)
      requires Live() && seg.wnd <= 65535
      modifies this`guestWnd, this`sndUna, this`una, this`state
      ensures Live() && una >= old(una)
      ensures state == old(state) || (old(state) == SynRcvd && state == Estab)
    {
      hide GuestSide, HostSide, Counters, Payloads;
      guestWnd := if seg.wnd > 0 then seg.wnd else 1;
      if seg.ack {
        if Wrap(seg.ackno - sndUna) <= Wrap(sndNxt - sndUna) {
          Acknowledge(isn, una, nxt, sndUna, sndNxt, seg.ackno);
          una := una + Wrap(seg.ackno - sndUna);
          sndUna := seg.ackno;
        }
      }
      if state == SynRcvd && seg.ack && sndUna == sndNxt { state := Estab; }
    }

    /** The data of a segment: taken in order as far as it fits, acknowledged either way. */
    method TakeSegment(seg: Segment, ghost o: nat) returns (alive: bool)
      requires Valid() && state != Free
      requires seg.payload != [] ==> IsSlice(guestIsn, guestStream, seg, o) && Near(rcvd, seg, o)
      modifies this
      ensures Valid() && alive == (state != Free) && (!alive ==> ending == Aborted)
      ensures alive ==> state == old(state) && hostStream == old(hostStream) && guestFin == old(guestFin)
      ensures alive ==> rcvd == old(rcvd) + Accepted(state, guestFin, old(rcvd), |old(g2h)|, seg, o) >= old(rcvd)
      ensures alive && seg.payload != [] && (state == Estab || o != rcvd) && !guestFin ==> |out| > 0 && out[|out| - 1].ackno == rcvNxt
      ensures old(toHost) <= toHost && old(out) <= out && NoData(out, |old(out)|)
    {
      hide GuestSide, HostSide, Numbered, Payloads, IsSlice, Delivered;
      BufferBound(guestIsn, guestStream, rcvd, rcvNxt, g2h, toHost, guestFin, shutdownPending, shutdowns);
      if !guestFin && seg.payload != [] { InOrder(guestIsn, guestStream, rcvd, rcvNxt, g2h, toHost, shutdownPending, shutdowns, seg, o); }
      if |seg.payload| > 0 && state == Estab && seg.seqno == rcvNxt && !guestFin {
        alive := AcceptData(seg, o);
        if !alive { return; }
        ghost var before := out;
        SendAck(false);
        NoDataThen(old(out), before, out);
      } else if |seg.payload| > 0 && seg.seqno != rcvNxt {
        SendAck(false);
      }
      alive := true;
    }

    method AcceptData(seg: Segment, ghost o: nat) returns (alive: bool)
      requires Live() && !guestFin && seg.seqno == rcvNxt && IsSlice(guestIsn, guestStream, seg, o) && Near(rcvd, seg, o)
      modifies this
      ensures Valid() && alive == (state != Free) && (!alive ==> ending == Aborted)
      ensures alive ==> Live() && state == old(state) && hostStream == old(hostStream) && !guestFin
      ensures alive ==> o == old(rcvd) && rcvd == o + Min(|seg.payload|, Buf - |old(g2h)|)
      ensures old(toHost) <= toHost && old(out) <= out && NoData(out, |old(out)|)
    {
      hide GuestSide, HostSide, Numbered, Payloads, IsSlice, Delivered;
      BufferBound(guestIsn, guestStream, rcvd, rcvNxt, g2h, toHost, guestFin, shutdownPending, shutdowns);
      var room: nat := Buf - |g2h|;
      var take := if |seg.payload| < room then |seg.payload| else room;
      TakeData(guestIsn, guestStream, rcvd, rcvNxt, g2h, toHost, shutdownPending, shutdowns, seg, o, take);
      g2h := g2h + seg.payload[..take];
      rcvNxt := Wrap(rcvNxt + take);
      rcvd := rcvd + take;
      alive := DrainG2h();
    }

    /** The guest's FIN, taken once everything before it has been. */
    method TakeFinFlag(seg: Segment, ghost o: nat) returns (alive: bool)
      requires Valid() && state != Free && seg.fin && !guestFin
      requires IsSlice(guestIsn, guestStream, seg, o) && rcvd < o + |seg.payload| + P32 && o + |seg.payload| < rcvd + P32
      requires Wrap(seg.seqno + |seg.payload|) == rcvNxt
      modifies this
      ensures Valid() && alive == (state != Free) && (!alive ==> ending == Aborted)
      ensures alive ==> guestFin && rcvd == old(rcvd) == |guestStream| && hostStream == old(hostStream) && state == old(state)
      ensures old(toHost) <= toHost && old(out) <= out && NoData(out, |old(out)|)
    {
      hide GuestSide, HostSide, Numbered, Payloads, IsSlice, Delivered;
      TakeFin(guestIsn, guestStream, rcvd, rcvNxt, g2h, toHost, shutdownPending, shutdowns, seg, o);
      guestFin := true;
      rcvNxt := Wrap(rcvNxt + 1);
      shutdownPending := true;
      SendAck(false);
      ghost var before := out;
      alive := DrainG2h();
      NoDataThen(old(out), before, out);
    }

    /** The FIN of a segment, if it has one and it is next. */
    method TakeFinIfNext(seg: Segment, ghost o: nat) returns (alive: bool)
      requires Valid() && state != Free
      requires seg.fin ==>
        IsSlice(guestIsn, guestStream, seg, o) && rcvd < o + |seg.payload| + P32 && o + |seg.payload| < rcvd + P32
      modifies this
      ensures Valid() && alive == (state != Free) && (!alive ==> ending == Aborted)
      ensures alive ==> guestFin == (old(guestFin) || (seg.fin && o + |seg.payload| == old(rcvd)))
      ensures alive ==> rcvd == old(rcvd) && hostStream == old(hostStream) && state == old(state)
      ensures old(toHost) <= toHost && old(out) <= out && NoData(out, |old(out)|)
    {
      hide GuestSide, HostSide, Numbered, Payloads, IsSlice, Delivered;
      if !guestFin && seg.fin { FinInOrder(guestIsn, guestStream, rcvd, rcvNxt, g2h, toHost, shutdownPending, shutdowns, seg, o); }
      alive := true;
      if seg.fin && !guestFin && Wrap(seg.seqno + |seg.payload|) == rcvNxt { alive := TakeFinFlag(seg, o); }
    }

    /** The data and the FIN of a segment. */
    method Receive(seg: Segment, ghost o: nat) returns (alive: bool)
      requires Valid() && state != Free
      requires seg.payload != [] || seg.fin ==> IsSlice(guestIsn, guestStream, seg, o) && Near(rcvd, seg, o)
      modifies this
      ensures Valid() && alive == (state != Free) && (!alive ==> ending == Aborted)
      ensures alive ==> state == old(state) && hostStream == old(hostStream)
      ensures alive ==> rcvd == old(rcvd) + Accepted(state, old(guestFin), old(rcvd), |old(g2h)|, seg, o)
      ensures alive ==> guestFin == (old(guestFin) || (seg.fin && o + |seg.payload| == rcvd))
      ensures old(toHost) <= toHost && old(out) <= out && NoData(out, |old(out)|)
    {
      hide GuestSide, HostSide, Numbered, Payloads, Delivered, IsSlice, NoData;
      alive := TakeSegment(seg, o);
      if !alive { return; }
      ghost var taken := out;
      alive := TakeFinIfNext(seg, o);
      NoDataThen(old(out), taken, out);
    }

    /** A segment from the guest on an open flow (handle_tcp).  Only data and FIN have to belong to the
        guest's stream: a reset, a repeated SYN or a bare acknowledgement may carry any numbers. */
    method HandleTcp(seg: Segment, ghost o: nat)
      requires Valid() && state != Free && seg.wnd <= 65535
      requires !seg.rst && (seg.payload != [] || seg.fin) ==>
        IsSlice(guestIsn, guestStream, seg, o) && Near(rcvd, seg, o)
      modifies this
      ensures Valid() && old(toHost) <= toHost && old(out) <= out
      ensures state != Free ==> rcvd == old(rcvd) + Accepted(state, old(guestFin), old(rcvd), |old(g2h)|, seg, o)
      ensures state != Free ==> guestFin == (old(guestFin) || (seg.fin && o + |seg.payload| == rcvd))
      ensures state != Free ==> hostStream == old(hostStream)
      ensures seg.rst ==> state == Free
      ensures state != Free && state == Estab ==> h2g == [] || nxt - una >= guestWnd
      ensures InWindow(out, |old(out)|, una, guestWnd)
    {
      hide GuestSide, HostSide, Numbered, Payloads, Delivered, InWindow, IsSlice, NoData;
      if seg.rst {
        Abort();
        NothingNew(out, una, guestWnd);
        return;
      }
      TakeAck(seg);
      var alive := Receive(seg, o);
      if !alive {
        NoDataInWindow(out, |old(out)|, una, guestWnd);
        return;
      }
      ghost var answered := out;
      FlushH2g();
      NoDataThenWindow(old(out), answered, out, una, guestWnd);
      MaybeClose();
    }

    /** The host connection is up: send the SYN-ACK. */
    method HostConnected()
      requires Valid() && state != Free
      modifies this`out, this`sndNxt, this`state, this`nxt
      ensures Valid() && state == (if old(state) == Connecting then SynRcvd else old(state))
      ensures out == old(out) + (if old(state) == Connecting then [Out(isn, rcvNxt, true, false, false, Buf, [])] else [])
    {
      hide GuestSide, HostSide, Counters, Payloads, Delivered;
      if state != Connecting { return; }
      assert nxt == 0 && sndNxt == isn by { InFlight(isn, una, nxt, sndUna, sndNxt); FirstNumber(isn, una, nxt, sndUna, sndNxt); }
      var x := Out(sndNxt, rcvNxt, true, false, false, Buf, []);
      SendData(isn, hostStream, out, h2g, hostEof, finSent, x, 0);
      PayloadsAppend(out, x);
      Advance(isn, una, nxt, sndUna, sndNxt, 1);
      assert h2g[0..] == h2g;
      out := out + [x];
      sndNxt := Wrap(sndNxt + 1);
      nxt := nxt + 1;
      state := SynRcvd;
    }

    /** How much the backend may read now. */
    function RxRoom(): int
      reads this
    {
      if hostEof || state == Free || state == Connecting then 0 else Buf - |h2g|
    }

    /** Bytes from the host.  The backend reads no more than RxRoom, so nothing is cut off. */
    method HostRecv(data: seq<Byte>)
      requires Valid() && state != Free && |data| <= RxRoom()
      modifies this
      ensures Valid() && state == old(state) && hostStream == old(hostStream) + data && old(out) <= out
      ensures toHost == old(toHost) && rcvd == old(rcvd) && hostEof == old(hostEof)
      ensures state == Estab && data != [] ==> h2g == [] || nxt - una >= guestWnd
      ensures InWindow(out, |old(out)|, una, guestWnd)
    {
      hide GuestSide, HostSide, Numbered, Payloads, Delivered, InWindow;
      NothingNew(out, una, guestWnd);
      if |data| == 0 { return; }
      var room := Buf - |h2g|;
      var len := |data|;
      if len > room { len := room; }
      assert data[..len] == data;
      UnfinishedWithData(isn, hostStream, out, h2g, hostEof, finSent);
      HostSends(isn, hostStream, out, h2g, data);
      h2g := h2g + data[..len];
      hostStream := hostStream + data;
      FlushH2g();
    }

    /** The host has closed its side. */
    method HostClosed()
      requires Valid() && state != Free
      modifies this
      ensures Valid() && old(out) <= out && toHost == old(toHost)
      ensures state != Free ==> hostEof && hostStream == old(hostStream)
      ensures state == Free ==> ending == Orderly
      ensures state == Estab && h2g == [] ==> finSent
      ensures InWindow(out, |old(out)|, una, guestWnd)
    {
      hide GuestSide, HostSide, Numbered, Payloads, Delivered, InWindow;
      HostEnds(isn, hostStream, out, h2g, hostEof, finSent);
      hostEof := true;
      FlushH2g();
      MaybeClose();
    }

    /** The host flow failed: reset the guest unless it has had our FIN. */
    method HostReset()
      requires Valid() && state != Free
      modifies this
      ensures Valid() && state == Free && ending == Aborted && old(out) <= out
      ensures |out| == |old(out)| + One(!old(finSent)) && (|out| > |old(out)| ==> out[|old(out)|].rst)
    {
      hide GuestSide, HostSide, Numbered, Payloads, Delivered;
      if !finSent { SendAck(true); }
      Abort();
    }

    /** The host socket can take more. */
    method HostWritable()
      requires Valid() && state != Free
      modifies this
      ensures Valid() && old(toHost) <= toHost && old(out) <= out
      ensures state != Free ==> rcvd == old(rcvd) && hostStream == old(hostStream)
      ensures state != Free && |g2h| < |old(g2h)| ==> |out| > |old(out)| && out[|out| - 1].window == Buf - |g2h|
    {
      hide GuestSide, HostSide, Numbered, Payloads, Delivered;
      var before := |g2h|;
      var alive := DrainG2h();
      if !alive { return; }
      if |g2h| < before { SendAck(false); }
      MaybeClose();
    }
  }
}
