/** Frames on the RTDE connection (rtde_client.cpp): sending, reassembly from arbitrary chunks, and polling
    for the latest data package. The socket is a parameter: what it accepts and what it has received. */
module RtdeStream {
  import opened Bytes

  datatype Frame = Frame(kind: byte, payload: seq<byte>)

  const DATA_PACKAGE: byte := 85
  const MAX_PAYLOAD: nat := 0xFFFC

  /** A frame on the wire: its length with the header, big-endian, its type and its payload. */
  function Wire(f: Frame): seq<byte>
    requires |f.payload| <= MAX_PAYLOAD
  {
    var total := 3 + |f.payload|;
    [total / 256, total % 256, f.kind] + f.payload
  }

  ghost predicate Sendable(fs: seq<Frame>) {
    forall k :: 0 <= k < |fs| ==> |fs[k].payload| <= MAX_PAYLOAD
  }

  function Stream(fs: seq<Frame>): seq<byte>
    requires Sendable(fs)
  {
    if fs == [] then [] else Wire(fs[0]) + Stream(fs[1..])
  }

  /** What `parse_buffered_frame` finds at the start of the buffer. */
  datatype Parsed = Incomplete | Malformed | Parsed(frame: Frame, rest: seq<byte>)

  function Parse(buf: seq<byte>): (r: Parsed)
    ensures r.Parsed? ==> |r.rest| < |buf|
  {
    if |buf| < 3 then Incomplete
    else
      var size := (buf[0] as int) * 256 + buf[1];
      if size < 3 then Malformed
      else if |buf| < size then Incomplete
      else Parsed(Frame(buf[2], buf[3..size]), buf[size..])
  }

  /** All frames that are there, and what is left over. */
  function Drain(buf: seq<byte>): (r: (seq<Frame>, seq<byte>))
    decreases |buf|
  {
    match Parse(buf)
    case Parsed(f, rest) => ([f] + Drain(rest).0, Drain(rest).1)
    case _ => ([], buf)
  }

  // ----- Reassembly -----

  /** A frame, once complete, is read the same whatever comes after it. */
  lemma ParseMore(a: seq<byte>, b: seq<byte>)
    requires Parse(a).Parsed?
    ensures Parse(a + b) == Parsed(Parse(a).frame, Parse(a).rest + b)
  {
    var size := (a[0] as int) * 256 + a[1];
    assert (a + b)[3..size] == a[3..size] && (a + b)[size..] == a[size..] + b;
  }

  /** One frame taken out, or none there. */
  lemma DrainStep(a: seq<byte>)
    ensures Drain(a) == match Parse(a)
                        case Parsed(f, rest) => ([f] + Drain(rest).0, Drain(rest).1)
                        case _ => ([], a)
  {
    hide Parse;
  }

  /** Taking the frames out early and going on with what is left gives the same frames. */
  lemma {:induction false} DrainMore(a: seq<byte>, b: seq<byte>)
    ensures Drain(a + b) == (Drain(a).0 + Drain(Drain(a).1 + b).0, Drain(Drain(a).1 + b).1)
    decreases |a|
  {
    hide *;
    DrainStep(a);
    if Parse(a).Parsed? {
      var f, rest := Parse(a).frame, Parse(a).rest;
      DrainStep(a + b);
      ParseMore(a, b);
      DrainMore(rest, b);
      assert [f] + Drain(rest).0 + Drain(Drain(rest).1 + b).0 == [f] + (Drain(rest).0 + Drain(Drain(rest).1 + b).0);
    } else {
      assert [] + Drain(a + b).0 == Drain(a + b).0;
    }
  }

  function Concat(chunks: seq<seq<byte>>): seq<byte> {
    if chunks == [] then [] else chunks[0] + Concat(chunks[1..])
  }

  /** Appending the chunks one by one and taking out all frames after each. */
  function Feed(buf: seq<byte>, chunks: seq<seq<byte>>): (r: (seq<Frame>, seq<byte>))
    decreases |chunks|
  {
    if chunks == [] then ([], buf)
    else
      var (fs, rest) := Drain(buf + chunks[0]);
      var (gs, left) := Feed(rest, chunks[1..]);
      (fs + gs, left)
  }

  /** How the bytes are cut into chunks makes no difference, whatever the bytes are. */
  lemma {:induction false} FeedIsDrain(buf: seq<byte>, chunks: seq<seq<byte>>)
    requires Drain(buf) == ([], buf)
    ensures Feed(buf, chunks) == Drain(buf + Concat(chunks))
    decreases |chunks|
  {
    if chunks == [] {
      assert buf + Concat(chunks) == buf;
    } else {
      var rest := Drain(buf + chunks[0]).1;
      DrainMore(buf + chunks[0], Concat(chunks[1..]));
      assert buf + Concat(chunks) == buf + chunks[0] + Concat(chunks[1..]);
      Drained(buf + chunks[0]);
      FeedIsDrain(rest, chunks[1..]);
    }
  }

  lemma {:induction false} Drained(buf: seq<byte>)
    ensures Drain(Drain(buf).1) == ([], Drain(buf).1)
    decreases |buf|
  {
    match Parse(buf)
    case Parsed(f, rest) => Drained(rest);
    case _ =>
  }

  /** A frame that was sent is read back, and the rest follows. */
  lemma ParseWire(f: Frame, b: seq<byte>)
    requires |f.payload| <= MAX_PAYLOAD
    ensures Parse(Wire(f) + b) == Parsed(f, b)
  {
    var s, total := Wire(f) + b, 3 + |f.payload|;
    assert s[0] == total / 256 && s[1] == total % 256 && s[2] == f.kind;
    assert s[3..total] == f.payload && s[total..] == b;
  }

  lemma {:induction false} DrainStream(fs: seq<Frame>, b: seq<byte>)
    requires Sendable(fs) && Parse(b).Incomplete?
    ensures Drain(Stream(fs) + b) == (fs, b)
  {
    if fs == [] {
      assert Stream(fs) + b == b;
    } else {
      assert Stream(fs) + b == Wire(fs[0]) + (Stream(fs[1..]) + b);
      ParseWire(fs[0], Stream(fs[1..]) + b);
      DrainStream(fs[1..], b);
      assert [fs[0]] + fs[1..] == fs;
    }
  }

  /** Part of a frame is no frame. */
  lemma CutFrame(f: Frame, n: nat)
    requires |f.payload| <= MAX_PAYLOAD && n < |Wire(f)|
    ensures Parse(Wire(f)[..n]).Incomplete?
  {
    var s, total := Wire(f)[..n], 3 + |f.payload|;
    if n >= 3 {
      assert s[0] == total / 256 && s[1] == total % 256;
    }
  }

  /** For every list of frames and every way to cut what was sent, the frames received so far are exactly the sent ones
      that are complete, in order, and what is kept is the beginning of the next one. */
  lemma Reassembly(fs: seq<Frame>, next: Frame, n: nat, chunks: seq<seq<byte>>)
    requires Sendable(fs) && |next.payload| <= MAX_PAYLOAD && n < |Wire(next)|
    requires Concat(chunks) == Stream(fs) + Wire(next)[..n]
    ensures Feed([], chunks) == (fs, Wire(next)[..n])
  {
    FeedIsDrain([], chunks);
    assert [] + Concat(chunks) == Concat(chunks);
    CutFrame(next, n);
    DrainStream(fs, Wire(next)[..n]);
  }

  // ----- The client -----

  /** The payload of the latest data package, recipe number first; what `poll` looks for. */
  function Latest(fs: seq<Frame>): seq<byte> {
    if fs == [] then []
    else
      var f := fs[|fs| - 1];
      if f.kind == DATA_PACKAGE && f.payload != [] then f.payload else Latest(fs[..|fs| - 1])
  }

  lemma LatestMore(fs: seq<Frame>, f: Frame)
    ensures Latest(fs + [f]) == if f.kind == DATA_PACKAGE && f.payload != [] then f.payload else Latest(fs)
  {
    assert (fs + [f])[..|fs|] == fs;
  }

  datatype PollResult = Failed | Nothing | Package(recipe: byte, payload: seq<byte>)

  lemma ConcatMore(chunks: seq<seq<byte>>, k: nat)
    requires k < |chunks|
    ensures Concat(chunks[..k + 1]) == Concat(chunks[..k]) + chunks[k]
  {
    if k == 0 {
      assert chunks[..1] == [chunks[0]] && chunks[..1][1..] == [];
    } else {
      assert chunks[..k + 1][1..] == chunks[1..][..k] && chunks[..k][1..] == chunks[1..][..k - 1];
      ConcatMore(chunks[1..], k - 1);
    }
  }

  /** Frames `fs` are out, `buf` is left, of the bytes `all`. */
  ghost predicate Polling(all: seq<byte>, fs: seq<Frame>, buf: seq<byte>) {
    Drain(all) == (fs + Drain(buf).0, Drain(buf).1)
  }

  lemma PollArrived(all: seq<byte>, fs: seq<Frame>, buf: seq<byte>, chunk: seq<byte>)
    requires Polling(all, fs, buf)
    ensures Polling(all + chunk, fs, buf + chunk)
  {
    hide Drain;
    DrainMore(all, chunk);
    DrainMore(buf, chunk);
    assert fs + (Drain(buf).0 + Drain(Drain(buf).1 + chunk).0) == fs + Drain(buf).0 + Drain(Drain(buf).1 + chunk).0;
  }

  lemma PollFrame(all: seq<byte>, fs: seq<Frame>, buf: seq<byte>)
    requires Polling(all, fs, buf) && Parse(buf).Parsed?
    ensures Polling(all, fs + [Parse(buf).frame], Parse(buf).rest)
  {
    var f, rest := Parse(buf).frame, Parse(buf).rest;
    assert fs + ([f] + Drain(rest).0) == fs + [f] + Drain(rest).0;
  }

  lemma PollEnd(all: seq<byte>, fs: seq<Frame>, buf: seq<byte>)
    requires Polling(all, fs, buf) && !Parse(buf).Parsed?
    ensures Drain(all) == (fs, buf)
  {
    assert fs + [] == fs;
  }

  lemma PollStart(buf: seq<byte>)
    ensures Polling(buf, [], buf)
  {
    assert [] + Drain(buf).0 == Drain(buf).0;
  }

  class Client {
    var recvBuf: seq<byte>

    constructor ()
      ensures recvBuf == []
    {
      recvBuf := [];
    }

    /** `parse_buffered_frame`. */
    method ParseBufferedFrame() returns (r: int, kind: byte, payload: seq<byte>)
      modifies this
      ensures match Parse(old(recvBuf))
              case Incomplete => r == 0 && recvBuf == old(recvBuf)
              case Malformed => r == -1 && recvBuf == old(recvBuf)
              case Parsed(f, rest) => r == 1 && Frame(kind, payload) == f && recvBuf == rest
    {
      kind, payload := 0, [];
      if |recvBuf| < 3 {
        return 0, kind, payload;
      }
      var size := (recvBuf[0] as int) * 256 + recvBuf[1];
      if size < 3 {
        return -1, kind, payload;
      }
      if |recvBuf| < size {
        return 0, kind, payload;
      }
      kind, payload := recvBuf[2], recvBuf[3..size];
      recvBuf := recvBuf[size..];
      r := 1;
    }

    /** `poll` while the peer keeps the connection open. `arrivals` are the bytes that each round of receiving finds;
        `used` rounds are made. Whatever was buffered and has arrived, all complete frames are taken out, the latest
        data package is returned, and the rest stays in the buffer. */
    method Poll(arrivals: seq<seq<byte>>) returns (r: PollResult, used: nat)
      modifies this
      ensures used <= |arrivals|
      ensures var all := old(recvBuf) + Concat(arrivals[..used]);
              var (fs, rest) := Drain(all);
              if Parse(rest).Malformed? then r == Failed && recvBuf == []
              else
                recvBuf == rest
                && r == if Latest(fs) == [] then Nothing else Package(Latest(fs)[0], Latest(fs)[1..])
    {
      hide *;
      var latest: seq<byte> := [];
      used := 0;
      ghost var fs: seq<Frame>, all := [], recvBuf;
      PollStart(recvBuf);
      NothingYet(arrivals);
      assert recvBuf + [] == recvBuf;
      while true
        invariant used <= |arrivals| && all == old(recvBuf) + Concat(arrivals[..used])
        invariant Polling(all, fs, recvBuf) && latest == Latest(fs)
        decreases |arrivals| - used, |recvBuf|
      {
        if used < |arrivals| {
          ConcatMore(arrivals, used);
          PollArrived(all, fs, recvBuf, arrivals[used]);
          all := all + arrivals[used];
          recvBuf := recvBuf + arrivals[used];
          used := used + 1;
        }
        ghost var buf := recvBuf;
        var n, kind, payload := ParseBufferedFrame();
        if n <= 0 {
          PollEnd(all, fs, buf);
          if n < 0 {
            assert Drain(all) == (fs, buf) && all == old(recvBuf) + Concat(arrivals[..used]);
            recvBuf := [];
            return Failed, used;
          }
          break;
        }
        PollFrame(all, fs, buf);
        LatestMore(fs, Frame(kind, payload));
        fs := fs + [Frame(kind, payload)];
        if kind == DATA_PACKAGE && |payload| >= 1 {
          latest := payload;
        }
      }
      assert Drain(all) == (fs, recvBuf) && all == old(recvBuf) + Concat(arrivals[..used]);
      assert !Parse(recvBuf).Malformed?;
      r := if latest == [] then Nothing else Package(latest[0], latest[1..]);
    }
  }

  lemma NothingYet(chunks: seq<seq<byte>>)
    ensures Concat(chunks[..0]) == [] && Latest([]) == []
  {
  }

  predicate AllPositive(grants: seq<int>) {
    forall k :: 0 <= k < |grants| ==> grants[k] > 0
  }

  /** `send_frame` on an open socket that accepts `grants[k]` bytes the k-th time: `out` is what went out. */
  method SendFrame(f: Frame, grants: seq<int>) returns (ok: bool, out: seq<byte>)
    ensures |f.payload| > MAX_PAYLOAD ==> !ok && out == []
    ensures ok ==> |f.payload| <= MAX_PAYLOAD && out == Wire(f)
    ensures |f.payload| <= MAX_PAYLOAD && !ok ==> out < Wire(f)
    ensures |f.payload| <= MAX_PAYLOAD && |grants| >= |Wire(f)| && AllPositive(grants) ==> ok
  {
    var total := 3 + |f.payload|;
    if total > 0xFFFF {
      return false, [];
    }
    var buf := [total / 256, total % 256, f.kind] + f.payload;
    var sent, k := 0, 0;
    while sent < total
      invariant 0 <= sent <= total && k <= |grants| && k <= sent
      decreases total - sent
    {
      if k == |grants| || grants[k] <= 0 {
        return false, buf[..sent];
      }
      sent := if sent + grants[k] > total then total else sent + grants[k];
      k := k + 1;
    }
    return true, buf[..sent];
  }

  // ----- Bytes on the wire -----

  /** The bytes of a frame of type 'U' with a recipe number and data: its payload is the latest, and nothing is left.
      A frame of another type is none. */
  lemma PackageBytes(kind: byte, recipe: byte, data: seq<byte>)
    requires |data| <= 0xFFFB
    ensures var n := |data| + 4; var all: seq<byte> := [n / 256, n % 256, kind, recipe] + data;
      && Drain(all) == ([Frame(kind, [recipe] + data)], []) && !Parse([]).Malformed?
      && Latest(Drain(all).0) == if kind as int == 'U' as int then [recipe] + data else []
  {
    var f := Frame(kind, [recipe] + data);
    var n := |data| + 4;
    assert Wire(f) == [n / 256, n % 256, kind, recipe] + data;
    assert Wire(f) + [] == Wire(f);
    ParseWire(f, []);
    assert Drain(Wire(f)) == ([f] + Drain([]).0, Drain([]).1);
    assert [f] + [] == [f];
    assert [f][..0] == [];
  }
}
