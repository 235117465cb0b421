/** The stream of receive descriptors: how it is cut into frames and what is handed on. */
module RxFrames {

  type Byte = bv8

  /** What the hardware writes into one descriptor and its buffer. */
  datatype Desc = Desc(eop: bool, err: bool, data: seq<Byte>)

  /** NETIF_F_RXALL, FLAG2_CRC_STRIPPING and NETIF_F_RXFCS. */
  datatype Config = Config(rxAll: bool, crcStripping: bool, keepFcs: bool)

  /** A packet handed on: the bytes in its buffers and the length it is given, a 32-bit number. */
  datatype Packet = Packet(data: seq<Byte>, length: nat)

  // ---- the stream of descriptors, cut into frames ---------------------------------------

  function FirstEop(s: seq<Desc>): (n: nat)
    ensures n <= |s|
  {
    if s == [] || s[0].eop then 0 else 1 + FirstEop(s[1..])
  }

  lemma {:induction false} FirstEopIs(s: seq<Desc>)
    ensures var n := FirstEop(s); (forall k :: 0 <= k < n ==> !s[k].eop) && (n < |s| ==> s[n].eop)
  {
    if s != [] && !s[0].eop {
      FirstEopIs(s[1..]);
      assert forall k :: 0 < k < |s| ==> s[k] == s[1..][k - 1];
    }
  }

  /** What follows the first n descriptors. */
  function After(s: seq<Desc>, n: nat): (r: seq<Desc>)
    requires n <= |s|
    ensures |r| == |s| - n
  {
    s[n..]
  }

  /** The complete frames: each goes up to and including the next end-of-packet descriptor. */
  function Frames(s: seq<Desc>): seq<seq<Desc>>
    decreases |s|
  {
    var n := FirstEop(s);
    if n == |s| then [] else [s[..n + 1]] + Frames(After(s, n + 1))
  }

  /** The beginning of a frame that is not complete yet. */
  function Rest(s: seq<Desc>): seq<Desc>
    decreases |s|
  {
    var n := FirstEop(s);
    if n == |s| then s else Rest(After(s, n + 1))
  }

  function Flat(fs: seq<seq<Desc>>): seq<Desc> {
    if fs == [] then [] else fs[0] + Flat(fs[1..])
  }

  ghost predicate IsFrame(f: seq<Desc>) {
    f != [] && f[|f| - 1].eop && forall k :: 0 <= k < |f| - 1 ==> !f[k].eop
  }

  ghost predicate IsCut(s: seq<Desc>, fs: seq<seq<Desc>>, rest: seq<Desc>) {
    Flat(fs) + rest == s && (forall f :: f in fs ==> IsFrame(f)) && forall d :: d in rest ==> !d.eop
  }

  /** There is exactly one way to cut a stream into frames and a rest. */
  lemma {:induction false} OneCut(s: seq<Desc>, fs: seq<seq<Desc>>, rest: seq<Desc>)
    ensures IsCut(s, fs, rest) <==> fs == Frames(s) && rest == Rest(s)
    decreases |s|
  {
    hide IsCut, Frames, Rest, FirstEop;
    UnfoldFrames(s);
    UnfoldRest(s);
    var n := FirstEop(s);
    if fs == [] {
      NoFrame(s, rest);
    } else {
      FirstOfCut(s, fs, rest);
      if n < |s| {
        OneCut(After(s, n + 1), fs[1..], rest);
        SameHead(fs, s[..n + 1], Frames(After(s, n + 1)));
      }
    }
  }

  lemma UnfoldFrames(s: seq<Desc>)
    ensures FirstEop(s) == |s| ==> Frames(s) == []
    ensures FirstEop(s) < |s| ==> Frames(s) == [s[..FirstEop(s) + 1]] + Frames(After(s, FirstEop(s) + 1))
  {
    hide FirstEop, After;
  }

  lemma UnfoldRest(s: seq<Desc>)
    ensures FirstEop(s) == |s| ==> Rest(s) == s
    ensures FirstEop(s) < |s| ==> Rest(s) == Rest(After(s, FirstEop(s) + 1))
  {
    hide FirstEop, After;
  }

  lemma SameHead<T>(s: seq<T>, x: T, t: seq<T>)
    requires s != []
    ensures s == [x] + t <==> s[0] == x && s[1..] == t
  {
    assert s == [s[0]] + s[1..];
  }

  lemma NoFrame(s: seq<Desc>, rest: seq<Desc>)
    ensures IsCut(s, [], rest) <==> FirstEop(s) == |s| && rest == s
  {
    FirstEopIs(s);
    hide FirstEop;
    assert Flat([]) + rest == rest;
    assert FirstEop(s) < |s| ==> s[FirstEop(s)] in s;
  }

  lemma FirstOfCut(s: seq<Desc>, fs: seq<seq<Desc>>, rest: seq<Desc>)
    requires fs != []
    ensures var n := FirstEop(s);
      IsCut(s, fs, rest) <==> (n < |s| && fs[0] == s[..n + 1] && IsCut(After(s, n + 1), fs[1..], rest))
  {
    hide FirstEop, IsFrame;
    var more := Flat(fs[1..]) + rest;
    assert Flat(fs) + rest == fs[0] + more;
    AllFrames(fs);
    hide Flat;
    FirstFrame(s, fs[0], more);
  }

  lemma AllFrames(fs: seq<seq<Desc>>)
    requires fs != []
    ensures (forall f :: f in fs ==> IsFrame(f)) <==> IsFrame(fs[0]) && forall f :: f in fs[1..] ==> IsFrame(f)
  {
    hide IsFrame;
    assert fs == [fs[0]] + fs[1..];
  }

  lemma FirstFrame(s: seq<Desc>, f: seq<Desc>, t: seq<Desc>)
    ensures IsFrame(f) && s == f + t <==>
      (FirstEop(s) < |s| && f == s[..FirstEop(s) + 1] && t == s[FirstEop(s) + 1..])
  {
    var n := FirstEop(s);
    FirstEopIs(s);
    hide FirstEop;
    if IsFrame(f) && s == f + t {
      assert forall k :: 0 <= k < |f| ==> s[k] == f[k];
      assert n == |f| - 1;
    }
    if n < |s| { assert s == s[..n + 1] + s[n + 1..]; }
  }

  /** One more descriptor either ends the frame begun or belongs to it. */
  lemma Snoc(s: seq<Desc>, d: Desc)
    ensures Frames(s + [d]) == if d.eop then Frames(s) + [Rest(s) + [d]] else Frames(s)
    ensures Rest(s + [d]) == if d.eop then [] else Rest(s) + [d]
  {
    hide Frames, Rest, FirstEop;
    OneCut(s, Frames(s), Rest(s));
    if d.eop {
      FlatSnoc(Frames(s), Rest(s) + [d]);
      assert Flat(Frames(s) + [Rest(s) + [d]]) + [] == s + [d];
      OneCut(s + [d], Frames(s) + [Rest(s) + [d]], []);
    } else {
      assert Flat(Frames(s)) + (Rest(s) + [d]) == s + [d];
      OneCut(s + [d], Frames(s), Rest(s) + [d]);
    }
  }

  lemma {:induction false} FlatSnoc(fs: seq<seq<Desc>>, f: seq<Desc>)
    ensures Flat(fs + [f]) == Flat(fs) + f
  {
    if fs == [] {
      assert fs + [f] == [f] && Flat([f]) == f + Flat([f][1..]);
    } else {
      assert (fs + [f])[1..] == fs[1..] + [f];
      FlatSnoc(fs[1..], f);
    }
  }

  // ---- what is handed on ----------------------------------------------------------------

  function Joined(f: seq<Desc>): seq<Byte> {
    if f == [] then [] else Joined(f[..|f| - 1]) + f[|f| - 1].data
  }

  lemma JoinedSnoc(f: seq<Desc>, d: Desc)
    ensures Joined(f + [d]) == Joined(f) + d.data
    ensures f == [] ==> Joined(f + [d]) == d.data
  {
    assert (f + [d])[..|f|] == f;
  }

  predicate Bad(cfg: Config, d: Desc) { d.err && !cfg.rxAll }

  function FrameLength(cfg: Config, data: seq<Byte>): nat {
    if cfg.crcStripping || cfg.keepFcs then |data| else (|data| - 4) % 0x1_0000_0000
  }

  /** What becomes of one frame. Without jumbo frames only those that fit one descriptor are
      taken; with them the descriptors are put together and the end decides over all. */
  function Handed(cfg: Config, jumbo: bool, f: seq<Desc>): seq<Packet> {
    if f == [] || Bad(cfg, f[|f| - 1]) then []
    else if jumbo then (if |Joined(f)| < 14 then [] else [Packet(Joined(f), |Joined(f)|)])
    else if |f| > 1 then []
    else [Packet(f[0].data, FrameLength(cfg, f[0].data))]
  }

  function HandedAll(cfg: Config, jumbo: bool, fs: seq<seq<Desc>>): seq<Packet> {
    if fs == [] then [] else HandedAll(cfg, jumbo, fs[..|fs| - 1]) + Handed(cfg, jumbo, fs[|fs| - 1])
  }

  function Delivered(cfg: Config, jumbo: bool, s: seq<Desc>): seq<Packet> {
    HandedAll(cfg, jumbo, Frames(s))
  }

  /** The CRC is cut off exactly when the frame is long enough to hold one. */
  lemma CrcCut(cfg: Config, data: seq<Byte>)
    requires |data| < 0x1_0000_0000
    ensures FrameLength(cfg, data) <= |data| <==> cfg.crcStripping || cfg.keepFcs || |data| >= 4
    ensures !cfg.crcStripping && !cfg.keepFcs && |data| >= 4 ==> FrameLength(cfg, data) == |data| - 4
  {
  }

  lemma DeliveredSnoc(cfg: Config, jumbo: bool, s: seq<Desc>, d: Desc)
    ensures Delivered(cfg, jumbo, s + [d]) ==
      Delivered(cfg, jumbo, s) + if d.eop then Handed(cfg, jumbo, Rest(s) + [d]) else []
  {
    Snoc(s, d);
    if d.eop {
      var fs, f := Frames(s), Rest(s) + [d];
      assert (fs + [f])[..|fs|] == fs;
    }
  }

  /** A frame whose last descriptor reports an error is not handed on, unless all frames are
      wanted; and nothing is before a frame ends. */
  lemma NothingHandedOn(cfg: Config, jumbo: bool, s: seq<Desc>, d: Desc)
    requires !d.eop || (d.err && !cfg.rxAll)
    ensures Delivered(cfg, jumbo, s + [d]) == Delivered(cfg, jumbo, s)
  {
    hide Delivered;
    DeliveredSnoc(cfg, jumbo, s, d);
  }

  /** Without jumbo frames: the end of a frame that needed several descriptors adds nothing, and a
      good frame in one descriptor adds exactly one packet with its bytes, less the CRC if that
      is to be cut off. */
  lemma PlainFrame(cfg: Config, s: seq<Desc>, d: Desc)
    requires d.eop && (!d.err || cfg.rxAll)
    requires |d.data| < 0x1_0000_0000
    ensures Delivered(cfg, false, s + [d]) == Delivered(cfg, false, s) +
      if Rest(s) != [] then []
      else if cfg.crcStripping || cfg.keepFcs then [Packet(d.data, |d.data|)]
      else [Packet(d.data, if |d.data| >= 4 then |d.data| - 4 else |d.data| + 0xFFFF_FFFC)]
  {
    hide Delivered, Rest;
    DeliveredSnoc(cfg, false, s, d);
  }

  /** With jumbo frames: a good frame of 14 bytes or more adds exactly one packet, with the bytes
      of all its descriptors in order; a shorter one adds nothing. */
  lemma JumboFrame(cfg: Config, s: seq<Desc>, d: Desc)
    requires d.eop && (!d.err || cfg.rxAll)
    ensures var data := Joined(Rest(s)) + d.data;
      Delivered(cfg, true, s + [d]) ==
        Delivered(cfg, true, s) + if |data| >= 14 then [Packet(data, |data|)] else []
  {
    hide Delivered, Rest, Joined;
    DeliveredSnoc(cfg, true, s, d);
    JoinedSnoc(Rest(s), d);
  }

  lemma NothingInRest(cfg: Config, jumbo: bool, s: seq<Desc>)
    ensures Rest(Rest(s)) == Rest(s) && Delivered(cfg, jumbo, Rest(s)) == []
  {
    OneCut(s, Frames(s), Rest(s));
    assert Flat([]) + Rest(s) == Rest(s);
    OneCut(Rest(s), [], Rest(s));
  }

  /** What a later call hands on depends only on the frame begun and what came since: it does
      not matter where one call ended and the next began. */
  lemma {:induction false} CallsAddUp(cfg: Config, jumbo: bool, a: seq<Desc>, b: seq<Desc>)
    ensures Delivered(cfg, jumbo, a + b) == Delivered(cfg, jumbo, a) + Delivered(cfg, jumbo, Rest(a) + b)
    ensures Rest(a + b) == Rest(Rest(a) + b)
    decreases |b|
  {
    hide Delivered, Rest, Handed, Frames;
    if b == [] {
      assert a + b == a && Rest(a) + b == Rest(a);
      NothingInRest(cfg, jumbo, a);
    } else {
      var c, d := b[..|b| - 1], b[|b| - 1];
      CallsAddUp(cfg, jumbo, a, c);
      assert a + b == (a + c) + [d] && Rest(a) + b == (Rest(a) + c) + [d];
      DeliveredSnoc(cfg, jumbo, a + c, d);
      DeliveredSnoc(cfg, jumbo, Rest(a) + c, d);
      Snoc(a + c, d);
      Snoc(Rest(a) + c, d);
    }
  }

  function AllBytes(ps: seq<Packet>): seq<Byte> {
    if ps == [] then [] else AllBytes(ps[..|ps| - 1]) + ps[|ps| - 1].data
  }

  ghost predicate AllTaken(cfg: Config, fs: seq<seq<Desc>>) {
    forall f :: f in fs ==> f != [] && !Bad(cfg, f[|f| - 1]) && |Joined(f)| >= 14
  }

  /** Where no frame is refused, every byte received is handed on or kept for the frame begun,
      once and in the order received. */
  lemma {:induction false} NoByteLost(cfg: Config, s: seq<Desc>)
    requires AllTaken(cfg, Frames(s))
    ensures AllBytes(Delivered(cfg, true, s)) + Joined(Rest(s)) == Joined(s)
    decreases |s|
  {
    hide Delivered, Rest, Frames, FirstEop, Joined, AllBytes;
    if s == [] {
      EmptyStream(cfg);
    } else {
      var t, d := s[..|s| - 1], s[|s| - 1];
      assert s == t + [d];
      Snoc(t, d);
      DeliveredSnoc(cfg, true, t, d);
      assert forall f :: f in Frames(t) ==> f in Frames(s);
      NoByteLost(cfg, t);
      JoinedSnoc(t, d);
      JoinedSnoc(Rest(t), d);
      var out, f := Delivered(cfg, true, t), Rest(t) + [d];
      Reassociate(AllBytes(out), Joined(Rest(t)), d.data);
      if d.eop {
        assert Frames(s)[|Frames(t)|] == f;
        AllBytesSnoc(out, Packet(Joined(f), |Joined(f)|));
        EmptyStream(cfg);
        Reassociate(AllBytes(out), Joined(f), []);
      } else {
        Reassociate(out, [], []);
      }
    }
  }

  lemma Reassociate<T>(a: seq<T>, b: seq<T>, c: seq<T>)
    ensures a + (b + c) == (a + b) + c && a + [] == a && (a + b) + [] == a + b
  {
  }

  lemma AllBytesSnoc(ps: seq<Packet>, p: Packet)
    ensures AllBytes(ps + [p]) == AllBytes(ps) + p.data
  {
    assert (ps + [p])[..|ps|] == ps;
  }

  lemma EmptyStream(cfg: Config)
    ensures Delivered(cfg, true, []) == [] && Rest([]) == [] && Joined([]) == [] && AllBytes([]) == []
  {
  }
}
