/** The transmit functions of the driver on the ring in memory, each run without
    interruption, against the ring as a value. */
module TxRing {
  import opened Arith
  import opened Options
  import opened Paging
  import opened RingIndex
  import opened TxRingSpec

  // ---- how a packet is cut into pieces --------------------------------------------------

  function Min(a: nat, b: nat): nat { if a < b then a else b }

  /** The pieces of one part of `len` bytes, from `offset` on. */
  function Pieces(part: nat, offset: nat, len: nat, limit: nat): seq<Piece>
    requires limit > 0
    decreases len
  {
    if len == 0 then [] else
      var size := Min(len, limit);
      [Piece(part, offset, size)] + Pieces(part, offset + size, len - size, limit)
  }

  /** The pieces of fragments f.. of the packet. */
  function FragPieces(frags: seq<nat>, f: nat, limit: nat): seq<Piece>
    requires limit > 0 && f <= |frags|
    decreases |frags| - f
  {
    if f == |frags| then [] else Pieces(f + 1, 0, frags[f], limit) + FragPieces(frags, f + 1, limit)
  }

  function PacketPieces(head: nat, frags: seq<nat>, limit: nat): seq<Piece>
    requires limit > 0
  {
    Pieces(0, 0, head, limit) + FragPieces(frags, 0, limit)
  }

  function CeilSum(frags: seq<nat>, f: nat, limit: nat): nat
    requires limit > 0 && f <= |frags|
    decreases |frags| - f
  {
    if f == |frags| then 0 else CeilDiv(frags[f], limit) + CeilSum(frags, f + 1, limit)
  }

  lemma CeilStep(len: nat, limit: nat)
    requires limit > 0 && len > 0
    ensures CeilDiv(len, limit) == 1 + CeilDiv(len - Min(len, limit), limit)
  {
    if len <= limit {
      DivMod(len + limit - 1, limit, 1, len - 1);
      DivMod(limit - 1, limit, 0, limit - 1);
    } else {
      var q, r := (len - 1) / limit, (len - 1) % limit;
      assert limit * (q + 1) == limit * q + limit;
      DivMod(len + limit - 1, limit, q + 1, r);
    }
  }

  /** As many pieces as the rounded-up quotient, none empty and none above the limit; they
      follow one another without gap or overlap and end with the part. */
  lemma {:induction false} PiecesTile(part: nat, offset: nat, len: nat, limit: nat)
    requires limit > 0
    ensures var s := Pieces(part, offset, len, limit);
      && |s| == CeilDiv(len, limit)
      && (forall k :: 0 <= k < |s| ==> s[k].part == part && 0 < s[k].size <= limit)
      && (forall k :: 0 <= k < |s| ==> s[k].offset == if k == 0 then offset else s[k - 1].offset + s[k - 1].size)
      && (len > 0 ==> s != [] && s[|s| - 1].offset + s[|s| - 1].size == offset + len)
    decreases len
  {
    if len == 0 {
      DivMod(limit - 1, limit, 0, limit - 1);
    } else {
      CeilStep(len, limit);
      PiecesTile(part, offset + Min(len, limit), len - Min(len, limit), limit);
    }
  }

  lemma {:induction false} FragCount(frags: seq<nat>, f: nat, limit: nat)
    requires limit > 0 && f <= |frags|
    ensures |FragPieces(frags, f, limit)| == CeilSum(frags, f, limit)
    decreases |frags| - f
  {
    if f < |frags| {
      PiecesTile(f + 1, 0, frags[f], limit);
      FragCount(frags, f + 1, limit);
    }
  }

  /** Byte b of a part lies in exactly one piece. */
  lemma {:induction false} EveryByteOnce(part: nat, offset: nat, len: nat, limit: nat, b: nat) returns (k: nat)
    requires limit > 0 && offset <= b < offset + len
    ensures var s := Pieces(part, offset, len, limit);
      && k < |s| && s[k].offset <= b < s[k].offset + s[k].size
      && forall j :: 0 <= j < |s| && s[j].offset <= b < s[j].offset + s[j].size ==> j == k
    decreases len
  {
    var size := Min(len, limit);
    LaterPieces(part, offset + size, len - size, limit);
    if b < offset + size {
      k := 0;
    } else {
      k := EveryByteOnce(part, offset + size, len - size, limit, b);
      k := k + 1;
    }
  }

  lemma {:induction false} LaterPieces(part: nat, offset: nat, len: nat, limit: nat)
    requires limit > 0
    ensures forall p :: p in Pieces(part, offset, len, limit) ==> p.offset >= offset
    decreases len
  {
    if len > 0 { LaterPieces(part, offset + Min(len, limit), len - Min(len, limit), limit); }
  }

  // ---- the whole packet -------------------------------------------------------------------

  /** The bytes of a part: part 0 is the head, part f + 1 is fragment f. */
  function PartLength(head: nat, frags: seq<nat>, part: nat): nat
    requires part <= |frags|
  {
    if part == 0 then head else frags[part - 1]
  }

  predicate Covers(p: Piece, part: nat, b: nat) { p.part == part && p.offset <= b < p.offset + p.size }

  /** Before in the packet: in an earlier part, or earlier in the same part. */
  predicate Earlier(p: Piece, q: Piece) { p.part < q.part || (p.part == q.part && p.offset + p.size <= q.offset) }

  ghost predicate InOrder(ps: seq<Piece>) { forall j, k :: 0 <= j < k < |ps| ==> Earlier(ps[j], ps[k]) }

  /** The piece is not empty, within the limit, and inside a part that exists. */
  predicate Fits(p: Piece, head: nat, frags: seq<nat>, limit: nat) {
    p.part <= |frags| && 0 < p.size <= limit && p.offset + p.size <= PartLength(head, frags, p.part)
  }

  ghost predicate OnceCovered(ps: seq<Piece>, part: nat, b: nat) {
    exists k :: 0 <= k < |ps| && Covers(ps[k], part, b) &&
      forall j :: 0 <= j < |ps| && Covers(ps[j], part, b) ==> j == k
  }

  /** The pieces are those of the packet, in order, and each byte of each part lies in exactly
      one of them. */
  ghost predicate CarriesPacket(ps: seq<Piece>, head: nat, frags: seq<nat>, limit: nat) {
    && InOrder(ps) && (forall k :: 0 <= k < |ps| ==> Fits(ps[k], head, frags, limit))
    && (forall part: nat, b: nat :: part <= |frags| && b < PartLength(head, frags, part) ==> OnceCovered(ps, part, b))
  }

  lemma OrderJoins(a: seq<Piece>, b: seq<Piece>)
    requires InOrder(a) && InOrder(b)
    requires forall j, k :: 0 <= j < |a| && 0 <= k < |b| ==> Earlier(a[j], b[k])
    ensures InOrder(a + b)
  {
    hide Earlier;
  }

  /** The pieces of one part, taken as a part of a packet. */
  lemma {:induction false} PartInOrder(part: nat, offset: nat, len: nat, limit: nat)
    requires limit > 0
    ensures var s := Pieces(part, offset, len, limit);
      && InOrder(s) && forall k :: 0 <= k < |s| ==>
           && s[k].part == part && 0 < s[k].size <= limit
           && offset <= s[k].offset && s[k].offset + s[k].size <= offset + len
    decreases len
  {
    if len > 0 {
      var size := Min(len, limit);
      hide InOrder;
      PartInOrder(part, offset + size, len - size, limit);
      OnePiece(Piece(part, offset, size));
      OrderJoins([Piece(part, offset, size)], Pieces(part, offset + size, len - size, limit));
    }
  }

  lemma OnePiece(p: Piece)
    ensures InOrder([p])
  {
  }

  lemma {:induction false} FragsInOrder(head: nat, frags: seq<nat>, f: nat, limit: nat)
    requires limit > 0 && f <= |frags|
    ensures var s := FragPieces(frags, f, limit);
      InOrder(s) && forall k :: 0 <= k < |s| ==> f < s[k].part && Fits(s[k], head, frags, limit)
    decreases |frags| - f
  {
    if f < |frags| {
      hide InOrder, Pieces;
      PartInOrder(f + 1, 0, frags[f], limit);
      FragsInOrder(head, frags, f + 1, limit);
      OrderJoins(Pieces(f + 1, 0, frags[f], limit), FragPieces(frags, f + 1, limit));
    }
  }

  lemma {:induction false} FragByte(frags: seq<nat>, f: nat, limit: nat, part: nat, b: nat) returns (k: nat)
    requires limit > 0 && f < part <= |frags| && b < frags[part - 1]
    ensures k < |FragPieces(frags, f, limit)| && Covers(FragPieces(frags, f, limit)[k], part, b)
    decreases |frags| - f
  {
    PartInOrder(f + 1, 0, frags[f], limit);
    if part == f + 1 {
      k := EveryByteOnce(part, 0, frags[f], limit, b);
    } else {
      k := FragByte(frags, f + 1, limit, part, b);
      k := k + |Pieces(f + 1, 0, frags[f], limit)|;
    }
  }

  /** The pieces of a packet carry each of its bytes exactly once, in order. */
  lemma PacketCarried(head: nat, frags: seq<nat>, limit: nat)
    requires limit > 0
    ensures CarriesPacket(PacketPieces(head, frags, limit), head, frags, limit)
  {
    hide Pieces, FragPieces, InOrder, OnceCovered;
    var a, b := Pieces(0, 0, head, limit), FragPieces(frags, 0, limit);
    PartInOrder(0, 0, head, limit);
    FragsInOrder(head, frags, 0, limit);
    OrderJoins(a, b);
    forall part: nat, x: nat | part <= |frags| && x < PartLength(head, frags, part)
      ensures OnceCovered(a + b, part, x)
    {
      var k;
      if part == 0 {
        k := EveryByteOnce(0, 0, head, limit, x);
      } else {
        k := FragByte(frags, 0, limit, part, x);
        k := k + |a|;
      }
      CoveredOnce(a + b, part, x, k);
    }
  }

  lemma CoveredOnce(ps: seq<Piece>, part: nat, b: nat, k: nat)
    requires k < |ps| && Covers(ps[k], part, b) && InOrder(ps)
    ensures OnceCovered(ps, part, b)
  {
    hide Earlier, Covers;
    forall j | 0 <= j < |ps| && j != k ensures !Covers(ps[j], part, b) {
      if j < k { Disjoint(ps[j], ps[k], part, b); } else { Disjoint(ps[k], ps[j], part, b); }
    }
  }

  lemma Disjoint(p: Piece, q: Piece, part: nat, b: nat)
    requires Earlier(p, q)
    ensures !(Covers(p, part, b) && Covers(q, part, b))
  {
  }

  // ---- the ring in memory ---------------------------------------------------------------

  class TxRing {
    const slots: array<Slot>
    var nextToUse: nat
    var nextToClean: nat
    var used: nat         // descriptors queued so far; it names the mappings
    var stopped: bool
    ghost var r: Ring
    ghost var dmaErrors: nat // mappings that failed

    /** The memory is that of the ring `r`. */
    ghost predicate InMemory()
      reads this, slots
    {
      slots.Length == r.count && slots[..] == r.slots && r.count > 0 && used == r.use
    }

    /** And so is the producer's index. */
    ghost predicate Memory()
      reads this, slots
    {
      InMemory() && nextToUse == Pos(r.count, r.use)
    }

    ghost predicate Mirrors()
      reads this, slots
    {
      Memory() && nextToClean == Pos(r.count, r.clean)
    }

    ghost predicate Valid()
      reads this, slots
    {
      Mirrors() && RingOk(r, 0) && Building(r, r.use) && r.clean in r.cuts
    }

    constructor (count: nat)
      requires count >= 2
      ensures Valid() && fresh(slots) && r.count == count && !stopped && dmaErrors == 0
    {
      var clear := Slot(0, None, false, Piece(0, 0, 0));
      slots := new Slot[count](_ => clear);
      nextToUse, nextToClean, used, stopped := 0, 0, 0, false;
      r, dmaErrors := Ring(count, seq(count, _ => clear), 0, 0, 0, {0}, {}, {}), 0;
      new;
      EmptyOk(r);
    }

    /** e1000_tso and e1000_tx_csum. */
    method TxContext()
      requires Mirrors() && RingOk(r, 0) && Building(r, r.use) && r.use + 1 < r.clean + r.count
      modifies this`r, this`nextToUse, this`used, slots
      ensures Mirrors() && r == PutContext(old(r)) && RingOk(r, 0) && Building(r, old(r.use))
      ensures SameMarks(old(r).(use := old(r.use) + 1), r) && r.mapped == old(r.mapped) && r.unmapped == old(r.unmapped)
    {
      ContextKeeps(r);
      var i := nextToUse;
      Split(r.count, r.use);
      slots[i] := slots[i].(watch := i);
      NextPos(r.count, r.use);
      i := NextIndex(slots.Length, i);
      nextToUse, used := i, used + 1;
      r := PutContext(r);
    }

    /** The DMA mapping of a buffer, which may fail. */
    method MapBuffer() returns (ok: bool)
      modifies this`dmaErrors
      ensures dmaErrors == old(dmaErrors) + if ok then 0 else 1
    {
      ok := *;
      if !ok { dmaErrors := dmaErrors + 1; }
    }

    /** One buffer mapped into slot i, the m-th of the packet; mapping may fail. */
    method MapOne(i: nat, m: nat, piece: Piece, ghost placed: seq<Piece>) returns (ok: bool)
      requires InMemory() && RingOk(r, m) && r.use + m + 1 < r.clean + r.count && i == Pos(r.count, r.use + m)
      requires |placed| == m && Sized(r) && Placed(r, placed)
      modifies this`r, this`dmaErrors, slots
      ensures InMemory() && SameMarks(old(r), r) && r.unmapped == old(r.unmapped)
      ensures dmaErrors == old(dmaErrors) + if ok then 0 else 1
      ensures ok ==> RingOk(r, m + 1) && Placed(r, placed + [piece]) && r.mapped == old(r.mapped) + {r.use + m}
      ensures !ok ==> RingOk(r, m) && Placed(r, placed) && r.mapped == old(r.mapped)
    {
      hide RingOk, Pos;
      SizedOk(r, m);
      Split(r.count, used + m);
      ok := MapBuffer();
      if ok {
        MapKeeps(r, m, piece);
        MorePlaced(r, m, piece, placed);
        slots[i] := Slot(i, Some(used + m), slots[i].dd, piece);
        r := MapSlot(r, m, piece);
      } else {
        FailKeeps(r, m, piece, placed);
        slots[i] := Slot(i, None, slots[i].dd, piece);
        r := FailSlot(r, m, piece);
      }
    }

    /** The loop over the head: the index moves on while bytes are left. */
    method MapHead(head: nat, limit: nat) returns (ok: bool, i: nat, count: nat)
      requires Memory() && RingOk(r, 0) && limit > 0
      requires r.use + |Pieces(0, 0, head, limit)| < r.clean + r.count
      modifies this`r, this`dmaErrors, slots
      ensures dmaErrors == old(dmaErrors) + if ok then 0 else 1
      ensures InMemory() && RingOk(r, count) && SameMarks(old(r), r) && Mapped(old(r), r, count)
      ensures ok ==> count == |Pieces(0, 0, head, limit)| && Placed(r, Pieces(0, 0, head, limit))
      ensures ok ==>
        if head > 0 then count > 0 && i == Pos(r.count, r.use + count - 1) else r == old(r) && i == nextToUse
      ensures !ok ==> count < |Pieces(0, 0, head, limit)| && i == Pos(r.count, r.use + count)
    {
      hide RingOk, Pos, At, MapSlot, Put, Placed, Pieces;
      ghost var r0, all := r, Pieces(0, 0, head, limit);
      ghost var placed: seq<Piece> := [];
      var len, offset := head, 0;
      ok, i, count := true, nextToUse, 0;
      SizedOk(r, 0);
      NonePlaced(r);
      while len > 0
        invariant dmaErrors == old(dmaErrors)
        invariant InMemory() && RingOk(r, count) && SameMarks(r0, r) && Sized(r) && Mapped(r0, r, count) && ok
        invariant all == placed + Pieces(0, offset, len, limit) && (head > 0 && len == 0 ==> count > 0)
        invariant |placed| == count && Placed(r, placed) && (head == 0 ==> r == r0 && len == 0 == count)
        invariant i == if len > 0 || count == 0 then Pos(r.count, r.use + count) else Pos(r.count, r.use + count - 1)
      {
        var size := Min(len, limit);
        NextPiece(placed, 0, offset, len, limit);
        ghost var r1 := r;
        ok := MapOne(i, count, Piece(0, offset, size), placed);
        if !ok { return; }
        OneMoreMapped(r0, r1, r, count);
        SizedOk(r, count + 1);
        placed := placed + [Piece(0, offset, size)];
        len, offset, count := len - size, offset + size, count + 1;
        if len > 0 {
          NextPos(r.count, r.use + count - 1);
          i := NextIndex(slots.Length, i);
        }
      }
      NoPiece(placed, 0, offset, limit);
    }

    /** The loop over one fragment: the index moves on before each piece. `i0` is the index of
        the last slot mapped, `before` the pieces in the slots so far. */
    method MapFrag(f: nat, bytes: nat, limit: nat, i0: nat, m: nat, ghost before: seq<Piece>)
      returns (ok: bool, i: nat, count: nat)
      requires InMemory() && RingOk(r, m) && limit > 0 && r.use + m > 0 && i0 == Pos(r.count, r.use + m - 1)
      requires |before| == m && Sized(r) && Placed(r, before)
      requires r.use + m + |Pieces(f + 1, 0, bytes, limit)| < r.clean + r.count
      modifies this`r, this`dmaErrors, slots
      ensures dmaErrors == old(dmaErrors) + if ok then 0 else 1
      ensures InMemory() && RingOk(r, count) && SameMarks(old(r), r) && count >= m
      ensures r.mapped == old(r.mapped) + Span(r.use + m, r.use + count) && r.unmapped == old(r.unmapped)
      ensures ok ==> count == m + |Pieces(f + 1, 0, bytes, limit)| && Placed(r, before + Pieces(f + 1, 0, bytes, limit))
      ensures ok ==> i == Pos(r.count, r.use + count - 1)
      ensures !ok ==> count < m + |Pieces(f + 1, 0, bytes, limit)| && i == Pos(r.count, r.use + count)
    {
      hide RingOk, Pos, At, MapSlot, Put, Placed, Pieces;
      ghost var r0, all := r, before + Pieces(f + 1, 0, bytes, limit);
      ghost var placed := before;
      var len, offset := bytes, 0;
      ok, i, count := true, i0, m;
      while len > 0
        invariant dmaErrors == old(dmaErrors)
        invariant InMemory() && RingOk(r, count) && SameMarks(r0, r) && Sized(r) && ok && count >= m
        invariant r.mapped == r0.mapped + Span(r.use + m, r.use + count) && r.unmapped == r0.unmapped
        invariant all == placed + Pieces(f + 1, offset, len, limit)
        invariant |placed| == count && Placed(r, placed) && i == Pos(r.count, r.use + count - 1)
      {
        NextPos(r.count, r.use + count - 1);
        i := NextIndex(slots.Length, i);
        var size := Min(len, limit);
        NextPiece(placed, f + 1, offset, len, limit);
        ok := MapOne(i, count, Piece(f + 1, offset, size), placed);
        if !ok { return; }
        SpanMore(r.use + m, r.use + count);
        SizedOk(r, count + 1);
        placed := placed + [Piece(f + 1, offset, size)];
        len, offset, count := len - size, offset + size, count + 1;
      }
      NoPiece(placed, f + 1, offset, limit);
    }

    /** e1000_tx_map: maps head and fragments piece by piece, then lets the first slot of the
        packet watch the last. `first` is the index of its first slot, at position `start`. The
        loop over a fragment moves the index on before it maps, so a packet with an empty head
        leaves one slot out. If the mapping of piece m fails, the pieces before it are undone,
        all but the first. */
    method TxMap(first: nat, ghost start: nat, head: nat, frags: seq<nat>, limit: nat)
      returns (count: nat, ghost m: nat)
      requires Memory() && RingOk(r, 0) && Building(r, start) && first == Pos(r.count, start)
      requires limit > 0 && PacketPieces(head, frags, limit) != []
      requires r.use + LeftOut(head) + |PacketPieces(head, frags, limit)| < r.clean + r.count
      modifies this`r, this`used, this`dmaErrors, slots
      ensures dmaErrors == old(dmaErrors) + if count > 0 then 0 else 1
      ensures InMemory() && SameMarks(old(r).(use := old(r.use) + LeftOut(head)), r)
      ensures count > 0 ==> RingOk(r, count) && Placed(r, PacketPieces(head, frags, limit))
      ensures count > 0 ==>
        count == |PacketPieces(head, frags, limit)| && At(r, start).watch == Pos(r.count, r.use + count - 1)
      ensures count == 0 ==> m < |PacketPieces(head, frags, limit)|
      ensures count == 0 ==> Abandoned(old(r).(use := old(r.use) + LeftOut(head)), r, m)
    {
      hide RingOk, Pos, Pieces, Settled, MapSlot, At, Placed, Span, Building, Mapped, Abandoned;
      ghost var all := PacketPieces(head, frags, limit);
      ghost var placed := Pieces(0, 0, head, limit);
      SkipKeeps(r, start);
      PartsSum(head, frags, limit);
      ghost var r0 := r.(use := r.use + LeftOut(head));
      var ok, i;
      ok, i, count := MapHead(head, limit);
      SizedOk(r, count);
      if head == 0 {
        StillPlacedNone(r, r0, placed);
        MappedNone(r, r0);
        used, r := used + 1, r0;
      }
      SizedOk(r, count);
      m := count;
      var f := 0;
      while ok && f < |frags|
        invariant dmaErrors == old(dmaErrors) + if ok then 0 else 1
        invariant f <= |frags| && InMemory() && RingOk(r, count) && SameMarks(r0, r) && Sized(r) && Mapped(r0, r, count)
        invariant ok ==> all == placed + FragPieces(frags, f, limit)
        invariant ok ==>
          |placed| == count && Placed(r, placed) && r.use + count > 0 && i == Pos(r.count, r.use + count - 1)
        invariant !ok ==> count < |all| && i == Pos(r.count, r.use + count)
        decreases ok, |frags| - f
      {
        ghost var r1, m1 := r, count;
        ok, i, count := MapFrag(f, frags[f], limit, i, count, placed);
        MappedMore(r0, r1, r, m1, count);
        SizedOk(r, count);
        Uncut(placed, Pieces(f + 1, 0, frags[f], limit), FragPieces(frags, f + 1, limit));
        placed := placed + Pieces(f + 1, 0, frags[f], limit);
        f := f + 1;
      }
      if !ok {
        m := count;
        ghost var r1 := r;
        Unwind(i, count);
        AllButFirst(r0, r1, r, m);
        return 0, m;
      }
      assert all == placed;
      ghost var r1 := r;
      BuildingSame(r0, r, start);
      SetFirst(first, start, count, i);
      SizedOk(r, count);
      StillPlaced(r1, r, count, all);
    }

    /** The error path of e1000_tx_map: goes back from the slot that failed, for one slot less
        than were mapped. */
    method Unwind(i0: nat, m: nat)
      requires InMemory() && RingOk(r, m) && i0 == Pos(r.count, r.use + m)
      modifies this`r, slots
      ensures InMemory() && SameMarks(old(r), r) && Settled(r, if m > 0 then 1 else 0) && (m == 0 ==> r == old(r))
      ensures r.mapped == old(r.mapped) && r.unmapped == old(r.unmapped) + Span(r.use + 1, r.use + m)
    {
      hide RingOk, Pos, At, Put, Span, DropMap, Settled, Unwinding;
      ghost var r0 := r;
      SizedOk(r, m);
      NotUnwound(r, r.use + m);
      SettledAlready(r, m);
      var i, left := i0, if m > 0 then m - 1 else m;
      if m <= 1 { SpanNone(r.use + 1, r.use + m); }
      while left > 0
        invariant 0 <= left && InMemory() && Sized(r) && (m == 0 ==> left == 0) && (m > 0 ==> left < m)
        invariant m == 0 ==> r == r0
        invariant m > 0 ==> Unwinding(r0, r, r.use + left + 1, r.use + m) && i == Pos(r.count, r.use + left + 1)
        invariant SameMarks(r0, r)
      {
        left := left - 1;
        PrevPos(r.count, r.use + left + 1);
        if i == 0 { i := i + slots.Length; }
        i := i - 1;
        UnwindOne(r0, r, r.use + left + 1, r.use + m);
        slots[i] := slots[i].(dma := None);
        r := DropMap(r, r.use + left + 1);
      }
      if m > 0 { Settle(r0, r, m); }
    }

    /** The first slot of the packet watches slot `last`. */
    method SetFirst(first: nat, ghost start: nat, m: nat, last: nat)
      requires InMemory() && RingOk(r, m) && Building(r, start) && first == Pos(r.count, start)
      requires m > 0 && last == Pos(r.count, r.use + m - 1)
      modifies this`r, slots
      ensures InMemory() && RingOk(r, m) && SameMarks(old(r), r)
      ensures At(r, start).watch == Pos(r.count, r.use + m - 1)
      ensures forall q :: r.clean <= q < r.clean + r.count ==>
        At(r, q).piece == At(old(r), q).piece && At(r, q).dma == At(old(r), q).dma
    {
      hide Pos;
      WatchKeeps(r, m, start);
      Split(r.count, start);
      Split(r.count, r.use + m - 1);
      PutAt(r, start, At(r, start).(watch := last), r.clean);
      ghost var was := r;
      slots[first] := slots[first].(watch := last);
      r := SetWatch(r, start, r.use + m - 1);
      AtSame(Put(was, start, At(was, start).(watch := last)), r, r.clean);
    }

    /** e1000_tx_queue: writes the descriptors from the producer's index on and moves it behind
        them. With a slot left out the packet's last piece stays behind. */
    method TxQueue(count: nat, ghost start: nat, skipped: nat)
      requires InMemory() && nextToClean == Pos(r.count, r.clean) && RingOk(r, count) && Building(r, start)
      requires count > 0 && r.clean in r.cuts && start + skipped <= r.use && skipped <= 1
      requires nextToUse == Pos(r.count, r.use - skipped) && At(r, start).watch == Pos(r.count, r.use + count - 1)
      modifies this`r, this`nextToUse, this`used, slots
      ensures Mirrors() && r == Publish(old(r).(use := old(r.use) - skipped), count)
      ensures Adjacent(r.cuts, start, r.use) && (Valid() <==> skipped == 0)
    {
      hide RingOk, Pos, At;
      var i, left := nextToUse, count;
      SizedOk(r, count);
      while left > 0
        invariant 0 <= left <= count && InMemory() && r == old(r) && i == Pos(r.count, r.use - skipped + (count - left))
      {
        ghost var p := r.use - skipped + (count - left);
        StatusClear(r, count, start, p);
        slots[i] := slots[i].(dd := false);
        NextPos(r.count, p);
        i := NextIndex(slots.Length, i);
        left := left - 1;
      }
      if skipped == 0 { PublishKeeps(r, count, start); } else { PublishBreaks(r, count, start); }
      nextToUse, used := i, used - skipped + count;
      r := Publish(r.(use := r.use - skipped), count);
    }

    /** __e1000_maybe_stop_tx: stop, look again, start again if there is room after all. */
    method StopTx(size: nat) returns (busy: bool)
      requires Mirrors()
      modifies this`stopped
      ensures busy <==> DescUnused(slots.Length, nextToClean, nextToUse) < size
      ensures stopped <==> busy
    {
      stopped := true;
      if DescUnused(slots.Length, nextToClean, nextToUse) < size { return true; }
      stopped := false;
      busy := false;
    }

    /** e1000_maybe_stop_tx. */
    method MaybeStopTx(size: nat) returns (busy: bool)
      requires Mirrors() && size <= slots.Length
      modifies this`stopped
      ensures busy <==> DescUnused(slots.Length, nextToClean, nextToUse) < size
      ensures stopped <==> old(stopped) || busy
    {
      if DescUnused(slots.Length, nextToClean, nextToUse) >= size { return false; }
      busy := StopTx(size);
    }

    /** The second half of e1000_xmit_frame: maps the packet and queues it, or gives its slots
        back. r0 is the ring before the packet. */
    method SendOrDrop(first: nat, used0: nat, head: nat, frags: seq<nat>, limit: nat, ghost r0: Ring)
      returns (sent: bool, ghost m: nat)
      requires Mirrors() && RingOk(r, 0) && Building(r, r0.use) && first == Pos(r.count, r0.use) && used0 == r0.use
      requires RingOk(r0, 0) && Building(r0, r0.use) && r0.clean in r0.cuts && r0.use <= r.use
      requires SameMarks(r0.(use := r.use), r) && r.mapped == r0.mapped && r.unmapped == r0.unmapped
      requires limit > 0 && PacketPieces(head, frags, limit) != []
      requires r.use + LeftOut(head) + |PacketPieces(head, frags, limit)| < r.clean + r.count
      modifies this`r, this`nextToUse, this`used, this`dmaErrors, slots
      ensures dmaErrors == old(dmaErrors) + if sent then 0 else 1
      ensures Mirrors() && (Valid() <==> if sent then head > 0 else m == 0)
      ensures sent ==> Sent(r0, r, old(r.use), LeftOut(head), PacketPieces(head, frags, limit))
      ensures !sent ==> m < |PacketPieces(head, frags, limit)| && Forgotten(r0, r, old(r.use) + LeftOut(head), m)
    {
      hide RingOk, Pos, PacketPieces, At, InFlightOk, Placed, Abandoned, Forgotten, Adjacent;
      ghost var start, u := r0.use, r.use;
      ghost var r1 := r.(use := r.use + LeftOut(head));
      SkipKeeps(r, start);
      var n;
      n, m := TxMap(first, start, head, frags, limit);
      if n == 0 {
        Drop(r0, r1, r, m);
        DropOutstanding(r0, r1, r, m);
        ForgottenMarks(r0, r.(use := start), r1.use, m);
        nextToUse, used := first, used0;
        r := r.(use := start);
        return false, m;
      }
      r1 := r;
      SizedOk(r, n);
      BuildingSame(r0.(use := r.use), r, start);
      TxQueue(n, start, LeftOut(head));
      StillPlacedAt(r1, r, u, LeftOut(head), PacketPieces(head, frags, limit));
      sent := true;
    }

    /** e1000_xmit_frame: reserve, map, queue. A slot is reserved for an offload context if
        `offload`; one is used if `context`. `room` is what the next packet may need.

        A packet whose mapping fails at piece m, and no other, is dropped, and then the ring is
        in order exactly when m is 0: otherwise the first piece stays mapped in a slot that
        counts as free. A packet that is queued leaves the ring in order exactly when its head is not
        empty: otherwise its last piece sits in a slot that counts as free. */
    method Xmit(offload: bool, context: bool, head: nat, frags: seq<nat>, limit: nat, room: nat)
      returns (res: TxResult, ghost m: nat)
      requires Valid() && limit > 0 && (context ==> offload) && room <= slots.Length
      requires (if offload then 1 else 0) + |PacketPieces(head, frags, limit)| + 3 <= slots.Length
      modifies this, slots
      ensures dmaErrors == old(dmaErrors) + if res == Dropped then 1 else 0
      ensures Valid() <==> match res
        case Nothing => true
        case Busy => true
        case Queued => head > 0
        case Dropped => m == 0
      ensures var free, need := old(r.count - 1 - (r.use - r.clean)), |PacketPieces(head, frags, limit)|;
        var at := old(r.use) + if context then 1 else 0;
        && (res == Nothing <==> need == 0)
        && (res == Busy <==> need > 0 && free < (if offload then 1 else 0) + 1 + need + 2)
        && (res == Nothing ==> r == old(r) && stopped == old(stopped))
        && (res == Busy ==> r == old(r) && stopped)
        && (res == Queued ==> Sent(old(r), r, at, LeftOut(head), PacketPieces(head, frags, limit)))
        && (res == Queued ==>
              Sized(r) && InSlots(r, at + LeftOut(head), need) &&
              CarriesPacket(SlotPieces(r, at + LeftOut(head), need), head, frags, limit))
        && (res == Queued ==>
              DescUnused(r.count, nextToClean, nextToUse) == free - need - (if context then 1 else 0) >= 3)
        && (res == Queued ==> stopped == (old(stopped) || DescUnused(r.count, nextToClean, nextToUse) < room))
        && (res == Dropped ==> m < need && Forgotten(old(r), r, at + LeftOut(head), m))
        && (res == Dropped ==> Mirrors() && stopped == old(stopped))
    {
      hide RingOk, Pos, PacketPieces, At, InFlightOk, WatchOk, Placed, Adjacent, CeilDiv, CeilSum, Forgotten,
        LeftOut, Total, Sent, CarriesPacket, SlotPieces, InSlots;
      ghost var r0 := r;
      SizedOk(r, 0);
      m := 0;
      NoBytes(head, frags, limit);
      if head + Total(frags, 0) == 0 { return Nothing, m; }
      var count := (if offload then 1 else 0) + 1 + CeilDiv(head, limit) + CeilSum(frags, 0, limit);
      CountIs(head, frags, limit);
      OneLeftOut(head);
      UnusedIsFree(r.count, r.clean, r.use);
      var busy := MaybeStopTx(count + 2);
      if busy { return Busy, m; }
      var first, used0 := nextToUse, used;
      if context { TxContext(); }
      var sent;
      sent, m := SendOrDrop(first, used0, head, frags, limit, r0);
      if !sent { return Dropped, m; }
      SentMarks(r0, r, r0.use + if context then 1 else 0, LeftOut(head), PacketPieces(head, frags, limit));
      SentCarries(r0, r, r0.use + if context then 1 else 0, LeftOut(head), PacketPieces(head, frags, limit));
      PacketCarried(head, frags, limit);
      UnusedIsFree(r.count, r.clean, r.use);
      var _ := MaybeStopTx(room);
      res := Queued;
    }

    /** The hardware reports the next packet done, in its last descriptor. */
    method HardwareCompletes(b: nat)
      requires Valid() && Adjacent(r.cuts, r.done, b)
      modifies this`r, slots
      ensures Valid() && r == Complete(old(r), b) && SameMarks(old(r).(done := b), r)
    {
      hide RingOk, Pos;
      SizedOk(r, 0);
      CompleteKeeps(r, 0, b);
      Split(r.count, b - 1);
      var i := Pos(slots.Length, b - 1);
      slots[i] := slots[i].(dd := true);
      r := Complete(r, b);
    }

    /** e1000_put_txbuf and the clearing of the status, for the oldest slot. */
    method PutTxbuf(i: nat)
      requires Memory() && RingOk(r, 0) && r.clean < r.done && i == Pos(r.count, r.clean)
      modifies this`r, slots
      ensures Memory() && RingOk(r, 0) && SameMarks(old(r).(clean := old(r.clean) + 1), r)
      ensures Undone(old(r), r)
    {
      hide Pos;
      CleanKeeps(r, 0);
      CleanUndoes(r);
      Split(r.count, r.clean);
      slots[i] := slots[i].(dma := None, dd := false);
      r := CleanSlot(r);
    }

    /** The inner loop of the cleaner: slots are reclaimed up to the one with index `eop`, which
        is at position t. */
    method CleanPacket(i0: nat, eop: nat, count0: nat, ghost t: nat) returns (i: nat, count: nat)
      requires Memory() && RingOk(r, 0) && Target(r, t, eop) && i0 == Pos(r.count, r.clean)
      modifies this`r, slots
      ensures Memory() && RingOk(r, 0) && SameMarks(old(r).(clean := t + 1), r) && Undone(old(r), r)
      ensures i == Pos(r.count, r.clean) < r.count && count - count0 == r.clean - old(r.clean) > 0
      ensures r.clean in r.cuts && r.clean <= r.done
    {
      assert r.clean <= t < r.done && Pos(r.count, t) == eop && t + 1 in r.cuts;
      hide RingOk, Pos, Undone, CleanSlot, At, WatchOk, InFlightOk, Target, Bounds;
      ghost var r0 := r;
      SizedOk(r, 0);
      Split(r.count, r.clean);
      NothingUndone(r);
      i, count := i0, count0;
      var cleaned := false;
      while !cleaned
        invariant Memory() && RingOk(r, 0) && SameMarks(r0.(clean := r.clean), r)
        invariant r0.clean <= r.clean <= t + 1 && (cleaned <==> r.clean == t + 1)
        invariant count == count0 + (r.clean - r0.clean)
        invariant i == Pos(r.count, r.clean) < r.count && Undone(r0, r)
        decreases t + 1 - r.clean
      {
        cleaned := i == eop;
        if cleaned { Apart(r.count, r.clean, t); }
        ghost var r1 := r;
        PutTxbuf(i);
        MoreUndone(r0, r1, r);
        NextPos(r.count, r1.clean);
        Split(r.count, r.clean);
        i := NextIndex(slots.Length, i);
        count := count + 1;
      }
    }

    /** e1000_clean_tx_irq. All completed packets are reclaimed, each mapping of theirs is undone
        and no other; `up` says that the carrier is there and the device is not going down. */
    method CleanTx(up: bool) returns (more: bool)
      requires Valid()
      modifies this, slots
      ensures Valid() && SameMarks(old(r).(clean := old(r.done)), r) && Undone(old(r), r)
      ensures nextToUse == old(nextToUse) && more
      ensures stopped <==>
        (old(stopped) && (old(r.clean == r.done) || !up || DescUnused(r.count, nextToClean, nextToUse) < 32))
    {
      hide RingOk, Pos, Undone, WatchOk, Target, At, Building, Bounds;
      ghost var r0 := r;
      SizedOk(r, 0);
      Split(r.count, r.clean);
      NothingUndone(r);
      var count, i := 0, nextToClean;
      WatchBound(r, i);
      var eop := slots[i].watch;
      while slots[eop].dd && count < slots.Length
        invariant Memory() && RingOk(r, 0) && r.clean in r.cuts && SameMarks(r0.(clean := r.clean), r)
        invariant r0.clean <= r.clean <= r0.done && count == r.clean - r0.clean
        invariant i == Pos(r.count, r.clean) < r.count && eop == r.slots[i].watch < r.count
        invariant Undone(r0, r) && nextToUse == old(nextToUse) && stopped == old(stopped)
        decreases r0.done - r.clean
      {
        ghost var t := StatusMeansPacketEnd(r, 0, eop);
        ghost var r1 := r;
        i, count := CleanPacket(i, eop, count, t);
        MoreUndone(r0, r1, r);
        if i == nextToUse {
          Apart(r.count, r.clean, r.use);
          break;
        }
        WatchBound(r, i);
        eop := slots[i].watch;
      }
      nextToClean := i;
      AllSeen(r, 0, i);
      if count > 0 && up && DescUnused(slots.Length, nextToClean, nextToUse) >= 32 {
        if stopped { stopped := false; }
      }
      StillBuilding(r0, r);
      more := count < slots.Length;
    }
  }

  datatype TxResult = Nothing | Busy | Queued | Dropped

  /** The positions from a to b. */
  function Span(a: nat, b: nat): (s: set<nat>)
    ensures forall p: nat :: p in s <==> a <= p < b
  {
    if a >= b then {} else Span(a, b - 1) + {b - 1}
  }

  lemma SpanMore(a: nat, b: nat)
    requires a <= b
    ensures Span(a, b + 1) == Span(a, b) + {b}
  {
  }

  lemma SpanJoin(a: nat, b: nat, c: nat)
    requires a <= b <= c
    ensures Span(a, c) == Span(a, b) + Span(b, c)
  {
  }

  lemma SpanNone(a: nat, b: nat)
    requires a >= b
    ensures Span(a, b) == {}
  {
  }

  /** The next n slots have been mapped. */
  ghost predicate Mapped(r: Ring, r': Ring, n: nat) {
    r'.mapped == r.mapped + Span(r.use, r.use + n) && r'.unmapped == r.unmapped
  }

  lemma OneMoreMapped(r0: Ring, r1: Ring, r2: Ring, n: nat)
    requires Mapped(r0, r1, n) && r2.mapped == r1.mapped + {r0.use + n} && r2.unmapped == r1.unmapped
    ensures Mapped(r0, r2, n + 1)
  {
    SpanMore(r0.use, r0.use + n);
  }

  lemma MappedMore(r0: Ring, r1: Ring, r2: Ring, m: nat, n: nat)
    requires Mapped(r0, r1, m) && m <= n && r2.unmapped == r1.unmapped
    requires r2.mapped == r1.mapped + Span(r0.use + m, r0.use + n)
    ensures Mapped(r0, r2, n)
  {
    SpanJoin(r0.use, r0.use + m, r0.use + n);
  }

  lemma MappedNone(r: Ring, r': Ring)
    requires r'.mapped == r.mapped && r'.unmapped == r.unmapped
    ensures Mapped(r', r', 0)
  {
    SpanNone(r'.use, r'.use);
  }

  // ---- a mapping that fails ---------------------------------------------------------------

  /** The slot of the failed mapping: written, but with no mapping. */
  function FailSlot(r: Ring, m: nat, piece: Piece): Ring
    requires Sized(r)
  {
    var p := r.use + m;
    Split(r.count, p);
    Put(r, p, Slot(Pos(r.count, p), None, At(r, p).dd, piece))
  }

  lemma FailKeeps(r: Ring, m: nat, piece: Piece, placed: seq<Piece>)
    requires RingOk(r, m) && r.use + m + 1 < r.clean + r.count && |placed| == m && Placed(r, placed)
    ensures var r' := FailSlot(r, m, piece); RingOk(r', m) && SameMarks(r, r') && Placed(r', placed)
  {
    hide Pos, Base;
    var p := r.use + m;
    Split(r.count, p);
    PutAt(r, p, Slot(Pos(r.count, p), None, At(r, p).dd, piece), r.clean);
  }

  function DropMap(r: Ring, p: nat): Ring
    requires Sized(r)
  {
    Put(r, p, At(r, p).(dma := None)).(unmapped := r.unmapped + {p})
  }

  /** From r0 to r the mappings at positions lo..hi are undone. */
  ghost predicate Unwinding(r0: Ring, r: Ring, lo: nat, hi: nat)
    requires Sized(r0) && Sized(r)
  {
    && SameMarks(r0, r) && r.mapped == r0.mapped && r.unmapped == r0.unmapped + Span(lo, hi)
    && (forall i :: 0 <= i < r.count ==> r.slots[i].watch == r0.slots[i].watch)
    && forall q :: r.clean <= q < r.clean + r.count ==>
         At(r, q) == if lo <= q < hi then At(r0, q).(dma := None) else At(r0, q)
  }

  lemma NotUnwound(r: Ring, p: nat)
    requires Sized(r)
    ensures Unwinding(r, r, p, p)
  {
  }

  lemma UnwindOne(r0: Ring, r: Ring, p: nat, hi: nat)
    requires Sized(r0) && Sized(r) && Unwinding(r0, r, p + 1, hi) && p < hi
    requires r.clean <= p < r.clean + r.count
    ensures Unwinding(r0, DropMap(r, p), p, hi) && Pos(r.count, p) < r.count && SameMarks(r0, DropMap(r, p))
    ensures DropMap(r, p).slots == r.slots[Pos(r.count, p) := r.slots[Pos(r.count, p)].(dma := None)]
  {
    hide Pos;
    Split(r.count, p);
    PutAt(r, p, At(r, p).(dma := None), r.clean);
    AtSame(Put(r, p, At(r, p).(dma := None)), DropMap(r, p), r.clean);
    assert Span(p, hi) == Span(p + 1, hi) + {p};
  }

  lemma PrevPos(count: nat, p: nat)
    requires count > 0
    ensures Pos(count, p) < count
    ensures Pos(count, p) == if Pos(count, p + 1) == 0 then count - 1 else Pos(count, p + 1) - 1
  {
    NextPos(count, p);
    Split(count, p);
  }

  /** The invariant, except that mappings undone beyond the m slots keep their names. */
  ghost predicate Settled(r: Ring, m: nat) {
    && Sized(r) && InFlightOk(r) && MappedOk(r, m) && FreeOk(r, m) && WatchOk(r) && r.unmapped <= r.mapped
    && forall p :: p in r.mapped && p !in r.unmapped <==> r.clean <= p < r.use + m && At(r, p).dma == Some(p)
  }

  lemma Settle(r0: Ring, r: Ring, m: nat)
    requires RingOk(r0, m) && m > 0 && Sized(r) && Unwinding(r0, r, r.use + 1, r.use + m)
    ensures Settled(r, 1) && r.mapped == r0.mapped && r.unmapped == r0.unmapped + Span(r.use + 1, r.use + m)
  {
    hide Pos, At;
  }

  lemma SettledAlready(r: Ring, m: nat)
    requires RingOk(r, m)
    ensures m == 0 ==> Settled(r, 0)
  {
  }

  /** What a failed e1000_tx_map leaves behind: of the m pieces mapped only the first still is. */
  ghost predicate Abandoned(r: Ring, r': Ring, m: nat) {
    && Settled(r', if m > 0 then 1 else 0)
    && r'.mapped == r.mapped + Span(r.use, r.use + m) && r'.unmapped == r.unmapped + Span(r.use + 1, r.use + m)
  }

  lemma AllButFirst(r0: Ring, r1: Ring, r2: Ring, m: nat)
    requires Mapped(r0, r1, m) && Settled(r2, if m > 0 then 1 else 0) && r2.mapped == r1.mapped
    requires r2.unmapped == r1.unmapped + Span(r0.use + 1, r0.use + m)
    ensures Abandoned(r0, r2, m)
  {
    hide Settled;
  }

  /** The packet is gone without a trace, except that with m > 0 mapping p is not undone. */
  ghost predicate Forgotten(r: Ring, r': Ring, p: nat, m: nat) {
    && SameMarks(r, r')
    && (set q | q in r'.mapped && q !in r'.unmapped)
        == (set q | q in r.mapped && q !in r.unmapped) + if m > 0 then {p} else {}
  }

  /** Giving the slots back after a failed e1000_tx_map: r0 is the ring before the packet, r1
      the ring with its context. */
  lemma Drop(r0: Ring, r1: Ring, r: Ring, m: nat)
    requires RingOk(r0, 0) && RingOk(r1, 0) && Building(r0, r0.use) && Building(r1, r0.use) && r0.clean in r0.cuts
    requires r1.mapped == r0.mapped && SameMarks(r0.(use := r1.use), r1)
    requires SameMarks(r1, r) && Abandoned(r1, r, m)
    ensures var r' := r.(use := r0.use);
      RingOk(r', 0) && Building(r', r'.use) && r'.clean in r'.cuts <==> m == 0
  {
    hide Pos;
    var r' := r.(use := r0.use);
    AtSame(r, r', r.clean);
    if m > 0 {
      assert At(r', r.use).dma == Some(r.use);
    } else {
      assert forall p :: r0.use <= p < r.use ==> p !in r.mapped;
    }
  }

  lemma DropOutstanding(r0: Ring, r1: Ring, r: Ring, m: nat)
    requires RingOk(r0, 0) && r0.use <= r1.use && SameMarks(r0.(use := r1.use), r1) && SameMarks(r1, r)
    requires r1.mapped == r0.mapped && r1.unmapped == r0.unmapped && Abandoned(r1, r, m)
    ensures Forgotten(r0, r.(use := r0.use), r1.use, m)
  {
    hide InFlightOk, FreeOk, MappedOk, WatchOk, Settled;
  }

  lemma ForgottenMarks(r: Ring, r': Ring, p: nat, m: nat)
    requires Forgotten(r, r', p, m)
    ensures SameMarks(r, r')
  {
  }

  /** One more packet is queued: the slots from `at` on, a context before them perhaps. Its
      pieces are in the slots from at + skipped on. */
  ghost predicate Sent(r: Ring, r': Ring, at: nat, skipped: nat, ps: seq<Piece>) {
    && SameMarks(r.(use := at + |ps|, cuts := r.cuts + {at + |ps|}), r') && Adjacent(r'.cuts, r.use, r'.use)
    && Sized(r') && Placed(r'.(use := at + skipped), ps)
  }

  /** What the n slots from a position on hold. */
  ghost function SlotPieces(r: Ring, from: nat, n: nat): seq<Piece>
    requires Sized(r)
  {
    seq(n, k requires 0 <= k < n => At(r, from + k).piece)
  }

  ghost predicate InSlots(r: Ring, from: nat, n: nat)
    requires Sized(r)
  {
    forall p: nat :: from <= p < from + n ==> At(r, p).dma.Some?
  }

  lemma SentCarries(r: Ring, r': Ring, at: nat, skipped: nat, ps: seq<Piece>)
    requires Sent(r, r', at, skipped, ps)
    ensures Sized(r') && SlotPieces(r', at + skipped, |ps|) == ps && InSlots(r', at + skipped, |ps|)
  {
    hide Pos;
    var r1 := r'.(use := at + skipped);
    forall p: nat | at + skipped <= p < at + skipped + |ps|
      ensures At(r', p).piece == ps[p - at - skipped] && At(r', p).dma.Some?
    {
      var k := p - at - skipped;
      assert At(r', p) == At(r1, r1.use + k);
    }
  }

  lemma SentMarks(r: Ring, r': Ring, at: nat, skipped: nat, ps: seq<Piece>)
    requires Sent(r, r', at, skipped, ps)
    ensures SameMarks(r.(use := at + |ps|, cuts := r.cuts + {at + |ps|}), r')
  {
  }

  // ---- a packet with an empty head --------------------------------------------------------

  /** The slots that a packet with this head leaves out. */
  function LeftOut(head: nat): nat { if head == 0 then 1 else 0 }

  lemma OneLeftOut(head: nat)
    ensures LeftOut(head) <= 1
  {
  }

  /** Moving on by a free slot without using it. */
  lemma SkipKeeps(r: Ring, start: nat)
    requires RingOk(r, 0) && Building(r, start)
    ensures r.use + 1 < r.clean + r.count ==> RingOk(r.(use := r.use + 1), 0) && Building(r.(use := r.use + 1), start)
  {
    hide Pos;
    AtSame(r, r.(use := r.use + 1), r.clean);
  }

  /** No status is set from the start of the packet being built on. */
  lemma StatusClear(r: Ring, m: nat, start: nat, p: nat)
    requires RingOk(r, m) && Building(r, start) && start <= p < r.use + m
    ensures Pos(r.count, p) < r.count && !r.slots[Pos(r.count, p)].dd
    ensures r.slots[Pos(r.count, p) := r.slots[Pos(r.count, p)].(dd := false)] == r.slots
  {
    hide Pos;
    Split(r.count, p);
    assert !At(r, p).dd;
  }

  /** Publishing one slot too early leaves a mapped piece in a slot that counts as free. */
  lemma PublishBreaks(r: Ring, m: nat, start: nat)
    requires RingOk(r, m) && Building(r, start) && m > 0 && start < r.use
    ensures var r' := Publish(r.(use := r.use - 1), m);
      !RingOk(r', 0) && Adjacent(r'.cuts, start, r'.use) && At(r', r'.use).dma == Some(r'.use)
  {
    hide Pos;
    var r', p := Publish(r.(use := r.use - 1), m), r.use + m - 1;
    AtSame(r, r', r.clean);
    assert At(r, p).dma == Some(p);
    assert r'.use == p && At(r', p).dma != None;
  }

  lemma StillPlacedAt(r: Ring, r': Ring, at: nat, skipped: nat, ps: seq<Piece>)
    requires Sized(r) && r'.slots == r.slots && r'.count == r.count && r.use == at + skipped && Placed(r, ps)
    ensures Placed(r'.(use := at + skipped), ps)
  {
    AtSame(r, r'.(use := at + skipped), r.clean);
  }

  lemma StillPlacedNone(r: Ring, r': Ring, ps: seq<Piece>)
    requires Sized(r) && Sized(r')
    ensures ps == [] ==> Placed(r', ps)
  {
  }

  /** The bytes of fragments f.. of the packet. */
  function Total(frags: seq<nat>, f: nat): nat
    requires f <= |frags|
    decreases |frags| - f
  {
    if f == |frags| then 0 else frags[f] + Total(frags, f + 1)
  }

  /** A packet without bytes is one without pieces. */
  lemma NoBytes(head: nat, frags: seq<nat>, limit: nat)
    requires limit > 0
    ensures head + Total(frags, 0) == 0 <==> PacketPieces(head, frags, limit) == []
  {
    NoFragBytes(frags, 0, limit);
  }

  lemma {:induction false} NoFragBytes(frags: seq<nat>, f: nat, limit: nat)
    requires limit > 0 && f <= |frags|
    ensures Total(frags, f) == 0 <==> FragPieces(frags, f, limit) == []
    decreases |frags| - f
  {
    if f < |frags| { NoFragBytes(frags, f + 1, limit); }
  }

  /** The pieces of the head do not exceed those of the packet, and an empty head has none. */
  lemma PartsSum(head: nat, frags: seq<nat>, limit: nat)
    requires limit > 0
    ensures |Pieces(0, 0, head, limit)| <= |PacketPieces(head, frags, limit)|
    ensures (head == 0 ==> Pieces(0, 0, head, limit) == [])
  {
  }

  /** Between r and r' exactly the mappings of the cleaned slots are undone. */
  ghost predicate Undone(r: Ring, r': Ring) {
    r'.mapped == r.mapped && r'.unmapped == r.unmapped + set p | p in r.mapped && r.clean <= p < r'.clean
  }

  lemma NothingUndone(r: Ring)
    ensures Undone(r, r)
  {
  }

  lemma MoreUndone(r0: Ring, r1: Ring, r2: Ring)
    requires Undone(r0, r1) && Undone(r1, r2) && r0.clean <= r1.clean <= r2.clean
    ensures Undone(r0, r2)
  {
  }

  lemma CleanUndoes(r: Ring)
    requires RingOk(r, 0) && r.clean < r.done
    ensures Undone(r, CleanSlot(r))
  {
    hide Pos;
  }

  lemma WatchBound(r: Ring, i: nat)
    requires RingOk(r, 0) && i < r.count
    ensures |r.slots| == r.count && r.slots[i].watch < r.count
  {
  }

  /** When the first slot in flight watches a clear status, nothing completed is left. */
  lemma AllSeen(r: Ring, m: nat, i: nat)
    requires RingOk(r, m) && r.clean in r.cuts && i == Pos(r.count, r.clean)
    ensures Sized(r) && r.clean <= r.done && i < r.count
    ensures r.clean < r.done ==> r.slots[i].watch < r.count && r.slots[r.slots[i].watch].dd
  {
    hide Pos;
    Split(r.count, r.clean);
    if r.clean < r.done { CompletionSeen(r, m); }
  }

  lemma BuildingSame(r: Ring, r': Ring, start: nat)
    requires Building(r, start) && SameMarks(r, r')
    ensures Building(r', start)
  {
  }

  lemma StillBuilding(r: Ring, r': Ring)
    requires Building(r, r.use) && SameMarks(r.(clean := r'.clean), r') && r'.clean <= r'.use
    ensures Building(r', r'.use)
  {
  }

  /** The mapped slots from `use` on hold the given pieces. */
  ghost predicate Placed(r: Ring, ps: seq<Piece>)
    requires Sized(r)
  {
    forall k :: 0 <= k < |ps| ==> At(r, r.use + k).piece == ps[k] && At(r, r.use + k).dma.Some?
  }

  lemma MorePlaced(r: Ring, m: nat, piece: Piece, placed: seq<Piece>)
    requires Bounds(r, m) && r.use + m + 1 < r.clean + r.count && |placed| == m && Placed(r, placed)
    ensures Placed(MapSlot(r, m, piece), placed + [piece])
  {
    hide Pos;
    var p := r.use + m;
    Split(r.count, p);
    var s := Slot(Pos(r.count, p), Some(p), At(r, p).dd, piece);
    PutAt(r, p, s, r.clean);
    AtSame(Put(r, p, s), MapSlot(r, m, piece), r.clean);
  }

  lemma StillPlaced(r: Ring, r': Ring, m: nat, ps: seq<Piece>)
    requires Bounds(r, m) && |ps| == m && Placed(r, ps) && Sized(r') && r'.count == r.count
    requires forall q :: r.clean <= q < r.clean + r.count ==>
      At(r', q).piece == At(r, q).piece && At(r', q).dma == At(r, q).dma
    ensures Placed(r'.(use := r.use), ps)
  {
    AtSame(r', r'.(use := r.use), r.clean);
  }

  lemma SizedOk(r: Ring, m: nat)
    requires RingOk(r, m)
    ensures Bounds(r, m)
  {
  }

  lemma NextPiece(placed: seq<Piece>, part: nat, offset: nat, len: nat, limit: nat)
    requires limit > 0 && len > 0
    ensures var size := Min(len, limit);
      && placed + Pieces(part, offset, len, limit)
          == (placed + [Piece(part, offset, size)]) + Pieces(part, offset + size, len - size, limit)
      && |Pieces(part, offset, len, limit)| == 1 + |Pieces(part, offset + size, len - size, limit)|
  {
  }

  lemma NoPiece(placed: seq<Piece>, part: nat, offset: nat, limit: nat)
    requires limit > 0
    ensures placed + Pieces(part, offset, 0, limit) == placed
  {
  }

  lemma NonePlaced(r: Ring)
    requires Sized(r)
    ensures Placed(r, [])
  {
  }

  lemma Uncut(a: seq<Piece>, b: seq<Piece>, c: seq<Piece>)
    ensures a + (b + c) == (a + b) + c
  {
  }

  lemma CountIs(head: nat, frags: seq<nat>, limit: nat)
    requires limit > 0
    ensures |PacketPieces(head, frags, limit)| == CeilDiv(head, limit) + CeilSum(frags, 0, limit)
  {
    PiecesTile(0, 0, head, limit);
    FragCount(frags, 0, limit);
  }

  lemma EmptyOk(r: Ring)
    requires r.count >= 2 && |r.slots| == r.count && r.clean == r.done == r.use == 0 && r.cuts == {0}
    requires r.mapped == {} == r.unmapped
    requires forall i :: 0 <= i < r.count ==> r.slots[i].watch == 0 && r.slots[i].dma == None && !r.slots[i].dd
    ensures RingOk(r, 0)
  {
    hide Pos;
    forall p | 0 <= p < r.count ensures !At(r, p).dd && At(r, p).dma == None {
      Split(r.count, p);
    }
  }
}
