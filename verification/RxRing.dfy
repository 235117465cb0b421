/** The receive ring: descriptors filled by the hardware are taken in order, put together into
    frames and handed on, and their buffers are given back. */
module RxRing {
  import opened Options
  import opened Paging
  import opened RingIndex
  import opened RxFrames

  const BUFFER_WRITE: nat := 16
  const ETH_HLEN: nat := 14

  /** A descriptor and its buffer_info: status, what the hardware wrote, whether there is an
      skb and whether it is mapped for the hardware. */
  datatype RxSlot = RxSlot(dd: bool, desc: Desc, skb: bool, mapped: bool)

  ghost predicate SlotOk(x: RxSlot, stream: seq<Desc>, use: nat, p: nat) {
    && (x.dd <==> p < |stream|) && (p < |stream| ==> x.desc == stream[p])
    && (x.mapped <==> p < use) && (p < use ==> x.skb)
  }

  /** `stream` is all the hardware has written so far. Positions `clean`..|stream| wait to be
      taken, positions |stream|..`use` belong to the hardware, the others have no buffer mapped. */
  ghost predicate Geometry(s: seq<RxSlot>, stream: seq<Desc>, clean: nat, use: nat) {
    && |s| >= 2 && clean <= |stream| <= use < clean + |s|
    && forall p: nat :: clean <= p < clean + |s| ==> SlotOk(SlotAt(s, p), stream, use, p)
  }

  /** The length of the packet handed on last. */
  function LastLength(ps: seq<Packet>): nat { if ps == [] then 0 else ps[|ps| - 1].length }

  lemma FillKeeps(s: seq<RxSlot>, stream: seq<Desc>, clean: nat, use: nat, d: Desc)
    requires Geometry(s, stream, clean, use) && |stream| < use
    ensures Geometry(WithSlot(s, |stream|, SlotAt(s, |stream|).(dd := true, desc := d)), stream + [d], clean, use)
  {
    hide Pos, SlotAt, WithSlot;
    WithSlotAt(s, |stream|, SlotAt(s, |stream|).(dd := true, desc := d), clean);
  }

  lemma TakeKeeps(s: seq<RxSlot>, stream: seq<Desc>, clean: nat, use: nat, x: RxSlot)
    requires Geometry(s, stream, clean, use) && clean < |stream| && !x.dd && !x.mapped
    ensures Geometry(WithSlot(s, clean, x), stream, clean + 1, use)
  {
    hide Pos;
    WithSlotAt(s, clean, x, clean);
    SamePos(|s|, clean, clean + |s|, 1);
    assert SlotAt(WithSlot(s, clean, x), clean + |s|) == SlotAt(WithSlot(s, clean, x), clean);
  }

  lemma RefillKeeps(s: seq<RxSlot>, stream: seq<Desc>, clean: nat, use: nat)
    requires Geometry(s, stream, clean, use) && use + 1 < clean + |s|
    ensures Geometry(WithSlot(s, use, SlotAt(s, use).(skb := true, mapped := true)), stream, clean, use + 1)
  {
    hide Pos, SlotAt, WithSlot;
    WithSlotAt(s, use, SlotAt(s, use).(skb := true, mapped := true), clean);
  }

  /** The slot at a position of the window. */
  lemma WindowSlot(s: seq<RxSlot>, stream: seq<Desc>, clean: nat, use: nat, p: nat)
    requires Geometry(s, stream, clean, use) && clean <= p < clean + |s|
    ensures Pos(|s|, p) < |s| && SlotOk(s[Pos(|s|, p)], stream, use, p) && s[Pos(|s|, p)] == SlotAt(s, p)
  {
    hide Pos;
    Split(|s|, p);
    assert SlotOk(SlotAt(s, p), stream, use, p);
  }

  class RxRing {
    const slots: array<RxSlot>
    const cfg: Config
    const jumbo: bool
    const copybreak: nat  // packets below this length are copied
    var nextToUse: nat
    var nextToClean: nat
    var discarding: bool
    var rxTop: Option<seq<Byte>>
    var delivered: seq<Packet>
    var failures: nat     // buffers that could not be allocated or mapped
    var copyErrors: nat   // copies of small packets that could not be allocated
    var stream: seq<Desc> // all the hardware has written
    var use: nat          // buffers given to it so far
    ghost var clean: nat  // descriptors taken so far

    ghost predicate Memory()
      reads this, slots
    {
      && Geometry(slots[..], stream, clean, use)
      && nextToUse == Pos(slots.Length, use)
    }

    /** What is handed on after the first n descriptors: what their complete frames call for.
        What is kept is the frame begun. */
    ghost predicate Handled(n: nat)
      reads this
    {
      && n <= |stream| && delivered == Delivered(cfg, jumbo, stream[..n])
      && (jumbo ==> rxTop == if Rest(stream[..n]) == [] then None else Some(Joined(Rest(stream[..n]))))
      && (!jumbo ==> (discarding <==> Rest(stream[..n]) != []))
    }

    ghost predicate Valid()
      reads this, slots
    {
      Memory() && Handled(clean) && nextToClean == Pos(slots.Length, clean)
    }

    constructor (count: nat, cfg: Config, jumbo: bool, copybreak: nat)
      requires count >= 2
      ensures Valid() && fresh(slots) && slots.Length == count && this.cfg == cfg && this.jumbo == jumbo
      ensures stream == [] && delivered == [] && use == 0
    {
      var clear := RxSlot(false, Desc(false, false, []), false, false);
      slots := new RxSlot[count](_ => clear);
      this.cfg, this.jumbo, this.copybreak := cfg, jumbo, copybreak;
      nextToUse, nextToClean, discarding, rxTop, delivered := 0, 0, false, None, [];
      failures, copyErrors := 0, 0;
      stream, clean, use := [], 0, 0;
      new;
      EmptyOk(slots[..]);
    }

    /** The hardware writes the next descriptor, if it has been given a buffer. */
    method Receive(d: Desc) returns (taken: bool)
      requires Memory()
      modifies this`stream, slots
      ensures Memory() && (taken <==> old(|stream|) < use)
      ensures stream == old(stream) + (if taken then [d] else [])
    {
      hide Geometry, Pos;
      Bounds(slots[..], stream, clean, use);
      if |stream| < use {
        FillKeeps(slots[..], stream, clean, use, d);
        WindowSlot(slots[..], stream, clean, use, |stream|);
        var i := Pos(slots.Length, |stream|);
        slots[i] := slots[i].(dd := true, desc := d);
        stream := stream + [d];
        taken := true;
      } else {
        taken := false;
      }
    }

    /** The hardware writes any number of descriptors meanwhile. */
    method Meanwhile()
      requires Memory() && Handled(clean)
      modifies this`stream, slots
      ensures Memory() && Handled(clean) && old(stream) <= stream
    {
      hide Geometry, Delivered, Rest;
      var more: bool := *;
      Bounds(slots[..], stream, clean, use);
      while more && |stream| < use
        invariant Memory() && old(stream) <= stream && |stream| <= use
        decreases use - |stream|
      {
        var d: Desc := *;
        var _ := Receive(d);
        Bounds(slots[..], stream, clean, use);
        more := *;
      }
      assert stream[..clean] == old(stream)[..clean];
    }

    /** The allocation of a copy, which may fail. */
    method AllocCopy() returns (ok: bool)
      modifies this`copyErrors
      ensures copyErrors == old(copyErrors) + if ok then 0 else 1
    {
      ok := *;
      if !ok { copyErrors := copyErrors + 1; }
    }

    /** The allocation or mapping of a buffer, which may fail. */
    method AllocBuffer() returns (ok: bool)
      modifies this`failures
      ensures failures == old(failures) + if ok then 0 else 1
    {
      ok := *;
      if !ok { failures := failures + 1; }
    }

    /** One descriptor of e1000_clean_rx_irq. `keep`: its skb stays with the slot, which it does
        unless it has itself been handed on and not copied. */
    method PlainDescriptor(d: Desc) returns (keep: bool)
      requires !jumbo && Handled(clean) && clean < |stream| && d == stream[clean]
      modifies this`discarding, this`delivered, this`copyErrors
      ensures Handled(clean + 1)
      ensures if delivered == old(delivered) then keep else
        keep == (LastLength(delivered) < copybreak && copyErrors == old(copyErrors))
    {
      hide Delivered, Rest, Frames, Joined, Geometry;
      NextTaken(stream, clean);
      Snoc(stream[..clean], d);
      DeliveredSnoc(cfg, jumbo, stream[..clean], d);
      if !d.eop { discarding := true; }
      if discarding {
        if d.eop { discarding := false; }
        return true;
      }
      if d.err && !cfg.rxAll { return true; }
      var length := |d.data|;
      if !cfg.crcStripping && !cfg.keepFcs {
        length := (length - 4) % 0x1_0000_0000;
      }
      keep := false;
      if length < copybreak { keep := AllocCopy(); }
      delivered := delivered + [Packet(d.data, length)];
    }

    /** One descriptor of e1000_clean_jumbo_rx_irq. Its skb stays with the slot if it is not the
        first of its chain or the chain is refused. */
    method JumboDescriptor(d: Desc) returns (keep: bool)
      requires jumbo && Handled(clean) && clean < |stream| && d == stream[clean]
      modifies this`rxTop, this`delivered
      ensures Handled(clean + 1)
      ensures keep == (Rest(stream[..clean]) != [] || (d.eop && d.err && !cfg.rxAll))
    {
      hide Delivered, Rest, Frames, Joined, Geometry;
      NextTaken(stream, clean);
      Snoc(stream[..clean], d);
      DeliveredSnoc(cfg, jumbo, stream[..clean], d);
      JoinedSnoc(Rest(stream[..clean]), d);
      if d.eop && d.err && !cfg.rxAll {
        rxTop := None;
        return true;
      }
      if !d.eop {
        keep := rxTop.Some?;
        rxTop := Some(if rxTop.Some? then rxTop.value + d.data else d.data);
        return;
      }
      var data := d.data;
      keep := rxTop.Some?;
      if rxTop.Some? {
        data := rxTop.value + d.data;
        rxTop := None;
      }
      if |data| >= ETH_HLEN {
        delivered := delivered + [Packet(data, |data|)];
      }
    }

    /** e1000_alloc_rx_buffers: up to n slots are given a buffer; the first failure ends it. */
    method AllocRxBuffers(n: nat)
      requires Memory() && use + n < clean + slots.Length
      modifies this`nextToUse, this`use, this`failures, slots
      ensures Memory() && old(use) <= use <= old(use) + n
      ensures failures == old(failures) + if use == old(use) + n then 0 else 1
    {
      hide Geometry, Pos;
      var i, left := nextToUse, n;
      Bounds(slots[..], stream, clean, use);
      while left > 0
        invariant 0 <= left <= n && use == old(use) + (n - left) && failures == old(failures)
        invariant Geometry(slots[..], stream, clean, use) && i == Pos(slots.Length, use)
      {
        Bounds(slots[..], stream, clean, use);
        WindowSlot(slots[..], stream, clean, use, use);
        if !slots[i].skb {
          var ok := AllocBuffer();
          if !ok { break; }
        }
        var mapped := AllocBuffer();
        if !mapped { break; }
        RefillKeeps(slots[..], stream, clean, use);
        slots[i] := slots[i].(skb := true, mapped := true);
        NextPos(slots.Length, use);
        use := use + 1;
        i := NextIndex(slots.Length, i);
        left := left - 1;
      }
      nextToUse := i;
    }

    /** The loop that e1000_clean_rx_irq and e1000_clean_jumbo_rx_irq share; the hardware goes on
        writing while it runs. */
    method CleanRx(done: nat, budget: nat) returns (workDone: nat, cleaned: bool)
      requires Valid()
      modifies this, slots
      ensures Valid() && old(stream) <= stream
      ensures workDone - done == clean - old(clean) >= 0 && (cleaned <==> clean > old(clean))
      ensures workDone <= budget || workDone == done
      ensures workDone < budget ==> clean == |stream|
      ensures failures == old(failures) ==> use == clean + slots.Length - 1
    {
      hide Geometry, Pos, Delivered, Rest;
      var i, cleanedCount := nextToClean, 0;
      workDone, cleaned := done, false;
      Meanwhile();
      Bounds(slots[..], stream, clean, use);
      var dd := ReadStatus(i);
      while dd
        invariant Memory() && Handled(clean) && slots.Length >= 2
        invariant i == Pos(slots.Length, clean) && (dd ==> clean < |stream|) && (!dd ==> clean == |stream|)
        invariant old(stream) <= stream && failures >= old(failures) && use + cleanedCount < clean + slots.Length
        invariant workDone - done == clean - old(clean) >= 0 && (cleaned <==> clean > old(clean))
        invariant workDone <= budget || workDone == done
        decreases budget - workDone
      {
        if workDone >= budget { break; }
        workDone := workDone + 1;
        Take(i);
        NextPos(slots.Length, clean - 1);
        i := NextIndex(slots.Length, i);
        cleaned := true;
        cleanedCount := cleanedCount + 1;
        if cleanedCount >= BUFFER_WRITE {
          AllocRxBuffers(cleanedCount);
          cleanedCount := 0;
        }
        Meanwhile();
        dd := ReadStatus(i);
      }
      nextToClean := i;
      Bounds(slots[..], stream, clean, use);
      UnusedIsFree(slots.Length, clean, use);
      cleanedCount := DescUnused(slots.Length, nextToClean, nextToUse);
      if cleanedCount > 0 { AllocRxBuffers(cleanedCount); }
    }

    /** Whether the descriptor at `clean` is done. */
    method ReadStatus(i: nat) returns (dd: bool)
      requires Memory() && i == Pos(slots.Length, clean)
      ensures if dd then clean < |stream| else clean == |stream|
    {
      hide Geometry, Pos;
      Bounds(slots[..], stream, clean, use);
      WindowSlot(slots[..], stream, clean, use, clean);
      dd := slots[i].dd;
    }

    /** One round of the loop. The slot has a buffer, mapped until now; its status is cleared. */
    method Take(i: nat)
      requires Memory() && Handled(clean) && clean < |stream| && i == Pos(slots.Length, clean)
      modifies this`clean, this`discarding, this`rxTop, this`delivered, this`copyErrors, slots
      ensures Memory() && Handled(clean) && clean == old(clean) + 1
      ensures i < slots.Length && slots[i].skb ==
        if jumbo
        then Rest(stream[..old(clean)]) != [] || (stream[old(clean)].eop && stream[old(clean)].err && !cfg.rxAll)
        else delivered == old(delivered)
             || (LastLength(delivered) < copybreak && copyErrors == old(copyErrors))
    {
      hide Geometry, Pos, Delivered, Rest;
      Bounds(slots[..], stream, clean, use);
      WindowSlot(slots[..], stream, clean, use, clean);
      var s := slots[i];
      assert s.skb && s.mapped;
      var keep: bool;
      if jumbo { keep := JumboDescriptor(s.desc); } else { keep := PlainDescriptor(s.desc); }
      TakeKeeps(slots[..], stream, clean, use, RxSlot(false, s.desc, keep, false));
      slots[i] := RxSlot(false, s.desc, keep, false);
      clean := clean + 1;
    }
  }

  lemma NextTaken(s: seq<Desc>, n: nat)
    requires n < |s|
    ensures s[..n + 1] == s[..n] + [s[n]]
  {
  }

  lemma Bounds(s: seq<RxSlot>, stream: seq<Desc>, clean: nat, use: nat)
    requires Geometry(s, stream, clean, use)
    ensures |s| >= 2 && clean <= |stream| <= use < clean + |s|
  {
  }

  lemma EmptyOk(s: seq<RxSlot>)
    requires |s| >= 2 && forall i :: 0 <= i < |s| ==> !s[i].dd && !s[i].mapped
    ensures Geometry(s, [], 0, 0)
  {
    hide Pos;
    forall p: nat | p < |s| ensures SlotOk(SlotAt(s, p), [], 0, p) {
      Split(|s|, p);
    }
  }
}
