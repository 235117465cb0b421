/** Handing a DHCP command block to the management firmware through its host-interface RAM. */
module HostInterface {

  import opened Bytes

  const RAM_BYTES: nat := 0x700
  const MAX_DATA_LENGTH: nat := 0x6F8
  const HEADER_BYTES: nat := 8
  const DHCP_TX_PAYLOAD_CMD: Byte := 64

  /** The sum of some bytes, before it is cut to 8 bits. */
  function Total(s: seq<Byte>): nat {
    if s == [] then 0 else Total(s[..|s| - 1]) + s[|s| - 1]
  }

  lemma {:induction false} TotalConcat(s: seq<Byte>, t: seq<Byte>)
    ensures Total(s + t) == Total(s) + Total(t)
  {
    if t == [] {
      assert s + t == s;
    } else {
      assert (s + t)[..|s + t| - 1] == s + t[..|t| - 1];
      TotalConcat(s, t[..|t| - 1]);
    }
  }

  /** The first multiple of 4 at or after n. */
  function RoundUp(n: nat): nat { (n + 3) / 4 * 4 }

  /** The RAM after `data` is written at `offset`: the data at its place, zeros up to the end
      of the last dword touched, everything else as it was. */
  function Patched(ram: seq<Byte>, offset: nat, data: seq<Byte>): (r: seq<Byte>)
    requires RoundUp(offset + |data|) <= |ram|
    ensures |r| == |ram|
  {
    seq(|ram|, k requires 0 <= k < |ram| =>
      if offset <= k < offset + |data| then data[k - offset]
      else if offset + |data| <= k < RoundUp(offset + |data|) then 0
      else ram[k])
  }

  /** The RAM after its first p payload bytes are in place. */
  function Filled(ram: seq<Byte>, offset: nat, buffer: seq<Byte>, p: nat): (r: seq<Byte>)
    requires offset + p <= |ram| && p <= |buffer|
    ensures |r| == |ram|
  {
    ram[..offset] + buffer[..p] + ram[offset + p..]
  }

  function WithDword(ram: seq<Byte>, d: nat, data: seq<Byte>): (r: seq<Byte>)
    requires 4 * d + 4 <= |ram| && |data| == 4
    ensures |r| == |ram|
  {
    ram[..4 * d] + data + ram[4 * d + 4..]
  }

  /** A dword whose bytes from j0 on are the next n of the buffer, then zeros. */
  ghost predicate Gathered(data: seq<Byte>, old': seq<Byte>, j0: nat, n: nat, buffer: seq<Byte>, p: nat)
    requires j0 + n <= 4 && p + n <= |buffer| && |old'| == 4
  {
    |data| == 4 && forall j :: 0 <= j < 4 ==>
      data[j] == if j < j0 then old'[j] else if j < j0 + n then buffer[p + (j - j0)] else 0
  }

  lemma FillFirst(ram: seq<Byte>, offset: nat, d: nat, buffer: seq<Byte>, data: seq<Byte>)
    requires 4 * d <= offset < 4 * d + 4 <= |ram| && 4 * d + 4 - offset <= |buffer|
    requires Gathered(data, ram[4 * d..4 * d + 4], offset - 4 * d, 4 * d + 4 - offset, buffer, 0)
    ensures WithDword(ram, d, data) == Filled(ram, offset, buffer, 4 * d + 4 - offset)
  {
  }

  lemma FillNext(ram: seq<Byte>, offset: nat, d: nat, buffer: seq<Byte>, p: nat, data: seq<Byte>, was: seq<Byte>)
    requires 4 * d == offset + p && 4 * d + 4 <= |ram| && p + 4 <= |buffer| && |was| == 4
    requires Gathered(data, was, 0, 4, buffer, p)
    ensures WithDword(Filled(ram, offset, buffer, p), d, data) == Filled(ram, offset, buffer, p + 4)
  {
  }

  lemma RoundUpIs(n: nat, d: nat, r: nat)
    requires n == 4 * d + r && r < 4
    ensures RoundUp(n) == if r > 0 then 4 * d + 4 else 4 * d
  {
  }

  lemma FillLast(ram: seq<Byte>, offset: nat, d: nat, buffer: seq<Byte>, p: nat, n: nat, data: seq<Byte>,
      was: seq<Byte>)
    requires 4 * d == offset + p && 4 * d + 4 <= |ram| && 0 < n < 4 && p + n <= |buffer| && |was| == 4
    requires RoundUp(offset + (p + n)) == 4 * d + 4 && Gathered(data, was, 0, n, buffer, p)
    ensures WithDword(Filled(ram, offset, buffer, p), d, data) == Patched(ram, offset, buffer[..p + n])
  {
    hide RoundUp;
    var w, r := WithDword(Filled(ram, offset, buffer, p), d, data), Patched(ram, offset, buffer[..p + n]);
    forall k | 0 <= k < |ram| ensures w[k] == r[k] {
      if 4 * d <= k < 4 * d + 4 { assert w[k] == data[k - 4 * d]; }
    }
  }

  lemma FillExact(ram: seq<Byte>, offset: nat, buffer: seq<Byte>, p: nat)
    requires offset + p <= |ram| && p <= |buffer| && RoundUp(offset + p) == offset + p
    ensures Filled(ram, offset, buffer, p) == Patched(ram, offset, buffer[..p])
  {
    hide RoundUp;
  }

  /** What is left of a sum in 8 bits. */
  function Cut(n: nat): Byte { n % 256 }

  lemma CutAdd(a: nat, b: nat)
    ensures Cut(Cut(a) + b) == Cut(a + b)
  {
  }

  lemma {:induction false} TotalSnoc(s: seq<Byte>, k: nat)
    requires k < |s|
    ensures Total(s[..k + 1]) == Total(s[..k]) + s[k]
  {
    assert s[..k + 1][..k] == s[..k];
  }

  /** The checksum that brings the sum of the bytes to 0 in 8 bits. */
  method CalculateChecksum(buffer: seq<Byte>) returns (checksum: Byte)
    ensures Cut(Total(buffer) + checksum) == 0
  {
    hide Cut, Total;
    var sum: Byte := 0;
    ZeroTotal(buffer);
    for i := 0 to |buffer|
      invariant sum == Cut(Total(buffer[..i]))
    {
      CutAdd(Total(buffer[..i]), buffer[i]);
      TotalSnoc(buffer, i);
      sum := Cut(sum + buffer[i]);
    }
    assert buffer[..|buffer|] == buffer;
    Complement(Total(buffer));
    return Cut(256 - sum);
  }

  lemma ZeroTotal(s: seq<Byte>)
    ensures Total([]) == 0 && Cut(0) == 0 && s[..0] == []
  {
  }

  lemma Complement(n: nat)
    ensures Cut(n + Cut(256 - Cut(n))) == 0
  {
  }

  lemma SmallCut(b: Byte)
    ensures Cut(b) == b
  {
  }

  function Taken(j: nat, j0: nat, n: nat): nat
    requires j0 <= j
  {
    if j - j0 < n then j - j0 else n
  }

  lemma RoundFits(n: nat)
    requires n <= MAX_DATA_LENGTH
    ensures RoundUp(n) <= RAM_BYTES
  {
  }

  lemma FillNothing(ram: seq<Byte>, offset: nat, buffer: seq<Byte>)
    requires offset <= |ram|
    ensures Filled(ram, offset, buffer, 0) == ram
  {
  }

  lemma GatheredLength(data: seq<Byte>, was: seq<Byte>, j0: nat, n: nat, buffer: seq<Byte>, p: nat)
    requires j0 + n <= 4 && p + n <= |buffer| && |was| == 4 && Gathered(data, was, j0, n, buffer, p)
    ensures |data| == 4
  {
  }

  lemma {:induction false} TotalGrows(s: seq<Byte>, p: nat, n: nat)
    requires p + n <= |s|
    ensures Total(s[..p + n]) >= Total(s[..p])
  {
    if n > 0 {
      TotalGrows(s, p, n - 1);
      TotalSnoc(s, p + n - 1);
    }
  }

  lemma MoreSum(sum: Byte, buffer: seq<Byte>, p: nat, n: nat)
    requires p + n <= |buffer|
    ensures Total(buffer[..p + n]) >= Total(buffer[..p])
    ensures Cut(Cut(sum + Total(buffer[..p])) + (Total(buffer[..p + n]) - Total(buffer[..p]))) ==
      Cut(sum + Total(buffer[..p + n]))
  {
    hide Total;
    TotalGrows(buffer, p, n);
    CutAdd(sum + Total(buffer[..p]), Total(buffer[..p + n]) - Total(buffer[..p]));
  }

  datatype Outcome = Written | Refused | RunAway

  /** An unaligned write that ends inside its first dword. */
  predicate TooShort(length: nat, offset: nat) { offset % 4 != 0 && length < 4 - offset % 4 }

  /** The 16-bit length left after the first dword is the true one exactly when the write
      reaches the end of that dword. */
  lemma ShortUnalignedWrite(length: nat, prevBytes: nat)
    requires 0 < length < 0x1_0000 && 0 < prevBytes < 4
    ensures length >= 4 - prevBytes ==> (length - (4 - prevBytes)) % 0x1_0000 == length - (4 - prevBytes)
    ensures length < 4 - prevBytes ==> (length - (4 - prevBytes)) % 0x1_0000 > RAM_BYTES + 3
  {
  }

  class HostIf {
    const ram: array<Byte>
    var pending: bool

    ghost predicate Valid() { ram.Length == RAM_BYTES }

    constructor ()
      ensures Valid() && fresh(ram) && !pending
    {
      ram := new Byte[RAM_BYTES](_ => 0);
      pending := false;
    }

    method WriteDword(i: nat, data: seq<Byte>)
      requires Valid() && 4 * i + 4 <= RAM_BYTES && |data| == 4
      modifies ram
      ensures ram[..] == WithDword(old(ram[..]), i, data)
    {
      ram[4 * i], ram[4 * i + 1], ram[4 * i + 2], ram[4 * i + 3] := data[0], data[1], data[2], data[3];
    }

    /** Takes n bytes of the buffer into a dword, from byte j0 of the dword on; the rest of
        the dword is zero. The sum follows all bytes taken. */
    method Gather(data: seq<Byte>, j0: nat, n: nat, buffer: seq<Byte>, p: nat, sum: Byte)
      returns (data': seq<Byte>, sum': Byte)
      requires |data| == 4 && j0 + n <= 4 && p + n <= |buffer|
      ensures Gathered(data', data, j0, n, buffer, p)
      ensures Total(buffer[..p + n]) >= Total(buffer[..p])
      ensures sum' == Cut(sum + (Total(buffer[..p + n]) - Total(buffer[..p])))
    {
      hide Cut, Total;
      data', sum' := data, sum;
      SmallCut(sum);
      var j := j0;
      while j < 4
        invariant j0 <= j <= 4 && |data'| == 4
        invariant forall i :: 0 <= i < 4 ==>
          data'[i] == if i < j0 || i >= j then data[i] else if i < j0 + n then buffer[p + (i - j0)] else 0
        invariant Total(buffer[..p + Taken(j, j0, n)]) >= Total(buffer[..p])
        invariant sum' == Cut(sum + (Total(buffer[..p + Taken(j, j0, n)]) - Total(buffer[..p])))
      {
        ghost var t := Total(buffer[..p + Taken(j, j0, n)]) - Total(buffer[..p]);
        if j - j0 < n {
          TotalSnoc(buffer, p + (j - j0));
          data' := data'[j := buffer[p + (j - j0)]];
        } else {
          data' := data'[j := 0];
        }
        CutAdd(sum + t, data'[j]);
        sum' := Cut(sum' + data'[j]);
        j := j + 1;
      }
    }

    /** The part of a write before its last, incomplete dword: fills up an incomplete first
        dword, then writes whole dwords. The length left is a 16-bit number; `ok` is false if
        the loop runs out of the buffer or the RAM. */
    method WriteWhole(buffer: seq<Byte>, length: nat, offset: nat, sum: Byte)
      returns (ok: bool, p: nat, dword: nat, sum': Byte)
      requires Valid() && 0 < length <= |buffer| && offset + length <= MAX_DATA_LENGTH
      modifies ram
      ensures ok <==> !TooShort(length, offset)
      ensures ok ==> p <= length < p + 4 && 4 * dword == offset + p
      ensures ok ==> ram[..] == Filled(old(ram[..]), offset, buffer, p)
      ensures ok ==> sum' == Cut(sum + Total(buffer[..p]))
    {
      hide Cut, Total, Filled, WithDword, Gathered;
      SmallCut(sum);
      ZeroTotal(buffer);
      ghost var ram0, short := ram[..], TooShort(length, offset);
      FillNothing(ram0, offset, buffer);
      var prevBytes := offset % 4;
      var rest := length;
      ok, p, dword, sum' := true, 0, offset / 4, sum;
      var data: seq<Byte> := [0, 0, 0, 0];
      if prevBytes > 0 {
        if 4 - prevBytes > |buffer| { return false, p, dword, sum'; }
        data := ram[4 * dword..4 * dword + 4];
        data, sum' := Gather(data, prevBytes, 4 - prevBytes, buffer, 0, sum');
        FillFirst(ram0, offset, dword, buffer, data);
        GatheredLength(data, ram[4 * dword..4 * dword + 4], prevBytes, 4 - prevBytes, buffer, 0);
        WriteDword(dword, data);
        ShortUnalignedWrite(length, prevBytes);
        p, dword, rest := 4 - prevBytes, dword + 1, (length - (4 - prevBytes)) % 0x1_0000;
      }
      while rest >= 4
        invariant |data| == 4 && 0 <= rest && 4 * dword <= RAM_BYTES
        invariant short ==> 4 * dword + rest > RAM_BYTES + 3
        invariant !short ==> p <= length && rest == length - p && 4 * dword == offset + p
        invariant !short ==> ram[..] == Filled(ram0, offset, buffer, p)
        invariant !short ==> sum' == Cut(sum + Total(buffer[..p]))
      {
        if p + 4 > |buffer| || 4 * dword + 4 > RAM_BYTES { return false, p, dword, sum'; }
        ghost var was := data;
        data, sum' := Gather(data, 0, 4, buffer, p, sum');
        GatheredLength(data, was, 0, 4, buffer, p);
        if !short {
          MoreSum(sum, buffer, p, 4);
          FillNext(ram0, offset, dword, buffer, p, data, was);
        }
        WriteDword(dword, data);
        dword, p, rest := dword + 1, p + 4, rest - 4;
      }
    }

    /** Writes `length` bytes of the buffer at `offset`. An unaligned write that does not fill its
        first dword, and no other, makes the length wrap and the loop run away. */
    method Write(buffer: seq<Byte>, length: nat, offset: nat, sum: Byte) returns (res: Outcome, sum': Byte)
      requires Valid() && length <= |buffer|
      modifies ram
      ensures res == Refused <==> length == 0 || offset + length > MAX_DATA_LENGTH
      ensures res == RunAway <==> 0 < length && offset + length <= MAX_DATA_LENGTH && TooShort(length, offset)
      ensures res == Refused ==> ram[..] == old(ram[..]) && sum' == sum
      ensures res == Written ==> ram[..] == Patched(old(ram[..]), offset, buffer[..length])
      ensures res == Written ==> sum' == Cut(sum + Total(buffer[..length]))
    {
      hide Cut, Total, Patched, Filled, WithDword, Gathered, RoundUp, TooShort;
      if length == 0 || offset + length > MAX_DATA_LENGTH { return Refused, sum; }
      ghost var ram0 := ram[..];
      RoundFits(offset + length);
      var ok, p, dword;
      ok, p, dword, sum' := WriteWhole(buffer, length, offset, sum);
      if !ok { return RunAway, sum'; }
      var remaining := length - p;
      RoundUpIs(offset + length, dword, remaining);
      if remaining > 0 {
        var was: seq<Byte> := [0, 0, 0, 0];
        var data;
        data, sum' := Gather(was, 0, remaining, buffer, p, sum');
        MoreSum(sum, buffer, p, remaining);
        GatheredLength(data, was, 0, remaining, buffer, p);
        WriteDword(dword, data);
        FillLast(ram0, offset, dword, buffer, p, remaining, data, was);
      } else {
        FillExact(ram0, offset, buffer, p);
      }
      res := Written;
    }

    /** The header with its checksum completed goes to the start of the RAM. */
    method WriteCmdHeader(hdr: seq<Byte>) returns (checksum: Byte)
      requires Valid() && |hdr| == HEADER_BYTES
      modifies ram
      ensures ram[..] == hdr[1 := checksum] + old(ram[HEADER_BYTES..])
      ensures Cut(Total(hdr) + checksum) == 0
    {
      checksum := CalculateChecksum(hdr);
      var written := hdr[1 := checksum];
      WriteDword(0, written[0..4]);
      WriteDword(1, written[4..8]);
    }
  }

  lemma TotalWith(hdr: seq<Byte>, c: Byte)
    requires |hdr| == HEADER_BYTES
    ensures Total(hdr[1 := c]) == Total(hdr) - hdr[1] + c
  {
    assert hdr == hdr[..1] + [hdr[1]] + hdr[2..] && hdr[1 := c] == hdr[..1] + [c] + hdr[2..];
    TotalConcat(hdr[..1], [hdr[1]]);
    TotalConcat(hdr[..1], [c]);
    TotalConcat(hdr[..1] + [hdr[1]], hdr[2..]);
    TotalConcat(hdr[..1] + [c], hdr[2..]);
  }

  /** A whole command: payload, header, and the bit that tells the firmware. */
  method WriteDhcpInfo(h: HostIf, enabled: bool, buffer: seq<Byte>, length: nat) returns (err: bool)
    requires h.Valid() && length <= |buffer| && length < 0x1_0000
    modifies h, h.ram
    ensures err <==> !enabled || length == 0 || HEADER_BYTES + length > MAX_DATA_LENGTH
    ensures err ==> h.ram[..] == old(h.ram[..]) && h.pending == old(h.pending)
    ensures !err ==>
      h.pending && Cut(Total(h.ram[..HEADER_BYTES]) + Total(h.ram[HEADER_BYTES..HEADER_BYTES + length])) == 0
    ensures !err ==> h.ram[HEADER_BYTES..] == Patched(old(h.ram[..]), HEADER_BYTES, buffer[..length])[HEADER_BYTES..]
    ensures !err ==> h.ram[0] == DHCP_TX_PAYLOAD_CMD && h.ram[2..8] == [0, 0, 0, 0, length % 256, length / 256]
  {
    hide Patched, Total;
    var hdr: seq<Byte> := [DHCP_TX_PAYLOAD_CMD, 0, 0, 0, 0, 0, length % 256, length / 256];
    if !enabled { return true; }
    var res, sum;
    res, sum := h.Write(buffer, length, HEADER_BYTES, hdr[1]);
    if res != Written { return true; }
    hdr := hdr[1 := sum];
    ghost var ram1 := h.ram[..];
    var checksum := h.WriteCmdHeader(hdr);
    CommandSum(hdr, checksum, buffer[..length]);
    CommandLayout(hdr[1 := checksum], ram1, h.ram[..], old(h.ram[..]), buffer[..length]);
    h.pending := true;
    err := false;
  }

  /** The header started out with the payload's sum in its checksum byte. */
  lemma CommandSum(hdr: seq<Byte>, c: Byte, payload: seq<Byte>)
    requires |hdr| == HEADER_BYTES && hdr[1] == Cut(Total(payload)) && Cut(Total(hdr) + c) == 0
    ensures Cut(Total(hdr[1 := c]) + Total(payload)) == 0
  {
    TotalWith(hdr, c);
  }

  lemma CommandLayout(written: seq<Byte>, ram1: seq<Byte>, ram: seq<Byte>, ram0: seq<Byte>, payload: seq<Byte>)
    requires |written| == HEADER_BYTES && |ram0| == RAM_BYTES && HEADER_BYTES + |payload| <= MAX_DATA_LENGTH
    requires ram1 == Patched(ram0, HEADER_BYTES, payload) && ram == written + ram1[HEADER_BYTES..]
    ensures ram[..HEADER_BYTES] == written && ram[HEADER_BYTES..HEADER_BYTES + |payload|] == payload
    ensures ram[HEADER_BYTES..] == ram1[HEADER_BYTES..]
  {
    assert forall k :: 0 <= k < |payload| ==> ram[HEADER_BYTES + k] == ram1[HEADER_BYTES + k] == payload[k];
  }
}
