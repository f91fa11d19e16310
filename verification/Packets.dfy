/** The slices of a stream packet (src/packet.h, lines 142-242). */
module Packets {
  import opened Bytes
  import opened Options

  const MAX_SLICES := 20

  /** Where a slice is in the packet, what type octet and flags it has, and how long its payload is. */
  datatype Slice = Slice(kind: Byte, flag: nat, payloadLen: nat, offset: nat)
  {
    function End(): nat {
      offset + 3 + payloadLen
    }
  }

  /** The slice whose header is at place ptr: a type, five flags, and an eleven-bit length. */
  function SliceAt(packet: seq<Byte>, ptr: nat): (s: Slice)
    requires ptr + 3 <= |packet|
  {
    Slice(packet[ptr], packet[ptr + 1] / 8 * 8, packet[ptr + 1] % 8 * 256 + Low(packet[ptr + 2]), ptr)
  }

  function Low(x: Byte): nat {
    x
  }

  /** The slices lie one after another from place begin to place end, each with its header. */
  ghost predicate Tiles(packet: seq<Byte>, slices: seq<Slice>, begin: nat, end: nat) {
    if slices == [] then begin == end else
    var last := slices[|slices| - 1];
    && last.offset + 3 <= |packet| && last == SliceAt(packet, last.offset) && last.End() == end <= |packet|
    && Tiles(packet, slices[..|slices| - 1], begin, last.offset)
  }

  /** The headers decide the slices. */
  lemma {:induction false} TilesUnique(packet: seq<Byte>, s: seq<Slice>, t: seq<Slice>, begin: nat, k: nat, endS: nat, endT: nat)
    requires Tiles(packet, s, begin, endS) && Tiles(packet, t, begin, endT) && k <= |s| && k <= |t|
    ensures s[..k] == t[..k]
    ensures |s| == k ==> endS == EndOf(t, begin, k)
    decreases k, |s| + |t|
  {
    if |s| > k {
      TilesUnique(packet, s[..|s| - 1], t, begin, k, s[|s| - 1].offset, endT);
      assert s[..|s| - 1][..k] == s[..k];
    } else if |t| > k {
      TilesUnique(packet, s, t[..|t| - 1], begin, k, endS, t[|t| - 1].offset);
      assert t[..|t| - 1][..k] == t[..k];
    } else if k > 0 {
      TilesUnique(packet, s[..k - 1], t[..k - 1], begin, k - 1, s[k - 1].offset, t[k - 1].offset);
      assert s[..k - 1][..k - 1] == s[..k - 1] && t[..k - 1][..k - 1] == t[..k - 1];
      EndOfTiles(packet, t[..k - 1], begin, t[k - 1].offset);
      EndOfTiles(packet, s[..k - 1], begin, s[k - 1].offset);
      assert s == s[..k - 1] + [s[k - 1]] && t == t[..k - 1] + [t[k - 1]];
    }
  }

  function EndOf(slices: seq<Slice>, begin: nat, k: nat): nat
    requires k <= |slices|
  {
    if k == 0 then begin else slices[k - 1].End()
  }

  lemma EndOfTiles(packet: seq<Byte>, slices: seq<Slice>, begin: nat, end: nat)
    requires Tiles(packet, slices, begin, end)
    ensures EndOf(slices, begin, |slices|) == end
  {
  }

  /** The packet behind its header is one to twenty slices and nothing else, as their headers say. */
  ghost predicate IsSliced(packet: seq<Byte>, hdrlen: nat, slices: seq<Slice>) {
    1 <= |slices| <= MAX_SLICES && Tiles(packet, slices, hdrlen, |packet|)
  }

  /** A slice to be written: its type octet, five flags, and its payload. */
  datatype Content = Content(kind: Byte, flags: nat, payload: seq<Byte>)
  {
    predicate Valid() {
      flags < 32 && |payload| < 2048
    }
  }

  /** The octets of a slice: its type, its flags above the three high bits of its length, the low bits, and its payload. */
  function Written(x: Content): (w: seq<Byte>)
    requires x.Valid()
    ensures |w| == 3 + |x.payload|
  {
    [x.kind, x.flags * 8 + |x.payload| / 256, |x.payload| % 256] + x.payload
  }

  /** Slices written one after another. */
  function WrittenAll(xs: seq<Content>): seq<Byte>
    requires forall x :: x in xs ==> x.Valid()
  {
    if xs == [] then [] else WrittenAll(xs[..|xs| - 1]) + Written(xs[|xs| - 1])
  }

  /** The slices are those of the contents, written from place begin on. */
  ghost predicate Describe(slices: seq<Slice>, xs: seq<Content>, begin: nat) {
    && |slices| == |xs| && (forall x :: x in xs ==> x.Valid())
    && forall k {:trigger slices[k]} :: 0 <= k < |xs| ==>
         slices[k] == Slice(xs[k].kind, 8 * xs[k].flags, |xs[k].payload|, begin + |WrittenAll(xs[..k])|)
  }

  /** The packet is a header and one to twenty slices, written one after another. */
  ghost predicate IsPacket(packet: seq<Byte>, hdrlen: nat, slices: seq<Slice>) {
    && hdrlen <= |packet| && 1 <= |slices| <= MAX_SLICES
    && exists xs :: Describe(slices, xs, hdrlen) && packet[hdrlen..] == WrittenAll(xs)
  }

  /** The content of the slice at a place. */
  function ContentAt(packet: seq<Byte>, s: Slice): Content
    requires s.End() <= |packet|
  {
    Content(packet[s.offset], packet[s.offset + 1] / 8, packet[s.offset + 3..s.End()])
  }

  /** A slice whose header is at its place is written there. */
  lemma SliceIsWritten(packet: seq<Byte>, s: Slice)
    requires s.offset + 3 <= |packet| && s == SliceAt(packet, s.offset) && s.End() <= |packet|
    ensures var x := ContentAt(packet, s);
            && x.Valid() && Written(x) == packet[s.offset..s.End()] && s == Slice(x.kind, 8 * x.flags, |x.payload|, s.offset)
  {
    var x := ContentAt(packet, s);
    assert packet[s.offset..s.End()] == packet[s.offset..s.offset + 3] + packet[s.offset + 3..s.End()];
  }

  /** A slice written at its place has its header there. */
  lemma WrittenIsSlice(packet: seq<Byte>, x: Content, s: Slice)
    requires x.Valid() && s == Slice(x.kind, 8 * x.flags, |x.payload|, s.offset)
    requires s.End() <= |packet| && Written(x) == packet[s.offset..s.End()]
    ensures s == SliceAt(packet, s.offset)
  {
    var w := packet[s.offset..s.End()];
    assert w[0] == packet[s.offset] && w[1] == packet[s.offset + 1] && w[2] == packet[s.offset + 2];
  }

  /** Slices that lie one after another are contents written one after another. */
  lemma {:induction false} TilesAreWritten(packet: seq<Byte>, slices: seq<Slice>, begin: nat, end: nat) returns (xs: seq<Content>)
    requires Tiles(packet, slices, begin, end) && end <= |packet|
    ensures begin <= end && Describe(slices, xs, begin) && packet[begin..end] == WrittenAll(xs)
    decreases |slices|
  {
    xs := [];
    if slices != [] {
      var last, front := slices[|slices| - 1], slices[..|slices| - 1];
      var before := TilesAreWritten(packet, front, begin, last.offset);
      SliceIsWritten(packet, last);
      var x := ContentAt(packet, last);
      xs := before + [x];
      assert |WrittenAll(before)| == last.offset - begin && slices == front + [last];
      DescribeNext(front, before, begin, last, x);
      assert packet[begin..end] == packet[begin..last.offset] + packet[last.offset..end];
    }
  }

  lemma DescribeNext(slices: seq<Slice>, xs: seq<Content>, begin: nat, s: Slice, x: Content)
    requires Describe(slices, xs, begin) && x.Valid() && s == Slice(x.kind, 8 * x.flags, |x.payload|, begin + |WrittenAll(xs)|)
    ensures Describe(slices + [s], xs + [x], begin) && WrittenAll(xs + [x]) == WrittenAll(xs) + Written(x)
  {
    var all := xs + [x];
    assert all[..|xs|] == xs;
    forall k | 0 <= k < |all|
      ensures (slices + [s])[k] == Slice(all[k].kind, 8 * all[k].flags, |all[k].payload|, begin + |WrittenAll(all[..k])|)
    {
      if k < |xs| {
        assert all[..k] == xs[..k];
      }
    }
  }

  /** Contents written one after another are slices that lie one after another. */
  lemma {:induction false} WrittenAreTiles(packet: seq<Byte>, slices: seq<Slice>, xs: seq<Content>, begin: nat, end: nat)
    requires begin <= end <= |packet| && Describe(slices, xs, begin) && packet[begin..end] == WrittenAll(xs)
    ensures Tiles(packet, slices, begin, end)
    decreases |slices|
  {
    if slices != [] {
      var n := |slices| - 1;
      var last, front, before := slices[n], slices[..n], xs[..n];
      var w := packet[begin..end];
      assert w == WrittenAll(before) + Written(xs[n]);
      assert packet[begin..last.offset] == w[..last.offset - begin] == WrittenAll(before);
      assert packet[last.offset..end] == w[last.offset - begin..] == Written(xs[n]);
      forall k | 0 <= k < n
        ensures before[..k] == xs[..k]
      {
      }
      WrittenIsSlice(packet, xs[n], last);
      WrittenAreTiles(packet, front, before, begin, last.offset);
    }
  }

  /** The two ways to say what the slices of a packet are. */
  lemma PacketIffSliced(packet: seq<Byte>, hdrlen: nat, slices: seq<Slice>)
    requires hdrlen <= |packet|
    ensures IsPacket(packet, hdrlen, slices) <==> IsSliced(packet, hdrlen, slices)
  {
    assert packet[hdrlen..] == packet[hdrlen..|packet|];
    if IsSliced(packet, hdrlen, slices) {
      var xs := TilesAreWritten(packet, slices, hdrlen, |packet|);
    }
    if IsPacket(packet, hdrlen, slices) {
      var xs :| Describe(slices, xs, hdrlen) && packet[hdrlen..] == WrittenAll(xs);
      WrittenAreTiles(packet, slices, xs, hdrlen, |packet|);
    }
  }

  lemma TilesNext(packet: seq<Byte>, slices: seq<Slice>, begin: nat, end: nat)
    requires Tiles(packet, slices, begin, end) && end + 3 <= |packet| && SliceAt(packet, end).End() <= |packet|
    ensures Tiles(packet, slices + [SliceAt(packet, end)], begin, SliceAt(packet, end).End())
  {
    assert (slices + [SliceAt(packet, end)])[..|slices|] == slices;
  }

  /** Any other slicing of the packet begins with the slices found so far. */
  lemma OtherBegins(packet: seq<Byte>, hdrlen: nat, slices: seq<Slice>, end: nat, other: seq<Slice>)
    requires Tiles(packet, slices, hdrlen, end) && IsSliced(packet, hdrlen, other)
    ensures end < |packet| ==> end + 3 <= |packet| && SliceAt(packet, end).End() <= |packet|
    ensures end < |packet| ==> |other| > |slices| && other[|slices|] == SliceAt(packet, end)
    ensures end == |packet| ==> other == slices
  {
    if |other| <= |slices| {
      TilesUnique(packet, other, slices, hdrlen, |other|, |packet|, end);
      EndsIncrease(packet, slices, hdrlen, end, |other|);
      assert other == other[..|other|] && slices == slices[..|slices|];
    } else {
      var k := |slices|;
      TilesUnique(packet, slices, other, hdrlen, k, end, |packet|);
      EndsIncrease(packet, other, hdrlen, |packet|, k);
      EndsIncrease(packet, other, hdrlen, |packet|, k + 1);
    }
  }

  /** Each slice begins where the one before ends, and ends later. */
  lemma {:induction false} EndsIncrease(packet: seq<Byte>, slices: seq<Slice>, begin: nat, end: nat, k: nat)
    requires Tiles(packet, slices, begin, end) && k <= |slices|
    ensures EndOf(slices, begin, k) <= end && (k < |slices| ==> EndOf(slices, begin, k) < end)
    ensures k > 0 ==> slices[k - 1].offset == EndOf(slices, begin, k - 1) && slices[k - 1].offset + 3 <= |packet|
    ensures k > 0 ==> slices[k - 1] == SliceAt(packet, slices[k - 1].offset)
    decreases |slices|
  {
    var n := |slices|;
    if n > 0 {
      if k < n {
        EndsIncrease(packet, slices[..n - 1], begin, slices[n - 1].offset, k);
      } else {
        EndsIncrease(packet, slices[..n - 1], begin, slices[n - 1].offset, n - 1);
        EndOfTiles(packet, slices[..n - 1], begin, slices[n - 1].offset);
      }
    }
  }

  /** Finds the slices of a packet: the one way to slice it, or none if there is none. */
  method GenStreamPacketDesc(packet: seq<Byte>, hdrlen: nat) returns (r: Option<seq<Slice>>)
    requires hdrlen <= |packet|
    ensures forall slices :: IsPacket(packet, hdrlen, slices) <==> r == Some(slices)
  {
    r := FindSlices(packet, hdrlen);
    forall slices
      ensures IsPacket(packet, hdrlen, slices) <==> r == Some(slices)
    {
      PacketIffSliced(packet, hdrlen, slices);
      if r.Some? && IsSliced(packet, hdrlen, slices) {
        SlicedOnce(packet, hdrlen, slices, r.value);
      }
    }
  }

  /** There is one way to slice a packet at most. */
  lemma SlicedOnce(packet: seq<Byte>, hdrlen: nat, s: seq<Slice>, t: seq<Slice>)
    requires IsSliced(packet, hdrlen, s) && IsSliced(packet, hdrlen, t)
    ensures s == t
  {
    OtherBegins(packet, hdrlen, s, |packet|, t);
  }

  /** The loop over the slices. */
  method FindSlices(packet: seq<Byte>, hdrlen: nat) returns (r: Option<seq<Slice>>)
    requires hdrlen <= |packet|
    ensures r.Some? ==> IsSliced(packet, hdrlen, r.value)
    ensures r.None? ==> forall slices :: !IsSliced(packet, hdrlen, slices)
  {
    var ptr: nat, slices := hdrlen, [];
    while true
      invariant |slices| < MAX_SLICES && Tiles(packet, slices, hdrlen, ptr) && (slices != [] ==> ptr < |packet|)
      decreases MAX_SLICES - |slices|
    {
      forall other | IsSliced(packet, hdrlen, other)
        ensures ptr < |packet| ==> ptr + 3 <= |packet| && SliceAt(packet, ptr).End() <= |packet|
        ensures ptr == |packet| ==> other == slices
      {
        OtherBegins(packet, hdrlen, slices, ptr, other);
      }
      if ptr + 3 > |packet| {
        return None;
      }
      var s := SliceAt(packet, ptr);
      ptr := ptr + s.payloadLen + 3;
      if ptr > |packet| {
        return None;
      }
      TilesNext(packet, slices, hdrlen, s.offset);
      slices := slices + [s];
      if |slices| >= MAX_SLICES {
        if ptr != |packet| {
          forall other | IsSliced(packet, hdrlen, other)
            ensures |other| > |slices|
          {
            OtherBegins(packet, hdrlen, slices, ptr, other);
          }
          return None;
        }
        return Some(slices);
      }
      if ptr == |packet| {
        return Some(slices);
      }
    }
  }

  /** A slice of a frame. With symSize 0 the payload is the whole frame; otherwise it is symNum symbols from symESI on. */
  datatype FrameSlice = FrameSlice(stmType: nat, frmType: nat, fid: nat, frmLen: nat, symSize: nat, symNum: nat, symESI: nat, payload: seq<Byte>)

  function Net16(packet: seq<Byte>, ptr: nat): nat
    requires ptr + 2 <= |packet|
  {
    Join16(packet[ptr + 1], packet[ptr])
  }

  /** A slice without error correction has a payload; one with it has at least one symbol of at least one octet, and
      its payload is exactly its symbols. */
  ghost predicate ValidSlice(d: FrameSlice) {
    && d.stmType < 3 && d.frmType < 4 && d.fid < 65536 && d.payload != []
    && if d.symSize == 0 then d.frmLen == |d.payload| && d.symNum == 0 && d.symESI == 0xFFFF else
         d.symSize < 256 && 1 <= d.symNum < 65536 && d.symESI < 65536 && d.frmLen < 65536 && |d.payload| == d.symSize * d.symNum
  }

  /** A number below 65536 in two octets. */
  function Octets16(x: nat): (b: seq<Byte>)
    requires x < 65536
    ensures |b| == 2 && Net16(b, 0) == x
  {
    [x / 256, x % 256]
  }

  /** What follows the three header octets of a slice. */
  ghost function SliceBody(d: FrameSlice): seq<Byte>
    requires ValidSlice(d)
  {
    if d.symSize == 0 then Octets16(d.fid) + d.payload else
    [d.symSize] + Octets16(d.fid) + Octets16(d.frmLen) + Octets16(d.symESI) + Octets16(d.symNum) + d.payload
  }

  /** The packet carries d in the slice: its first octet has a zero bit, the types, and one if there is error
      correction, and its payload is the body of d. */
  ghost predicate Carries(packet: seq<Byte>, slice: Slice, d: FrameSlice)
    requires slice.End() <= |packet|
  {
    && ValidSlice(d) && packet[slice.offset] % 128 == d.stmType * 16 + d.frmType * 4 + (if d.symSize == 0 then 0 else 1)
    && packet[slice.offset + 3..slice.End()] == SliceBody(d)
  }

  /** The fields of the first octet. */
  lemma OctetFields(first: Byte, s: nat, t: nat, x: nat)
    requires s < 4 && t < 4 && x < 4 && first % 128 == s * 16 + t * 4 + x
    ensures first / 64 % 2 == 0 && first / 16 % 4 == s && first / 4 % 4 == t && first % 4 == x
  {
    var q := first / 128;
    assert first == 128 * q + 16 * s + 4 * t + x;
    assert first / 4 == 32 * q + 4 * s + t && first / 16 == 8 * q + s && first / 64 == 2 * q;
  }

  /** The first octet has no others. */
  lemma FieldsOctet(first: Byte)
    requires first / 64 % 2 == 0
    ensures first % 128 == first / 16 % 4 * 16 + first / 4 % 4 * 4 + first % 4
  {
    var q, s, t := first / 128, first / 16 % 4, first / 4 % 4;
    assert first / 64 == 2 * q && first / 16 == 4 * (first / 64) + s && first / 4 == 4 * (first / 16) + t;
  }

  lemma FirstOctet(packet: seq<Byte>, slice: Slice, d: FrameSlice)
    requires slice.End() <= |packet| && Carries(packet, slice, d)
    ensures var first := packet[slice.offset];
            first / 16 % 4 == d.stmType && first / 64 % 2 == 0 && first / 4 % 4 == d.frmType && first % 4 == if d.symSize == 0 then 0 else 1
  {
    OctetFields(packet[slice.offset], d.stmType, d.frmType, if d.symSize == 0 then 0 else 1);
  }

  /** Where the fields are in the octets of a body. */
  lemma BodyFields(b: seq<Byte>, d: FrameSlice)
    requires ValidSlice(d) && b == SliceBody(d)
    ensures d.symSize == 0 ==> |b| > 2 && Net16(b, 0) == d.fid && b[2..] == d.payload
    ensures d.symSize > 0 ==>
              && |b| > 9 && b[0] == d.symSize && Net16(b, 1) == d.fid && Net16(b, 3) == d.frmLen && Net16(b, 5) == d.symESI
              && Net16(b, 7) == d.symNum && b[9..] == d.payload
  {
    if d.symSize > 0 {
      var head := [d.symSize] + Octets16(d.fid) + Octets16(d.frmLen) + Octets16(d.symESI) + Octets16(d.symNum);
      assert b == head + d.payload && |head| == 9;
      assert forall k :: 0 <= k < 9 ==> b[k] == head[k];
    }
  }

  /** A slice carries one content at most. */
  lemma CarriesOne(packet: seq<Byte>, slice: Slice, d: FrameSlice, e: FrameSlice)
    requires slice.End() <= |packet| && Carries(packet, slice, d) && Carries(packet, slice, e)
    ensures d == e
  {
    var b := packet[slice.offset + 3..slice.End()];
    FirstOctet(packet, slice, d);
    FirstOctet(packet, slice, e);
    BodyFields(b, d);
    BodyFields(b, e);
  }

  /** The octets of a body are those of the fields read from it. */
  lemma PlainBody(b: seq<Byte>, d: FrameSlice)
    requires ValidSlice(d) && d.symSize == 0 && |b| > 2 && Net16(b, 0) == d.fid && b[2..] == d.payload
    ensures b == SliceBody(d)
  {
    assert b == b[..2] + b[2..] && b[..2] == Octets16(d.fid);
  }

  lemma Octets16At(b: seq<Byte>, ptr: nat, x: nat)
    requires ptr + 2 <= |b| && x < 65536 && Net16(b, ptr) == x
    ensures b[ptr..ptr + 2] == Octets16(x)
  {
  }

  lemma FecBody(b: seq<Byte>, d: FrameSlice)
    requires ValidSlice(d) && d.symSize > 0 && |b| > 9 && b[0] == d.symSize && Net16(b, 1) == d.fid && Net16(b, 3) == d.frmLen
    requires Net16(b, 5) == d.symESI && Net16(b, 7) == d.symNum && b[9..] == d.payload
    ensures b == SliceBody(d)
  {
    Octets16At(b, 1, d.fid);
    Octets16At(b, 3, d.frmLen);
    Octets16At(b, 5, d.symESI);
    Octets16At(b, 7, d.symNum);
    NinePlus(b);
  }

  lemma NinePlus(b: seq<Byte>)
    requires |b| > 9
    ensures b == [b[0]] + b[1..3] + b[3..5] + b[5..7] + b[7..9] + b[9..]
  {
  }

  /** What the octets of a slice that carries something look like. */
  ghost predicate HasFields(packet: seq<Byte>, slice: Slice)
    requires slice.End() <= |packet|
  {
    var first, b := packet[slice.offset], packet[slice.offset + 3..slice.End()];
    && first / 16 % 4 < 3 && first / 64 % 2 == 0 && first % 4 < 2
    && (first % 4 == 0 ==> |b| > 2) && (first % 4 == 1 ==> |b| > 9 && |b| - 9 == b[0] * Net16(b, 7))
  }

  lemma NothingCarried(packet: seq<Byte>, slice: Slice)
    requires slice.End() <= |packet| && !HasFields(packet, slice)
    ensures forall d :: !Carries(packet, slice, d)
  {
    forall d
      ensures !Carries(packet, slice, d)
    {
      if Carries(packet, slice, d) {
        FirstOctet(packet, slice, d);
        BodyFields(packet[slice.offset + 3..slice.End()], d);
      }
    }
  }

  /** A slice without error correction, read from the packet. */
  lemma PlainCarried(packet: seq<Byte>, slice: Slice, d: FrameSlice)
    requires slice.End() <= |packet| && ValidSlice(d) && d.symSize == 0 && TypesRead(packet[slice.offset], d)
    requires slice.offset + 5 < slice.End() && Net16(packet, slice.offset + 3) == d.fid && packet[slice.offset + 5..slice.End()] == d.payload
    ensures Carries(packet, slice, d)
  {
    FieldsOctet(packet[slice.offset]);
    PlainBody(packet[slice.offset + 3..slice.End()], d);
  }

  /** A slice with error correction, read from the packet. */
  lemma FecCarried(packet: seq<Byte>, slice: Slice, d: FrameSlice)
    requires slice.End() <= |packet| && ValidSlice(d) && d.symSize > 0 && TypesRead(packet[slice.offset], d)
    requires slice.offset + 12 < slice.End() && packet[slice.offset + 3] == d.symSize
    requires Net16(packet, slice.offset + 4) == d.fid && Net16(packet, slice.offset + 6) == d.frmLen
    requires Net16(packet, slice.offset + 8) == d.symESI && Net16(packet, slice.offset + 10) == d.symNum
    requires packet[slice.offset + 12..slice.End()] == d.payload
    ensures Carries(packet, slice, d)
  {
    FieldsOctet(packet[slice.offset]);
    var b := packet[slice.offset + 3..slice.End()];
    assert b[9..] == d.payload;
    FecBody(b, d);
  }

  predicate TypesRead(first: Byte, d: FrameSlice) {
    first / 16 % 4 == d.stmType && first / 64 % 2 == 0 && first / 4 % 4 == d.frmType && first % 4 == if d.symSize == 0 then 0 else 1
  }

  /** Reads the slice of a frame: what the packet carries there, or nothing if it carries no frame slice. */
  method GenStreamFrameSliceDetail(packet: seq<Byte>, slice: Slice) returns (r: Option<FrameSlice>)
    requires slice.End() <= |packet|
    ensures r.Some? ==> Carries(packet, slice, r.value)
    ensures r.None? ==> forall d :: !Carries(packet, slice, d)
  {
    var first := packet[slice.offset];
    var ptr, end := slice.offset + 3, slice.End();
    var stmType, frmType, fecFlag := first / 16 % 4, first / 4 % 4, first % 4;
    if stmType >= 3 || first / 64 % 2 != 0 {
      NothingCarried(packet, slice);
      return None;
    }
    if fecFlag == 0 {
      if end - ptr <= 2 {
        NothingCarried(packet, slice);
        return None;
      }
      r := Some(FrameSlice(stmType, frmType, Net16(packet, ptr), end - ptr - 2, 0, 0, 0xFFFF, packet[ptr + 2..end]));
      PlainCarried(packet, slice, r.value);
      return;
    }
    if fecFlag != 1 || end - ptr <= 9 {
      NothingCarried(packet, slice);
      return None;
    }
    var symSize, symNum, payload := packet[ptr] as nat, Net16(packet, ptr + 7), packet[ptr + 9..end];
    if |payload| != symSize * symNum {
      NothingCarried(packet, slice);
      return None;
    }
    PositiveFactors(symSize, symNum, |payload|);
    r := Some(FrameSlice(stmType, frmType, Net16(packet, ptr + 1), Net16(packet, ptr + 3), symSize, symNum, Net16(packet, ptr + 5), payload));
    FecCarried(packet, slice, r.value);
  }

  lemma PositiveFactors(a: nat, b: nat, p: nat)
    requires a * b == p && p > 0
    ensures a > 0 && b > 0
  {
  }
}
