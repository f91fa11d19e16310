/** The decoder thread: gathers the symbols of the segments, decodes, and fills the frame buffer
    (StmFecThread in src/stmassembler.cpp, lines 495-549). */
module FrameDecoding {
  import opened Octets
  import opened LinearAlgebra
  import opened Matrices
  import opened Options
  import opened Params
  import opened IntrusiveLists
  import opened EncodingSymbols
  import opened Fec
  import opened ErasureCode
  import opened Segments
  import opened FrameStates
  import opened VideoFrames
  import opened FrameHandover

  /** cnt symbols are in the array, at places below q, and each is one that was received. */
  ghost predicate Gathered(segs: seq<Segment>, ptrs: seq<Option<Row>>, q: nat, cnt: nat, maxESI: nat) {
    && q <= maxESI <= |ptrs|
    && |Repairs(ptrs, 0, q)| == cnt
         && (forall k {:trigger ptrs[k]} :: q <= k < maxESI ==> ptrs[k].None?)
         && (forall k {:trigger ptrs[k]} :: 0 <= k < q && ptrs[k].Some? ==> SymbolIs(segs, k, ptrs[k].value))
  }

  lemma {:induction false} RepairsSame(s: seq<Option<Row>>, t: seq<Option<Row>>, lo: nat, hi: nat)
    requires hi <= |s| && hi <= |t| && forall k {:trigger s[k]} :: lo <= k < hi ==> s[k] == t[k]
    ensures Repairs(s, lo, hi) == Repairs(t, lo, hi)
    decreases hi
  {
    if lo < hi {
      RepairsSame(s, t, lo, hi - 1);
    }
  }

  /** Places without symbols add nothing. */
  lemma {:induction false} RepairsNone(s: seq<Option<Row>>, lo: nat, mid: nat, hi: nat)
    requires lo <= mid <= hi <= |s| && forall k {:trigger s[k]} :: mid <= k < hi ==> s[k].None?
    ensures Repairs(s, lo, hi) == Repairs(s, lo, mid)
    decreases hi
  {
    if mid < hi {
      RepairsNone(s, lo, mid, hi - 1);
    }
  }

  lemma {:induction false} RepairsBound(s: seq<Option<Row>>, lo: nat, hi: nat)
    requires lo <= hi <= |s|
    ensures |Repairs(s, lo, hi)| <= hi - lo
    decreases hi
  {
    if lo < hi {
      RepairsBound(s, lo, hi - 1);
    }
  }

  lemma GatheredNext(segs: seq<Segment>, ptrs: seq<Option<Row>>, q: nat, cnt: nat, maxESI: nat, e: nat, symbol: Row)
    requires Gathered(segs, ptrs, q, cnt, maxESI) && q <= e < maxESI && SymbolIs(segs, e, symbol)
    ensures Gathered(segs, ptrs[e := Some(symbol)], e + 1, cnt + 1, maxESI)
  {
    var after := ptrs[e := Some(symbol)];
    RepairsSame(ptrs, after, 0, q);
    RepairsNone(after, 0, q, e);
  }

  lemma GatheredInitially(segs: seq<Segment>, ptrs: seq<Option<Row>>, maxESI: nat)
    requires maxESI <= |ptrs| && forall k {:trigger ptrs[k]} :: 0 <= k < maxESI ==> ptrs[k].None?
    ensures Gathered(segs, ptrs, 0, 0, maxESI)
  {
  }

  /** The array up to the last symbol placed. */
  lemma GatheredAll(segs: seq<Segment>, ptrs: seq<Option<Row>>, q: nat, cnt: nat, maxESI: nat, T: nat)
    requires Gathered(segs, ptrs, q, cnt, maxESI) && SizedSegments(segs, T)
    ensures cnt <= q && |Repairs(ptrs[..q], 0, q)| == cnt && SizedSymbols(ptrs[..q], T)
    ensures forall k {:trigger ptrs[k]} :: 0 <= k < q && ptrs[k].Some? ==> SymbolIs(segs, k, ptrs[k].value)
  {
    RepairsSame(ptrs, ptrs[..q], 0, q);
    RepairsBound(ptrs, 0, q);
    forall k | 0 <= k < q && ptrs[..q][k].Some?
      ensures |ptrs[..q][k].value| == T
    {
      assert SymbolIs(segs, k, ptrs[k].value);
      var j :| 0 <= j < |segs| && Covers(segs[j], k) && segs[j].symbols[k - segs[j].esi] == ptrs[k].value;
      assert SizedAt(segs[j], k - segs[j].esi, T);
    }
  }

  ghost predicate SizedAt(x: Segment, i: nat, T: nat) {
    i < |x.symbols| ==> |x.symbols[i]| == T
  }

  ghost predicate SizedSegments(segs: seq<Segment>, T: nat) {
    forall j: nat, i: nat {:trigger SizedAt(segs[j], i, T)} :: j < |segs| ==> SizedAt(segs[j], i, T)
  }

  /** The end of a segment is at most the greatest end. */
  lemma EndBelowMax(segs: seq<Segment>, j: nat)
    requires Ordered(segs) && j < |segs|
    ensures segs[j].End() <= MaxEnd(segs, |segs|) <= 65535
  {
    TotalBound(segs, |segs|);
    assert segs[j].Valid() && segs[|segs| - 1].Valid();
    if j < |segs| - 1 {
      assert segs[j].End() <= segs[|segs| - 1].esi;
    }
  }

  /** Places the symbols of segment j, as long as fewer than srcnum are placed. */
  method GatherSegment(x: Segment, srcnum: nat, maxESI: nat, symbolPtrs: array<Option<Row>>, inputCnt: nat, q: nat, ghost segs: seq<Segment>, ghost j: nat)
    returns (cnt: nat, next: nat)
    requires Ordered(segs) && j < |segs| && segs[j] == x && q <= x.esi && maxESI == MaxEnd(segs, |segs|) && inputCnt <= srcnum
    requires Gathered(segs, symbolPtrs[..], q, inputCnt, maxESI)
    modifies symbolPtrs
    ensures Gathered(segs, symbolPtrs[..], next, cnt, maxESI) && next <= x.End()
    ensures cnt == if inputCnt + x.Cnt() < srcnum then inputCnt + x.Cnt() else srcnum
    ensures cnt > inputCnt ==> next > 0
  {
    EndBelowMax(segs, j);
    cnt, next := inputCnt, q;
    var i := 0;
    while i < x.Cnt() && cnt < srcnum
      invariant i <= x.Cnt() && cnt == inputCnt + i <= srcnum && next <= x.esi + i && (i > 0 ==> next > 0)
      invariant Gathered(segs, symbolPtrs[..], next, cnt, maxESI)
    {
      var maxEsi := x.esi + i;
      ghost var before := symbolPtrs[..];
      assert Covers(segs[j], maxEsi) && SymbolIs(segs, maxEsi, x.symbols[i]);
      GatheredNext(segs, before, next, cnt, maxESI, maxEsi, x.symbols[i]);
      symbolPtrs[maxEsi] := Some(x.symbols[i]);
      assert symbolPtrs[..] == before[maxEsi := Some(x.symbols[i])];
      cnt, next, i := cnt + 1, maxEsi + 1, i + 1;
    }
  }

  /** Empties the first maxESI places of the array. */
  method ClearSymbols(symbolPtrs: array<Option<Row>>, maxESI: nat, ghost segs: seq<Segment>)
    requires maxESI <= symbolPtrs.Length
    modifies symbolPtrs
    ensures Gathered(segs, symbolPtrs[..], 0, 0, maxESI)
  {
    for k := 0 to maxESI
      invariant forall n {:trigger symbolPtrs[n]} :: 0 <= n < k ==> symbolPtrs[n].None?
    {
      symbolPtrs[k] := None;
    }
    GatheredInitially(segs, symbolPtrs[..], maxESI);
  }

  /** Puts the first srcnum symbols of the list in the array, at their numbers; next is one more than the last. */
  method GatherSymbols(hdr: ListHead<Segment>, maxESI: nat, srcnum: nat, symbolPtrs: array<Option<Row>>, ghost r: seq<ListHead<Segment>>, ghost segs: seq<Segment>)
    returns (inputCnt: nat, next: nat)
    requires Holds(hdr, r, segs) && Ordered(segs) && maxESI == MaxEnd(segs, |segs|)
    requires 0 < srcnum <= Total(segs, |segs|) && symbolPtrs.Length == 65535
    modifies symbolPtrs
    ensures inputCnt == srcnum && Gathered(segs, symbolPtrs[..], next, inputCnt, maxESI)
  {
    TotalBound(segs, |segs|);
    ClearSymbols(symbolPtrs, maxESI, segs);
    inputCnt, next := 0, 0;
    ghost var j := 0;
    assert LinkAt(r, 0);
    var liter := hdr.next;
    while liter != hdr && inputCnt < srcnum
      invariant j <= |segs| && Holds(hdr, r, segs) && liter == r[After(j, |r|)]
      invariant Gathered(segs, symbolPtrs[..], next, inputCnt, maxESI)
      invariant inputCnt == (if Total(segs, j) < srcnum then Total(segs, j) else srcnum) && next <= EndOf(segs, j)
      decreases |segs| - j
    {
      EndsOrdered(segs, j);
      assert LinkAt(r, After(j, |r|));
      var litem := liter;
      assert litem == r[j + 1] && ItemAt(r, segs, j);
      liter := liter.next;
      inputCnt, next := GatherSegment(litem.item, srcnum, maxESI, symbolPtrs, inputCnt, next, segs, j);
      j := j + 1;
    }
  }

  /** Every segment holds encoding symbols of the block C. */
  ghost predicate Truthful(F: Field, code: Code, C: seq<Row>, segs: seq<Segment>)
    requires ValidCoding(code) && |C| == code.param.L && IsMatrix(C, code.param.T)
  {
    forall n: nat, symbol: Row {:trigger SymbolIs(segs, n, symbol)} ::
      SymbolIs(segs, n, symbol) ==> symbol == Encode(F, code.repo, code.tables, code.param, C, n)
  }

  lemma {:induction false} RepairsAt(s: seq<Option<Row>>, lo: nat, hi: nat, k: nat)
    requires lo <= hi <= |s| && k < |Repairs(s, lo, hi)|
    ensures var x := Repairs(s, lo, hi)[k]; lo <= x.esi < hi && s[x.esi] == Some(x.data)
    decreases hi
  {
    if k < |Repairs(s, lo, hi - 1)| {
      RepairsAt(s, lo, hi - 1, k);
    }
  }

  /** The array is what TryDecode asks for. */
  lemma GatheredIsArray(code: Code, segs: seq<Segment>, ptrs: seq<Option<Row>>, q: nat, maxESI: nat)
    requires Gathered(segs, ptrs, q, code.param.K + SYMBOL_DECODE_OVERHEAD, maxESI) && SizedSegments(segs, code.param.T)
    ensures IsArray(code, ptrs[..q]) && |Repairs(ptrs[..q], 0, q)| == code.param.K + SYMBOL_DECODE_OVERHEAD
  {
    GatheredAll(segs, ptrs, q, code.param.K + SYMBOL_DECODE_OVERHEAD, maxESI, code.param.T);
    PresentCount(ptrs[..q], code.param.K);
  }

  /** If the segments hold symbols of C, so does the array. */
  lemma GatheredEncodes(F: Field, code: Code, C: seq<Row>, segs: seq<Segment>, ptrs: seq<Option<Row>>, q: nat, maxESI: nat)
    requires ValidCoding(code) && |C| == code.param.L && IsMatrix(C, code.param.T)
    requires Gathered(segs, ptrs, q, code.param.K + SYMBOL_DECODE_OVERHEAD, maxESI) && code.param.K <= q
    requires Truthful(F, code, C, segs)
    ensures Encodes(F, code, C, FromArray(ptrs[..q], code.param.K))
  {
    var s, K := ptrs[..q], code.param.K;
    var r := FromArray(s, K);
    forall i: nat | i < |r.src| && r.src[i].Some?
      ensures r.src[i].value == Encode(F, code.repo, code.tables, code.param, C, i)
    {
      assert SymbolIs(segs, i, ptrs[i].value);
    }
    forall k: nat | k < |r.rep|
      ensures r.rep[k].data == Encode(F, code.repo, code.tables, code.param, C, r.rep[k].esi)
    {
      RepairsAt(s, K, q, k);
      assert SymbolIs(segs, r.rep[k].esi, r.rep[k].data);
    }
  }

  ghost predicate SourceAt(F: Field, code: Code, C: seq<Row>, want: seq<Row>, k: nat)
    requires ValidCoding(code) && |C| == code.param.L && IsMatrix(C, code.param.T) && k < |want|
  {
    want[k] == Encode(F, code.repo, code.tables, code.param, C, k)
  }

  /** want are the source symbols of the block C, in order. */
  ghost predicate SourcesOf(F: Field, code: Code, C: seq<Row>, want: seq<Row>)
    requires ValidCoding(code) && |C| == code.param.L && IsMatrix(C, code.param.T)
  {
    |want| == code.param.K && forall k: nat {:trigger SourceAt(F, code, C, want, k)} :: k < |want| ==> SourceAt(F, code, C, want, k)
  }

  /** A place of the frame: the symbol received, or else the one recovered from rows. */
  ghost predicate PlaceIs(F: Field, code: Code, rows: seq<Row>, ptrs: seq<Option<Row>>, want: seq<Row>, k: nat)
    requires ValidCoding(code) && |rows| == code.param.L && IsMatrix(rows, code.param.T) && k < |want| <= |ptrs|
  {
    if ptrs[k].Some? then want[k] == ptrs[k].value else SourceAt(F, code, rows, want, k)
  }

  /** want are the symbols received, and those recovered from rows where none was. */
  ghost predicate Restored(F: Field, code: Code, rows: seq<Row>, ptrs: seq<Option<Row>>, want: seq<Row>)
    requires ValidCoding(code) && |rows| == code.param.L && IsMatrix(rows, code.param.T)
  {
    |want| == code.param.K <= |ptrs| && forall k: nat {:trigger PlaceIs(F, code, rows, ptrs, want, k)} :: k < |want| ==> PlaceIs(F, code, rows, ptrs, want, k)
  }

  ghost function Restore(F: Field, code: Code, rows: seq<Row>, ptrs: seq<Option<Row>>): (want: seq<Row>)
    requires ValidCoding(code) && |rows| == code.param.L && IsMatrix(rows, code.param.T) && code.param.K <= |ptrs|
    ensures Restored(F, code, rows, ptrs, want)
  {
    var want := seq(code.param.K, k requires 0 <= k < code.param.K =>
                      if ptrs[k].Some? then ptrs[k].value else Encode(F, code.repo, code.tables, code.param, rows, k));
    assert forall k: nat {:trigger PlaceIs(F, code, rows, ptrs, want, k)} :: k < |want| ==> PlaceIs(F, code, rows, ptrs, want, k);
    want
  }

  /** Recovers one source symbol. */
  method RecoverSource(F: Field, code: Code, D: Matrix, esi: nat, tmp: array<Octet>, ghost ptrs: seq<Option<Row>>, ghost want: seq<Row>)
    requires Laws(F) && ValidCoding(code) && D.Valid() && |D.rows| == code.param.L && D.colNum == code.param.T == tmp.Length
    requires Restored(F, code, D.rows, ptrs, want) && esi < |want| && ptrs[esi].None? && tmp as object !in D.Footprint()
    modifies tmp
    ensures tmp[..] == want[esi]
  {
    assert PlaceIs(F, code, D.rows, ptrs, want, esi);
    RecoverSymbol(F, code.repo, code.tables, code.param, D, esi, tmp);
  }

  lemma PlaceHolds(F: Field, code: Code, rows: seq<Row>, ptrs: seq<Option<Row>>, want: seq<Row>, k: nat)
    requires ValidCoding(code) && |rows| == code.param.L && IsMatrix(rows, code.param.T)
    requires Restored(F, code, rows, ptrs, want) && k < |want| && ptrs[k].Some?
    ensures want[k] == ptrs[k].value
  {
    assert PlaceIs(F, code, rows, ptrs, want, k);
  }

  /** Fills the buffer with the source symbols: those in the array, and the others recovered. */
  method FillBuffer(F: Field, code: Code, D: Matrix, symbolPtrs: array<Option<Row>>, frmbuf: array<Row>, ghost want: seq<Row>)
    requires Laws(F) && ValidCoding(code) && D.Valid() && |D.rows| == code.param.L && D.colNum == code.param.T
    requires Restored(F, code, D.rows, symbolPtrs[..], want)
    requires frmbuf.Length == |want| && frmbuf as object != symbolPtrs && frmbuf as object !in D.Footprint()
    modifies frmbuf
    ensures frmbuf[..] == want
  {
    var tmp := new Octet[code.param.T];
    ghost var ptrs := symbolPtrs[..];
    for esi := 0 to code.param.K
      invariant D.Valid() && D.rows == old(D.rows) && frmbuf[..esi] == want[..esi] && symbolPtrs[..] == ptrs
    {
      if symbolPtrs[esi].Some? {
        PlaceHolds(F, code, D.rows, ptrs, want, esi);
        frmbuf[esi] := symbolPtrs[esi].value;
      } else {
        assert ptrs[esi].None?;
        RecoverSource(F, code, D, esi, tmp, ptrs, want);
        assert D.Valid() && frmbuf[..esi] == want[..esi] && symbolPtrs[..] == ptrs;
        frmbuf[esi] := tmp[..];
      }
      assert symbolPtrs[..] == ptrs;
      assert frmbuf[..esi + 1] == frmbuf[..esi] + [want[esi]];
      assert want[..esi + 1] == want[..esi] + [want[esi]];
    }
    assert frmbuf[..] == frmbuf[..|want|] && want == want[..|want|];
  }

  /** Decodes a frame from the first K + 3 symbols of its segments: it succeeds exactly when the system of these symbols
      has independent columns, and then the buffer holds the symbols received and those recovered from its solution. If
      the segments hold encoding symbols of a block C, these are the source symbols of C. */
  method DecodeFrame(F: Field, code: Code, decoding: DecodingSegments, symbolPtrs: array<Option<Row>>, ghost C: seq<Row>)
    returns (success: bool, next: nat, ghost rows: seq<Row>)
    requires Laws(F) && ValidCoding(code)
    requires decoding.Valid() && decoding.srcNum == code.param.K && symbolPtrs.Length == 65535
    requires decoding.frmbuffer as object != symbolPtrs && SizedSegments(decoding.segs, code.param.T)
    modifies symbolPtrs, decoding.frmbuffer
    ensures Gathered(decoding.segs, symbolPtrs[..], next, code.param.K + SYMBOL_DECODE_OVERHEAD, decoding.maxESI)
    ensures code.param.K <= next && IsReceived(code, FromArray(symbolPtrs[..next], code.param.K))
    ensures Decodes(F, code, FromArray(symbolPtrs[..next], code.param.K), success, rows)
    ensures success ==> Restored(F, code, rows, symbolPtrs[..], decoding.frmbuffer[..])
    ensures success && Precomputed(code) && IsBlock(F, code, C) && Truthful(F, code, C, decoding.segs) ==>
              SourcesOf(F, code, C, decoding.frmbuffer[..])
  {
    ghost var segs := decoding.segs;
    var inputCnt;
    inputCnt, next := GatherSymbols(decoding.segments, decoding.maxESI, code.param.K + SYMBOL_DECODE_OVERHEAD, symbolPtrs, decoding.ring, segs);
    ghost var ptrs := symbolPtrs[..];
    GatheredIsArray(code, segs, ptrs, next, decoding.maxESI);
    var D;
    success, D := TryDecode(F, code, symbolPtrs[..next], inputCnt);
    rows := D.rows;
    if success {
      ghost var want := Restore(F, code, rows, ptrs);
      assert symbolPtrs[..] == ptrs;
      FillBuffer(F, code, D, symbolPtrs, decoding.frmbuffer, want);
      assert symbolPtrs[..] == ptrs;
      RestoredSources(F, code, C, segs, ptrs, next, decoding.maxESI, rows, want);
    }
  }

  /** What is restored from symbols of a block are its source symbols. */
  lemma RestoredSources(F: Field, code: Code, C: seq<Row>, segs: seq<Segment>, ptrs: seq<Option<Row>>, q: nat, maxESI: nat, rows: seq<Row>, want: seq<Row>)
    requires Laws(F) && ValidCoding(code) && code.param.K <= q && IsReceivedFrom(code, ptrs, q)
    requires Gathered(segs, ptrs, q, code.param.K + SYMBOL_DECODE_OVERHEAD, maxESI)
    requires Decodes(F, code, FromArray(ptrs[..q], code.param.K), true, rows) && Restored(F, code, rows, ptrs, want)
    ensures Precomputed(code) && IsBlock(F, code, C) && Truthful(F, code, C, segs) ==> SourcesOf(F, code, C, want)
  {
    if Precomputed(code) && IsBlock(F, code, C) && Truthful(F, code, C, segs) {
      GatheredEncodes(F, code, C, segs, ptrs, q, maxESI);
      DecodedBlock(F, code, FromArray(ptrs[..q], code.param.K), C, rows);
      PlacesAreSources(F, code, C, segs, ptrs, q, maxESI, want);
    }
  }

  ghost predicate IsReceivedFrom(code: Code, ptrs: seq<Option<Row>>, q: nat) {
    code.param.K <= q <= |ptrs| && IsReceived(code, FromArray(ptrs[..q], code.param.K))
  }

  lemma PlacesAreSources(F: Field, code: Code, C: seq<Row>, segs: seq<Segment>, ptrs: seq<Option<Row>>, q: nat, maxESI: nat, want: seq<Row>)
    requires ValidCoding(code) && |C| == code.param.L && IsMatrix(C, code.param.T) && code.param.K <= q
    requires Gathered(segs, ptrs, q, code.param.K + SYMBOL_DECODE_OVERHEAD, maxESI) && Truthful(F, code, C, segs)
    requires Restored(F, code, C, ptrs, want)
    ensures SourcesOf(F, code, C, want)
  {
    forall k: nat | k < |want|
      ensures SourceAt(F, code, C, want, k)
    {
      assert PlaceIs(F, code, C, ptrs, want, k);
      assert ptrs[k].Some? ==> SymbolIs(segs, k, ptrs[k].value);
    }
  }

  /** A frame that was copied holds the same source symbols. */
  lemma CopiedSources(F: Field, code: Code, C: seq<Row>, segs: seq<Segment>, frmbuf: seq<Row>)
    requires ValidCoding(code) && |C| == code.param.L && IsMatrix(C, code.param.T)
    requires Truthful(F, code, C, segs) && |frmbuf| == code.param.K && Copied(segs, frmbuf, code.param.K)
    ensures SourcesOf(F, code, C, frmbuf)
  {
    forall k: nat | k < |frmbuf|
      ensures SourceAt(F, code, C, frmbuf, k)
    {
      assert SymbolIs(segs, k, frmbuf[k]);
    }
  }
}
