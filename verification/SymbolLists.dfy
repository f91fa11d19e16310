/** The other form of TryDecode, from a list of symbols, the source symbols first in the order of their numbers (src/fast_fec.cpp,
    lines 333-456). It lays out the same system as the form for arrays. */
module SymbolLists {
  import opened Octets
  import opened LinearAlgebra
  import opened Matrices
  import opened Params
  import opened Options
  import opened EncodingSymbols
  import opened Fec

  /** Which source symbols are among the first n of the list. */
  function Sources(list: seq<Symbol>, n: nat, K: nat): (src: seq<Option<Row>>)
    requires n <= |list| && forall k :: 0 <= k < n ==> list[k].esi < K
    ensures |src| == K
  {
    if n == 0 then seq(K, _ => None) else Sources(list, n - 1, K)[list[n - 1].esi := Some(list[n - 1].data)]
  }

  /** The place of the first repair symbol, or the length of the list. */
  function FirstRepair(list: seq<Symbol>, K: nat): (n: nat)
    ensures n <= |list| && (n < |list| ==> list[n].esi >= K)
    ensures forall k {:trigger list[k]} :: 0 <= k < n ==> list[k].esi < K
    decreases |list|
  {
    if list == [] then 0 else
    var n := FirstRepair(list[..|list| - 1], K);
    if n < |list| - 1 || list[n].esi >= K then n else n + 1
  }

  /** The count of symbols after a loop over the first n entries, some of which may be null and are skipped. */
  function Counted(entries: seq<Option<Symbol>>, n: nat): (cnt: nat)
    requires n <= |entries|
  {
    if n == 0 then 0 else Counted(entries, n - 1) + if entries[n - 1].Some? then 1 else 0
  }

  /** The assertions at lines 388 and 447, by which every entry is counted in the end, fail exactly if one of the entries
      before the first repair symbol, at place n, is null: those behind it are all counted. */
  lemma {:induction false} NullTrips(entries: seq<Option<Symbol>>, n: nat)
    requires n <= |entries|
    ensures Counted(entries, n) <= n
    ensures Counted(entries, n) + (|entries| - n) == |entries| <==> forall k :: 0 <= k < n ==> entries[k].Some?
  {
    if n > 0 {
      NullTrips(entries, n - 1);
    }
  }

  /** The first n symbols have increasing numbers. */
  ghost predicate Increasing(list: seq<Symbol>, n: nat) {
    forall j, k {:trigger list[j], list[k]} :: 0 <= j < k < n && k < |list| ==> list[j].esi < list[k].esi
  }

  /** What TryDecode asserts of a list: at least K symbols, with increasing numbers up to the first repair symbol. What
      comes behind it is taken as it is. */
  ghost predicate IsList(code: Code, list: seq<Symbol>) {
    code.param.K <= |list| && Increasing(list, FirstRepair(list, code.param.K)) && SizedRepairs(list, code.param.T)
  }

  function FromList(list: seq<Symbol>, K: nat): Received {
    var n := FirstRepair(list, K);
    Received(Sources(list, n, K), list[n..])
  }

  ghost predicate SourceAt(list: seq<Symbol>, n: nat, src: seq<Option<Row>>, e: nat)
    requires n <= |list| && e < |src|
  {
    && (src[e].Some? ==> exists k :: 0 <= k < n && list[k] == Symbol(e, src[e].value))
    && ((exists k :: 0 <= k < n && list[k].esi == e) ==> src[e].Some?)
  }

  lemma {:induction false} SourcesAt(list: seq<Symbol>, n: nat, K: nat, e: nat)
    requires n <= |list| && (forall k :: 0 <= k < n ==> list[k].esi < K) && e < K
    ensures SourceAt(list, n, Sources(list, n, K), e)
  {
    if n > 0 {
      SourcesAt(list, n - 1, K, e);
      var before := Sources(list, n - 1, K);
      if list[n - 1].esi == e {
        assert list[n - 1] == Symbol(e, list[n - 1].data);
      } else if before[e].Some? {
        var k :| 0 <= k < n - 1 && list[k] == Symbol(e, before[e].value);
      }
    }
  }

  lemma {:induction false} MissingAfterUpdate(src: seq<Option<Row>>, e: nat, value: Row, i: nat)
    requires i <= |src| && e < |src| && src[e].None?
    ensures Missing(src[e := Some(value)], i) == Missing(src, i) - if e < i then 1 else 0
  {
    if i > 0 {
      MissingAfterUpdate(src, e, value, i - 1);
    }
  }

  lemma {:induction false} MissingNone(K: nat, i: nat)
    requires i <= K
    ensures Missing(seq<Option<Row>>(K, _ => None), i) == i
  {
    if i > 0 {
      MissingNone(K, i - 1);
    }
  }

  /** Every source symbol of the list is a different one. */
  lemma {:induction false} SourcesCount(list: seq<Symbol>, n: nat, K: nat)
    requires n <= |list| && (forall k :: 0 <= k < n ==> list[k].esi < K) && Increasing(list, n)
    ensures Missing(Sources(list, n, K), K) == K - n
  {
    if n == 0 {
      MissingNone(K, K);
    } else {
      SourcesCount(list, n - 1, K);
      var e := list[n - 1].esi;
      SourcesAt(list, n - 1, K, e);
      MissingAfterUpdate(Sources(list, n - 1, K), e, list[n - 1].data, K);
    }
  }

  lemma FromListIsReceived(code: Code, list: seq<Symbol>)
    requires IsList(code, list)
    ensures IsReceived(code, FromList(list, code.param.K))
    ensures Missing(FromList(list, code.param.K).src, code.param.K) == code.param.K - FirstRepair(list, code.param.K)
  {
    var K := code.param.K;
    var n := FirstRepair(list, K);
    SourcesCount(list, n, K);
    forall e | 0 <= e < K && Sources(list, n, K)[e].Some?
      ensures |Sources(list, n, K)[e].value| == code.param.T
    {
      SourcesAt(list, n, K, e);
    }
  }

  lemma {:induction false} PrefixIncreasing(symbols: seq<Option<Row>>, lo: nat, hi: nat)
    requires lo <= hi <= |symbols|
    ensures Increasing(Repairs(symbols, lo, hi), |Repairs(symbols, lo, hi)|)
    ensures forall k {:trigger Repairs(symbols, lo, hi)[k]} :: 0 <= k < |Repairs(symbols, lo, hi)| ==> lo <= Repairs(symbols, lo, hi)[k].esi < hi
    decreases hi
  {
    if lo < hi {
      PrefixIncreasing(symbols, lo, hi - 1);
    }
  }

  lemma {:induction false} SourcesOfPrefix(symbols: seq<Option<Row>>, list: seq<Symbol>, i: nat, K: nat)
    requires i <= K <= |symbols| && Repairs(symbols, 0, i) <= list
    requires forall k :: 0 <= k < |Repairs(symbols, 0, i)| ==> list[k].esi < K
    ensures Sources(list, |Repairs(symbols, 0, i)|, K) == symbols[..i] + seq(K - i, _ => None)
    decreases i
  {
    if i > 0 {
      SourcesOfPrefix(symbols, list, i - 1, K);
      var n := |Repairs(symbols, 0, i - 1)|;
      if symbols[i - 1].Some? {
        assert list[n] == Symbol(i - 1, symbols[i - 1].value);
      }
    }
  }

  /** The first repair symbol comes right after those with smaller numbers. */
  lemma FirstRepairAfter(head: seq<Symbol>, tail: seq<Symbol>, K: nat)
    requires forall k {:trigger head[k]} :: 0 <= k < |head| ==> head[k].esi < K
    requires tail != [] ==> tail[0].esi >= K
    ensures FirstRepair(head + tail, K) == |head|
  {
    var list := head + tail;
    forall k | 0 <= k < |head|
      ensures list[k] == head[k]
    {
    }
    assert tail != [] ==> list[|head|] == tail[0];
  }

  /** The list of the symbols in an array says the same was received as the array does: both forms of TryDecode
      build the same system. */
  lemma FormsAgree(symbols: seq<Option<Row>>, K: nat)
    requires K <= |symbols|
    ensures FromList(Repairs(symbols, 0, |symbols|), K) == FromArray(symbols, K)
  {
    var list, head, tail := Repairs(symbols, 0, |symbols|), Repairs(symbols, 0, K), Repairs(symbols, K, |symbols|);
    RepairsSplit(symbols, K, |symbols|);
    PrefixIncreasing(symbols, 0, K);
    PrefixIncreasing(symbols, K, |symbols|);
    FirstRepairAfter(head, tail, K);
    assert list[|head|..] == tail;
    SourcesOfHead(symbols, list, K);
  }

  lemma SourcesOfHead(symbols: seq<Option<Row>>, list: seq<Symbol>, K: nat)
    requires K <= |symbols| && Repairs(symbols, 0, K) <= list
    requires forall k :: 0 <= k < |Repairs(symbols, 0, K)| ==> list[k].esi < K
    ensures Sources(list, |Repairs(symbols, 0, K)|, K) == symbols[..K]
  {
    SourcesOfPrefix(symbols, list, K, K);
    assert symbols[..K] + seq(0, _ => None) == symbols[..K];
  }

  /** The source symbols of src are in their rows. */
  ghost predicate PresentPlaced(code: Code, src: seq<Option<Row>>, d: seq<Row>) {
    && |src| == code.param.K && code.param.S + code.param.H + code.param.K <= |d|
    && forall e {:trigger src[e]} :: 0 <= e < |src| && src[e].Some? ==> d[code.param.S + code.param.H + e] == src[e].value
  }

  lemma PlacedNext(code: Code, src: seq<Option<Row>>, d: seq<Row>, e: nat, data: Row)
    requires PresentPlaced(code, src, d) && e < |src|
    ensures PresentPlaced(code, src[e := Some(data)], d[code.param.S + code.param.H + e := data])
  {
  }

  lemma PlacedStill(code: Code, src: seq<Option<Row>>, d: seq<Row>, e: nat, data: Row)
    requires PresentPlaced(code, src, d) && e < |src| && src[e].None?
    ensures PresentPlaced(code, src, d[code.param.S + code.param.H + e := data])
  {
  }

  /** Symbols below row m may still change. */
  lemma FilledBelow(code: Code, r: Received, a: seq<Row>, d: seq<Row>, m: nat, j: nat, data: Row)
    requires ValidCoding(code) && IsReceived(code, r) && Filled(code, r, a, d, m) && m <= j < |d|
    ensures Filled(code, r, a, d[j := data], m)
  {
    var d' := d[j := data];
    forall k: nat | k < |a|
      ensures FilledAt(code, r, a, d', m, k)
    {
      assert FilledAt(code, r, a, d, m, k);
    }
  }

  /** Stores a symbol in a row from m on. */
  method StoreBelow(code: Code, ghost r: Received, A: Matrix, D: Matrix, ghost m: nat, j: nat, data: Row)
    requires ValidCoding(code) && IsReceived(code, r) && InPlace(code, r, A, D, m)
    requires m <= j < code.param.L && |data| == code.param.T
    modifies D`rows, D.data
    ensures InPlace(code, r, A, D, m) && j < |old(D.rows)| && D.rows == old(D.rows)[j := data]
  {
    InPlaceMeans(code, r, A, D, m);
    FilledBelow(code, r, A.rows, D.rows, m, j, data);
    D.StoreRow(j, data);
    InPlaceMeans(code, r, A, D, m);
  }

  /** If no source symbol is missing from number i on, all the source rows are in place. */
  lemma {:induction false} FilledToEnd(code: Code, r: Received, a: seq<Row>, d: seq<Row>, i: nat, m: nat, end: nat)
    requires ValidCoding(code) && IsReceived(code, r) && i <= code.param.K && PresentPlaced(code, r.src, d)
    requires Filled(code, r, a, d, m) && m == code.param.S + code.param.H + i && end == m + (code.param.K - i)
    requires Missing(r.src, i) == Missing(r.src, code.param.K)
    ensures Filled(code, r, a, d, end)
    decreases code.param.K - i
  {
    if i == code.param.K {
      assert m == end;
    } else {
      NoneMissing(r.src, i, code.param.K);
      FilledHere(code, r, a, d, i, m);
      FilledToEnd(code, r, a, d, i + 1, m + 1, end);
    }
  }

  lemma NoneMissing(src: seq<Option<Row>>, i: nat, K: nat)
    requires i < K <= |src| && Missing(src, i) == Missing(src, K)
    ensures src[i].Some? && Missing(src, i + 1) == Missing(src, K)
  {
    MissingMonotone(src, i + 1, K);
  }

  /** A source symbol that is there is already in its row. */
  lemma FilledHere(code: Code, r: Received, a: seq<Row>, d: seq<Row>, i: nat, m: nat)
    requires ValidCoding(code) && IsReceived(code, r) && i < code.param.K && PresentPlaced(code, r.src, d)
    requires Filled(code, r, a, d, m) && m == code.param.S + code.param.H + i && r.src[i].Some?
    ensures Filled(code, r, a, d, m + 1)
  {
    PlacedAt(code, r.src, d, i);
    FilledPresent(code, r, a, d, i, m, r.src[i].value);
    assert d[m := r.src[i].value] == d;
  }

  lemma PlacedAt(code: Code, src: seq<Option<Row>>, d: seq<Row>, e: nat)
    requires PresentPlaced(code, src, d) && e < |src| && src[e].Some?
    ensures d[code.param.S + code.param.H + e] == src[e].value
  {
  }

  lemma NonePlaced(code: Code, r: Received, A: Matrix, D: Matrix, m: nat)
    requires ValidCoding(code) && IsReceived(code, r) && InPlace(code, r, A, D, m)
    ensures PresentPlaced(code, seq(code.param.K, _ => None), D.rows)
  {
    InPlaceMeans(code, r, A, D, m);
  }

  lemma InPlaceHere(code: Code, r: Received, A: Matrix, D: Matrix, i: nat)
    requires ValidCoding(code) && IsReceived(code, r) && i < code.param.K && PresentPlaced(code, r.src, D.rows)
    requires InPlace(code, r, A, D, code.param.S + code.param.H + i)
    requires r.src[i].Some?
    ensures InPlace(code, r, A, D, code.param.S + code.param.H + i + 1)
  {
    InPlaceMeans(code, r, A, D, code.param.S + code.param.H + i);
    FilledHere(code, r, A.rows, D.rows, i, code.param.S + code.param.H + i);
    InPlaceMeans(code, r, A, D, code.param.S + code.param.H + i + 1);
  }

  lemma InPlaceToEnd(code: Code, r: Received, A: Matrix, D: Matrix, i: nat, m: nat, end: nat)
    requires ValidCoding(code) && IsReceived(code, r) && i <= code.param.K && PresentPlaced(code, r.src, D.rows)
    requires InPlace(code, r, A, D, m) && m == code.param.S + code.param.H + i && end == m + (code.param.K - i)
    requires Missing(r.src, i) == Missing(r.src, code.param.K)
    ensures InPlace(code, r, A, D, end)
  {
    InPlaceMeans(code, r, A, D, m);
    FilledToEnd(code, r, A.rows, D.rows, i, m, end);
    InPlaceMeans(code, r, A, D, end);
  }

  /** A flag for each source symbol that is there. */
  ghost predicate Flags(src: seq<Option<Row>>, flags: seq<bool>) {
    && |src| <= |flags|
    && forall e {:trigger src[e]} :: 0 <= e < |src| ==> (flags[e] <==> src[e].Some?)
  }

  lemma FlagsNext(src: seq<Option<Row>>, flags: seq<bool>, e: nat, data: Row)
    requires Flags(src, flags) && e < |src|
    ensures Flags(src[e := Some(data)], flags[e := true])
  {
  }

  lemma NoFlags(K: nat, flags: seq<bool>)
    requires K <= |flags| && forall k :: 0 <= k < |flags| ==> !flags[k]
    ensures Flags(seq<Option<Row>>(K, _ => None), flags)
  {
  }

  /** The list is a well-formed one that says r was received. */
  ghost predicate ListDescribes(code: Code, list: seq<Symbol>, r: Received) {
    && |r.src| == code.param.K && Missing(r.src, code.param.K) <= code.param.K <= |list|
    && |r.rep| + code.param.K == |list| + Missing(r.src, code.param.K)
    && IsList(code, list) && r == FromList(list, code.param.K)
  }

  lemma ListIsDescribed(code: Code, list: seq<Symbol>)
    requires IsList(code, list)
    ensures IsReceived(code, FromList(list, code.param.K)) && ListDescribes(code, list, FromList(list, code.param.K))
  {
    FromListIsReceived(code, list);
  }

  /** What the list says of its element i. */
  lemma ListAt(code: Code, list: seq<Symbol>, r: Received, i: nat)
    requires ListDescribes(code, list, r) && i < |list|
    ensures |list[i].data| == code.param.T
    ensures list[i].esi >= code.param.K && (forall k :: 0 <= k < i ==> list[k].esi < code.param.K) ==>
              i == code.param.K - Missing(r.src, code.param.K)
    ensures i >= code.param.K - Missing(r.src, code.param.K) ==>
              r.rep[i - (code.param.K - Missing(r.src, code.param.K))] == list[i]
  {
    FromListIsReceived(code, list);
  }

  /** src says which source symbols are among the first i of the list, and these are all source symbols. */
  ghost predicate Listed(list: seq<Symbol>, i: nat, K: nat, src: seq<Option<Row>>) {
    && i <= |list| && |src| == K
    && (forall k :: 0 <= k < i ==> list[k].esi < K) && src == Sources(list, i, K)
  }

  lemma ListedNone(list: seq<Symbol>, K: nat)
    ensures Listed(list, 0, K, seq(K, _ => None))
  {
  }

  lemma ListedNext(list: seq<Symbol>, i: nat, K: nat, src: seq<Option<Row>>)
    requires Listed(list, i, K, src) && i < |list| && list[i].esi < K
    ensures Listed(list, i + 1, K, src[list[i].esi := Some(list[i].data)])
  {
  }

  lemma ListedAll(code: Code, list: seq<Symbol>, r: Received, i: nat, src: seq<Option<Row>>)
    requires ListDescribes(code, list, r) && Listed(list, i, code.param.K, src)
    requires i < |list| ==> list[i].esi >= code.param.K
    ensures src == r.src && i == code.param.K - Missing(r.src, code.param.K) && (|r.rep| == 0 <==> i == |list|)
  {
    FromListIsReceived(code, list);
    assert i == FirstRepair(list, code.param.K);
  }

  /** Places source symbol list[i] and flags it. */
  method PlaceListedAt(code: Code, list: seq<Symbol>, A: Matrix, D: Matrix, flags: array<bool>, i: nat, ghost r: Received,
                       ghost src: seq<Option<Row>>)
    requires ValidCoding(code) && ListDescribes(code, list, r) && IsReceived(code, r)
    requires InPlace(code, r, A, D, code.param.S + code.param.H)
    requires flags as object !in A.Footprint() + D.Footprint()
    requires i < |list| && list[i].esi < code.param.K
    requires PresentPlaced(code, src, D.rows) && Flags(src, flags[..])
    modifies D`rows, D.data, flags
    ensures InPlace(code, r, A, D, code.param.S + code.param.H)
    ensures PresentPlaced(code, src[list[i].esi := Some(list[i].data)], D.rows)
    ensures Flags(src[list[i].esi := Some(list[i].data)], flags[..])
  {
    var esi, data := list[i].esi, list[i].data;
    var m := code.param.S + code.param.H + esi;
    ghost var d, f := D.rows, flags[..];
    ListAt(code, list, r, i);
    StoreBelow(code, r, A, D, code.param.S + code.param.H, m, data);
    assert flags[..] == f;
    flags[esi] := true;
    assert flags[..] == f[esi := true];
    PlacedNext(code, src, d, esi, data);
    FlagsNext(src, f, esi, data);
  }

  /** Places the source symbols of the list, up to the first repair symbol; D may already be zero above. */
  method PlaceListed(code: Code, list: seq<Symbol>, A: Matrix, D: Matrix, flags: array<bool>, ghost r: Received)
    returns (repairBegin: int, srcSymCnt: nat)
    requires ValidCoding(code) && ListDescribes(code, list, r) && IsReceived(code, r)
    requires InPlace(code, r, A, D, code.param.S + code.param.H)
    requires flags.Length >= code.param.K && (forall k :: 0 <= k < flags.Length ==> !flags[k])
    requires flags as object !in A.Footprint() + D.Footprint()
    modifies D`rows, D.data, flags
    ensures InPlace(code, r, A, D, code.param.S + code.param.H)
    ensures PresentPlaced(code, r.src, D.rows) && Flags(r.src, flags[..])
    ensures srcSymCnt == code.param.K - Missing(r.src, code.param.K)
    ensures repairBegin == if |r.rep| == 0 then -1 else srcSymCnt
  {
    repairBegin, srcSymCnt := -1, 0;
    ghost var src: seq<Option<Row>> := seq(code.param.K, _ => None);
    NoFlags(code.param.K, flags[..]);
    ListedNone(list, code.param.K);
    NonePlaced(code, r, A, D, code.param.S + code.param.H);
    var i := 0;
    while i < |list|
      invariant i == srcSymCnt <= |list| && repairBegin == -1
      invariant Listed(list, i, code.param.K, src)
      invariant InPlace(code, r, A, D, code.param.S + code.param.H)
      invariant PresentPlaced(code, src, D.rows) && Flags(src, flags[..])
    {
      if list[i].esi >= code.param.K {
        repairBegin := i;
        break;
      }
      ListedNext(list, i, code.param.K, src);
      PlaceListedAt(code, list, A, D, flags, i, r, src);
      src := src[list[i].esi := Some(list[i].data)];
      srcSymCnt := srcSymCnt + 1;
      i := i + 1;
    }
    ListedAll(code, list, r, i, src);
  }

  /** Places a repair symbol for each missing source symbol, and stops when there are K symbols. */
  method FillMissing(code: Code, list: seq<Symbol>, A: Matrix, D: Matrix, flags: array<bool>, first: nat, count: nat, ghost r: Received)
    returns (repairBegin: nat, srcSymCnt: nat)
    requires ValidCoding(code) && ListDescribes(code, list, r) && IsReceived(code, r)
    requires InPlace(code, r, A, D, code.param.S + code.param.H)
    requires PresentPlaced(code, r.src, D.rows) && Flags(r.src, flags[..])
    requires flags as object !in A.Footprint() + D.Footprint()
    requires first == count == code.param.K - Missing(r.src, code.param.K) < code.param.K
    modifies A`rows, A.data, D`rows, D.data
    ensures InPlace(code, r, A, D, code.param.S + code.param.H + code.param.K)
    ensures srcSymCnt == repairBegin == code.param.K
  {
    repairBegin, srcSymCnt := first, count;
    ghost var f := flags[..];
    for i := 0 to code.param.K
      invariant repairBegin == srcSymCnt == first + Missing(r.src, i) < code.param.K
      invariant flags[..] == f
      invariant InPlace(code, r, A, D, code.param.S + code.param.H + i)
      invariant PresentPlaced(code, r.src, D.rows)
    {
      MissingMonotone(r.src, i + 1, code.param.K);
      FlagAt(r.src, f, i);
      if !flags[i] {
        FillMissingAt(code, list, A, D, i, repairBegin, r);
        assert flags[..] == f;
        repairBegin, srcSymCnt := repairBegin + 1, srcSymCnt + 1;
        if srcSymCnt >= code.param.K {
          InPlaceToEnd(code, r, A, D, i + 1, code.param.S + code.param.H + i + 1, code.param.S + code.param.H + code.param.K);
          break;
        }
        assert repairBegin == first + Missing(r.src, i + 1);
      } else {
        InPlaceHere(code, r, A, D, i);
        assert repairBegin == first + Missing(r.src, i + 1);
      }
      assert InPlace(code, r, A, D, code.param.S + code.param.H + (i + 1));
    }
  }

  lemma FlagAt(src: seq<Option<Row>>, flags: seq<bool>, i: nat)
    requires Flags(src, flags) && i < |src|
    ensures flags[i] <==> src[i].Some?
  {
    assert (src[i].Some? || !src[i].Some?);
  }

  method FillMissingAt(code: Code, list: seq<Symbol>, A: Matrix, D: Matrix, i: nat, repairBegin: nat, ghost r: Received)
    requires ValidCoding(code) && ListDescribes(code, list, r) && IsReceived(code, r)
    requires InPlace(code, r, A, D, code.param.S + code.param.H + i) && PresentPlaced(code, r.src, D.rows)
    requires i < code.param.K && r.src[i].None?
    requires repairBegin == code.param.K - Missing(r.src, code.param.K) + Missing(r.src, i) < |list|
    modifies A`rows, A.data, D`rows, D.data
    ensures InPlace(code, r, A, D, code.param.S + code.param.H + i + 1)
    ensures PresentPlaced(code, r.src, D.rows)
  {
    ListAt(code, list, r, repairBegin);
    PlacedStill(code, r.src, D.rows, i, list[repairBegin].data);
    PlaceMissing(code, r, A, D, i, code.param.S + code.param.H + i, code.param.S + code.param.H + i + 1, list[repairBegin].esi, list[repairBegin].data);
  }

  lemma ListLength(code: Code, list: seq<Symbol>, r: Received)
    requires ListDescribes(code, list, r) && IsReceived(code, r)
    ensures Extra(code, r) == |list| - code.param.K
  {
  }

  /** Places the rest of the list in the rows from L on, and returns the row after them. */
  method PlaceListRest(code: Code, list: seq<Symbol>, A: Matrix, D: Matrix, repairBegin: nat, ghost r: Received) returns (addi: nat)
    requires ValidCoding(code) && ListDescribes(code, list, r) && IsReceived(code, r)
    requires InPlace(code, r, A, D, code.param.L) && repairBegin == code.param.K
    modifies A`rows, A.data, D`rows, D.data
    ensures InPlace(code, r, A, D, addi) && addi == code.param.L + Extra(code, r)
  {
    addi := code.param.L;
    for i := repairBegin to |list|
      invariant addi == code.param.L + (i - repairBegin) && InPlace(code, r, A, D, addi)
    {
      PlaceListExtra(code, list, A, D, i, addi, r);
      addi := addi + 1;
    }
    ListLength(code, list, r);
  }

  /** Places symbol i of the list in row addi. */
  method PlaceListExtra(code: Code, list: seq<Symbol>, A: Matrix, D: Matrix, i: nat, addi: nat, ghost r: Received)
    requires ValidCoding(code) && ListDescribes(code, list, r) && IsReceived(code, r)
    requires code.param.K <= i < |list| && addi == code.param.L + (i - code.param.K) && InPlace(code, r, A, D, addi)
    modifies A`rows, A.data, D`rows, D.data
    ensures InPlace(code, r, A, D, addi + 1)
  {
    ListAt(code, list, r, i);
    PlaceExtra(code, r, A, D, addi, addi + 1, list[i].esi, list[i].data);
  }

  /** Fills the rows of the source symbols; returns the place of the first repair symbol not used for that, or -1. */
  method PlaceListSources(code: Code, list: seq<Symbol>, A: Matrix, D: Matrix, ghost r: Received) returns (repairBegin: int)
    requires ValidCoding(code) && ListDescribes(code, list, r) && IsReceived(code, r)
    requires InPlace(code, r, A, D, code.param.S + code.param.H)
    modifies A`rows, A.data, D`rows, D.data
    ensures InPlace(code, r, A, D, code.param.S + code.param.H + code.param.K)
    ensures repairBegin == if |r.rep| == 0 then -1 else code.param.K
  {
    var srcSymCnt;
    var flags := new bool[296](_ => false);
    repairBegin, srcSymCnt := PlaceListed(code, list, A, D, flags, r);
    if repairBegin != -1 && srcSymCnt < code.param.K {
      repairBegin, srcSymCnt := FillMissing(code, list, A, D, flags, repairBegin, srcSymCnt, r);
    } else {
      InPlaceToEnd(code, r, A, D, 0, code.param.S + code.param.H, code.param.S + code.param.H + code.param.K);
    }
  }

  lemma NothingLeft(code: Code, list: seq<Symbol>, r: Received)
    requires ListDescribes(code, list, r) && IsReceived(code, r) && (|r.rep| == 0 || |list| == code.param.K)
    ensures code.param.L == code.param.L + Extra(code, r)
  {
  }

  /** Places what is left of the list, if anything. */
  method PlaceListTail(code: Code, list: seq<Symbol>, A: Matrix, D: Matrix, repairBegin: int, ghost r: Received)
    requires ValidCoding(code) && ListDescribes(code, list, r) && IsReceived(code, r)
    requires InPlace(code, r, A, D, code.param.L) && repairBegin == if |r.rep| == 0 then -1 else code.param.K
    modifies A`rows, A.data, D`rows, D.data
    ensures InPlace(code, r, A, D, code.param.L + Extra(code, r))
  {
    if repairBegin != -1 && repairBegin < |list| {
      var addi := PlaceListRest(code, list, A, D, repairBegin, r);
    } else {
      NothingLeft(code, list, r);
    }
  }

  /** Writes every row of the system. */
  method LayOutList(code: Code, list: seq<Symbol>, A: Matrix, D: Matrix, ghost r: Received)
    requires ValidCoding(code) && ListDescribes(code, list, r) && IsReceived(code, r)
    requires InPlace(code, r, A, D, 0)
    modifies A`rows, A.data, D`rows, D.data
    ensures InPlace(code, r, A, D, code.param.L + Extra(code, r))
  {
    var param := code.param;
    ZeroSymbols(code, r, A, D, 0, param.S + param.H);
    var repairBegin := PlaceListSources(code, list, A, D, r);
    ZeroSymbols(code, r, A, D, param.S + param.H + param.K, param.L);
    PlaceListTail(code, list, A, D, repairBegin, r);
  }

  /** Decodes from a list of symbols, the source symbols first in the order of their numbers. */
  method TryDecodeList(F: Field, code: Code, list: seq<Symbol>) returns (success: bool, D: Matrix)
    requires Laws(F) && ValidCoding(code) && IsList(code, list)
    ensures fresh(D.Footprint()) && D.Valid() && D.colNum == code.param.T && IsReceived(code, FromList(list, code.param.K))
    ensures Decodes(F, code, FromList(list, code.param.K), success, D.rows)
  {
    ghost var r := FromList(list, code.param.K);
    ListIsDescribed(code, list);
    var A;
    A, D := Construct(code, |list| - code.param.K, r);
    LayOutList(code, list, A, D, r);
    success := Solve(F, code, A, D, r);
  }
}
