/** The code parameters of src/fast_fec.h (RFC 6330, section 5.6). */
module Params {
  datatype Param = Param(K: nat, T: nat, KP: nat, S: nat, H: nat, W: nat, L: nat, P: nat, P1: nat, U: nat, B: nat, J: nat)
  {
    /** Repair symbols are numbered after the padding symbols K to KP - 1. */
    function ESIToISI(esi: nat): int {
      if esi < K then esi else KP + (esi - K)
    }

    function ISIToESI(isi: nat): int {
      if isi < K then isi else isi - (KP - K)
    }
  }

  /** The two numberings are inverse to each other, where there are symbols. */
  lemma IdsInverse(param: Param, n: nat)
    requires param.K <= param.KP
    ensures param.ESIToISI(n) >= 0 && param.ISIToESI(param.ESIToISI(n)) == n
    ensures n < param.K || n >= param.KP ==> param.ISIToESI(n) >= 0 && param.ESIToISI(param.ISIToESI(n)) == n
  {
  }

  lemma IdsIncrease(param: Param, e: nat, f: nat)
    requires param.K <= param.KP && e < f
    ensures param.ESIToISI(e) < param.ESIToISI(f)
  {
  }

  /** The internal ids of source and repair symbols are all numbers but those of the padding symbols, and those of the
      source symbols are their numbers. With IdsIncrease there is only one such numbering. */
  lemma IdsSkipPadding(param: Param, isi: nat)
    requires param.K <= param.KP
    ensures isi < param.K ==> param.ESIToISI(isi) == isi
    ensures (exists esi: nat :: param.ESIToISI(esi) == isi) <==> isi < param.K || isi >= param.KP
  {
    if isi < param.K {
      assert param.ESIToISI(isi) == isi;
    } else if isi >= param.KP {
      assert param.ESIToISI(param.K + (isi - param.KP)) == isi;
    }
  }
}
