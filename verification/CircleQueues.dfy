/** The ring buffer of src/fqueue.h. A slot is handed out as its place in the buffer, and its contents are written
    through that place. */
module CircleQueues {
  class CircleQueue<T(0)> {
    const buffer: array<T>
    var slotBegin: nat
    var slotCnt: nat

    ghost predicate Valid()
      reads this
    {
      slotBegin < buffer.Length && slotCnt <= buffer.Length
    }

    /** Where slot idx of the queue is in the buffer. */
    function Place(idx: nat): (p: nat)
      requires Valid() && idx <= buffer.Length
      reads this
      ensures p < buffer.Length
      ensures p == slotBegin + idx || p + buffer.Length == slotBegin + idx
    {
      if slotBegin + idx >= buffer.Length then slotBegin + idx - buffer.Length else slotBegin + idx
    }

    /** The slots in order. */
    ghost function Contents(): (s: seq<T>)
      requires Valid()
      reads this, buffer
      ensures |s| == slotCnt && forall k {:trigger s[k]} :: 0 <= k < slotCnt ==> s[k] == buffer[Place(k)]
    {
      seq(slotCnt, k requires 0 <= k < slotCnt && Valid() reads this, buffer => buffer[Place(k)])
    }

    /** Different slots are at different places. */
    lemma PlaceInjective(j: nat, k: nat)
      requires Valid() && j < k < buffer.Length
      ensures Place(j) != Place(k)
    {
    }

    constructor (capability: nat)
      requires capability > 0
      ensures Valid() && fresh(buffer) && buffer.Length == capability && Contents() == []
    {
      buffer := new T[capability];
      slotBegin, slotCnt := 0, 0;
    }

    method At(idx: nat) returns (p: nat)
      requires Valid() && idx < slotCnt
      ensures p == Place(idx)
    {
      p := slotBegin + idx;
      if p >= buffer.Length {
        p := p - buffer.Length;
      }
    }

    method FirstSlot() returns (p: int)
      requires Valid()
      ensures p == if slotCnt == 0 then -1 else Place(0)
    {
      p := if slotCnt == 0 then -1 else slotBegin;
    }

    method LastSlot() returns (p: int)
      requires Valid()
      ensures p == if slotCnt == 0 then -1 else Place(slotCnt - 1)
    {
      if slotCnt == 0 {
        return -1;
      }
      p := slotBegin + slotCnt - 1;
      if p >= buffer.Length {
        p := p - buffer.Length;
      }
    }

    /** The place after p; after the last slot it goes on to a free place or around to the first slot. */
    method NextSlot(p: nat, ghost idx: nat) returns (q: nat)
      requires Valid() && idx < buffer.Length && p == Place(idx)
      ensures q == Place(idx + 1)
    {
      q := p + 1;
      if q >= buffer.Length {
        q := 0;
      }
    }

    method PrevSlot(p: nat, ghost idx: nat) returns (q: nat)
      requires Valid() && idx < buffer.Length && p == Place(idx)
      ensures idx > 0 ==> q == Place(idx - 1)
      ensures q < buffer.Length
    {
      q := if p == 0 then buffer.Length - 1 else p - 1;
    }

    /** Writes a slot of the queue. */
    method Write(p: nat, ghost idx: nat, value: T)
      requires Valid() && idx < slotCnt && p == Place(idx)
      modifies buffer
      ensures Valid() && Contents() == old(Contents())[idx := value]
    {
      ghost var before := Contents();
      buffer[p] := value;
      forall k | 0 <= k < slotCnt
        ensures Contents()[k] == before[idx := value][k]
      {
        if k < idx {
          PlaceInjective(k, idx);
        } else if idx < k {
          PlaceInjective(idx, k);
        }
      }
    }

    /** One more slot at the end; what it holds is not set. */
    method AppendSlot() returns (p: nat)
      requires Valid() && slotCnt < buffer.Length
      modifies this
      ensures Valid() && slotCnt == old(slotCnt) + 1 && p == Place(old(slotCnt))
      ensures Contents()[..old(slotCnt)] == old(Contents())
    {
      p := slotBegin + slotCnt;
      if p >= buffer.Length {
        p := p - buffer.Length;
      }
      slotCnt := slotCnt + 1;
    }

    method EraseFirstNSlot(eraseNum: nat)
      requires Valid() && eraseNum <= slotCnt
      modifies this
      ensures Valid() && Contents() == old(Contents())[eraseNum..]
    {
      slotBegin := slotBegin + eraseNum;
      if slotBegin >= buffer.Length {
        slotBegin := slotBegin - buffer.Length;
      }
      slotCnt := slotCnt - eraseNum;
    }

    method EraseLastNSlot(eraseNum: nat)
      requires Valid() && eraseNum <= slotCnt
      modifies this
      ensures Valid() && Contents() == old(Contents())[..old(slotCnt) - eraseNum]
    {
      slotCnt := slotCnt - eraseNum;
    }

    method Reset()
      requires Valid()
      modifies this
      ensures Valid() && Contents() == []
    {
      slotBegin, slotCnt := 0, 0;
    }
  }
}
