/** src/device_state.c: reply identifiers and the pin tables. */
module DeviceState {
  import opened Words

  datatype PinState = PinState(pinsType: uint8, pinsVal: uint16)

  function NextId(id: uint8): uint8 {
    if id == 0xFF then 16 else id + 1
  }

  /** The n-th identifier of a run. */
  function IdAt(n: nat): uint8 {
    if n == 0 then 0 else NextId(IdAt(n - 1))
  }

  lemma {:induction false} IdClosedForm(n: nat)
    ensures IdAt(n) == if n < 0x100 then n else 16 + (n - 0x100) % 240
  {
    if n > 0 {
      IdClosedForm(n - 1);
    }
  }

  /** Any 240 consecutive identifiers are distinct. */
  lemma IdsDistinct(i: nat, j: nat)
    requires i < j < i + 240
    ensures IdAt(i) != IdAt(j)
  {
    IdClosedForm(i);
    IdClosedForm(j);
  }

  /** Identifiers below 16 never come back after the first pass. */
  lemma LowIdsNeverReturn(n: nat)
    ensures IdAt(n) < 16 <==> n < 16
  {
    IdClosedForm(n);
  }

  /** The static counter of `get_reply_id`. */
  class ReplyIds {
    var next: uint8

    constructor ()
      ensures next == 0
    {
      next := 0;
    }

    method GetReplyId() returns (id: uint8)
      modifies this
      ensures id == old(next) && next == NextId(old(next))
    {
      id := next;
      next := ToUInt8((next as int) + 1);
      if next == 0 {
        next := 16;
      }
    }
  }
}
