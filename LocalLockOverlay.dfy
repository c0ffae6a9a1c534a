/**
 * The PIN pad shown while the diary is locked (app/components/LocalLockOverlay.tsx): four input
 * slots, an error flag and the recovery form's busy flag. `onUnlock` and `onForceUnlock` are the
 * provider's `unlock` and `forceUnlock`.
 */
module LocalLockOverlay {
  import opened Wrappers
  import Text
  import opened LocalLockProvider

  const EMPTY_PIN: seq<string> := ["", "", "", ""]

  /** `/^\d*$/`: every character is an ASCII digit. */
  predicate AllDigits(value: string)
  {
    forall i :: 0 <= i < |value| ==> '0' <= value[i] <= '9'
  }

  /** `value.slice(-1)`: the last character, or `""`. */
  function LastChar(value: string): (r: string)
    ensures |r| == (if value == "" then 0 else 1)
    ensures r != [] ==> r[0] == value[|value| - 1]
  {
    if value == "" then "" else value[|value| - 1..]
  }

  /** A slot is empty or holds one digit. */
  predicate SlotOk(slot: string)
  {
    slot == "" || (|slot| == 1 && '0' <= slot[0] <= '9')
  }

  /** `every(digit => digit !== '')`. */
  predicate Filled(pin: seq<string>)
  {
    forall i :: 0 <= i < |pin| ==> pin[i] != ""
  }

  /** A filled pad spells a four-digit PIN. */
  lemma FilledPinIsFourDigits(pin: seq<string>)
    requires |pin| == 4 && (forall i :: 0 <= i < 4 ==> SlotOk(pin[i])) && Filled(pin)
    ensures Text.Concat(pin) == pin[0] + pin[1] + pin[2] + pin[3]
    ensures |Text.Concat(pin)| == 4 && AllDigits(Text.Concat(pin))
  {
    assert pin == [pin[0], pin[1], pin[2], pin[3]];
    assert Text.Concat(pin[3..]) == pin[3] by {
      assert pin[3..][1..] == [];
    }
    assert Text.Concat(pin[2..]) == pin[2] + pin[3] by {
      assert pin[2..][1..] == pin[3..];
    }
    assert Text.Concat(pin[1..]) == pin[1] + pin[2] + pin[3] by {
      assert pin[1..][1..] == pin[2..];
    }
  }

  class PinPad {
    var pin: seq<string>
    var error: bool
    var isVerifying: bool

    ghost predicate Valid()
      reads this
    {
      |pin| == 4 && forall i :: 0 <= i < 4 ==> SlotOk(pin[i])
    }

    constructor ()
      ensures Valid() && pin == EMPTY_PIN && !error && !isVerifying
    {
      pin := EMPTY_PIN;
      error := false;
      isVerifying := false;
    }

    /** `handlePinChange(index, value)` for the input at `index`. */
    method HandlePinChange(index: nat, value: string, lock: LocalLock)
      requires index < 4 && Valid() && lock.Valid()
      modifies this, lock
      ensures Valid() && lock.Valid() && isVerifying == old(isVerifying)
      ensures lock.hasPIN == old(lock.hasPIN) && lock.storedPIN == old(lock.storedPIN)
      ensures lock.pinSlot == old(lock.pinSlot) && lock.mounted == old(lock.mounted)
      ensures !AllDigits(value) ==>
        pin == old(pin) && error == old(error) && lock.isLocked == old(lock.isLocked)
      ensures AllDigits(value) ==>
        var newPin := old(pin)[index := LastChar(value)];
        && (!Filled(newPin) ==> pin == newPin && !error && lock.isLocked == old(lock.isLocked))
        && (Filled(newPin) && old(lock.storedPIN) == Some(Text.Concat(newPin)) ==>
              pin == newPin && !error && !lock.isLocked)
        && (Filled(newPin) && old(lock.storedPIN) != Some(Text.Concat(newPin)) ==>
              pin == EMPTY_PIN && error && lock.isLocked == old(lock.isLocked))
    {
      if !AllDigits(value) {
        return;
      }
      var newPin := pin[index := LastChar(value)];
      pin := newPin;
      error := false;
      if Filled(newPin) {
        var success := lock.Unlock(Text.Concat(newPin));
        if !success {
          error := true;
          pin := EMPTY_PIN;
        }
      }
    }

    /**
     * `handleKeyDown(index, e)`: Backspace on an empty slot moves the focus one slot back.
     * The returned index is the slot to focus, if any.
     */
    method HandleKeyDown(index: nat, key: string) returns (focus: Option<nat>)
      requires index < 4 && Valid()
      ensures focus.Some? <==> key == "Backspace" && pin[index] == "" && index > 0
      ensures focus.Some? ==> focus.value + 1 == index
    {
      if key == "Backspace" && pin[index] == "" && index > 0 {
        focus := Some(index - 1);
      } else {
        focus := None;
      }
    }

    /**
     * `handleRecovery(e)` with `verified` the outcome of the password check: `Some(true)` on
     * success, `Some(false)` for a wrong password, `None` when the call throws.
     */
    method HandleRecovery(verified: Option<bool>, lock: LocalLock)
      requires Valid() && lock.Valid()
      modifies this, lock
      ensures Valid() && lock.Valid() && !isVerifying
      ensures pin == old(pin) && error == old(error)
      ensures lock.hasPIN == old(lock.hasPIN) && lock.storedPIN == old(lock.storedPIN)
      ensures lock.pinSlot == old(lock.pinSlot) && lock.mounted == old(lock.mounted)
      ensures verified == Some(true) ==> !lock.isLocked
      ensures verified != Some(true) ==> lock.isLocked == old(lock.isLocked)
    {
      isVerifying := true;
      if verified == Some(true) {
        lock.ForceUnlock();
      }
      isVerifying := false;
    }
  }
}
