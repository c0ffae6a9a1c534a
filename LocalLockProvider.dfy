/**
 * The privacy lock (app/components/LocalLockProvider.tsx): the provider's state fields and the
 * `nikki_pin` local-storage slot, with the operations it hands to its consumers.
 */
module LocalLockProvider {
  import opened Wrappers

  /** `if (pin)`: a stored value counts only when it is a non-empty string. */
  predicate Truthy(slot: Option<string>)
  {
    slot.Some? && slot.value != ""
  }

  class LocalLock {
    var isLocked: bool
    var hasPIN: bool
    var storedPIN: Option<string>
    var mounted: bool
    /** The `nikki_pin` entry of local storage. */
    var pinSlot: Option<string>

    /** A PIN is known exactly when one is held, a lock needs a PIN, and a held PIN is the stored one. */
    ghost predicate Valid()
      reads this
    {
      (hasPIN <==> storedPIN.Some?)
      && (isLocked ==> hasPIN)
      && (storedPIN.Some? ==> pinSlot == storedPIN)
    }

    /** The initial state, before the mount effect runs. */
    constructor (pinSlot: Option<string>)
      ensures Valid()
      ensures !isLocked && !hasPIN && storedPIN.None? && !mounted && this.pinSlot == pinSlot
    {
      isLocked := false;
      hasPIN := false;
      storedPIN := None;
      mounted := false;
      this.pinSlot := pinSlot;
    }

    /** The mount effect: a stored PIN locks the diary. */
    method Mount()
      requires Valid()
      modifies this
      ensures Valid() && mounted && pinSlot == old(pinSlot)
      ensures Truthy(pinSlot) ==> isLocked && hasPIN && storedPIN == pinSlot
      ensures !Truthy(pinSlot) ==>
        isLocked == old(isLocked) && hasPIN == old(hasPIN) && storedPIN == old(storedPIN)
    {
      mounted := true;
      var pin := pinSlot;
      if Truthy(pin) {
        hasPIN := true;
        storedPIN := pin;
        isLocked := true;
      }
    }

    /** `lock()`: only a PIN-protected diary can be locked. */
    method Lock()
      requires Valid()
      modifies this
      ensures Valid()
      ensures isLocked == (old(isLocked) || hasPIN)
      ensures hasPIN == old(hasPIN) && storedPIN == old(storedPIN) && pinSlot == old(pinSlot)
      ensures mounted == old(mounted)
    {
      if hasPIN {
        isLocked := true;
      }
    }

    /** `unlock(pin)`: succeeds exactly for the held PIN. */
    method Unlock(pin: string) returns (ok: bool)
      requires Valid()
      modifies this
      ensures Valid()
      ensures ok <==> old(storedPIN) == Some(pin)
      ensures ok ==> !isLocked
      ensures !ok ==> isLocked == old(isLocked)
      ensures hasPIN == old(hasPIN) && storedPIN == old(storedPIN) && pinSlot == old(pinSlot)
      ensures mounted == old(mounted)
    {
      if storedPIN == Some(pin) {
        isLocked := false;
        return true;
      }
      return false;
    }

    /** `setPIN(pin)`: stores the PIN and leaves the diary unlocked. */
    method SetPIN(pin: string)
      requires Valid()
      modifies this
      ensures Valid()
      ensures pinSlot == Some(pin) && storedPIN == Some(pin) && hasPIN && !isLocked
      ensures mounted == old(mounted)
    {
      pinSlot := Some(pin);
      storedPIN := Some(pin);
      hasPIN := true;
      isLocked := false;
    }

    /** `clearPIN()`: forgets the PIN and leaves the diary unlocked. */
    method ClearPIN()
      requires Valid()
      modifies this
      ensures Valid()
      ensures pinSlot.None? && storedPIN.None? && !hasPIN && !isLocked
      ensures mounted == old(mounted)
    {
      pinSlot := None;
      storedPIN := None;
      hasPIN := false;
      isLocked := false;
    }

    /** `forceUnlock()`, used after the account password was verified. */
    method ForceUnlock()
      requires Valid()
      modifies this
      ensures Valid() && !isLocked
      ensures hasPIN == old(hasPIN) && storedPIN == old(storedPIN) && pinSlot == old(pinSlot)
      ensures mounted == old(mounted)
    {
      isLocked := false;
    }
  }
}
