/**
 The password gate (src/components/LockScreen.jsx). The password is kept
 as plain text in one local-storage slot; a submission either sets it and
 unlocks, unlocks, or flags an error. Local storage is the `slot` field
 and the parent's `onUnlock` callback the `unlocked` field.
 */
module Lock {

  import opened Wrappers

  const PasswordSlot: string := "habit_tracker_password"

  /** What a submission does. */
  datatype Outcome = Ignored | Created | Unlocked | Rejected

  /** The stored password the mount effect adopts: a saved value, if it is not empty. */
  function AdoptSaved(saved: Option<string>): (r: Option<string>)
    ensures r.Some? <==> saved.Some? && saved.value != ""
    ensures r.Some? ==> r == saved
  {
    if saved.Some? && saved.value != "" then saved else None
  }

  /** `!storedPassword`: no password, or the empty one. */
  predicate NoPassword(stored: Option<string>) {
    stored.None? || stored.value == ""
  }

  /** The branch `handleSubmit` takes for a stored password and a typed one. */
  function SubmitOutcome(stored: Option<string>, input: string): Outcome {
    if input == "" then Ignored
    else if NoPassword(stored) then Created
    else if input == stored.value then Unlocked
    else Rejected
  }

  /** The stored password after a submission. */
  function StoredAfter(stored: Option<string>, input: string): Option<string> {
    if SubmitOutcome(stored, input) == Created then Some(input) else stored
  }

  /** An empty submission changes nothing and does not unlock. */
  lemma EmptyIsIgnored(stored: Option<string>)
    ensures SubmitOutcome(stored, "") == Ignored
    ensures StoredAfter(stored, "") == stored
  {
  }

  /** Without a password, a non-empty submission becomes the password and unlocks. */
  lemma FirstSubmissionSets(input: string)
    requires input != ""
    ensures SubmitOutcome(None, input) == Created
    ensures StoredAfter(None, input) == Some(input)
  {
  }

  /** With a password, a submission unlocks exactly when it is that password, and is rejected otherwise. */
  lemma UnlockIffMatches(password: string, input: string)
    requires password != "" && input != ""
    ensures SubmitOutcome(Some(password), input) == Unlocked <==> input == password
    ensures SubmitOutcome(Some(password), input) == Rejected <==> input != password
  {
  }

  /** Once a password is stored, no submission replaces it. */
  lemma PasswordNeverOverwritten(password: string, input: string)
    requires password != ""
    ensures StoredAfter(Some(password), input) == Some(password)
  {
  }

  /** Only the "set" and "unlock" branches unlock. */
  predicate Unlocks(o: Outcome) {
    o == Created || o == Unlocked
  }

  class LockScreen {
    var password: string
    var storedPassword: Option<string>
    var error: bool
    var unlocked: bool
    var slot: Option<string>

    /** The stored password is never the empty string. */
    ghost predicate Valid()
      reads this
    {
      storedPassword.Some? ==> storedPassword.value != ""
    }

    /** The first render: empty input, no stored password yet, no error; `saved` is the slot's content. */
    constructor (saved: Option<string>)
      ensures Valid()
      ensures password == "" && storedPassword == None && !error && !unlocked && slot == saved
    {
      password := "";
      storedPassword := None;
      error := false;
      unlocked := false;
      slot := saved;
    }

    /** The mount effect: adopts the saved password when the slot holds a non-empty one. */
    method LoadStoredPassword()
      requires Valid()
      modifies this`storedPassword
      ensures Valid()
      ensures storedPassword == (if AdoptSaved(slot).Some? then slot else old(storedPassword))
    {
      var saved := slot;
      if saved.Some? && saved.value != "" {
        storedPassword := saved;
      }
    }

    /** The input's `onChange`: takes the typed value and clears the error. */
    method ChangeInput(value: string)
      modifies this`password, this`error
      ensures password == value && !error
    {
      password := value;
      error := false;
    }

    /** `handleSubmit`. */
    method HandleSubmit() returns (outcome: Outcome)
      requires Valid()
      modifies this
      ensures Valid()
      ensures outcome == SubmitOutcome(old(storedPassword), old(password))
      ensures storedPassword == StoredAfter(old(storedPassword), old(password))
      ensures password == old(password)
      ensures unlocked == (old(unlocked) || Unlocks(outcome))
      ensures slot == (if outcome == Created then Some(old(password)) else old(slot))
      ensures error == (old(error) || outcome == Rejected)
    {
      if password == "" {
        return Ignored;
      }
      if storedPassword.None? || storedPassword.value == "" {
        slot := Some(password);
        storedPassword := Some(password);
        unlocked := true;
        outcome := Created;
      } else if password == storedPassword.value {
        unlocked := true;
        outcome := Unlocked;
      } else {
        error := true;
        outcome := Rejected;
      }
    }
  }
}
