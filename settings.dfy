// The change-password panel of the settings page: the error messages the
// effect derives from the new and confirm fields, and when the update
// button is disabled.

module Settings {

  datatype PasswordErrors = PasswordErrors(newPassword: string, confirmPassword: string)

  const TooShort := "Password must be at least 8 characters long."
  const Mismatch := "Passwords do not match."

  /** The effect over (newPassword, confirmPassword): it starts from no
    * errors and sets each message when its rule is broken. */
  method ComputeErrors(newPassword: string, confirmPassword: string) returns (errors: PasswordErrors)
    ensures errors.newPassword != [] <==> newPassword != [] && |newPassword| < 8
    ensures errors.confirmPassword != [] <==> confirmPassword != [] && newPassword != confirmPassword
    ensures errors == Errors(newPassword, confirmPassword)
  {
    errors := PasswordErrors([], []);
    if newPassword != [] && |newPassword| < 8 {
      errors := errors.(newPassword := TooShort);
    }
    if confirmPassword != [] && newPassword != confirmPassword {
      errors := errors.(confirmPassword := Mismatch);
    }
  }

  /** The errors as a value, for reasoning about the button. */
  function Errors(newPassword: string, confirmPassword: string): (r: PasswordErrors)
    ensures r.newPassword != [] <==> newPassword != [] && |newPassword| < 8
    ensures r.confirmPassword != [] <==> confirmPassword != [] && newPassword != confirmPassword
  {
    PasswordErrors(
      if newPassword != [] && |newPassword| < 8 then TooShort else [],
      if confirmPassword != [] && newPassword != confirmPassword then Mismatch else [])
  }

  /** Empty fields never show a message. */
  lemma EmptyFieldsNoErrors()
    ensures Errors([], []) == PasswordErrors([], [])
  {
  }

  /** isPasswordUpdateDisabled. */
  predicate UpdateDisabled(current: string, newPassword: string, confirmPassword: string, errors: PasswordErrors) {
    current == [] || newPassword == [] || confirmPassword == [] ||
    errors.newPassword != [] || errors.confirmPassword != []
  }

  /** With the errors the effect computed, the update is enabled exactly when
    * the current password is non-empty, the new one has at least eight
    * characters and the confirmation matches; the current password is
    * never compared with anything. */
  lemma UpdateEnabledIff(current: string, newPassword: string, confirmPassword: string)
    ensures !UpdateDisabled(current, newPassword, confirmPassword, Errors(newPassword, confirmPassword)) <==>
      current != [] && |newPassword| >= 8 && newPassword == confirmPassword
  {
  }
}
