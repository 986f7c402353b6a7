/** The change-password form's validation. Nothing is stored anywhere: the
    form only decides between three answers. */
module ChangePassword {

  /** Changed: the form acknowledges and closes itself. */
  datatype ChangeOutcome = MissingFields | Changed | Mismatch

  /** One press of the change button over the current, new and confirmation
      fields, each taken exactly as typed. */
  function SubmitChange(current: string, newPassword: string, confirm: string): (r: ChangeOutcome)
    ensures r == MissingFields <==> (current == [] || newPassword == [] || confirm == [])
    ensures r == Changed ==> newPassword == confirm
    ensures r == Mismatch ==> newPassword != confirm
  {
    if current == [] || newPassword == [] || confirm == [] then MissingFields
    else if confirm == newPassword then Changed
    else Mismatch
  }

  /** An empty field is reported before the two new entries are compared,
      whether or not they agree. */
  lemma EmptyFieldFirst(current: string, newPassword: string, confirm: string)
    requires current == [] || newPassword == [] || confirm == []
    ensures SubmitChange(current, newPassword, confirm) == MissingFields
  {
  }

  /** With every field filled in, the change succeeds exactly when the
      confirmation equals the new password, character for character. */
  lemma FilledSucceedsIffEqual(current: string, newPassword: string, confirm: string)
    requires current != [] && newPassword != [] && confirm != []
    ensures SubmitChange(current, newPassword, confirm) == Changed <==> confirm == newPassword
    ensures SubmitChange(current, newPassword, confirm) == Mismatch <==> confirm != newPassword
  {
  }

  /** The current password is never checked: any two non-empty values give
      the same answer. */
  lemma CurrentIrrelevant(current1: string, current2: string, newPassword: string, confirm: string)
    requires current1 != [] && current2 != []
    ensures SubmitChange(current1, newPassword, confirm) == SubmitChange(current2, newPassword, confirm)
  {
  }

  /** The new and confirmation fields play symmetric roles. */
  lemma NewConfirmSymmetric(current: string, newPassword: string, confirm: string)
    ensures SubmitChange(current, newPassword, confirm) == SubmitChange(current, confirm, newPassword)
  {
  }
}
