/**
 * The account settings page (src/app/dashboard/settings/page.tsx): the profile form and its
 * save handler, the password form with its validity rule and warnings, and the guarded
 * account deletion. The calls to updateProfile, Clerk's updatePassword and deleteAccount
 * are recorded; their outcome is an input.
 */
module AccountSettings {
  import opened Wrappers
  import opened Store

  // ---------------------------------------------------------------------------------
  // The profile form
  // ---------------------------------------------------------------------------------

  /** The arguments of one updateProfile call: only the fields that were changed. */
  datatype ProfileChange = ProfileChange(name: Option<string>, avatarStorageId: Option<Id>)

  /** hasChanges: a name was typed or a new avatar uploaded, whatever their values. */
  predicate HasChanges(name: Option<string>, avatarStorageId: Option<Id>)
  {
    name.Some? || avatarStorageId.Some?
  }

  /** displayName: the typed name, else the stored one, else ''. */
  function DisplayName(name: Option<string>, storedName: Option<string>): string
  {
    if name.Some? then name.value else if storedName.Some? then storedName.value else ""
  }

  /** The form's state and the calls it has made. */
  class ProfileForm {
    var name: Option<string>
    var avatarStorageId: Option<Id>
    var saving: bool
    var calls: seq<ProfileChange>

    constructor ()
      ensures name == None && avatarStorageId == None && !saving && calls == []
    {
      name := None;
      avatarStorageId := None;
      saving := false;
      calls := [];
    }

    /** Save is enabled with changes and no save in flight. */
    predicate SaveEnabled()
      reads this
    {
      HasChanges(name, avatarStorageId) && !saving
    }

    method EditName(s: string)
      modifies this`name
      ensures name == Some(s)
    {
      name := Some(s);
    }

    method UploadAvatar(storageId: Id)
      modifies this`avatarStorageId
      ensures avatarStorageId == Some(storageId)
    {
      avatarStorageId := Some(storageId);
    }

    /**
     * handleSave, pressed while enabled: updateProfile receives exactly the changed fields;
     * after success the dirty state is reset, after a failure it is kept; saving ends
     * cleared either way.
     */
    method HandleSave(failed: bool)
      requires SaveEnabled()
      modifies this`name, this`avatarStorageId, this`saving, this`calls
      ensures calls == old(calls) + [ProfileChange(old(name), old(avatarStorageId))]
      ensures failed ==> name == old(name) && avatarStorageId == old(avatarStorageId)
      ensures !failed ==> name == None && avatarStorageId == None
      ensures !saving
    {
      saving := true;
      calls := calls + [ProfileChange(name, avatarStorageId)];
      if !failed {
        name := None;
        avatarStorageId := None;
      }
      saving := false;
    }
  }

  /**
   * Every call carries at least one field, and after a successful save the button is
   * disabled until something is changed again.
   */
  method SaveThenDisabled(form: ProfileForm)
    requires form.SaveEnabled()
    modifies form
    ensures |form.calls| == |old(form.calls)| + 1
    ensures form.calls[|form.calls| - 1].name.Some? || form.calls[|form.calls| - 1].avatarStorageId.Some?
    ensures !form.SaveEnabled()
  {
    form.HandleSave(false);
  }

  // ---------------------------------------------------------------------------------
  // The password form
  // ---------------------------------------------------------------------------------

  /** passwordValid: a new password of 8 or more characters, confirmed, and a current password given. */
  predicate PasswordValid(currentPassword: string, newPassword: string, confirmPassword: string)
  {
    |newPassword| >= 8 && newPassword == confirmPassword && |currentPassword| > 0
  }

  /** The warning under the new password: typed but shorter than 8. */
  predicate LengthWarning(newPassword: string)
  {
    0 < |newPassword| < 8
  }

  /** The warning under the confirmation: typed and different from the new password. */
  predicate MismatchWarning(newPassword: string, confirmPassword: string)
  {
    |confirmPassword| > 0 && newPassword != confirmPassword
  }

  /**
   * The warnings agree with the rule: a valid form shows none, and once the current
   * password and the confirmation are filled in, an invalid form shows at least one.
   */
  lemma WarningsExplainValidity(currentPassword: string, newPassword: string, confirmPassword: string)
    ensures PasswordValid(currentPassword, newPassword, confirmPassword) ==> !LengthWarning(newPassword) && !MismatchWarning(newPassword, confirmPassword)
    ensures |currentPassword| > 0 && |confirmPassword| > 0 && !PasswordValid(currentPassword, newPassword, confirmPassword) ==>
              LengthWarning(newPassword) || MismatchWarning(newPassword, confirmPassword)
  {
  }

  /** One call of updatePassword. */
  datatype PasswordChange = PasswordChange(currentPassword: string, newPassword: string)

  class PasswordForm {
    var currentPassword: string
    var newPassword: string
    var confirmPassword: string
    var saving: bool
    var error: Option<string>
    var success: bool
    var calls: seq<PasswordChange>

    /** Every password sent met the rule. */
    predicate Valid()
      reads this
    {
      forall i :: 0 <= i < |calls| ==> |calls[i].newPassword| >= 8 && |calls[i].currentPassword| > 0
    }

    constructor ()
      ensures Valid()
      ensures currentPassword == "" && newPassword == "" && confirmPassword == "" && !saving && error == None && !success && calls == []
    {
      currentPassword := "";
      newPassword := "";
      confirmPassword := "";
      saving := false;
      error := None;
      success := false;
      calls := [];
    }

    /** The Change Password button is enabled for a valid form with no change in flight. */
    predicate Enabled()
      reads this
    {
      PasswordValid(currentPassword, newPassword, confirmPassword) && !saving
    }

    method Edit(currentPassword: string, newPassword: string, confirmPassword: string)
      modifies this`currentPassword, this`newPassword, this`confirmPassword
      ensures this.currentPassword == currentPassword && this.newPassword == newPassword && this.confirmPassword == confirmPassword
    {
      this.currentPassword := currentPassword;
      this.newPassword := newPassword;
      this.confirmPassword := confirmPassword;
    }

    /**
     * handleChangePassword, pressed while enabled: the error and success flag are cleared
     * and updatePassword is called; on success the three fields are emptied and success is
     * shown, on failure its message (failure) is shown and the fields kept.
     */
    method HandleChangePassword(failure: Option<string>)
      requires Valid() && Enabled()
      modifies this`currentPassword, this`newPassword, this`confirmPassword, this`saving, this`error, this`success, this`calls
      ensures Valid() && !saving
      ensures calls == old(calls) + [PasswordChange(old(currentPassword), old(newPassword))]
      ensures failure.None? ==> currentPassword == "" && newPassword == "" && confirmPassword == "" && success && error == None
      ensures failure.Some? ==> currentPassword == old(currentPassword) && newPassword == old(newPassword) && confirmPassword == old(confirmPassword) && !success && error == failure
      ensures failure.None? ==> !Enabled()
    {
      error := None;
      success := false;
      saving := true;
      calls := calls + [PasswordChange(currentPassword, newPassword)];
      if failure.None? {
        currentPassword := "";
        newPassword := "";
        confirmPassword := "";
        success := true;
      } else {
        error := failure;
        saving := false;
        return;
      }
      saving := false;
    }
  }

  // ---------------------------------------------------------------------------------
  // Account deletion
  // ---------------------------------------------------------------------------------

  /** The dialog's Delete Account button: the confirmation reads exactly "DELETE" and no deletion runs. */
  predicate DeleteEnabled(deleteConfirm: string, deleting: bool)
  {
    deleteConfirm == "DELETE" && !deleting
  }

  /** Only the exact word enables deletion: any other text, "delete" included, leaves it disabled. */
  lemma OnlyExactConfirmation(deleteConfirm: string, deleting: bool)
    ensures DeleteEnabled(deleteConfirm, deleting) ==> |deleteConfirm| == 6 && deleteConfirm[0] == 'D'
    ensures !DeleteEnabled("delete", deleting) && !DeleteEnabled("DELETE ", deleting) && !DeleteEnabled("DELETE", true)
  {
    assert "delete" != "DELETE" by { assert "delete"[0] != "DELETE"[0]; }
    assert |"DELETE "| != |"DELETE"|;
  }

  class DeleteDialog {
    var deleteConfirm: string
    var deleting: bool
    /** How many times deleteAccount was called, and where the page went. */
    var deleteCalls: nat
    var navigatedTo: Option<string>

    constructor ()
      ensures deleteConfirm == "" && !deleting && deleteCalls == 0 && navigatedTo == None
    {
      deleteConfirm := "";
      deleting := false;
      deleteCalls := 0;
      navigatedTo := None;
    }

    method Type(s: string)
      modifies this`deleteConfirm
      ensures deleteConfirm == s
    {
      deleteConfirm := s;
    }

    /**
     * handleDeleteAccount, pressed while enabled: deleting is set and deleteAccount called;
     * on success the page goes to '/', with deleting still set; on failure deleting is
     * cleared and the page stays.
     */
    method HandleDeleteAccount(failed: bool)
      requires DeleteEnabled(deleteConfirm, deleting)
      modifies this`deleting, this`deleteCalls, this`navigatedTo
      ensures deleteCalls == old(deleteCalls) + 1
      ensures !failed ==> deleting && navigatedTo == Some("/")
      ensures failed ==> !deleting && navigatedTo == old(navigatedTo)
    {
      deleting := true;
      deleteCalls := deleteCalls + 1;
      if failed {
        deleting := false;
      } else {
        navigatedTo := Some("/");
      }
    }
  }

  /** A successful deletion disables the button: deleteAccount cannot be called twice. */
  method DeleteOnce(dialog: DeleteDialog)
    requires DeleteEnabled(dialog.deleteConfirm, dialog.deleting)
    modifies dialog
    ensures dialog.deleteCalls == old(dialog.deleteCalls) + 1
    ensures !DeleteEnabled(dialog.deleteConfirm, dialog.deleting)
  {
    dialog.HandleDeleteAccount(false);
  }
}
