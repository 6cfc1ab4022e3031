/**
 * The profile page shown after sign-up (src/app/complete-profile/page.tsx): the guard on the
 * redirect_url parameter, the destination it leads to, the skip for users who already have
 * a name, and the submit handler. Navigation (router.replace) is recorded as the path it
 * was given.
 */
module CompleteProfile {
  import opened Wrappers
  import opened Store
  import opened Text

  /**
   * redirectUrl: the redirect_url parameter (None when absent) kept only when it is an
   * internal path, starting with '/' but not with '//'.
   */
  function RedirectUrl(raw: Option<string>): (r: Option<string>)
    ensures r.Some? <==> raw.Some? && StartsWith(raw.value, "/") && !StartsWith(raw.value, "//")
    ensures r.Some? ==> r == raw
  {
    if raw.Some? && StartsWith(raw.value, "/") && !StartsWith(raw.value, "//") then raw else None
  }

  /**
   * A path the redirect test accepts: it begins with one slash, not two, so it is not a
   * protocol-relative URL. It may still name another host in a browser that reads a
   * backslash as a slash, as in '/\evil.example'; the test does not exclude that.
   */
  predicate InternalPath(p: string)
  {
    |p| >= 1 && p[0] == '/' && (|p| == 1 || p[1] != '/')
  }

  /** `redirectUrl || '/dashboard'`: the accepted redirect, otherwise the dashboard. */
  function Destination(redirectUrl: Option<string>): string
  {
    if redirectUrl.Some? && redirectUrl.value != "" then redirectUrl.value else "/dashboard"
  }

  /**
   * Whatever the parameter holds, the page only ever navigates to a path that begins with
   * a single slash: the accepted redirect itself, or '/dashboard' when it was absent or
   * refused.
   */
  lemma DestinationInternal(raw: Option<string>)
    ensures InternalPath(Destination(RedirectUrl(raw)))
    ensures RedirectUrl(raw).Some? ==> Destination(RedirectUrl(raw)) == raw.value
    ensures RedirectUrl(raw).None? ==> Destination(RedirectUrl(raw)) == "/dashboard"
  {
    if RedirectUrl(raw).Some? {
      var p := raw.value;
      assert p[..1] == "/";
      if |p| >= 2 {
        assert p[..2] != "//";
        assert p[..2] == [p[0], p[1]];
      }
    }
  }

  /** A protocol-relative or absolute URL is refused: "//evil.example" and "https://evil.example" give None. */
  lemma ExternalRefused(host: string)
    ensures RedirectUrl(Some("//" + host)) == None
    ensures RedirectUrl(Some("https://" + host)) == None
  {
    assert ("//" + host)[..2] == "//";
    assert ("https://" + host)[..1] == "h";
  }

  /** The guard keeps what it accepts: applying it to its own result changes nothing. */
  lemma RedirectIdempotent(raw: Option<string>)
    ensures RedirectUrl(RedirectUrl(raw)) == RedirectUrl(raw)
  {
  }

  /** The current-user query: still loading, no user row, or a user with an optional name. */
  datatype CurrentUser = Loading | NoUser | Loaded(name: Option<string>)

  /**
   * The effect on load: a user whose name is set and not empty is sent on to the
   * destination straight away; otherwise the page stays.
   */
  function SkipTo(currentUser: CurrentUser, redirectUrl: Option<string>): (r: Option<string>)
    ensures r.Some? <==> currentUser.Loaded? && currentUser.name.Some? && currentUser.name.value != ""
    ensures r.Some? ==> r.value == Destination(redirectUrl)
  {
    if currentUser.Loaded? && currentUser.name.Some? && currentUser.name.value != "" then Some(Destination(redirectUrl))
    else None
  }

  /** The arguments of one updateProfile call: the trimmed name, and the avatar when one was chosen. */
  datatype ProfileUpdate = ProfileUpdate(name: string, avatarStorageId: Option<Id>)

  /** The form's state, the updateProfile calls made and the path navigated to. */
  class ProfileForm {
    const redirectUrl: Option<string>
    var name: string
    var avatarStorageId: Option<Id>
    var saving: bool
    var error: Option<string>
    var calls: seq<ProfileUpdate>
    var navigatedTo: Option<string>

    /** Every name sent is non-blank and already trimmed. */
    predicate Valid()
      reads this
    {
      forall i :: 0 <= i < |calls| ==> Sendable(calls[i].name)
    }

    /** The first render, with the redirect_url parameter passed through the guard. */
    constructor (rawRedirect: Option<string>)
      ensures Valid()
      ensures redirectUrl == RedirectUrl(rawRedirect)
      ensures name == "" && avatarStorageId == None && !saving && error == None && calls == [] && navigatedTo == None
    {
      redirectUrl := RedirectUrl(rawRedirect);
      name := "";
      avatarStorageId := None;
      saving := false;
      error := None;
      calls := [];
      navigatedTo := None;
    }

    /** The name input's onChange. */
    method EditName(s: string)
      modifies this`name
      ensures name == s
    {
      name := s;
    }

    /** The image uploader's onUpload. */
    method ChooseAvatar(storageId: Id)
      modifies this`avatarStorageId
      ensures avatarStorageId == Some(storageId)
    {
      avatarStorageId := Some(storageId);
    }

    /**
     * handleSubmit: a name that is all white space does nothing. Otherwise updateProfile is
     * called with the trimmed name and the chosen avatar, if any; on success the page moves
     * to the destination (saving stays set), on failure (its message) the error is shown
     * and saving cleared.
     */
    method HandleSubmit(failure: Option<string>)
      requires Valid()
      modifies this`saving, this`error, this`calls, this`navigatedTo
      ensures Valid()
      ensures var u := ProfileArgs(name, avatarStorageId);
              u.None? ==> saving == old(saving) && error == old(error) && calls == old(calls) && navigatedTo == old(navigatedTo)
      ensures var u := ProfileArgs(name, avatarStorageId);
              u.Some? ==> calls == old(calls) + [u.value]
      ensures var u := ProfileArgs(name, avatarStorageId);
              u.Some? && failure.None? ==> navigatedTo == Some(Destination(redirectUrl)) && saving && error == None
      ensures var u := ProfileArgs(name, avatarStorageId);
              u.Some? && failure.Some? ==> navigatedTo == old(navigatedTo) && !saving && error == failure
    {
      var u := ProfileArgs(name, avatarStorageId);
      if u.None? {
        return;
      }
      Send(u.value, failure);
    }

    /** The rest of handleSubmit once the name is known not to be blank: the call and its outcome. */
    method Send(u: ProfileUpdate, failure: Option<string>)
      requires Valid() && Sendable(u.name)
      modifies this`saving, this`error, this`calls, this`navigatedTo
      ensures Valid()
      ensures calls == old(calls) + [u]
      ensures failure.None? ==> navigatedTo == Some(Destination(redirectUrl)) && saving && error == None
      ensures failure.Some? ==> navigatedTo == old(navigatedTo) && !saving && error == failure
    {
      saving := true;
      error := None;
      calls := calls + [u];
      if failure.None? {
        navigatedTo := Some(Destination(redirectUrl));
      } else {
        error := failure;
        saving := false;
      }
    }
  }

  /** What handleSubmit may send as a name: not empty, and unchanged by trimming. */
  predicate Sendable(s: string)
  {
    s != "" && Trim(s) == s
  }

  /**
   * The arguments handleSubmit passes to updateProfile: none for a name that is all white
   * space; otherwise the trimmed name, which is sendable, and the avatar if one was chosen.
   */
  function ProfileArgs(name: string, avatarStorageId: Option<Id>): (u: Option<ProfileUpdate>)
    ensures u.None? <==> AllSpace(name)
    ensures u.Some? ==> u.value.name == Trim(name) && Sendable(u.value.name) && u.value.avatarStorageId == avatarStorageId
  {
    var trimmed := Trim(name);
    TrimEmpty(name);
    TrimIdempotent(name);
    if trimmed == "" then None else Some(ProfileUpdate(trimmed, avatarStorageId))
  }

  /** A word between two spaces trims to the word. */
  lemma TrimPadded(w: string)
    requires w != [] && !IsSpace(w[0]) && !IsSpace(w[|w| - 1])
    ensures Trim(" " + w + " ") == w
  {
    var s := " " + w + " ";
    assert s[1..] == w + " ";
    assert TrimStart(s) == TrimStart(w + " ");
    assert (w + " ")[0] == w[0];
    assert TrimStart(w + " ") == w + " ";
    assert (w + " ")[..|w|] == w;
    assert TrimEnd(w + " ") == TrimEnd(w);
  }

  /** An internal path passes the guard unchanged. */
  lemma InternalAccepted(p: string)
    requires InternalPath(p)
    ensures RedirectUrl(Some(p)) == Some(p) && Destination(Some(p)) == p
  {
    assert p[..1] == [p[0]];
    if |p| >= 2 {
      assert p[..2] == [p[0], p[1]];
    }
  }

  /** A name typed with a space on each side is sent without them: " Ada " sends "Ada". */
  lemma PaddedNameSent(w: string, avatarStorageId: Option<Id>)
    requires w != [] && !IsSpace(w[0]) && !IsSpace(w[|w| - 1])
    ensures ProfileArgs(" " + w + " ", avatarStorageId) == Some(ProfileUpdate(w, avatarStorageId))
  {
    TrimPadded(w);
  }
}
