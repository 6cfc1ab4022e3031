/**
 * The circle settings screen (src/components/CircleSettings.tsx): the details form with its
 * save handler, the member list sorted admins first, the avatar initials, the Remove
 * buttons, and the warning shown to admins of circles with fewer than three members.
 */
module CircleSettings {
  import opened Wrappers
  import opened Store
  import opened Text
  import Circles
  import Memberships

  // ---------------------------------------------------------------------------------
  // The details form
  // ---------------------------------------------------------------------------------

  /** The arguments of one updateCircle call: absent fields are left out of the object. */
  datatype CircleUpdate = CircleUpdate(circleId: Id, name: Option<string>, description: Option<string>)

  /** The value a description field shows and compares against: `circle.description ?? ''`. */
  function ShownDescription(description: Option<string>): string
  {
    if description.Some? then description.value else ""
  }

  /**
   * hasChanges: an edited name other than the circle's, or an edited description other than
   * the circle's (a missing description reads as '').
   */
  predicate HasChanges(circleName: string, circleDescription: Option<string>, name: Option<string>, description: Option<string>)
  {
    (name.Some? && name.value != circleName) || (description.Some? && description.value != ShownDescription(circleDescription))
  }

  /**
   * The updates object of handleSave: each field is present exactly when it was edited to
   * a value other than the circle's, and then it holds the edited value.
   */
  function Updates(circleId: Id, circleName: string, circleDescription: Option<string>,
                   name: Option<string>, description: Option<string>): (u: CircleUpdate)
    ensures u.circleId == circleId
    ensures u.name.Some? <==> name.Some? && name.value != circleName
    ensures u.name.Some? ==> u.name == name
    ensures u.description.Some? <==> description.Some? && description.value != ShownDescription(circleDescription)
    ensures u.description.Some? ==> u.description == description
  {
    var n := if name.Some? && name.value != circleName then name else None;
    var d := if description.Some? && description.value != ShownDescription(circleDescription) then description else None;
    CircleUpdate(circleId, n, d)
  }

  /** `Object.keys(updates).length > 1`: some field besides circleId is present. */
  predicate CallsMutation(u: CircleUpdate)
  {
    u.name.Some? || u.description.Some?
  }

  /** The mutation is called exactly when the Save button's hasChanges holds. */
  lemma MutationIffChanges(circleId: Id, circleName: string, circleDescription: Option<string>,
                           name: Option<string>, description: Option<string>)
    ensures CallsMutation(Updates(circleId, circleName, circleDescription, name, description)) <==>
              HasChanges(circleName, circleDescription, name, description)
  {
  }

  /**
   * Applying the update as updateCircle does leaves the circle showing what the form
   * displayed: displayName (`name ?? circle.name`) and displayDescription
   * (`description ?? circle.description ?? ''`).
   */
  lemma SaveShowsDisplayed(c: Circle, circleId: Id, name: Option<string>, description: Option<string>, now: int)
    ensures var u := Updates(circleId, c.name, c.description, name, description);
            var c' := Circles.Updated(c, u.name, None, None, u.description, now);
            c'.name == (if name.Some? then name.value else c.name) &&
            ShownDescription(c'.description) == (if description.Some? then description.value else ShownDescription(c.description))
  {
  }

  /** The client's name rule: the trimmed name has at least 3 characters. */
  predicate NameAccepted(name: Option<string>)
  {
    name.None? || |Trim(name.value)| >= 3
  }

  /**
   * A name typed into the field (at most 50 characters, its maxLength) that the client
   * accepts is one the backend accepts too: updateCircle never rejects it for its length.
   */
  lemma AcceptedNameValid(name: string)
    requires |name| <= 50 && NameAccepted(Some(name))
    ensures Circles.ValidName(name)
  {
  }

  /** The form's state: the edits (null when untouched), saving, error, and the mutation calls made. */
  class DetailsForm {
    const circleId: Id
    var name: Option<string>
    var description: Option<string>
    var saving: bool
    var error: Option<string>
    var calls: seq<CircleUpdate>

    /**
     * The inputs' maxLength keeps the edits within 50 and 200 characters, and so every
     * name sent is one the backend's length rule accepts.
     */
    predicate Valid()
      reads this
    {
      (name.Some? ==> |name.value| <= 50) && (description.Some? ==> |description.value| <= 200) &&
      forall i :: 0 <= i < |calls| ==> calls[i].name.Some? ==> Circles.ValidName(calls[i].name.value)
    }

    constructor (circleId: Id)
      ensures Valid()
      ensures this.circleId == circleId && name == None && description == None
      ensures !saving && error == None && calls == []
    {
      this.circleId := circleId;
      name := None;
      description := None;
      saving := false;
      error := None;
      calls := [];
    }

    /** The name input's onChange; the input takes at most 50 characters. */
    method EditName(s: string)
      requires Valid() && |s| <= 50
      modifies this`name
      ensures Valid() && name == Some(s)
    {
      name := Some(s);
    }

    /** The description textarea's onChange; it takes at most 200 characters. */
    method EditDescription(s: string)
      requires Valid() && |s| <= 200
      modifies this`description
      ensures Valid() && description == Some(s)
    {
      description := Some(s);
    }

    /**
     * handleSave against the circle as loaded. An edited name that trims to fewer than 3
     * characters is rejected before anything else. Otherwise the error is cleared, the
     * mutation is called when some field differs, and the edits are reset unless the
     * mutation failed, in which case its message (failure) is shown and the edits kept.
     */
    method HandleSave(circleName: string, circleDescription: Option<string>, failure: Option<string>)
      returns (rejected: bool)
      requires Valid() && !saving
      modifies this`name, this`description, this`saving, this`error, this`calls
      ensures Valid() && !saving
      ensures rejected <==> !NameAccepted(old(name))
      ensures rejected ==> name == old(name) && description == old(description) && error == old(error) && calls == old(calls)
      ensures var u := Updates(circleId, circleName, circleDescription, old(name), old(description));
              !rejected ==> calls == old(calls) + (if CallsMutation(u) then [u] else [])
      ensures var u := Updates(circleId, circleName, circleDescription, old(name), old(description));
              !rejected && CallsMutation(u) && failure.Some? ==> error == failure && name == old(name) && description == old(description)
      ensures var u := Updates(circleId, circleName, circleDescription, old(name), old(description));
              !rejected && !(CallsMutation(u) && failure.Some?) ==> error == None && name == None && description == None
    {
      if name.Some? && |Trim(name.value)| < 3 {
        return true;
      }
      error := None;
      saving := true;
      var u := Updates(circleId, circleName, circleDescription, name, description);
      if u.name.Some? {
        AcceptedNameValid(u.name.value);
      }
      Send(u, failure);
      saving := false;
      rejected := false;
    }

    /**
     * The try block of handleSave: the call when some field differs, then the reset of the
     * edits, which a failing call skips, showing its message instead.
     */
    method Send(u: CircleUpdate, failure: Option<string>)
      requires Valid() && error == None && (u.name.Some? ==> Circles.ValidName(u.name.value))
      modifies this`name, this`description, this`error, this`calls
      ensures Valid()
      ensures calls == old(calls) + (if CallsMutation(u) then [u] else [])
      ensures CallsMutation(u) && failure.Some? ==> error == failure && name == old(name) && description == old(description)
      ensures !(CallsMutation(u) && failure.Some?) ==> error == None && name == None && description == None
    {
      if CallsMutation(u) {
        calls := calls + [u];
        if failure.Some? {
          error := failure;
          return;
        }
      }
      name := None;
      description := None;
    }
  }

  /** Saving an untouched form issues no call and leaves the form untouched. */
  method SaveUntouched(circleId: Id, circleName: string, circleDescription: Option<string>) returns (form: DetailsForm)
    ensures form.calls == [] && form.name == None && form.description == None && form.error == None
  {
    form := new DetailsForm(circleId);
    var rejected := form.HandleSave(circleName, circleDescription, None);
  }

  // ---------------------------------------------------------------------------------
  // The member list
  // ---------------------------------------------------------------------------------

  /** a.localeCompare(b) <= 0, taken as the order of the characters' code points. */
  predicate NameLe(a: string, b: string)
  {
    a == [] || (b != [] && (a[0] < b[0] || (a[0] == b[0] && NameLe(a[1..], b[1..]))))
  }

  /** Of two names, one comes first. */
  lemma {:induction false} NameLeTotal(a: string, b: string)
    ensures NameLe(a, b) || NameLe(b, a)
  {
    if a != [] && b != [] && a[0] == b[0] {
      NameLeTotal(a[1..], b[1..]);
    }
  }

  /**
   * The comparator of the member sort, as "a may come before b": an admin before a
   * member, and within the same role by name.
   */
  predicate MemberLe(a: Memberships.MemberEntry, b: Memberships.MemberEntry)
  {
    (a.role == Admin && b.role != Admin) || ((a.role == Admin) == (b.role == Admin) && NameLe(a.name, b.name))
  }

  lemma MemberLeTotal(a: Memberships.MemberEntry, b: Memberships.MemberEntry)
    ensures MemberLe(a, b) || MemberLe(b, a)
  {
    NameLeTotal(a.name, b.name);
  }

  /** Each member may come before the next. */
  predicate MembersSorted(s: seq<Memberships.MemberEntry>)
  {
    forall i :: 0 <= i < |s| - 1 ==> MemberLe(s[i], s[i + 1])
  }

  /** Places x before the first member it may precede. */
  function InsertMember(x: Memberships.MemberEntry, s: seq<Memberships.MemberEntry>): (r: seq<Memberships.MemberEntry>)
    requires MembersSorted(s)
    ensures MembersSorted(r)
    ensures multiset(r) == multiset(s) + multiset{x}
    ensures r[0] == x || (s != [] && r[0] == s[0])
  {
    if s == [] || MemberLe(x, s[0]) then [x] + s
    else
      MemberLeTotal(x, s[0]);
      var rest := InsertMember(x, s[1..]);
      assert s == [s[0]] + s[1..];
      [s[0]] + rest
  }

  /** sortedMembers: the members, admins first and then by name. */
  function SortMembers(s: seq<Memberships.MemberEntry>): (r: seq<Memberships.MemberEntry>)
    ensures MembersSorted(r)
    ensures multiset(r) == multiset(s)
  {
    if s == [] then []
    else
      assert s == [s[0]] + s[1..];
      InsertMember(s[0], SortMembers(s[1..]))
  }

  /** In a sorted member list no member stands before an admin. */
  lemma {:induction false} AdminsFirst(s: seq<Memberships.MemberEntry>, i: int, j: int)
    requires MembersSorted(s) && 0 <= i < j < |s| && s[j].role == Admin
    ensures s[i].role == Admin
    decreases j - i
  {
    if i + 1 < j {
      AdminsFirst(s, i + 1, j);
    }
    assert MemberLe(s[i], s[i + 1]);
  }

  /** The sorted list shows every member once, admins first. */
  lemma SortedMembersAdminsFirst(s: seq<Memberships.MemberEntry>)
    ensures |SortMembers(s)| == |s|
    ensures forall x :: x in SortMembers(s) <==> x in s
    ensures forall i, j :: 0 <= i < j < |SortMembers(s)| && SortMembers(s)[j].role == Admin ==> SortMembers(s)[i].role == Admin
  {
    var r := SortMembers(s);
    assert |r| == |multiset(r)| == |multiset(s)| == |s|;
    forall x
      ensures x in r <==> x in s
    {
      assert x in r <==> x in multiset(r);
      assert x in s <==> x in multiset(s);
    }
    forall i, j | 0 <= i < j < |r| && r[j].role == Admin
      ensures r[i].role == Admin
    {
      AdminsFirst(r, i, j);
    }
  }

  /**
   * getInitials(name): the upper-cased first letters of the first two space-separated
   * words when both are non-empty, otherwise the first two characters upper-cased.
   */
  function GetInitials(name: string): (r: string)
    ensures |r| == if |name| < 2 then |name| else 2
    ensures name != [] ==> r[0] == UpperChar(name[0])
  {
    var parts := Split(name, ' ');
    if |parts| >= 2 && parts[0] != [] && parts[1] != [] then
      InitialsSplit(name);
      ToUpper([parts[0][0], parts[1][0]])
    else ToUpper(name[..if |name| < 2 then |name| else 2])
  }

  /** With two or more parts, the first part is the text before the first space and the second is not empty only if text follows. */
  lemma InitialsSplit(name: string)
    requires |Split(name, ' ')| >= 2 && Split(name, ' ')[0] != [] && Split(name, ' ')[1] != []
    ensures |name| >= 3 && Split(name, ' ')[0][0] == name[0]
  {
    var i := IndexOf(name, ' ');
    assert i < |name|;
    assert Split(name, ' ') == [name[..i]] + Split(name[i + 1..], ' ');
  }

  /** Two words give their first letters: "ada lovelace" gives "AL". */
  lemma InitialsOfTwoWords(first: string, rest: string)
    requires first != [] && ' ' !in first && rest != [] && rest[0] != ' '
    ensures GetInitials(first + " " + rest) == ToUpper([first[0], rest[0]])
  {
    SplitAt(first, ' ', rest);
    assert first + " " + rest == first + [' '] + rest;
    var i := IndexOf(rest, ' ');
    assert i > 0;
    assert Split(rest, ' ')[0] == rest[..i];
    assert rest[..i][0] == rest[0];
  }

  /** A name without a space gives its first two characters: "ada" gives "AD". */
  lemma InitialsOfOneWord(name: string)
    requires ' ' !in name
    ensures GetInitials(name) == ToUpper(name[..if |name| < 2 then |name| else 2])
  {
  }

  /** canRemove: the viewer is the circle's admin and the member is someone else. */
  predicate CanRemove(isAdmin: bool, viewerId: Id, memberId: Id)
  {
    isAdmin && memberId != viewerId
  }

  /** The user ids of the rows that show a Remove button, in row order. */
  function RemoveButtons(rows: seq<Memberships.MemberEntry>, isAdmin: bool, viewerId: Id): (r: seq<Id>)
    ensures forall x :: x in r <==> isAdmin && x != viewerId && exists i :: 0 <= i < |rows| && rows[i].userId == x
    ensures viewerId !in r && (!isAdmin ==> r == [])
  {
    if rows == [] then []
    else
      var rest := RemoveButtons(rows[1..], isAdmin, viewerId);
      assert forall i :: 1 <= i < |rows| ==> rows[i] == rows[1..][i - 1];
      if CanRemove(isAdmin, viewerId, rows[0].userId) then [rows[0].userId] + rest else rest
  }

  /**
   * The warning above the tabs: for an admin of a circle with fewer than 3 members, how
   * many more to invite, and whether "member" takes a plural s (memberCount < 2).
   */
  datatype InviteWarning = InviteWarning(more: int, plural: bool)

  function MemberCountWarning(isAdmin: bool, memberCount: int): (w: Option<InviteWarning>)
    ensures w.Some? <==> isAdmin && memberCount < 3
    ensures w.Some? ==> memberCount + w.value.more == 3 && w.value.more >= 1
  {
    if isAdmin && memberCount < 3 then Some(InviteWarning(3 - memberCount, memberCount < 2)) else None
  }

  /** The warning's "member" is plural exactly when more than one member is wanted. */
  lemma WarningPlural(memberCount: int)
    requires memberCount < 3
    ensures MemberCountWarning(true, memberCount).value.plural <==> MemberCountWarning(true, memberCount).value.more != 1
  {
  }
}
