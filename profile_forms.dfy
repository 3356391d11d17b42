/**
 * The two profile forms: editing a profile (src/components/ProfileView.jsx,
 * `handleSaveProfile` and `handleCancel`) and completing it after the first
 * sign-in (src/components/OnboardingView.jsx, `handleSubmit`).
 *
 * Both run the same ordered validation, store the username trimmed and
 * lower-cased, and claim it in the `usernames` collection unless another
 * user holds it. What a submission does is decided by a function of the
 * form, the stored profile and the registry; the form classes carry it out.
 */
module ProfileForms {
  import opened Options
  import opened Text
  import opened Profiles

  const UsernameEmpty: string := "Username cannot be empty"
  const DobRequired: string := "Date of Birth is required"
  const HeightInvalid: string := "Please enter a valid height in cm"
  const WeightInvalid: string := "Please enter a valid weight in kg"
  const UsernameTaken: string := "Username is already taken"
  const OnboardingUsernameTaken: string := "Username is already taken. Please choose another."
  const ProfileSaved: string := "Profile saved"
  const ProfileUpdated: string := "Profile successfully updated!"

  /**
   * The fields of a form. A number field is `None` when blank and otherwise
   * the number it holds; the avatar is `None` for `null`.
   */
  datatype Form = Form(username: string, dob: string, height: Option<real>, weight: Option<real>,
                       gender: string, avatar: Option<string>)

  /** `!x || Number(x) <= 0` fails. */
  predicate ValidMeasure(x: Option<real>) { x.Some? && x.value > 0.0 }

  /** Nothing but white space: `s.trim() === ''` (see `BlankIsTrimEmpty`). */
  predicate Blank(s: string) { AllSpace(s) }

  lemma BlankIsTrimEmpty(s: string)
    ensures Blank(s) <==> Trim(s) == ""
  {
    TrimEmptyIffAllSpace(s);
  }

  /** The checks of both forms, in their order: the first that fails gives the message. */
  function Validate(f: Form): Option<string> {
    if |f.username| == 0 || Blank(f.username) then Some(UsernameEmpty)
    else if |f.dob| == 0 then Some(DobRequired)
    else if f.height.None? || f.height.value <= 0.0 then Some(HeightInvalid)
    else if f.weight.None? || f.weight.value <= 0.0 then Some(WeightInvalid)
    else None
  }

  /** Each message is reported exactly when its check fails and every earlier check passes; a form passing all four gets none. */
  lemma ValidateFirstFailure(f: Form)
    ensures Validate(f) == Some(UsernameEmpty) <==> Blank(f.username)
    ensures Validate(f) == Some(DobRequired) <==> !Blank(f.username) && |f.dob| == 0
    ensures Validate(f) == Some(HeightInvalid) <==> !Blank(f.username) && |f.dob| > 0 && !ValidMeasure(f.height)
    ensures Validate(f) == Some(WeightInvalid) <==>
      !Blank(f.username) && |f.dob| > 0 && ValidMeasure(f.height) && !ValidMeasure(f.weight)
    ensures Validate(f) == None <==>
      !Blank(f.username) && |f.dob| > 0 && ValidMeasure(f.height) && ValidMeasure(f.weight)
  {
  }

  /** `username.trim().toLowerCase()`. */
  function CleanUsername(username: string): string {
    Lower(Trim(username))
  }

  /** A clean username is its own clean form, has no surrounding white space, and is empty only for a blank input. */
  lemma CleanUsernameNormal(username: string)
    ensures CleanUsername(CleanUsername(username)) == CleanUsername(username)
    ensures var c := CleanUsername(username); c == [] || (!IsSpace(c[0]) && !IsSpace(c[|c| - 1]))
    ensures CleanUsername(username) == "" <==> Trim(username) == ""
  {
    var t := Trim(username);
    TrimLowerCommute(t);
    TrimIdempotent(username);
    LowerIdempotent(t);
    LowerKeepsClasses(t);
  }

  /** The avatar as stored: the URL, or null. */
  function AvatarValue(avatar: Option<string>): Value {
    if avatar.Some? then Text(avatar.value) else Null
  }

  /** `Number(x)` of a number field; a blank field never gets this far, and is stored as null here. */
  function MeasureValue(x: Option<real>): Value {
    if x.Some? then Number(x.value) else Null
  }

  /** The fields the edit form hands to `updateProfile`. */
  function EditUpdates(f: Form): Doc {
    map[Username := Text(CleanUsername(f.username)), Dob := Text(f.dob),
        Height := MeasureValue(f.height), Weight := MeasureValue(f.weight),
        Gender := Text(f.gender), AvatarUrl := AvatarValue(f.avatar)]
  }

  /** The fields the onboarding form hands to `updateProfile`: no avatar. */
  function OnboardingUpdates(f: Form): Doc {
    map[Username := Text(CleanUsername(f.username)), Dob := Text(f.dob),
        Height := MeasureValue(f.height), Weight := MeasureValue(f.weight),
        Gender := Text(f.gender)]
  }

  /** `x === profile?.f`: an absent field is `undefined`, which equals no value of the form. */
  predicate Holds(profile: Option<Doc>, field: Field, v: Value) {
    profile.Some? && field in profile.value && profile.value[field] == v
  }

  /** The no-change test of `handleSaveProfile`. */
  predicate NothingChanged(f: Form, profile: Option<Doc>) {
    && Holds(profile, Username, Text(CleanUsername(f.username)))
    && Holds(profile, Dob, Text(f.dob))
    && Holds(profile, Height, MeasureValue(f.height))
    && Holds(profile, Weight, MeasureValue(f.weight))
    && Holds(profile, Gender, Text(f.gender))
    && Holds(profile, AvatarUrl, AvatarValue(f.avatar))
  }

  /** Spreading `u` over `d` leaves `d` as it is exactly when `d` already holds every field of `u`. */
  lemma SpreadUnchangedIff(d: Doc, u: Doc)
    ensures d + u == d <==> forall k :: k in u ==> k in d && d[k] == u[k]
  {
    if d + u == d {
      assert forall k :: k in u ==> k in d + u && (d + u)[k] == u[k];
    }
  }

  /** The no-change test holds exactly when writing the form's fields would leave the profile as it is. */
  lemma NothingChangedIff(f: Form, profile: Option<Doc>)
    ensures NothingChanged(f, profile) <==> profile.Some? && profile.value + EditUpdates(f) == profile.value
  {
    var u := EditUpdates(f);
    if profile.Some? {
      SpreadUnchangedIff(profile.value, u);
      assert u.Keys == {Username, Dob, Height, Weight, Gender, AvatarUrl};
    }
  }

  /** A profile without an avatar field never passes the no-change test: `null === undefined` is false. */
  lemma MissingAvatarAlwaysWrites(f: Form, profile: Option<Doc>)
    requires profile.Some? && AvatarUrl !in profile.value
    ensures !NothingChanged(f, profile)
  {
  }

  /** The registry holds `name` for another user. */
  predicate TakenByOther(owners: map<string, string>, name: string, uid: string) {
    name in owners && owners[name] != uid
  }

  /** What a submission does. */
  datatype Outcome =
    | Rejected(message: string)            // a validation message, nothing written
    | Unchanged                            // nothing to save
    | Taken                                // the username belongs to someone else, nothing written
    | Written(claim: bool, updates: Doc)   // the username claimed if `claim`, then the profile updated

  /** `handleSaveProfile`, decided. */
  function DecideSave(f: Form, profile: Option<Doc>, owners: map<string, string>, uid: string): Outcome {
    match Validate(f)
    case Some(message) => Rejected(message)
    case None =>
      var clean := CleanUsername(f.username);
      if NothingChanged(f, profile) then Unchanged
      else if !Holds(profile, Username, Text(clean)) then
        if TakenByOther(owners, clean, uid) then Taken else Written(true, EditUpdates(f))
      else Written(false, EditUpdates(f))
  }

  /** `handleSubmit` of the onboarding form, decided. */
  function DecideOnboarding(f: Form, owners: map<string, string>, uid: string): Outcome {
    match Validate(f)
    case Some(message) => Rejected(message)
    case None =>
      if TakenByOther(owners, CleanUsername(f.username), uid) then Taken
      else Written(true, OnboardingUpdates(f))
  }

  /** An edit is refused as taken exactly when it is valid, changes something, changes the username, and another user holds the new one. */
  lemma SaveTakenIff(f: Form, profile: Option<Doc>, owners: map<string, string>, uid: string)
    ensures DecideSave(f, profile, owners, uid) == Taken <==>
      && Validate(f) == None
      && !NothingChanged(f, profile)
      && !Holds(profile, Username, Text(CleanUsername(f.username)))
      && TakenByOther(owners, CleanUsername(f.username), uid)
  {
  }

  /** An edit claims a username only when it differs from the stored one, and what it writes is the cleaned username with the form's numbers. */
  lemma SaveWrites(f: Form, profile: Option<Doc>, owners: map<string, string>, uid: string)
    requires DecideSave(f, profile, owners, uid).Written?
    ensures var o := DecideSave(f, profile, owners, uid);
      && Validate(f) == None
      && (o.claim <==> !Holds(profile, Username, Text(CleanUsername(f.username))))
      && (o.claim ==> !TakenByOther(owners, CleanUsername(f.username), uid))
      && o.updates[Username] == Text(CleanUsername(f.username))
      && o.updates[Height] == Number(f.height.value) && o.updates[Weight] == Number(f.weight.value)
      && o.updates[AvatarUrl] == AvatarValue(f.avatar)
      && Complete(o.updates)
  {
  }

  /** Onboarding claims and writes exactly when the form is valid and the cleaned username is free or already the user's; it never writes an avatar. */
  lemma OnboardingWritesIff(f: Form, owners: map<string, string>, uid: string)
    ensures DecideOnboarding(f, owners, uid).Written? <==>
      Validate(f) == None && !TakenByOther(owners, CleanUsername(f.username), uid)
    ensures DecideOnboarding(f, owners, uid).Written? ==>
      var u := DecideOnboarding(f, owners, uid).updates;
      && DecideOnboarding(f, owners, uid).claim
      && AvatarUrl !in u
      && u[Username] == Text(CleanUsername(f.username))
      && u[Height] == Number(f.height.value) && u[Weight] == Number(f.weight.value)
      && Complete(u)
  {
  }

  /** A written form always makes the merged profile complete, so the update recomputes the goal. */
  lemma WrittenFormRecomputesGoal(profile: Option<Doc>, updates: Doc, ageOf: string -> int)
    requires Complete(updates)
    ensures Complete(Merged(profile, updates))
    ensures Goal in FinalUpdates(profile, updates, ageOf) && LastRecalculatedAge in FinalUpdates(profile, updates, ageOf)
  {
    var m := Merged(profile, updates);
    assert m[Dob] == updates[Dob] && m[Height] == updates[Height] && m[Weight] == updates[Weight];
  }

  // ----- The username registry ------------------------------------------------

  /** The `usernames` collection: each claimed name and the uid holding it. */
  class UsernameRegistry {
    var owners: map<string, string>

    constructor(owners: map<string, string>)
      ensures this.owners == owners
    {
      this.owners := owners;
    }

    /** `setDoc(usernameRef, { uid })`. */
    method Claim(name: string, uid: string)
      modifies this
      ensures owners == old(owners)[name := uid]
    {
      owners := owners[name := uid];
    }
  }

  // ----- The edit form ----------------------------------------------------------

  /** The form as `handleCancel` and the initial state fill it from the profile: `profile?.f || default`. */
  function FormFromProfile(profile: Option<Doc>): Form {
    var d := profile.GetOr(map[]);
    Form(if Truthy(d, Username) && d[Username].Text? then d[Username].s else "",
         if Truthy(d, Dob) && d[Dob].Text? then d[Dob].s else "",
         if Truthy(d, Height) && d[Height].Number? then Some(d[Height].x) else None,
         if Truthy(d, Weight) && d[Weight].Number? then Some(d[Weight].x) else None,
         if Truthy(d, Gender) && d[Gender].Text? then d[Gender].s else "Male",
         if Truthy(d, AvatarUrl) && d[AvatarUrl].Text? then Some(d[AvatarUrl].s) else None)
  }

  /** The state of the profile page. */
  class ProfileEditor {
    const auth: AuthContext
    const registry: UsernameRegistry
    var isEditing: bool
    var username: string
    var dob: string
    var height: Option<real>
    var weight: Option<real>
    var gender: string
    var selectedAvatar: Option<string>
    var isChecking: bool
    var error: string
    var success: string

    function Fields(): Form
      reads this
    {
      Form(username, dob, height, weight, gender, selectedAvatar)
    }

    constructor(auth: AuthContext, registry: UsernameRegistry)
      ensures this.auth == auth && this.registry == registry
      ensures Fields() == FormFromProfile(auth.profile)
      ensures !isEditing && !isChecking && error == "" && success == ""
    {
      this.auth := auth;
      this.registry := registry;
      var f := FormFromProfile(auth.profile);
      username, dob, height, weight, gender, selectedAvatar := f.username, f.dob, f.height, f.weight, f.gender, f.avatar;
      isEditing, isChecking := false, false;
      error, success := "", "";
    }

    /** `handleSaveProfile` of a signed-in user. */
    method HandleSaveProfile(ageOf: string -> int)
      requires auth.Valid() && auth.user.Some?
      modifies this, auth, registry
      ensures auth.Valid() && auth.user == old(auth.user) && auth.loading == old(auth.loading)
      ensures Fields() == old(Fields())
      ensures var uid := old(auth.user).value;
        match DecideSave(old(Fields()), old(auth.profile), old(registry.owners), uid)
        case Rejected(message) =>
          && error == message && success == "" && isEditing == old(isEditing) && isChecking == old(isChecking)
          && auth.users == old(auth.users) && registry.owners == old(registry.owners)
        case Unchanged =>
          && error == "" && success == ProfileSaved && !isEditing && isChecking == old(isChecking)
          && auth.users == old(auth.users) && registry.owners == old(registry.owners)
        case Taken =>
          && error == UsernameTaken && success == "" && !isChecking && isEditing == old(isEditing)
          && auth.users == old(auth.users) && registry.owners == old(registry.owners)
        case Written(claim, updates) =>
          && error == "" && success == ProfileUpdated && !isEditing && !isChecking
          && registry.owners == (if claim then old(registry.owners)[CleanUsername(old(username)) := uid] else old(registry.owners))
          && auth.users == old(auth.users)[uid := old(auth.users)[uid] + FinalUpdates(old(auth.profile), updates, ageOf)]
    {
      error := "";
      success := "";
      var uid := auth.user.value;
      match DecideSave(Fields(), auth.profile, registry.owners, uid)
      case Rejected(message) =>
        error := message;
      case Unchanged =>
        isEditing := false;
        success := ProfileSaved;
      case Taken =>
        error := UsernameTaken;
        isChecking := false;
      case Written(claim, updates) =>
        if claim {
          registry.Claim(CleanUsername(username), uid);
        }
        auth.UpdateProfile(updates, ageOf);
        success := ProfileUpdated;
        isEditing := false;
        isChecking := false;
    }

    /** `handleCancel`: the form refilled from the profile, messages cleared, editing left. */
    method HandleCancel()
      modifies this
      ensures Fields() == FormFromProfile(auth.profile)
      ensures error == "" && success == "" && !isEditing && isChecking == old(isChecking)
    {
      var f := FormFromProfile(auth.profile);
      username, dob, height, weight, gender, selectedAvatar := f.username, f.dob, f.height, f.weight, f.gender, f.avatar;
      error := "";
      success := "";
      isEditing := false;
    }
  }

  // ----- The onboarding form ------------------------------------------------------

  /** The state of the onboarding page. */
  class OnboardingForm {
    const auth: AuthContext
    const registry: UsernameRegistry
    var username: string
    var dob: string
    var height: Option<real>
    var weight: Option<real>
    var gender: string
    var isChecking: bool
    var error: string

    function Fields(): Form
      reads this
    {
      Form(username, dob, height, weight, gender, None)
    }

    constructor(auth: AuthContext, registry: UsernameRegistry)
      ensures this.auth == auth && this.registry == registry
      ensures Fields() == Form("", "", None, None, "Male", None)
      ensures !isChecking && error == ""
    {
      this.auth := auth;
      this.registry := registry;
      username, dob, height, weight, gender := "", "", None, None, "Male";
      isChecking, error := false, "";
    }

    /** `handleSubmit` of a signed-in user. */
    method HandleSubmit(ageOf: string -> int)
      requires auth.Valid() && auth.user.Some?
      modifies this, auth, registry
      ensures auth.Valid() && auth.user == old(auth.user) && auth.loading == old(auth.loading)
      ensures Fields() == old(Fields())
      ensures var uid := old(auth.user).value;
        match DecideOnboarding(old(Fields()), old(registry.owners), uid)
        case Rejected(message) =>
          && error == message && isChecking == old(isChecking)
          && auth.users == old(auth.users) && registry.owners == old(registry.owners)
        case Taken =>
          && error == OnboardingUsernameTaken && !isChecking
          && auth.users == old(auth.users) && registry.owners == old(registry.owners)
        case Unchanged => false
        case Written(_, updates) =>
          && error == "" && isChecking
          && registry.owners == old(registry.owners)[CleanUsername(old(username)) := uid]
          && auth.users == old(auth.users)[uid := old(auth.users)[uid] + FinalUpdates(old(auth.profile), updates, ageOf)]
    {
      error := "";
      var uid := auth.user.value;
      match DecideOnboarding(Fields(), registry.owners, uid)
      case Rejected(message) =>
        error := message;
      case Unchanged =>
      case Taken =>
        error := OnboardingUsernameTaken;
        isChecking := false;
      case Written(_, updates) =>
        isChecking := true;
        registry.Claim(CleanUsername(username), uid);
        auth.UpdateProfile(updates, ageOf);
    }
  }
}
