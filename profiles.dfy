/**
 * The user profile kept by src/contexts/AuthContext.jsx: the goal recomputed
 * when a stored profile is loaded, the goal recomputed by every profile
 * update, and the base profile written on first sign-in.
 *
 * A profile is a Firestore document, modelled as a map from field to value;
 * JavaScript's object spread `{...a, ...b}` is the map union `a + b`, and an
 * absent key is `undefined`. The current age in whole years is given by a
 * function of the date-of-birth text (the source uses date-fns and the clock).
 */
module Profiles {
  import opened Options
  import opened ProteinGoal

  datatype Field =
    | Email | Username | Dob | Height | Weight | Gender
    | Goal | LastRecalculatedAge | AvatarUrl | CreatedAt

  datatype Value = Text(s: string) | Number(x: real) | Null

  /** A document of the `users` collection, or the same data held in memory. */
  type Doc = map<Field, Value>

  /** The signed-in Firebase user: its uid and its e-mail address. */
  datatype Account = Account(uid: string, email: Option<string>)

  /** JavaScript truthiness of `d.f`: present, not null, not "" and not 0. */
  predicate Truthy(d: Doc, f: Field) {
    f in d && match d[f]
      case Text(s) => s != ""
      case Number(x) => x != 0.0
      case Null => false
  }

  /** The guard `p.dob && p.height && p.weight` under which a goal is computed. */
  predicate Complete(d: Doc) { Truthy(d, Dob) && Truthy(d, Height) && Truthy(d, Weight) }

  function TextOf(d: Doc, f: Field): Option<string> {
    if f in d && d[f].Text? then Some(d[f].s) else None
  }

  function NumberOf(d: Doc, f: Field): Option<real> {
    if f in d && d[f].Number? then Some(d[f].x) else None
  }

  /** The current age of the profile's owner, from the date-of-birth text. */
  function AgeOf(d: Doc, ageOf: string -> int): int {
    ageOf(TextOf(d, Dob).GetOr(""))
  }

  /** The calculator applied to the profile's own fields. */
  function GoalFor(d: Doc, gender: Option<string>, ageOf: string -> int): int {
    CalculateProteinGoal(TextOf(d, Dob), NumberOf(d, Height), NumberOf(d, Weight), gender, AgeOf(d, ageOf))
  }

  /** `p.gender || 'Male'`. */
  function GenderOrMale(d: Doc): Option<string> {
    if Truthy(d, Gender) && d[Gender].Text? then Some(d[Gender].s) else Some("Male")
  }

  /** The two fields a recomputation writes. */
  function Recomputed(goal: int, age: int): (u: Doc)
    ensures u.Keys == {Goal, LastRecalculatedAge}
  {
    map[Goal := Number(goal as real), LastRecalculatedAge := Number(age as real)]
  }

  /** The cached age is absent, null, or another number than `age`. */
  predicate CacheDiffers(d: Doc, age: int) {
    !(LastRecalculatedAge in d && d[LastRecalculatedAge] == Number(age as real))
  }

  /** A complete profile carries the current age as its cached age, so a load leaves it alone. */
  predicate GoalCurrent(d: Doc, ageOf: string -> int) {
    Complete(d) ==>
      LastRecalculatedAge in d && d[LastRecalculatedAge] == Number(AgeOf(d, ageOf) as real)
  }

  // ----- Loading a stored profile ------------------------------------------

  /** The profile as stored after a sign-in loads it: recomputed when complete and its cached age is stale. */
  function RecomputeOnLoad(d: Doc, ageOf: string -> int): Doc {
    if Complete(d) && CacheDiffers(d, AgeOf(d, ageOf))
    then d + Recomputed(GoalFor(d, TextOf(d, Gender), ageOf), AgeOf(d, ageOf))
    else d
  }

  /** Loading recomputes exactly when the profile is complete and its cached age differs, and then only goal and age change. */
  lemma LoadRecomputesIff(d: Doc, ageOf: string -> int)
    ensures var r := RecomputeOnLoad(d, ageOf);
      && r.Keys >= d.Keys
      && (forall f :: f in d && f != Goal && f != LastRecalculatedAge ==> r[f] == d[f])
      && (Complete(d) && CacheDiffers(d, AgeOf(d, ageOf)) ==>
            && r[Goal] == Number(GoalFor(d, TextOf(d, Gender), ageOf) as real)
            && r[LastRecalculatedAge] == Number(AgeOf(d, ageOf) as real))
      && (!(Complete(d) && CacheDiffers(d, AgeOf(d, ageOf))) ==> r == d)
  {
  }

  /** Only goal and cached age are ever written, so completeness and age are what they were. */
  lemma RecomputeKeepsInputs(d: Doc, goal: int, age: int)
    ensures Complete(d + Recomputed(goal, age)) == Complete(d)
    ensures TextOf(d + Recomputed(goal, age), Dob) == TextOf(d, Dob)
    ensures NumberOf(d + Recomputed(goal, age), Height) == NumberOf(d, Height)
    ensures NumberOf(d + Recomputed(goal, age), Weight) == NumberOf(d, Weight)
    ensures TextOf(d + Recomputed(goal, age), Gender) == TextOf(d, Gender)
  {
    var u := Recomputed(goal, age);
    assert Dob !in u && Height !in u && Weight !in u && Gender !in u;
  }

  /** After a load, a complete profile's cached age is the current age. */
  lemma LoadMakesGoalCurrent(d: Doc, ageOf: string -> int)
    ensures GoalCurrent(RecomputeOnLoad(d, ageOf), ageOf)
  {
    if Complete(d) && CacheDiffers(d, AgeOf(d, ageOf)) {
      RecomputeKeepsInputs(d, GoalFor(d, TextOf(d, Gender), ageOf), AgeOf(d, ageOf));
    }
  }

  /** A profile whose cache is current is left alone by a load. */
  lemma LoadKeepsCurrent(d: Doc, ageOf: string -> int)
    requires GoalCurrent(d, ageOf)
    ensures RecomputeOnLoad(d, ageOf) == d
  {
  }

  /** Loading twice in the same year is loading once. */
  lemma LoadIdempotent(d: Doc, ageOf: string -> int)
    ensures RecomputeOnLoad(RecomputeOnLoad(d, ageOf), ageOf) == RecomputeOnLoad(d, ageOf)
  {
    LoadMakesGoalCurrent(d, ageOf);
    LoadKeepsCurrent(RecomputeOnLoad(d, ageOf), ageOf);
  }

  // ----- First sign-in ------------------------------------------------------

  /** The profile created on first sign-in. */
  function BaseProfile(email: Option<string>, now: real): (d: Doc)
    ensures !Complete(d)
    ensures Goal in d && d[Goal] == Number(FallbackGoal as real)
    ensures Gender in d && d[Gender] == Text("Male")
    ensures LastRecalculatedAge in d && d[LastRecalculatedAge] == Null
    ensures Username in d && d[Username] == Null
  {
    map[Email := (if email.Some? then Text(email.value) else Null),
        Username := Null, Dob := Null, Height := Null, Weight := Null,
        Gender := Text("Male"), Goal := Number(FallbackGoal as real),
        LastRecalculatedAge := Null, CreatedAt := Number(now)]
  }

  /** The base profile's goal is the one the calculator gives a profile without inputs, and loading it changes nothing. */
  lemma BaseProfileConsistent(email: Option<string>, now: real, ageOf: string -> int)
    ensures BaseProfile(email, now)[Goal] == Number(GoalFor(BaseProfile(email, now), Some("Male"), ageOf) as real)
    ensures RecomputeOnLoad(BaseProfile(email, now), ageOf) == BaseProfile(email, now)
  {
    var d := BaseProfile(email, now);
    assert TextOf(d, Dob) == None;
  }

  // ----- Updating a profile -------------------------------------------------

  /** `{...profile, ...updates}`; a null profile spreads to nothing. */
  function Merged(profile: Option<Doc>, updates: Doc): Doc {
    profile.GetOr(map[]) + updates
  }

  /** The fields `updateProfile` writes: the updates, plus goal and cached age when the merged profile is complete. */
  function FinalUpdates(profile: Option<Doc>, updates: Doc, ageOf: string -> int): Doc {
    var merged := Merged(profile, updates);
    if Complete(merged)
    then updates + Recomputed(GoalFor(merged, GenderOrMale(merged), ageOf), AgeOf(merged, ageOf))
    else updates
  }

  /** The profile after an update: the updates land, other stored fields keep their values and, for a complete profile, goal and cached age are rewritten whichever fields were edited. */
  lemma UpdateRecomputes(profile: Option<Doc>, updates: Doc, ageOf: string -> int)
    ensures var merged := Merged(profile, updates);
      var r := Merged(profile, FinalUpdates(profile, updates, ageOf));
      && (forall f :: f in updates && f != Goal && f != LastRecalculatedAge ==> f in r && r[f] == updates[f])
      && (forall f :: profile.Some? && f in profile.value && f !in updates && f != Goal && f != LastRecalculatedAge ==>
            f in r && r[f] == profile.value[f])
      && (Complete(merged) ==>
            && r[Goal] == Number(GoalFor(merged, GenderOrMale(merged), ageOf) as real)
            && r[LastRecalculatedAge] == Number(AgeOf(merged, ageOf) as real))
      && (!Complete(merged) ==> r == merged)
  {
    var merged := Merged(profile, updates);
    var u := FinalUpdates(profile, updates, ageOf);
    assert u.Keys <= updates.Keys + {Goal, LastRecalculatedAge};
  }

  /** After an update the profile's cached age is current, so the next load of it in the same year changes nothing. */
  lemma UpdateThenLoad(profile: Option<Doc>, updates: Doc, ageOf: string -> int)
    ensures var r := Merged(profile, FinalUpdates(profile, updates, ageOf));
      GoalCurrent(r, ageOf) && RecomputeOnLoad(r, ageOf) == r
  {
    var merged := Merged(profile, updates);
    var r := Merged(profile, FinalUpdates(profile, updates, ageOf));
    if Complete(merged) {
      var u := Recomputed(GoalFor(merged, GenderOrMale(merged), ageOf), AgeOf(merged, ageOf));
      assert r == merged + u;
      RecomputeKeepsInputs(merged, GoalFor(merged, GenderOrMale(merged), ageOf), AgeOf(merged, ageOf));
    }
    LoadKeepsCurrent(r, ageOf);
  }

  /** Defaulting a missing gender to "Male" gives the goal that the missing gender gives. */
  lemma GenderDefaultSameGoal(d: Doc, ageOf: string -> int)
    ensures GoalFor(d, GenderOrMale(d), ageOf) == GoalFor(d, TextOf(d, Gender), ageOf)
  {
    assert SexOffset(GenderOrMale(d)) == SexOffset(TextOf(d, Gender));
  }

  // ----- The provider's state -----------------------------------------------

  /**
   * The state of the authentication provider: the signed-in user, the
   * profile held in memory, the loading flag, and the `users` collection.
   */
  class AuthContext {
    var user: Option<string>
    var profile: Option<Doc>
    var loading: bool
    var users: map<string, Doc>

    /** Signed in exactly when a profile is held, and that profile is the stored one. */
    ghost predicate Valid()
      reads this
    {
      && (user.None? ==> profile.None?)
      && (user.Some? ==> user.value in users && profile == Some(users[user.value]))
    }

    constructor(stored: map<string, Doc>)
      ensures Valid()
      ensures user == None && profile == None && loading && users == stored
    {
      user := None;
      profile := None;
      loading := true;
      users := stored;
    }

    /** The auth listener: sign-in loads (or creates) the profile, sign-out clears it. */
    method AuthStateChanged(account: Option<Account>, ageOf: string -> int, now: real)
      modifies this
      ensures Valid() && !loading
      ensures account.None? ==> user == None && profile == None && users == old(users)
      ensures account.Some? ==>
        var uid := account.value.uid;
        && user == Some(uid)
        && (uid in old(users) ==> users == old(users)[uid := RecomputeOnLoad(old(users)[uid], ageOf)])
        && (uid !in old(users) ==> users == old(users)[uid := BaseProfile(account.value.email, now)])
    {
      if account.Some? {
        var uid := account.value.uid;
        user := Some(uid);
        if uid in users {
          var stored := users[uid];
          if Complete(stored) {
            var age := AgeOf(stored, ageOf);
            if CacheDiffers(stored, age) {
              var written := Recomputed(GoalFor(stored, TextOf(stored, Gender), ageOf), age);
              stored := stored + written;
              users := users[uid := users[uid] + written];
            }
          }
          profile := Some(stored);
        } else {
          var base := BaseProfile(account.value.email, now);
          users := users[uid := base];
          profile := Some(base);
        }
      } else {
        user := None;
        profile := None;
      }
      loading := false;
    }

    /** `updateProfile`: nothing without a user; otherwise the final updates merge into the stored and the held profile. */
    method UpdateProfile(updates: Doc, ageOf: string -> int)
      requires Valid()
      modifies this
      ensures Valid()
      ensures user == old(user) && loading == old(loading)
      ensures old(user).None? ==> users == old(users) && profile == old(profile)
      ensures old(user).Some? ==>
        var uid := old(user).value;
        var written := FinalUpdates(old(profile), updates, ageOf);
        && users == old(users)[uid := old(users)[uid] + written]
        && profile == Some(old(users)[uid] + written)
    {
      if user.None? {
        return;
      }
      var uid := user.value;
      var written := FinalUpdates(profile, updates, ageOf);
      users := users[uid := users[uid] + written];
      profile := Some(profile.GetOr(map[]) + written);
    }
  }
}
