/**
  The account views of core/views.py over an in-memory store of users,
  profiles and subscriptions: `get_or_create` on the one-to-one rows, the
  profile form post that mirrors the profile's plan onto the subscription, and
  sign-up with its subscription placeholder.
*/
module Views {
  import opened Wrappers
  import opened Text
  import opened Payments
  import opened Accounts
  import opened Forms

  /** The user rows the duplicate-email queries see, in store order. */
  function Rows(us: seq<User>): (r: seq<UserRow>)
    reads us
    ensures |r| == |us|
    ensures forall i :: 0 <= i < |us| ==> r[i] == UserRow(us[i].pk, us[i].email)
  {
    seq(|us|, i reads us requires 0 <= i < |us| => UserRow(us[i].pk, us[i].email))
  }

  /** No two of the users store the same e-mail address. */
  ghost predicate DistinctEmails(us: seq<User>)
    reads us
  {
    forall i, j :: 0 <= i < j < |us| ==> us[i].email != us[j].email
  }

  /** An address the profile check accepts is stored by none of the other users. */
  lemma DetailsEmailFree(us: seq<User>, email: string, pk: nat)
    requires CleanDetailsEmail(Rows(us), email, pk).Success?
    ensures forall i :: 0 <= i < |us| && us[i].pk != pk ==> us[i].email != Lower(email)
  {
    var rows := Rows(us);
    assert !EmailTaken(rows, Lower(email), Some(pk));
    forall i | 0 <= i < |us| && us[i].pk != pk ensures us[i].email != Lower(email) {
      assert rows[i] == UserRow(us[i].pk, us[i].email);
    }
  }

  /** An address the sign-up check accepts is stored by none of the users. */
  lemma SignUpEmailFree(us: seq<User>, email: string)
    requires CleanSignUpEmail(Rows(us), email).Success?
    ensures forall i :: 0 <= i < |us| ==> us[i].email != Lower(email)
  {
    var rows := Rows(us);
    assert !EmailTaken(rows, Lower(email), None);
    forall i | 0 <= i < |us| ensures us[i].email != Lower(email) {
      assert rows[i] == UserRow(us[i].pk, us[i].email);
    }
  }

  /** The unsaved user that `SignUpForm.save(commit=False)` builds. */
  method NewSignUpUser(pk: nat, fullName: string, cleanedEmail: string) returns (user: User)
    ensures fresh(user) && user.pk == pk
    ensures (user.firstName, user.lastName) == NamesAfterSave(fullName, "", "")
    ensures user.email == cleanedEmail && user.username == cleanedEmail
  {
    user := new User(pk);
    SaveSignUp(user, fullName, cleanedEmail);
  }

  /** A primary key above every stored one, as an auto-increment column hands out. */
  function NextPk(us: seq<User>): (k: nat)
    ensures forall u :: u in us ==> u.pk < k
  {
    if us == [] then 1
    else
      var rest := NextPk(us[1..]);
      assert forall u :: u in us ==> u == us[0] || u in us[1..];
      if us[0].pk < rest then rest else us[0].pk + 1
  }

  /** The subscription status that goes with a profile's plan: active with a plan, inactive without. */
  function StatusForPlan(plan: Option<Plan>): (r: Status)
    ensures r == Active <==> plan.Some?
    ensures r == Inactive <==> plan.None?
  {
    if plan.Some? then Active else Inactive
  }

  /** The profile's `plan_status` that goes with a plan. */
  function PlanStatusForPlan(plan: Option<Plan>): (r: string)
    ensures r in PlanStatusChoices
    ensures r == "active" <==> plan.Some?
    ensures r == "inactive" <==> plan.None?
  {
    if plan.Some? then "active" else "inactive"
  }

  /** The profile's status text and the subscription's status agree on every plan. */
  lemma StatusesAgree(plan: Option<Plan>)
    ensures StatusFromValue(PlanStatusForPlan(plan)) == Some(StatusForPlan(plan))
  {
    StatusRoundTrip(StatusForPlan(plan));
  }

  /** The subscription copies the profile's plan, its status and its renewal date. */
  ghost predicate Mirrored(p: Profile, s: Subscription)
    reads p, s
  {
    && s.user == p.user
    && s.plan == p.currentPlan
    && s.status == StatusForPlan(p.currentPlan)
    && p.planStatus == PlanStatusForPlan(p.currentPlan)
    && s.renewalDate == p.planRenewalDate
  }

  /** The subscription takes the profile's plan, the status that goes with it and the profile's renewal date. */
  method MirrorOnto(sub: Subscription, profile: Profile)
    requires sub.user == profile.user && profile.planStatus == PlanStatusForPlan(profile.currentPlan)
    modifies sub
    ensures Mirrored(profile, sub)
    ensures sub.priceOverride == old(sub.priceOverride)
    ensures unchanged(profile)
  {
    sub.plan := profile.currentPlan;
    sub.status := if profile.currentPlan.Some? then Active else Inactive;
    sub.renewalDate := profile.planRenewalDate;
  }

  /** `ProfileForm.save(commit=False)`, the status rule and `profile.save()` on the fetched profile. */
  method SaveProfileForm(profile: Profile, input: ProfileInput, plan: Option<Plan>)
    modifies profile
    ensures profile.Valid()
    ensures FormApplied(profile, input, plan)
    ensures profile.planRenewalDate == old(profile.planRenewalDate)
  {
    profile.phoneNumber := input.phoneNumber;
    profile.bio := input.bio;
    profile.currentPlan := plan;
    profile.emailNotifications := input.emailNotifications;
    profile.smsNotifications := input.smsNotifications;
    profile.promoNotifications := input.promoNotifications;
    if profile.currentPlan.Some? {
      profile.planStatus := "active";
    } else {
      profile.planStatus := "inactive";
    }
  }

  /** What the profile page posts. `plan` is the chosen plan key, or none. */
  datatype ProfileInput = ProfileInput(
    firstName: string,
    lastName: string,
    email: string,
    phoneNumber: string,
    bio: string,
    plan: Option<nat>,
    emailNotifications: bool,
    smsNotifications: bool,
    promoNotifications: bool)

  /** The profile holds the posted fields, the chosen plan and the status that goes with it. */
  ghost predicate FormApplied(p: Profile, input: ProfileInput, plan: Option<Plan>)
    reads p
  {
    && p.phoneNumber == input.phoneNumber && p.bio == input.bio
    && p.emailNotifications == input.emailNotifications
    && p.smsNotifications == input.smsNotifications
    && p.promoNotifications == input.promoNotifications
    && p.currentPlan == plan && p.planStatus == PlanStatusForPlan(plan)
  }

  /**
    Why a sign-up stores nothing: the form refused the input, or the insert of
    the new user hit the unique username column (an IntegrityError).
  */
  datatype SignUpError = Invalid(error: FormError) | DuplicateUsername

  /** The user, profile and subscription tables. */
  class Store {
    var users: seq<User>
    var profiles: seq<Profile>
    var subscriptions: seq<Subscription>

    /**
      Primary keys are unique, each user has at most one profile and at most one
      subscription, both refer to stored users, and every stored profile's status
      is one of its choices.
    */
    ghost predicate Valid()
      reads this, profiles
    {
      TablesValid() && ProfilesValid()
    }

    /** The key and one-to-one constraints of the three tables. */
    ghost predicate TablesValid()
      reads this
    {
      && (forall i, j :: 0 <= i < j < |users| ==> users[i].pk != users[j].pk)
      && (forall i, j :: 0 <= i < j < |profiles| ==> profiles[i].user != profiles[j].user)
      && (forall i, j :: 0 <= i < j < |subscriptions| ==> subscriptions[i].user != subscriptions[j].user)
      && (forall i :: 0 <= i < |profiles| ==> HasUser(profiles[i].user))
      && (forall i :: 0 <= i < |subscriptions| ==> HasUser(subscriptions[i].user))
    }

    /** Every stored profile holds one of the `plan_status` choices. */
    ghost predicate ProfilesValid()
      reads this, profiles
    {
      forall p :: p in profiles ==> p.Valid()
    }

    ghost predicate HasUser(pk: nat)
      reads this
    {
      exists u :: u in users && u.pk == pk
    }

    /** No two users store the same e-mail address. */
    ghost predicate UniqueEmails()
      reads this, users
    {
      DistinctEmails(users)
    }

    /** No two users share a username: the unique `username` column of Django's user table. */
    ghost predicate UniqueUsernames()
      reads this, users
    {
      forall i, j :: 0 <= i < j < |users| ==> users[i].username != users[j].username
    }

    /** `profile` and `sub` are the stored profile and subscription of user `pk`, and its only ones. */
    ghost predicate OwnsRows(pk: nat, profile: Profile, sub: Subscription)
      reads this
    {
      && profile in profiles && profile.user == pk && sub in subscriptions && sub.user == pk
      && (forall q :: q in profiles && q.user == pk ==> q == profile)
      && (forall t :: t in subscriptions && t.user == pk ==> t == sub)
    }

    /** Some stored user has the username `name`. */
    predicate UsernameHeld(name: string)
      reads this, users
    {
      exists i :: 0 <= i < |users| && users[i].username == name
    }

    /** The rows the duplicate-email queries see: each stored user's key and address, in store order. */
    function UserRows(): (r: seq<UserRow>)
      reads this, users
      ensures |r| == |users|
      ensures forall i :: 0 <= i < |users| ==> r[i] == UserRow(users[i].pk, users[i].email)
    {
      Rows(users)
    }

    constructor ()
      ensures Valid() && users == [] && profiles == [] && subscriptions == []
    {
      users := [];
      profiles := [];
      subscriptions := [];
    }

    /** `UserProfile.objects.get_or_create(user=...)`: the user's one profile, created with defaults when missing. */
    method GetOrCreateProfile(user: nat) returns (p: Profile)
      requires Valid() && HasUser(user)
      modifies this
      ensures Valid()
      ensures p in profiles && p.user == user
      ensures forall q :: q in profiles && q.user == user ==> q == p
      ensures (exists q :: q in old(profiles) && q.user == user) ==> profiles == old(profiles)
      ensures (forall q :: q in old(profiles) ==> q.user != user) ==>
        fresh(p) && profiles == old(profiles) + [p] && p.HasDefaults()
      ensures p in old(profiles) || fresh(p)
      ensures fresh(p) ==> p.HasDefaults()
      ensures users == old(users) && subscriptions == old(subscriptions)
      ensures UserRows() == old(UserRows())
    {
      var i := 0;
      while i < |profiles|
        invariant 0 <= i <= |profiles|
        invariant forall k :: 0 <= k < i ==> profiles[k].user != user
      {
        if profiles[i].user == user {
          p := profiles[i];
          return;
        }
        i := i + 1;
      }
      p := new Profile(user);
      profiles := profiles + [p];
    }

    /** `Subscription.objects.get_or_create(user=...)`: the user's one subscription, created inactive when missing. */
    method GetOrCreateSubscription(user: nat) returns (s: Subscription)
      requires Valid() && HasUser(user)
      modifies this
      ensures Valid()
      ensures s in subscriptions && s.user == user
      ensures forall t :: t in subscriptions && t.user == user ==> t == s
      ensures (exists t :: t in old(subscriptions) && t.user == user) ==> subscriptions == old(subscriptions)
      ensures (forall t :: t in old(subscriptions) ==> t.user != user) ==>
        fresh(s) && subscriptions == old(subscriptions) + [s] && s.HasDefaults()
      ensures s in old(subscriptions) || fresh(s)
      ensures fresh(s) ==> s.HasDefaults()
      ensures users == old(users) && profiles == old(profiles)
      ensures UserRows() == old(UserRows())
    {
      var i := 0;
      while i < |subscriptions|
        invariant 0 <= i <= |subscriptions|
        invariant forall k :: 0 <= k < i ==> subscriptions[k].user != user
      {
        if subscriptions[i].user == user {
          s := subscriptions[i];
          return;
        }
        i := i + 1;
      }
      s := new Subscription(user);
      subscriptions := subscriptions + [s];
    }

    /**
      The two get_or_create calls of the profile views. `ProfileView.post` fetches the
      subscription after saving the forms; its lookup reads neither the user nor the
      profile, so fetching it first yields the same rows.
    */
    method FetchRows(user: nat) returns (profile: Profile, sub: Subscription)
      requires Valid() && HasUser(user)
      modifies this
      ensures Valid()
      ensures OwnsRows(user, profile, sub)
      ensures profiles == old(profiles) || (fresh(profile) && profiles == old(profiles) + [profile])
      ensures subscriptions == old(subscriptions) || (fresh(sub) && subscriptions == old(subscriptions) + [sub])
      ensures profile in old(profiles) || fresh(profile)
      ensures sub in old(subscriptions) || fresh(sub)
      ensures fresh(profile) ==> profile.HasDefaults()
      ensures fresh(sub) ==> sub.HasDefaults()
      ensures forall q :: q in old(profiles) ==> unchanged(q)
      ensures forall t :: t in old(subscriptions) ==> unchanged(t)
      ensures users == old(users) && UserRows() == old(UserRows())
    {
      profile := GetOrCreateProfile(user);
      sub := GetOrCreateSubscription(user);
    }

    /** `ProfileView.get`: the user's profile and subscription (created when missing) and the active plans. */
    method ProfileGet(user: User, plans: seq<Plan>) returns (profile: Profile, sub: Subscription, choices: seq<Plan>)
      requires Valid() && user in users
      modifies this
      ensures Valid()
      ensures OwnsRows(user.pk, profile, sub)
      ensures profiles == old(profiles) || (fresh(profile) && profiles == old(profiles) + [profile])
      ensures subscriptions == old(subscriptions) || (fresh(sub) && subscriptions == old(subscriptions) + [sub])
      ensures fresh(profile) ==> profile.HasDefaults()
      ensures fresh(sub) ==> sub.HasDefaults()
      ensures choices == PlanChoices(plans)
      ensures users == old(users)
    {
      profile, sub := FetchRows(user.pk);
      choices := PlanChoices(plans);
    }

    /**
      `ProfileView.post`. The profile is fetched or created first. When both forms
      are valid the user's names and lower-cased e-mail are saved, the profile takes
      the posted fields and the status of its plan, and the subscription is made to
      mirror the profile. Otherwise only the get_or_create rows may appear.
    */
    method ProfilePost(user: User, input: ProfileInput, plans: seq<Plan>) returns (valid: bool, profile: Profile, sub: Subscription)
      requires Valid() && user in users
      modifies this, user, profiles, subscriptions
      ensures Valid()
      ensures users == old(users)
      ensures OwnsRows(user.pk, profile, sub)
      ensures profiles == old(profiles) || (fresh(profile) && profiles == old(profiles) + [profile])
      ensures subscriptions == old(subscriptions) || (fresh(sub) && subscriptions == old(subscriptions) + [sub])
      ensures forall q :: q in old(profiles) && q != profile ==> unchanged(q)
      ensures forall t :: t in old(subscriptions) && t != sub ==> unchanged(t)
      ensures valid <==>
        CleanDetailsEmail(old(UserRows()), input.email, user.pk).Success? && CleanPlanChoice(plans, input.plan).Success?
      ensures valid ==>
        && user.firstName == input.firstName && user.lastName == input.lastName
        && user.email == Lower(input.email) && user.username == old(user.username)
      ensures valid ==> FormApplied(profile, input, CleanPlanChoice(plans, input.plan).value)
      ensures valid && !fresh(profile) ==> profile.planRenewalDate == old(profile.planRenewalDate)
      ensures valid ==> Mirrored(profile, sub)
      ensures valid && !fresh(sub) ==> sub.priceOverride == old(sub.priceOverride)
      ensures !valid ==> unchanged(user)
      ensures !valid && !fresh(profile) ==> unchanged(profile)
      ensures !valid && !fresh(sub) ==> unchanged(sub)
      ensures fresh(profile) ==> profile.planRenewalDate.None?
      ensures fresh(sub) ==> sub.priceOverride.None?
      ensures !valid && fresh(profile) ==> profile.HasDefaults()
      ensures !valid && fresh(sub) ==> sub.HasDefaults()
    {
      profile, sub := FetchRows(user.pk);
      valid := ApplyPost(user, input, plans, profile, sub);
    }

    /** The validation and, when it passes, the saves of `ProfileView.post` on the fetched rows. */
    method ApplyPost(user: User, input: ProfileInput, plans: seq<Plan>, profile: Profile, sub: Subscription)
      returns (valid: bool)
      requires Valid() && user in users && profile in profiles && profile.user == user.pk && sub.user == user.pk
      modifies user, profile, sub
      ensures valid <==>
        CleanDetailsEmail(old(UserRows()), input.email, user.pk).Success? && CleanPlanChoice(plans, input.plan).Success?
      ensures valid ==>
        && user.firstName == input.firstName && user.lastName == input.lastName
        && user.email == Lower(input.email) && user.username == old(user.username)
      ensures valid ==> FormApplied(profile, input, CleanPlanChoice(plans, input.plan).value)
      ensures profile.planRenewalDate == old(profile.planRenewalDate)
      ensures valid ==> Mirrored(profile, sub)
      ensures sub.priceOverride == old(sub.priceOverride)
      ensures !valid ==> unchanged(user) && unchanged(profile) && unchanged(sub)
      ensures ProfilesValid()
      ensures forall q :: q in profiles && q != profile ==> unchanged(q)
      ensures forall t :: t in subscriptions && t != sub ==> unchanged(t)
      ensures old(UniqueEmails()) ==> UniqueEmails()
      ensures old(UniqueUsernames()) ==> UniqueUsernames()
    {
      var emailCheck := CleanDetailsEmail(UserRows(), input.email, user.pk);
      var planCheck := CleanPlanChoice(plans, input.plan);
      valid := emailCheck.Success? && planCheck.Success?;
      if !valid {
        return;
      }
      DetailsEmailFree(users, input.email, user.pk);
      SaveValid(user, input, emailCheck.value, planCheck.value, profile, sub);
    }

    /** The saves of a valid profile post: the user, then the profile, then the subscription mirroring it. */
    method SaveValid(user: User, input: ProfileInput, email: string, plan: Option<Plan>, profile: Profile, sub: Subscription)
      requires Valid() && user in users && profile.user == user.pk && sub.user == user.pk
      requires forall i :: 0 <= i < |users| && users[i].pk != user.pk ==> users[i].email != email
      modifies user, profile, sub
      ensures user.firstName == input.firstName && user.lastName == input.lastName
      ensures user.email == email && user.username == old(user.username)
      ensures FormApplied(profile, input, plan) && profile.planRenewalDate == old(profile.planRenewalDate)
      ensures Mirrored(profile, sub) && sub.priceOverride == old(sub.priceOverride)
      ensures old(UniqueEmails()) ==> UniqueEmails()
      ensures old(UniqueUsernames()) ==> UniqueUsernames()
    {
      SaveUserDetails(user, input.firstName, input.lastName, email);
      SaveProfileForm(profile, input, plan);
      MirrorOnto(sub, profile);
    }

    /** `user.save()` of a new user: its key is above every stored one, so no row refers to it yet. */
    method InsertUser(user: User)
      requires Valid() && forall u :: u in users ==> u.pk < user.pk
      requires forall i :: 0 <= i < |users| ==> users[i].email != user.email
      requires forall i :: 0 <= i < |users| ==> users[i].username != user.username
      modifies this
      ensures Valid() && HasUser(user.pk)
      ensures old(UniqueEmails()) ==> UniqueEmails()
      ensures old(UniqueUsernames()) ==> UniqueUsernames()
      ensures users == old(users) + [user] && profiles == old(profiles) && subscriptions == old(subscriptions)
      ensures forall t :: t in subscriptions ==> t.user != user.pk
    {
      assert forall t :: t in subscriptions ==> t.user != user.pk by {
        forall t | t in subscriptions ensures t.user != user.pk {
          var k :| 0 <= k < |subscriptions| && subscriptions[k] == t;
          assert HasUser(subscriptions[k].user);
        }
      }
      users := users + [user];
      assert user in users;
      assert forall i :: 0 <= i < |users| - 1 ==> users[i] == old(users)[i];
    }

    /** `UserDetailsForm.save()`: the posted names and the cleaned address, which no other user holds. */
    method SaveUserDetails(user: User, firstName: string, lastName: string, email: string)
      requires user in users
      requires forall i :: 0 <= i < |users| && users[i].pk != user.pk ==> users[i].email != email
      requires Valid()
      modifies user
      ensures user.firstName == firstName && user.lastName == lastName && user.email == email
      ensures user.username == old(user.username)
      ensures old(UniqueEmails()) ==> UniqueEmails()
      ensures old(UniqueUsernames()) ==> UniqueUsernames()
    {
      user.firstName := firstName;
      user.lastName := lastName;
      user.email := email;
      assert forall i :: 0 <= i < |users| && users[i] != user ==> users[i].pk != user.pk by {
        var k :| 0 <= k < |users| && users[k] == user;
      }
    }

    /** Stores a new user and then its subscription placeholder (`Subscription.objects.get_or_create`). */
    method Register(user: User)
      requires Valid() && forall u :: u in users ==> u.pk < user.pk
      requires forall i :: 0 <= i < |users| ==> users[i].email != user.email
      requires forall i :: 0 <= i < |users| ==> users[i].username != user.username
      modifies this
      ensures Valid()
      ensures users == old(users) + [user] && profiles == old(profiles)
      ensures |subscriptions| == |old(subscriptions)| + 1
      ensures subscriptions[..|old(subscriptions)|] == old(subscriptions)
      ensures var s := subscriptions[|old(subscriptions)|];
        fresh(s) && s.user == user.pk && s.HasDefaults()
      ensures old(UniqueEmails()) ==> UniqueEmails()
      ensures old(UniqueUsernames()) ==> UniqueUsernames()
    {
      InsertUser(user);
      var s := GetOrCreateSubscription(user.pk);
      assert subscriptions[..|old(subscriptions)|] == old(subscriptions);
    }

    /**
      `SignUpView.form_valid` after `SignUpForm` validation: a new user named from
      the full name, with the lower-cased address as e-mail and username, and an
      inactive subscription placeholder. A refused form creates nothing, and so
      does an address that is still some user's username: the form does not check
      usernames, so `user.save()` hits the unique column.
    */
    method SignUp(fullName: string, email: string, acceptTerms: bool) returns (r: Result<User, SignUpError>)
      requires Valid()
      modifies this
      ensures Valid()
      ensures r.Failure? <==>
        CleanSignUp(old(UserRows()), fullName, email, acceptTerms).Failure? || old(UsernameHeld(Lower(email)))
      ensures r.Failure? && CleanSignUp(old(UserRows()), fullName, email, acceptTerms).Failure? ==>
        r.error == Invalid(CleanSignUp(old(UserRows()), fullName, email, acceptTerms).error)
      ensures r.Failure? && CleanSignUp(old(UserRows()), fullName, email, acceptTerms).Success? ==>
        r.error == DuplicateUsername
      ensures r.Failure? ==> users == old(users) && profiles == old(profiles) && subscriptions == old(subscriptions)
      ensures r.Success? ==>
        && fresh(r.value) && users == old(users) + [r.value] && profiles == old(profiles)
        && r.value.email == Lower(email) && r.value.username == Lower(email)
        && (r.value.firstName, r.value.lastName) == NamesAfterSave(fullName, "", "")
      ensures r.Success? ==>
        && |subscriptions| == |old(subscriptions)| + 1
        && subscriptions[..|old(subscriptions)|] == old(subscriptions)
        && var s := subscriptions[|old(subscriptions)|];
           fresh(s) && s.user == r.value.pk && s.HasDefaults()
      ensures old(UniqueEmails()) ==> UniqueEmails()
      ensures old(UniqueUsernames()) ==> UniqueUsernames()
    {
      var check := CleanSignUp(UserRows(), fullName, email, acceptTerms);
      if check.Failure? {
        return Failure(Invalid(check.error));
      }
      if UsernameHeld(check.value) {
        return Failure(DuplicateUsername);
      }
      SignUpEmailFree(users, email);
      var user := Enroll(fullName, check.value);
      r := Success(user);
    }

    /** The saves of a valid sign-up: the new user, then its subscription placeholder. */
    method Enroll(fullName: string, cleanedEmail: string) returns (user: User)
      requires Valid()
      requires forall i :: 0 <= i < |users| ==> users[i].email != cleanedEmail
      requires forall i :: 0 <= i < |users| ==> users[i].username != cleanedEmail
      modifies this
      ensures Valid()
      ensures fresh(user) && users == old(users) + [user] && profiles == old(profiles)
      ensures user.email == cleanedEmail && user.username == cleanedEmail
      ensures (user.firstName, user.lastName) == NamesAfterSave(fullName, "", "")
      ensures |subscriptions| == |old(subscriptions)| + 1
      ensures subscriptions[..|old(subscriptions)|] == old(subscriptions)
      ensures var s := subscriptions[|old(subscriptions)|];
        fresh(s) && s.user == user.pk && s.HasDefaults()
      ensures old(UniqueEmails()) ==> UniqueEmails()
      ensures old(UniqueUsernames()) ==> UniqueUsernames()
    {
      user := NewSignUpUser(NextPk(users), fullName, cleanedEmail);
      Register(user);
    }
  }
}
