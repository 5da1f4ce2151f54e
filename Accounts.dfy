/**
  Account records of core/models.py: the user profile with its plan status and
  trial activation, and the avatar upload path. The user object itself is
  Django's auth user, reduced to the fields the core reads and writes.
*/
module Accounts {
  import opened Wrappers
  import opened Text
  import opened Payments

  // ---------------------------------------------------------------------------
  // the avatar upload path

  /** `user_avatar_upload_path`: "avatars/<user id>/<filename>". */
  function AvatarUploadPath(userId: nat, filename: string): (r: string)
    ensures |r| == |"avatars/"| + |NatToString(userId)| + 1 + |filename|
    ensures r[..8] == "avatars/" && r[|r| - |filename|..] == filename
  {
    "avatars/" + NatToString(userId) + "/" + filename
  }

  /** The path splits at "/" into "avatars", the decimal user id and the file name. */
  lemma AvatarPathParts(userId: nat, filename: string)
    ensures var (top, rest) := SplitOnce(AvatarUploadPath(userId, filename), '/');
      && top == "avatars"
      && rest.Some?
      && var (dir, name) := SplitOnce(rest.value, '/');
         name == Some(filename) && PyInt(dir) == Some(userId)
  {
    var id := NatToString(userId);
    assert '/' !in id by { assert forall i :: 0 <= i < |id| ==> IsDigit(id[i]); }
    assert AvatarUploadPath(userId, filename) == "avatars" + ['/'] + (id + "/" + filename);
    SplitOnceJoin("avatars", '/', id + "/" + filename);
    assert id + "/" + filename == id + ['/'] + filename;
    SplitOnceJoin(id, '/', filename);
    PyIntOfNat(userId);
  }

  /** Different users never share an avatar path. */
  lemma AvatarPathsSeparateUsers(u: nat, v: nat, f: string, g: string)
    requires u != v
    ensures AvatarUploadPath(u, f) != AvatarUploadPath(v, g)
  {
    AvatarPathParts(u, f);
    AvatarPathParts(v, g);
  }

  // ---------------------------------------------------------------------------
  // the profile

  /** The stored values of `plan_status`. */
  const PlanStatusChoices: seq<string> := ["inactive", "active", "cancelled"]

  /** The renewal date `activate_trial` leaves: an existing date is kept, a missing one is today + 30 days. */
  function TrialRenewal(renewal: Option<int>, today: int): (r: Option<int>)
    ensures r.Some?
    ensures renewal.Some? ==> r == renewal
    ensures renewal.None? ==> r.value - today == 30
  {
    if renewal.Some? then renewal else Some(today + 30)
  }

  /** Activating again, on any later day, does not move the renewal date. */
  lemma TrialRenewalStable(renewal: Option<int>, today: int, later: int)
    ensures TrialRenewal(TrialRenewal(renewal, today), later) == TrialRenewal(renewal, today)
  {
  }

  /** `UserProfile`: extra information stored for one user. */
  class Profile {
    const user: nat
    var phoneNumber: string
    var bio: string
    var emailNotifications: bool
    var smsNotifications: bool
    var promoNotifications: bool
    var currentPlan: Option<Plan>
    var planStatus: string
    var planRenewalDate: Option<int>

    /** `plan_status` holds one of its choices. */
    ghost predicate Valid()
      reads this
    {
      planStatus in PlanStatusChoices
    }

    /** The field defaults of a new row: blank text, e-mail and promotional notices on, SMS off, no plan, inactive. */
    ghost predicate HasDefaults()
      reads this
    {
      && phoneNumber == "" && bio == ""
      && emailNotifications && !smsNotifications && promoNotifications
      && currentPlan.None? && planStatus == "inactive" && planRenewalDate.None?
    }

    /** A new profile of `user`, with the field defaults. */
    constructor (user: nat)
      ensures Valid() && HasDefaults()
      ensures this.user == user && phoneNumber == "" && bio == ""
      ensures emailNotifications && !smsNotifications && promoNotifications
      ensures currentPlan.None? && planStatus == "inactive" && planRenewalDate.None?
    {
      this.user := user;
      phoneNumber := "";
      bio := "";
      emailNotifications := true;
      smsNotifications := false;
      promoNotifications := true;
      currentPlan := None;
      planStatus := "inactive";
      planRenewalDate := None;
    }

    /**
      `activate_trial`: without a plan nothing happens; with one the status
      becomes "active" and the renewal date is filled when missing.
    */
    method ActivateTrial(today: int)
      requires Valid()
      modifies this
      ensures Valid()
      ensures old(currentPlan).None? ==> planStatus == old(planStatus) && planRenewalDate == old(planRenewalDate)
      ensures old(currentPlan).Some? ==>
        planStatus == "active" && planRenewalDate == TrialRenewal(old(planRenewalDate), today)
      ensures currentPlan == old(currentPlan) && phoneNumber == old(phoneNumber) && bio == old(bio)
      ensures emailNotifications == old(emailNotifications) && smsNotifications == old(smsNotifications)
      ensures promoNotifications == old(promoNotifications)
    {
      if currentPlan.None? {
        return;
      }
      planStatus := "active";
      if planRenewalDate.None? {
        planRenewalDate := Some(today + 30);
      }
    }
  }

  /** Django's auth user: the fields the sign-up and profile forms write. */
  class User {
    const pk: nat
    var username: string
    var firstName: string
    var lastName: string
    var email: string

    /** An unsaved user with blank names. */
    constructor (pk: nat)
      ensures this.pk == pk && username == "" && firstName == "" && lastName == "" && email == ""
    {
      this.pk := pk;
      username := "";
      firstName := "";
      lastName := "";
      email := "";
    }
  }

  /** A user as the duplicate-email queries see it. */
  datatype UserRow = UserRow(pk: nat, email: string)
}
