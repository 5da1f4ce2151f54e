/**
  The normalising and checking rules of core/forms.py: e-mail addresses are
  lower-cased and refused when another user holds them, a full name is split
  into first and last names, account deletion needs "delete" typed, and plan
  choices are limited to active plans.
*/
module Forms {
  import opened Wrappers
  import opened Text
  import opened Seqs
  import opened Payments
  import opened Accounts

  /** The validation errors these forms raise. */
  datatype FormError = FieldRequired | EmailExists | EmailOwnedByAnother | ConfirmationMismatch | InvalidPlanChoice

  // ---------------------------------------------------------------------------
  // e-mail addresses

  /** Some user other than `exclude` stores exactly `email`. */
  predicate EmailTaken(users: seq<UserRow>, email: string, exclude: Option<nat>) {
    exists i :: 0 <= i < |users| && users[i].email == email && (exclude.None? || users[i].pk != exclude.value)
  }

  /** `SignUpForm.clean_email`: the lower-cased address, refused when any user already stores it. */
  function CleanSignUpEmail(users: seq<UserRow>, email: string): (r: Result<string, FormError>)
    ensures r.Failure? <==> exists u :: u in users && u.email == Lower(email)
    ensures r.Failure? ==> r.error == EmailExists
    ensures r.Success? ==> r.value == Lower(email)
  {
    var e := Lower(email);
    if EmailTaken(users, e, None) then Failure(EmailExists) else Success(e)
  }

  /** `UserDetailsForm.clean_email`: as for sign-up, but the edited user's own row does not count. */
  function CleanDetailsEmail(users: seq<UserRow>, email: string, instance: nat): (r: Result<string, FormError>)
    ensures r.Failure? <==> exists u :: u in users && u.email == Lower(email) && u.pk != instance
    ensures r.Failure? ==> r.error == EmailOwnedByAnother
    ensures r.Success? ==> r.value == Lower(email)
  {
    var e := Lower(email);
    if EmailTaken(users, e, Some(instance)) then Failure(EmailOwnedByAnother) else Success(e)
  }

  /**
    The required fields of `SignUpForm`: `full_name` and `email` are refused when
    blank after stripping, `accept_terms` when not ticked.
  */
  predicate SignUpFieldsGiven(fullName: string, email: string, acceptTerms: bool) {
    !AllSpace(fullName) && !AllSpace(email) && acceptTerms
  }

  /**
    `SignUpForm` validation, passwords aside: the required fields, and `clean_email`
    on an address that was given. The cleaned address is the lower-cased one.
  */
  function CleanSignUp(users: seq<UserRow>, fullName: string, email: string, acceptTerms: bool): (r: Result<string, FormError>)
    ensures r.Success? <==>
      SignUpFieldsGiven(fullName, email, acceptTerms) && forall u :: u in users ==> u.email != Lower(email)
    ensures r.Success? ==> r.value == Lower(email)
    ensures r.Failure? ==> r.error == if SignUpFieldsGiven(fullName, email, acceptTerms) then EmailExists else FieldRequired
  {
    if !SignUpFieldsGiven(fullName, email, acceptTerms) then Failure(FieldRequired)
    else CleanSignUpEmail(users, email)
  }

  /** A sign-up that validates always sets a first name: the full name has a word. */
  lemma SignUpSetsFirstName(users: seq<UserRow>, fullName: string, email: string, acceptTerms: bool, last: string)
    requires CleanSignUp(users, fullName, email, acceptTerms).Success?
    ensures NamesAfterSave(fullName, "", last).0 != []
    ensures NamesAfterSave(fullName, "", last).0 == Words(fullName)[0]
  {
  }

  /** The duplicate-address test ignores letter case: an address and its lower-cased form fare the same. */
  lemma SignUpEmailCaseInsensitive(users: seq<UserRow>, email: string)
    ensures CleanSignUpEmail(users, Lower(email)) == CleanSignUpEmail(users, email)
  {
    LowerIdempotent(email);
  }

  /** Once a user is stored with the cleaned address, no spelling of it passes sign-up again. */
  lemma SignUpEmailThenTaken(users: seq<UserRow>, email: string, again: string, pk: nat)
    requires CleanSignUpEmail(users, email).Success?
    requires Lower(again) == Lower(email)
    ensures CleanSignUpEmail(users + [UserRow(pk, CleanSignUpEmail(users, email).value)], again).Failure?
  {
    var row := UserRow(pk, Lower(email));
    assert row in users + [row];
  }

  /** Keeping one's own address always passes the profile check when no other user holds it. */
  lemma DetailsEmailOwnAddress(users: seq<UserRow>, me: UserRow)
    requires forall u :: u in users && u.email == me.email ==> u.pk == me.pk
    requires Lower(me.email) == me.email
    ensures CleanDetailsEmail(users, me.email, me.pk) == Success(me.email)
  {
  }

  /** The profile check only differs from the sign-up check by the edited user's own rows. */
  lemma DetailsEmailWithoutOwnRow(users: seq<UserRow>, email: string, instance: nat)
    requires forall u :: u in users ==> u.pk != instance
    ensures CleanDetailsEmail(users, email, instance).Success? <==> CleanSignUpEmail(users, email).Success?
    ensures CleanDetailsEmail(users, email, instance).Success? ==>
      CleanDetailsEmail(users, email, instance) == CleanSignUpEmail(users, email)
  {
  }

  // ---------------------------------------------------------------------------
  // the name split of SignUpForm.save

  /**
    The first and last names after `save`, given the ones before: the first word
    of the full name, and the remaining words joined by single spaces when there
    are any. A name without words leaves both untouched.
  */
  function NamesAfterSave(fullName: string, first: string, last: string): (r: (string, string))
    ensures Words(fullName) == [] ==> r == (first, last)
    ensures Words(fullName) != [] ==> r.0 == Words(fullName)[0] && r.0 != [] && NoSpace(r.0)
    ensures |Words(fullName)| == 1 ==> r.1 == last
    ensures |Words(fullName)| > 1 ==> r.1 == JoinSpace(Words(fullName)[1..]) && Words(r.1) == Words(fullName)[1..]
  {
    var parts := Words(Strip(fullName));
    WordsOfStrip(fullName);
    if parts == [] then (first, last)
    else if |parts| > 1 then
      assert forall w :: w in parts[1..] ==> w in parts;
      WordsOfJoin(parts[1..]);
      (parts[0], JoinSpace(parts[1..]))
    else (parts[0], last)
  }

  /** A full name of two or more words, padded with whitespace, splits into its first word and the rest. */
  lemma {:induction false} NamesOfPaddedWords(a: string, ws: seq<string>, b: string, first: string, last: string)
    requires AllSpace(a) && AllSpace(b) && |ws| > 1
    requires forall w :: w in ws ==> w != [] && NoSpace(w)
    ensures NamesAfterSave(a + JoinSpace(ws) + b, first, last) == (ws[0], JoinSpace(ws[1..]))
  {
    var s := a + JoinSpace(ws) + b;
    assert s == a + (JoinSpace(ws) + b);
    WordsSkipSpace(a, JoinSpace(ws) + b);
    WordsDropTrailing(JoinSpace(ws), b);
    WordsOfJoin(ws);
    WordsOfStrip(s);
  }

  /** `SignUpForm.save(commit=False)` on the user it builds: names from the full name, username and e-mail from the cleaned address. */
  method SaveSignUp(user: User, fullName: string, cleanedEmail: string)
    modifies user
    ensures (user.firstName, user.lastName) == NamesAfterSave(fullName, old(user.firstName), old(user.lastName))
    ensures user.email == cleanedEmail && user.username == cleanedEmail
  {
    var parts := Words(Strip(fullName));
    if |parts| > 0 {
      user.firstName := parts[0];
      if |parts| > 1 {
        user.lastName := JoinSpace(parts[1..]);
      }
    }
    user.email := cleanedEmail;
    user.username := user.email;
  }

  // ---------------------------------------------------------------------------
  // the deletion confirmation

  /**
    The `confirmation` field of `AccountDeleteForm`: a required field, so blank
    input is refused before `clean_confirmation` runs; then accepted iff the
    stripped, lower-cased input is "delete".
  */
  function CleanConfirmation(value: string): (r: Result<string, FormError>)
    ensures r.Success? <==> Lower(Strip(value)) == "delete"
    ensures r.Success? ==> r.value == "delete"
    ensures r.Failure? ==> r.error == if AllSpace(value) then FieldRequired else ConfirmationMismatch
  {
    if AllSpace(value) then Failure(FieldRequired)
    else
      var v := Lower(Strip(value));
      if v != "delete" then Failure(ConfirmationMismatch) else Success(v)
  }

  /** Any capitalisation of "delete", padded with any whitespace, is accepted. */
  lemma ConfirmationPadded(a: string, w: string, b: string)
    requires AllSpace(a) && AllSpace(b) && Lower(w) == "delete"
    ensures CleanConfirmation(a + w + b) == Success("delete")
  {
    assert LowerChar(w[0]) == 'd' && LowerChar(w[5]) == 'e';
    StripPadded(a, w, b);
  }

  /** Text other than the phrase is refused, however it is padded. */
  lemma ConfirmationRefusesOtherText(a: string, w: string, b: string)
    requires AllSpace(a) && AllSpace(b) && w != [] && !IsSpace(w[0]) && !IsSpace(w[|w| - 1])
    requires Lower(w) != "delete"
    ensures CleanConfirmation(a + w + b) == Failure(ConfirmationMismatch)
  {
    StripPadded(a, w, b);
  }

  // ---------------------------------------------------------------------------
  // plan choices

  /** `Plan.objects.filter(is_active=True)` in the plans' default ordering. */
  function PlanChoices(plans: seq<Plan>): (r: seq<Plan>)
    ensures forall p :: multiset(r)[p] == if p.isActive then multiset(plans)[p] else 0
    ensures Chained(r, PlanLeq)
  {
    PlanLeqTotalPreorder();
    SortBy(Where(plans, (p: Plan) => p.isActive), PlanLeq)
  }

  /** The first plan of `s` with primary key `pk`. */
  function FindPlan(s: seq<Plan>, pk: nat): (r: Option<Plan>)
    ensures r.Some? ==> r.value in s && r.value.pk == pk
    ensures r.None? <==> forall p :: p in s ==> p.pk != pk
  {
    if s == [] then None
    else if s[0].pk == pk then Some(s[0])
    else
      assert forall p :: p in s ==> p == s[0] || p in s[1..];
      FindPlan(s[1..], pk)
  }

  /**
    The optional plan field of `ProfileForm` and `PlanSelectionForm`: no choice is
    allowed and gives no plan; a chosen key must name an active plan.
  */
  function CleanPlanChoice(plans: seq<Plan>, choice: Option<nat>): (r: Result<Option<Plan>, FormError>)
    ensures choice.None? ==> r == Success(None)
    ensures r.Failure? <==> choice.Some? && forall p :: p in plans && p.isActive ==> p.pk != choice.value
    ensures r.Failure? ==> r.error == InvalidPlanChoice
    ensures r.Success? && choice.Some? ==>
      r.value.Some? && r.value.value in plans && r.value.value.isActive && r.value.value.pk == choice.value
  {
    if choice.None? then Success(None)
    else
      var active := PlanChoices(plans);
      assert forall p :: p in active <==> p in plans && p.isActive by {
        forall p ensures p in active <==> p in plans && p.isActive {
          assert p in active <==> multiset(active)[p] > 0;
          assert p in plans <==> multiset(plans)[p] > 0;
        }
      }
      match FindPlan(active, choice.value)
      case Some(p) => Success(Some(p))
      case None => Failure(InvalidPlanChoice)
  }

  /** Inactive plans can never be chosen. */
  lemma InactivePlanRefused(plans: seq<Plan>, p: Plan)
    requires p in plans && !p.isActive
    requires forall q :: q in plans && q.pk == p.pk ==> q == p
    ensures CleanPlanChoice(plans, Some(p.pk)).Failure?
  {
  }
}
