# CineHub core rules in Dafny

CineHub is a Django movie-download site with accounts and subscription plans.
Most of its code is ORM, forms and templates. This project models the small
deterministic rules under that plumbing, over plain records, with sequences
standing in for querysets and tables:

- **Catalog search** (`movie_search` in movies/views.py). Five optional filters run
  in a fixed order: text, categories, languages, year, quality. The result is then
  ordered by one of six sort keys, with a default for a missing or unknown key.
  The page also offers the distinct release years, newest first. The detail page
  shows approved comments only.
- **Profile and subscription synchronisation** (`ProfileView.post` in core/views.py,
  `activate_trial` in core/models.py). A valid profile post sets the profile's
  `plan_status` from its plan. It then makes the subscription mirror the profile:
  the same plan, the matching status and the profile's renewal date. An invalid
  post saves nothing. Its only effect is the profile and subscription rows that the
  get-or-create calls add when they are missing.
- **Input normalisers and validators** (core/forms.py). Sign-up needs a full name,
  an e-mail address and the ticked terms box. E-mail addresses are lower-cased and
  refused when another user holds them. The address also becomes the username, and
  usernames are unique in the user table, so a sign-up fails when the address is
  still some user's username. A full name is split into first and last names. Account deletion needs "delete", in any case and with any
  padding. Plan choices are limited to active plans.
- **Fallback and precedence rules on the models**:
  - the subscription price override;
  - slugs filled only while empty;
  - download and server option lists that fall back to one default entry;
  - the avatar upload path;
  - the plan ordering;
  - the uniqueness of plan-feature assignments.

Modules:

- `Wrappers`: `Option` and `Result`.
- `Text`: the Python string operations the code relies on, with CPython semantics:
  - `str.isspace`, `strip`, ASCII `lower`;
  - substring search;
  - `split()` and `" ".join`;
  - `split(c, 1)`;
  - `int()` on base-10 text, skipping only the whitespace `int()` itself skips;
  - decimal printing.
- `Seqs`: filtering, insertion sort by a total preorder, and duplicate-free
  sequences.
- `Payments`: payments/models.py.
- `Catalog`: movies/models.py.
- `Search`: movies/views.py.
- `Accounts`: core/models.py, and the fields of Django's user that the core writes.
- `Forms`: core/forms.py.
- `Views`: core/views.py. A `Store` class holds the user, profile and subscription
  tables as sequences of objects; the views are methods on it.

State follows the source: the profile, the subscription, the user and the model
instances whose `save()` fills a slug are classes, and their operations are methods
that update fields in place. Queries, validators and derived values are functions.

`slugify`, `reverse` and today's date are parameters. Dates are day numbers. Prices
and ratings are integers (cents and tenths).

## Model

| member | source | states |
|---|---|---|
| Text.Strip | movies/views.py:85 | `str.strip()`: the result is a slice of the input with whitespace on both sides removed; it is empty iff the input is all whitespace, and otherwise starts and ends with a non-space character |
| Text.StripPadded | core/forms.py:157 | a word surrounded by any whitespace strips to exactly that word |
| Text.Lower | core/forms.py:44 | ASCII `lower()`: same length, no capital left, each character kept or shifted from capital to small |
| Text.LowerIdempotent | core/forms.py:44 | lower-casing twice equals lower-casing once |
| Text.IContains | movies/views.py:88-90 | Django's `icontains`: the lower-cased needle occurs in the lower-cased haystack; used through Search.MatchesText |
| Text.Contains | movies/views.py:88-90 | the substring test is true iff the needle occurs somewhere in the haystack as a contiguous run |
| Text.Words | core/forms.py:52 | `split()` yields non-empty words without whitespace, and no words iff the text is all whitespace |
| Text.WordsOfStrip | core/forms.py:52 | `s.strip().split()` equals `s.split()` |
| Text.WordsOfPadded | core/forms.py:52 | whitespace on either side of a text does not change its split |
| Text.JoinSpace | core/forms.py:56 | `" ".join(ws)`: the words with one space between neighbours; it has no contract of its own, and Text.WordsOfJoin states that splitting it gives the words back |
| Text.WordsOfJoin | core/forms.py:56 | splitting words joined by single spaces gives the same words back |
| Text.NatToString | core/models.py:9 | `str(n)` is non-empty decimal digits without a leading zero |
| Text.IntSpaceIsSpace | movies/views.py:101-104 | every character `int()` skips is whitespace to `strip()`, and every `strip()` whitespace other than U+001C to U+001F is skipped by `int()` |
| Text.IntStrip | movies/views.py:104-107 | the literal `int()` reads: empty iff every character is one `int()` skips; otherwise it starts and ends with a character `int()` does not skip; it keeps every character `int()` does not skip |
| Text.IntStripPadded | movies/views.py:104-107 | padding of characters `int()` skips, on either side of a literal, is removed exactly |
| Text.PyInt | movies/views.py:104-107 | `int()` on base-10 text: a value only when the literal left after the skipped characters ends in a digit and every other character is a digit, an underscore or a sign |
| Text.PyIntOfNat | movies/views.py:104 | `int(str(n)) == n` |
| Text.PyIntTrailing | movies/views.py:104 | after the digits of `n`, a character `int()` skips still reads as `n`, and a character that cannot occur in a literal is an error |
| Text.SplitOnce | movies/views.py:104 | `split("-", 1)`: a second part exists iff the separator occurs; the first part holds no separator; the input is first part, separator, second part |
| Text.SplitOnceJoin | movies/views.py:104 | splitting `a + "-" + b` where `a` has no "-" gives `a` and `b` back |
| Seqs.Where | movies/views.py:87-111 | a filter keeps exactly the elements satisfying the predicate, with their multiplicities |
| Seqs.WhereOrdered | movies/views.py:87-111 | a filter keeps the order: whatever order the input is in under any relation, the kept elements are in it too |
| Seqs.SortBy | movies/views.py:123 | sorting gives a permutation of the input, chained under any total relation |
| Seqs.ChainedOrdered | movies/views.py:123 | under a transitive relation, a sequence chained pairwise is ordered for all pairs |
| Seqs.SubMultisetNoDup | movies/views.py:95 | taking a sub-multiset of a duplicate-free sequence gives a duplicate-free sequence |
| Payments.PlanLeq | payments/models.py:40 | the plan ordering: lower display order first, then lower or equal price; Payments.PlanLeqTotalPreorder states it is a total preorder |
| Payments.PlanLeqTotalPreorder | payments/models.py:40 | the plan ordering on (display order, price) is total and transitive |
| Payments.PlanOrderLexicographic | payments/models.py:40 | sorted plans have non-decreasing display order, and non-decreasing price within one display order |
| Payments.StatusFromValue | payments/models.py:83-86 | a stored value reads back only as the status with that value |
| Payments.StatusRoundTrip | payments/models.py:83-86 | each of the three statuses reads back from its stored value |
| Payments.Subscription.constructor | payments/models.py:88-98 | a new subscription has no plan, status inactive, no renewal date and no override |
| Payments.Subscription.Price | payments/models.py:108-114 | the override wins whenever it is stored, even when it is 0 or a plan is set; otherwise the plan's price; None iff neither is set |
| Payments.InsertAssignment | payments/models.py:60 | an insert fails iff the (plan, feature) pair is already present; otherwise it appends the row and keeps the pairs unique |
| Payments.InsertsKeepPairsUnique | payments/models.py:60 | any sequence of inserts from a unique table leaves a table with every (plan, feature) pair at most once |
| Catalog.SlugOnSave | movies/models.py:21-24 | a non-empty slug is kept; an empty one becomes the slugified name |
| Catalog.SlugOnSaveIdempotent | movies/models.py:21-24 | saving twice leaves the slug saving once left |
| Catalog.CategoryInstance.Save | movies/models.py:21-24 | `Category.save()` changes only the slug, to the slug the rule gives for the name |
| Catalog.LanguageInstance.Save | movies/models.py:41-44 | `Language.save()` changes only the slug, to the slug the rule gives for the name |
| Catalog.MovieInstance.Save | movies/models.py:96-99 | `Movie.save()` changes only the slug, to the slug the rule gives for the title |
| Catalog.DownloadUrl | movies/models.py:104-107 | the stored download URL when non-empty, else the download route for the slug |
| Catalog.DefaultDownloadOption | movies/models.py:113-124 | the default download entry links to the given URL |
| Catalog.DefaultServerOption | movies/models.py:129-140 | the default server entry links to the given URL |
| Catalog.DownloadOptions | movies/models.py:109-124 | never empty; the stored list unchanged when non-empty; otherwise exactly one entry whose `download_url` is the download URL |
| Catalog.ServerOptions | movies/models.py:126-140 | never empty; the stored list unchanged when non-empty; otherwise exactly one entry whose `url` is the download URL |
| Catalog.Names | movies/models.py:143 | the names of the given languages, position by position |
| Catalog.LanguageNames | movies/models.py:142-143 | the language names have the movie's language count and order |
| Search.ParseYear | movies/views.py:101-107 | a blank value means no year constraint; text with "-" is split once into an inclusive range; other text is one exact year; the value is an error iff some part is not an integer |
| Search.YearRangeRoundTrip | movies/views.py:103-105 | "start-end" in decimal reads as the inclusive range start..end |
| Search.ExactYearRoundTrip | movies/views.py:106-107 | a decimal year reads as that exact year |
| Search.RangePaddedBeforeDash | movies/views.py:101-105 | in "start<c>-end" with an ASCII whitespace `c`, which `strip()` leaves inside, the range reads as before when `int()` skips `c` and is an error for U+001C to U+001F |
| Search.LeadingDashRejected | movies/views.py:103-104 | a value starting with "-", such as "-2020", has an empty first part and is an error |
| Search.YearMatches | movies/views.py:105-107 | the year filter accepts a movie iff there is no year, the release year equals the exact year, or it lies in the inclusive range; Search.SearchByYearOnly states it is what the search applies |
| Search.MatchesText | movies/views.py:87-91 | a movie passes the text filter iff the query occurs, ignoring case, in its title, description or tagline; Search.SearchByQueryOnly states it is what the search applies |
| Search.InCategories | movies/views.py:95 | a movie passes the category filter iff some category of it has one of the given slugs |
| Search.InLanguages | movies/views.py:99 | a movie passes the language filter iff some language of it has one of the given slugs |
| Search.SortTerms | movies/views.py:113-122 | the sort table, never empty; a missing or unknown key gives ("-release_date", "-created_at") |
| Search.Codes | movies/views.py:119-120 | a title's sort key is its code points, position by position |
| Search.LexLessIrreflexive | movies/views.py:123 | the key order is irreflexive |
| Search.LexLessTransitive | movies/views.py:123 | the key order is transitive |
| Search.LexLessTrichotomy | movies/views.py:123 | any two keys are equal or ordered one way |
| Search.LexLessAsymmetric | movies/views.py:123 | the key order is asymmetric |
| Search.MovieLeqTotal | movies/views.py:123 | ordering by a list of fields compares every pair of movies |
| Search.MovieLeqTransitive | movies/views.py:123 | ordering by a list of fields is transitive |
| Search.NullableKeyLess | movies/views.py:115-118 | on a nullable field NULL sorts below every value, and values compare as integers |
| Search.OrderBy | movies/views.py:123 | `order_by(*fields)` gives a permutation of its input in which every movie may come before every later one |
| Search.NameAscendingTitles | movies/views.py:119 | under "name-asc" titles never decrease in code-point order |
| Search.DefaultNewestFirst | movies/views.py:115 | under the default ordering release dates never increase, and undated movies come after dated ones |
| Search.Narrow | movies/views.py:86-111 | one optional filter keeps exactly the movies it accepts when its parameter is present, and everything otherwise |
| Search.Filtered | movies/views.py:84-111 | the five filters in turn keep exactly the catalog movies every supplied filter accepts, with their multiplicities |
| Search.Search | movies/views.py:84-123 | fails iff the year value is malformed; otherwise keeps exactly the movies every supplied filter accepts, ordered by the chosen keys |
| Search.SearchNarrows | movies/views.py:84-111 | the results are a sub-multiset of the catalog, and a movie is in them iff it is in the catalog and passes every supplied filter |
| Search.SearchDistinct | movies/views.py:93-99 | a catalog without repeated rows gives results without repeated rows |
| Search.SearchWithoutParams | movies/views.py:84-123 | with no parameters the whole catalog comes back under the default ordering |
| Search.BlankQueryIgnored | movies/views.py:85-86 | an empty or whitespace-only `q` gives the same results as no `q` |
| Search.SearchByQueryOnly | movies/views.py:85-91 | with only a query, a movie is kept iff the stripped query occurs, ignoring case, in its title, description or tagline |
| Search.SearchByYearOnly | movies/views.py:101-107 | with only a year value, a movie is kept iff the parsed year filter accepts it |
| Search.SearchByYearRange | movies/views.py:103-105 | "start-end" keeps exactly the catalog movies with start <= release year <= end |
| Search.InsertDescending | movies/views.py:128-131 | adding a year to a strictly descending list keeps it strictly descending, with exactly the old years and the new one |
| Search.YearChoices | movies/views.py:128-131 | the year choices are strictly descending and contain a year iff some catalog movie was released in it |
| Search.NewerOrSameTotalPreorder | movies/models.py:157-158 | the comment ordering on `created_at`, newest first, is total and transitive |
| Search.ApprovedComments | movies/views.py:47 | exactly the approved comments are listed, with their multiplicities, newest first as the comments' default ordering (movies/models.py:157-158) demands |
| Accounts.AvatarUploadPath | core/models.py:8-9 | the path starts with "avatars/", ends with the file name, and has room for exactly the user id and one "/" between |
| Accounts.AvatarPathParts | core/models.py:8-9 | the path splits at "/" into "avatars", a text that `int()` reads as the user id, and the file name |
| Accounts.AvatarPathsSeparateUsers | core/models.py:8-9 | two different users never share an avatar path |
| Accounts.TrialRenewal | core/models.py:51-52 | an existing renewal date is kept; a missing one becomes today + 30 days |
| Accounts.TrialRenewalStable | core/models.py:51-52 | activating again on any later day does not move the renewal date |
| Accounts.Profile.constructor | core/models.py:18-36 | a new profile has blank phone and bio, e-mail and promotional notices on, SMS off, no plan, status "inactive" and no renewal date |
| Accounts.Profile.ActivateTrial | core/models.py:46-53 | without a plan nothing changes; with one the status becomes "active" and the renewal date follows the trial rule; the status stays among its three choices |
| Accounts.User.constructor | core/forms.py:50 | the user object that `save(commit=False)` builds, with blank username, names and e-mail; it carries the key that the insert at core/forms.py:60 will give it |
| Forms.CleanSignUp | core/forms.py:13-47 | sign-up validation. Refused as "required" iff the full name or the address is blank after stripping, or the terms box is unticked. Otherwise refused iff a stored user holds the lower-cased address. On success it returns that address |
| Forms.SignUpSetsFirstName | core/forms.py:51-54 | an accepted sign-up has a full name with a first word, so the new user's first name is that word and not blank |
| Forms.CleanSignUpEmail | core/forms.py:43-47 | returns the lower-cased address, and refuses it iff some stored user already has that address |
| Forms.CleanDetailsEmail | core/forms.py:88-93 | returns the lower-cased address, and refuses it iff some stored user other than the edited one has that address |
| Forms.SignUpEmailCaseInsensitive | core/forms.py:43-47 | an address and its lower-cased form get the same answer |
| Forms.SignUpEmailThenTaken | core/forms.py:43-47 | once a user is stored with the cleaned address, no spelling of it passes sign-up again |
| Forms.DetailsEmailOwnAddress | core/forms.py:88-93 | keeping one's own lower-case address passes when no other user holds it |
| Forms.DetailsEmailWithoutOwnRow | core/forms.py:88-93 | when the edited user has no row, the profile check agrees with the sign-up check |
| Forms.NamesAfterSave | core/forms.py:51-56 | the first name is the first word; with two or more words the last name is the remaining words joined by single spaces, and it splits back into exactly those words; with one word the last name is kept; a name without words leaves both names alone |
| Forms.NamesOfPaddedWords | core/forms.py:51-56 | a padded full name of two or more words splits into its first word and the rest joined by single spaces |
| Forms.SaveSignUp | core/forms.py:49-58 | the user's names follow the name rule, and its e-mail and username are both the cleaned address |
| Forms.CleanConfirmation | core/forms.py:151-160 | accepted iff the stripped, lower-cased input is "delete", and then returns "delete"; blank input is refused as "required", any other input as a mismatch |
| Forms.ConfirmationPadded | core/forms.py:156-160 | any capitalisation of "delete" with any whitespace around it is accepted |
| Forms.ConfirmationRefusesOtherText | core/forms.py:156-160 | any other word is refused, however it is padded |
| Forms.PlanChoices | core/forms.py:122 | the choice list holds exactly the active plans, with their multiplicities, in plan order |
| Forms.FindPlan | core/forms.py:122 | finds a listed plan with the key, or reports that none has it |
| Forms.CleanPlanChoice | core/forms.py:122-123 | no choice is allowed and gives no plan; a chosen key is accepted iff it names an active plan, and then gives that plan |
| Forms.InactivePlanRefused | core/forms.py:142-147 | an inactive plan can never be chosen |
| Views.Rows | core/forms.py:45 | the rows the duplicate-email queries see, one per stored user, with its key and address |
| Views.DetailsEmailFree | core/forms.py:90-91 | an address the profile check accepts is held by no other stored user |
| Views.SignUpEmailFree | core/forms.py:45 | an address the sign-up check accepts is held by no stored user |
| Views.NewSignUpUser | core/forms.py:49-58 | the new user has a fresh object with the given key, names from the full name, and the cleaned address as e-mail and username |
| Views.NextPk | core/views.py:27 | the key handed to a new user is above every stored key |
| Views.StatusForPlan | core/views.py:87-89 | the subscription status is ACTIVE iff the profile has a plan, and INACTIVE otherwise |
| Views.PlanStatusForPlan | core/views.py:79-82 | the profile's status is "active" iff it has a plan, and "inactive" otherwise; always one of the three choices |
| Views.StatusesAgree | core/views.py:79-89 | the profile's status text reads back as the subscription's status |
| Views.MirrorOnto | core/views.py:86-90 | the subscription takes the profile's plan, the matching status and the profile's renewal date, copied rather than recomputed; nothing else changes |
| Views.SaveProfileForm | core/views.py:78-83 | the profile holds the posted fields and plan, and the status that goes with the plan; its renewal date is kept |
| Views.Store.UserRows | core/forms.py:45 | one row per stored user, in store order, holding that user's key and address |
| Views.Store.constructor | core/models.py:15-17 | the store starts empty and consistent: keys unique, and at most one profile and one subscription per stored user, as the one-to-one links demand. Every method on the store keeps this, together with every stored profile's status being one of its choices |
| Views.Store.GetOrCreateProfile | core/views.py:57 | returns the user's one profile. An existing one is returned and the table is unchanged. Otherwise one new default profile is appended. The table keeps at most one profile per user |
| Views.Store.GetOrCreateSubscription | core/views.py:60 | returns the user's one subscription. An existing one is returned and the table is unchanged. Otherwise one new inactive subscription is appended. The table keeps at most one subscription per user |
| Views.Store.FetchRows | core/views.py:72 | both get-or-create calls of a profile post: the user's one profile and one subscription, each existing or freshly appended; users untouched |
| Views.Store.ProfileGet | core/views.py:56-69 | the user's one profile and one subscription, and the active plans in order. Each table is unchanged or gains exactly the returned row, which then has the default fields. Users are untouched |
| Views.Store.ProfilePost | core/views.py:71-106 | Valid iff both forms validate. On a valid post the user, the profile and the mirrored subscription are saved, the renewal date is copied, and the override is kept. On an invalid post the user, the profile and the subscription are unchanged, and a row created by the get-or-create calls keeps its default fields. A created profile has no renewal date and a created subscription no override. Each table is unchanged or gains exactly the returned row. Other profiles and subscriptions are unchanged either way |
| Views.Store.ApplyPost | core/views.py:73-91 | the validation and the saves on the fetched rows; a valid post keeps e-mail addresses and usernames unique across users; an invalid one changes nothing; either way every stored profile's status stays one of its choices |
| Views.Store.SaveValid | core/views.py:77-91 | the saves of a valid post: the posted names and cleaned address on the user (username kept), the form on the profile, the mirror on the subscription; unique addresses and usernames kept |
| Views.Store.UsernameHeld | core/forms.py:60 | the insert-time check of the unique `username` column: some stored user has the name as username; when the form accepts the input, Views.Store.SignUp fails with DuplicateUsername exactly when it holds for the cleaned address |
| Views.Store.InsertUser | core/forms.py:60 | saving a new user whose address and username no stored user holds appends it, with no subscription yet, and keeps addresses and usernames unique |
| Views.Store.SaveUserDetails | core/forms.py:88-93 | the posted names and an address no other user holds are saved; the username is kept; addresses and usernames stay unique |
| Views.Store.Register | core/views.py:27-31 | the new user is stored and gets exactly one new placeholder subscription with the default fields; addresses and usernames stay unique |
| Views.Store.SignUp | core/views.py:26-32 | fails iff the form refuses the input (a blank full name or address, unticked terms, or an address some user holds), reporting the form's error, or the cleaned address is already some user's username, reported as the unique-column error of core/forms.py:60. A failure changes nothing. Otherwise it stores one new user with the split names and the cleaned address as e-mail and username, and one placeholder subscription with the default fields. Addresses and usernames stay unique |
| Views.Store.Enroll | core/views.py:27-31 | the saves of a valid sign-up: one new user with the cleaned address and split names, then its placeholder subscription with the default fields; addresses and usernames stay unique |

## Left out

- Templates, `render`, `redirect`, `messages`, `login`, the context plumbing and the form widget styling are presentation and framework code.
- Authentication: login and logout views, the sign-up form's `password1` and `password2` fields with their match check, password hashing and password validation. These are Django code that is not part of this model.
- Field-level cleaning that Django does before `clean_email` and `clean_confirmation`: `max_length`, the e-mail format check, and the null-character check that every character field carries (Django's ProhibitNullCharactersValidator refuses text containing U+0000, such as a full name or a confirmation, before the form's own cleaning runs; the model accepts such a full name and reports such a confirmation as a mismatch). The required-field check is modelled, for the sign-up form (Forms.CleanSignUp) and for the deletion confirmation (Forms.CleanConfirmation): a field that is blank after stripping is refused.
- Views.FormApplied and Views.Store.SaveUserDetails: store the posted text as given. Django strips a character field before saving it, so the stored `first_name` and `last_name` (UserDetailsForm) and `phone_number` and `bio` (ProfileForm) have no surrounding whitespace, while the model's may.
- Forms.CleanSignUpEmail and Forms.CleanDetailsEmail: receive the posted address as given and lower-case it. Django strips the address before `clean_email` runs, so an address with surrounding whitespace is cleaned, compared and stored without it; in the model the whitespace stays.
- Search.ApprovedComments: comments with the same `created_at` come in an order the database picks. The model fixes one such order; its contract states only what the ordering promises, newest first.
- Text.Lower: lower-cases ASCII letters only, not the full Unicode case mapping of Python's `str.lower()`. For the phrase "delete" the result is the same.
- Text.PyInt: accepts ASCII digits only. It does not model Unicode decimal digits, which CPython converts to ASCII before parsing, or CPython's 4300-digit limit on `int()`.
- Search.Codes: titles compare by code point, as SQLite's default BINARY collation does. Other backends and collations, such as case-insensitive or locale-aware ones, order titles differently.
- Search.MatchesText: `icontains` is lower-cased substring matching. The database's own case folding and collation are not modelled.
- Search.NullableKey: NULL release dates and ratings sort below every value, the SQLite convention. Other database backends sort NULL differently.
- Search.OrderBy: the relative order of rows tied on every sort key is left to the database. The model fixes one such order; its contract states only what the database promises.
- Decimal prices and ratings become integers in cents and tenths; there are no floats.
- JSON download and server options are maps from strings to strings. Other JSON values are left out.
- The ORM and database: `get_or_create` is modelled on in-memory sequences. Races between concurrent requests are not modelled.
- Views.Store.ProfilePost: the valid branch of the source fetches the subscription after the user and profile saves, and the invalid branch before rendering. The model fetches it once, up front. The row it gets is the same, because the saves do not touch the subscription table.
- Views.Store.ProfilePost: its contract does not repeat that e-mail addresses stay unique. That is stated on Views.Store.ApplyPost, which does the saves on the fetched rows.
- Views.Store.ProfilePost: an invalid model form also writes the posted values into the in-memory instance. That has no effect on stored rows and is not modelled.
- core/views.py:90 copies the profile's renewal date onto the subscription. It does not compute today + 30 days, and the model follows the code.
- The other `get_or_create` calls (core/views.py:120, 134, 145) are the same operation as Views.Store.GetOrCreateSubscription and Views.Store.GetOrCreateProfile. Their views only render.
- core/apps.py:9-10 imports a signals module that registers profile hooks. That module is not part of this model. The contracts assume that saving a user runs no hook that creates a profile or a subscription.
- Accounts.User.constructor: the key is given when the object is built, while the database assigns it at `user.save()` (core/forms.py:60). Nothing reads the key before that insert. The model also leaves out that the ModelForm has already written the e-mail at core/forms.py:50; core/forms.py:57 overwrites it with the same cleaned address.
- The avatar file upload is I/O. Only the upload path is modelled.
- `slugify`, `reverse` and `timezone.now()` are parameters.
- Payments.InsertAll: has no contract of its own. It only drives Payments.InsertsKeepPairsUnique.
- Admin registrations, URL configuration, the rest of the app configuration and movies/static/movies/js/script.js are configuration and DOM code.
- Plan cancellation and account deletion flows have no view in the source. Only the deletion confirmation validator is modelled.
