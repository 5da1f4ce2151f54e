/**
  The catalog search of movies/views.py: five optional filters applied in a
  fixed order, then one of six orderings picked by a sort key with a default;
  the year choices offered beside the results; the approved-comment filter of
  the detail page.
*/
module Search {
  import opened Wrappers
  import opened Text
  import opened Seqs
  import opened Catalog

  /**
    The query parameters. A missing `q` or `year` reads as "" and a missing list
    as []; a missing `sort` is None.
  */
  datatype SearchParams = SearchParams(
    q: string,
    categories: seq<string>,
    languages: seq<string>,
    year: string,
    qualities: seq<string>,
    sort: Option<string>)

  /** The search with no parameter given. */
  const NoParams := SearchParams("", [], [], "", [], None)

  // ---------------------------------------------------------------------------
  // the year parameter

  datatype YearFilter = AnyYear | ExactYear(year: int) | YearRange(start: int, end: int)

  /** `int()` raised ValueError on a part of the year parameter. */
  datatype SearchError = InvalidYear

  /**
    The year parameter, stripped: empty means no constraint; text containing "-"
    is split at its first "-" into an inclusive range; other text is one year.
    A part that is not an integer is an error.
  */
  function ParseYear(raw: string): (r: Result<YearFilter, SearchError>)
    ensures r == Success(AnyYear) <==> Strip(raw) == []
    ensures r.Success? && r.value.ExactYear? ==> '-' !in Strip(raw) && PyInt(Strip(raw)) == Some(r.value.year)
    ensures r.Success? && r.value.YearRange? ==>
      var (a, b) := SplitOnce(Strip(raw), '-');
      b.Some? && PyInt(a) == Some(r.value.start) && PyInt(b.value) == Some(r.value.end)
    ensures r.Failure? <==> (
      && Strip(raw) != []
      && var (a, b) := SplitOnce(Strip(raw), '-');
         if b.Some? then PyInt(a).None? || PyInt(b.value).None? else PyInt(a).None?)
  {
    var y := Strip(raw);
    if y == [] then Success(AnyYear)
    else
      var (a, b) := SplitOnce(y, '-');
      if b.Some? then
        match (PyInt(a), PyInt(b.value))
        case (Some(start), Some(end)) => Success(YearRange(start, end))
        case _ => Failure(InvalidYear)
      else
        match PyInt(y)
        case Some(v) => Success(ExactYear(v))
        case None => Failure(InvalidYear)
  }

  /** "start-end" written with decimal years reads as that inclusive range. */
  lemma YearRangeRoundTrip(start: nat, end: nat)
    ensures ParseYear(NatToString(start) + "-" + NatToString(end)) == Success(YearRange(start, end))
  {
    var a, b := NatToString(start), NatToString(end);
    var raw := a + "-" + b;
    StripUnpadded(raw);
    assert '-' !in a by { assert forall i :: 0 <= i < |a| ==> IsDigit(a[i]); }
    SplitOnceJoin(a, '-', b);
    PyIntOfNat(start);
    PyIntOfNat(end);
  }

  /** A single decimal year reads as that exact year. */
  lemma ExactYearRoundTrip(year: nat)
    ensures ParseYear(NatToString(year)) == Success(ExactYear(year))
  {
    var a := NatToString(year);
    StripUnpadded(a);
    assert '-' !in a by { assert forall i :: 0 <= i < |a| ==> IsDigit(a[i]); }
    PyIntOfNat(year);
  }

  /**
    An ASCII whitespace character between the first year and the "-" survives
    strip(), so `int()` sees it: the range reads as before when `int()` skips that
    character, and is an error for the information separators U+001C to U+001F.
  */
  lemma RangePaddedBeforeDash(start: nat, end: nat, c: char)
    requires IsSpace(c) && c as int < 128
    ensures ParseYear(NatToString(start) + [c] + "-" + NatToString(end))
         == if IntSpace(c) then Success(YearRange(start, end)) else Failure(InvalidYear)
  {
    var a, b := NatToString(start), NatToString(end);
    var raw := a + [c] + "-" + b;
    StripUnpadded(raw);
    assert '-' !in a + [c] by { assert forall i :: 0 <= i < |a| ==> IsDigit(a[i]); }
    assert raw == (a + [c]) + ['-'] + b;
    SplitOnceJoin(a + [c], '-', b);
    PyIntOfNat(end);
    PyIntTrailing(start, c);
  }

  /** A year parameter that starts with "-" (such as "-2020") has an empty first part: an error. */
  lemma LeadingDashRejected(raw: string)
    requires Strip(raw) != [] && Strip(raw)[0] == '-'
    ensures ParseYear(raw).Failure?
  {
    var y := Strip(raw);
    assert SplitOnce(y, '-').0 == [];
    assert Strip([]) == [];
  }

  /** Whether a movie's release year passes the year filter. */
  predicate YearMatches(f: YearFilter, m: Movie) {
    match f
    case AnyYear => true
    case ExactYear(y) => m.releaseYear == y
    case YearRange(a, b) => a <= m.releaseYear <= b
  }

  // ---------------------------------------------------------------------------
  // the filters

  /** The query occurs, ignoring case, in the title, the description or the tagline. */
  predicate MatchesText(m: Movie, query: string) {
    IContains(m.title, query) || IContains(m.description, query) || IContains(m.tagline, query)
  }

  /** Some category of the movie has one of the slugs. */
  predicate InCategories(m: Movie, slugs: seq<string>) {
    exists i :: 0 <= i < |m.categories| && m.categories[i].slug in slugs
  }

  /** Some language of the movie has one of the slugs. */
  predicate InLanguages(m: Movie, slugs: seq<string>) {
    exists i :: 0 <= i < |m.languages| && m.languages[i].slug in slugs
  }

  /** Every filter the parameters supply accepts the movie; an absent filter accepts all. */
  predicate Admits(p: SearchParams, year: YearFilter, m: Movie) {
    && (Strip(p.q) == [] || MatchesText(m, Strip(p.q)))
    && (p.categories == [] || InCategories(m, p.categories))
    && (p.languages == [] || InLanguages(m, p.languages))
    && YearMatches(year, m)
    && (p.qualities == [] || m.quality in p.qualities)
  }

  // ---------------------------------------------------------------------------
  // the orderings

  datatype Field = ReleaseDate | CreatedAt | IsTrending | Rating | Title

  datatype Term = Asc(field: Field) | Desc(field: Field)

  /** `("-release_date", "-created_at")`, the ordering of "latest" and of any unknown key. */
  const DefaultOrder: seq<Term> := [Desc(ReleaseDate), Desc(CreatedAt)]

  const SortKeys: seq<string> := ["latest", "trending", "rating-high", "rating-low", "name-asc", "name-desc"]

  /** The `sort_mapping` table, with "latest" for a missing key and the default for an unknown one. */
  function SortTerms(sort: Option<string>): (r: seq<Term>)
    ensures r != []
    ensures sort.None? || sort.value !in SortKeys ==> r == DefaultOrder
  {
    var key := if sort.Some? then sort.value else "latest";
    if key == "latest" then [Desc(ReleaseDate), Desc(CreatedAt)]
    else if key == "trending" then [Desc(IsTrending), Desc(ReleaseDate)]
    else if key == "rating-high" then [Desc(Rating), Desc(ReleaseDate)]
    else if key == "rating-low" then [Asc(Rating), Desc(ReleaseDate)]
    else if key == "name-asc" then [Asc(Title)]
    else if key == "name-desc" then [Desc(Title)]
    else DefaultOrder
  }

  /** Code points of a string (the order of a binary collation). */
  function Codes(s: string): (r: seq<int>)
    ensures |r| == |s| && forall i :: 0 <= i < |s| ==> r[i] == s[i] as int
  {
    seq(|s|, i requires 0 <= i < |s| => s[i] as int)
  }

  /** A nullable value as a key: NULL sorts below every value. */
  function NullableKey(v: Option<int>): seq<int> {
    if v.None? then [0] else [1, v.value]
  }

  /** The comparison key of a field. */
  function Key(f: Field, m: Movie): seq<int> {
    match f
    case ReleaseDate => NullableKey(m.releaseDate)
    case CreatedAt => [m.createdAt]
    case IsTrending => [if m.isTrending then 1 else 0]
    case Rating => NullableKey(m.rating)
    case Title => Codes(m.title)
  }

  /** Strict lexicographic order on integer sequences; a proper prefix comes first. */
  predicate LexLess(a: seq<int>, b: seq<int>) {
    if a == [] then b != []
    else if b == [] then false
    else a[0] < b[0] || (a[0] == b[0] && LexLess(a[1..], b[1..]))
  }

  lemma {:induction false} LexLessIrreflexive(a: seq<int>)
    ensures !LexLess(a, a)
  {
    if a != [] { LexLessIrreflexive(a[1..]); }
  }

  lemma {:induction false} LexLessTransitive(a: seq<int>, b: seq<int>, c: seq<int>)
    requires LexLess(a, b) && LexLess(b, c)
    ensures LexLess(a, c)
  {
    if a != [] && b != [] && c != [] && a[0] == b[0] == c[0] {
      LexLessTransitive(a[1..], b[1..], c[1..]);
    }
  }

  lemma {:induction false} LexLessTrichotomy(a: seq<int>, b: seq<int>)
    ensures a == b || LexLess(a, b) || LexLess(b, a)
  {
    if a != [] && b != [] && a[0] == b[0] {
      LexLessTrichotomy(a[1..], b[1..]);
      if a[1..] == b[1..] { assert a == [a[0]] + a[1..] && b == [b[0]] + b[1..]; }
    }
  }

  lemma LexLessAsymmetric(a: seq<int>, b: seq<int>)
    requires LexLess(a, b)
    ensures !LexLess(b, a)
  {
    if LexLess(b, a) {
      LexLessTransitive(a, b, a);
      LexLessIrreflexive(a);
    }
  }

  /** `a` strictly precedes `b` on one ordering term. */
  predicate TermLess(t: Term, a: Movie, b: Movie) {
    match t
    case Asc(f) => LexLess(Key(f, a), Key(f, b))
    case Desc(f) => LexLess(Key(f, b), Key(f, a))
  }

  /** `a` may come before `b` under `order_by(*terms)`: lexicographic over the terms. */
  predicate MovieLeq(terms: seq<Term>, a: Movie, b: Movie) {
    if terms == [] then true
    else TermLess(terms[0], a, b) || (Key(terms[0].field, a) == Key(terms[0].field, b) && MovieLeq(terms[1..], a, b))
  }

  lemma {:induction false} MovieLeqTotal(terms: seq<Term>, a: Movie, b: Movie)
    ensures MovieLeq(terms, a, b) || MovieLeq(terms, b, a)
  {
    if terms != [] {
      LexLessTrichotomy(Key(terms[0].field, a), Key(terms[0].field, b));
      MovieLeqTotal(terms[1..], a, b);
    }
  }

  lemma {:induction false} MovieLeqTransitive(terms: seq<Term>, a: Movie, b: Movie, c: Movie)
    requires MovieLeq(terms, a, b) && MovieLeq(terms, b, c)
    ensures MovieLeq(terms, a, c)
  {
    if terms != [] {
      var f := terms[0].field;
      var ka, kb, kc := Key(f, a), Key(f, b), Key(f, c);
      if TermLess(terms[0], a, b) && TermLess(terms[0], b, c) {
        if terms[0].Asc? { LexLessTransitive(ka, kb, kc); } else { LexLessTransitive(kc, kb, ka); }
      } else if ka == kb && kb == kc {
        MovieLeqTransitive(terms[1..], a, b, c);
      }
    }
  }

  /** Every movie may come before every later one. */
  ghost predicate SortedBy(ms: seq<Movie>, terms: seq<Term>) {
    forall i, j :: 0 <= i < j < |ms| ==> MovieLeq(terms, ms[i], ms[j])
  }

  /** `order_by(*terms)`: a permutation of `ms` sorted by the terms. */
  function OrderBy(ms: seq<Movie>, terms: seq<Term>): (r: seq<Movie>)
    ensures multiset(r) == multiset(ms)
    ensures SortedBy(r, terms)
  {
    var leq := (a: Movie, b: Movie) => MovieLeq(terms, a, b);
    assert Total(leq) by {
      forall a: Movie, b: Movie ensures leq(a, b) || leq(b, a) { MovieLeqTotal(terms, a, b); }
    }
    assert Transitive(leq) by {
      forall a: Movie, b: Movie, c: Movie | leq(a, b) && leq(b, c) ensures leq(a, c) {
        MovieLeqTransitive(terms, a, b, c);
      }
    }
    var r := SortBy(ms, leq);
    ChainedOrdered(r, leq);
    r
  }

  /** Under "name-asc" titles never decrease in code-point order. */
  lemma NameAscendingTitles(ms: seq<Movie>)
    requires SortedBy(ms, SortTerms(Some("name-asc")))
    ensures forall i, j :: 0 <= i < j < |ms| ==> !LexLess(Codes(ms[j].title), Codes(ms[i].title))
  {
    forall i, j | 0 <= i < j < |ms| ensures !LexLess(Codes(ms[j].title), Codes(ms[i].title)) {
      assert MovieLeq([Asc(Title)], ms[i], ms[j]);
      if LexLess(Codes(ms[i].title), Codes(ms[j].title)) {
        LexLessAsymmetric(Codes(ms[i].title), Codes(ms[j].title));
      } else {
        LexLessIrreflexive(Codes(ms[i].title));
      }
    }
  }

  /** Under the default ordering release dates never increase, and undated movies come last. */
  lemma DefaultNewestFirst(ms: seq<Movie>)
    requires SortedBy(ms, DefaultOrder)
    ensures forall i, j :: 0 <= i < j < |ms| && ms[j].releaseDate.Some? ==>
      ms[i].releaseDate.Some? && ms[i].releaseDate.value >= ms[j].releaseDate.value
  {
    forall i, j | 0 <= i < j < |ms| && ms[j].releaseDate.Some?
      ensures ms[i].releaseDate.Some? && ms[i].releaseDate.value >= ms[j].releaseDate.value
    {
      assert MovieLeq(DefaultOrder, ms[i], ms[j]);
      NullableKeyLess(ms[j].releaseDate, ms[i].releaseDate);
    }
  }

  /** On nullable keys NULL is below every value and values compare as integers. */
  lemma NullableKeyLess(a: Option<int>, b: Option<int>)
    ensures LexLess(NullableKey(a), NullableKey(b)) <==> (a.None? && b.Some?) || (a.Some? && b.Some? && a.value < b.value)
  {
    var ka, kb := NullableKey(a), NullableKey(b);
    if a.Some? && b.Some? {
      assert ka[1..] == [a.value] && kb[1..] == [b.value];
      assert ka[1..][1..] == [] && kb[1..][1..] == [];
      assert !LexLess(ka[1..][1..], kb[1..][1..]);
      assert LexLess(ka[1..], kb[1..]) <==> a.value < b.value;
      assert LexLess(ka, kb) <==> LexLess(ka[1..], kb[1..]);
    } else if a.Some? {
      assert kb[1..] == [];
    } else if b.Some? {
      assert ka[1..] == [];
    } else {
      assert ka[1..] == [] && kb[1..] == [];
    }
  }

  // ---------------------------------------------------------------------------
  // the search

  /** One optional `filter()` call: applied when its parameter is present, skipped otherwise. */
  function Narrow(s: seq<Movie>, present: bool, keep: Movie -> bool): (r: seq<Movie>)
    ensures forall m :: multiset(r)[m] == if !present || keep(m) then multiset(s)[m] else 0
  {
    if present then Where(s, keep) else s
  }

  /** The five filters of `movie_search` in their order: text, categories, languages, year, quality. */
  function Filtered(catalog: seq<Movie>, p: SearchParams, year: YearFilter): (r: seq<Movie>)
    ensures forall m :: multiset(r)[m] == if Admits(p, year, m) then multiset(catalog)[m] else 0
  {
    var query := Strip(p.q);
    var byText := Narrow(catalog, query != [], m => MatchesText(m, query));
    var byCategory := Narrow(byText, p.categories != [], m => InCategories(m, p.categories));
    var byLanguage := Narrow(byCategory, p.languages != [], m => InLanguages(m, p.languages));
    var byYear := Narrow(byLanguage, !year.AnyYear?, m => YearMatches(year, m));
    var byQuality := Narrow(byYear, p.qualities != [], (m: Movie) => m.quality in p.qualities);
    byQuality
  }

  /** `movie_search`: the filters, an error for a malformed year, then the chosen ordering. */
  function Search(catalog: seq<Movie>, p: SearchParams): (r: Result<seq<Movie>, SearchError>)
    ensures r.Failure? <==> ParseYear(p.year).Failure?
    ensures r.Success? ==> forall m ::
      multiset(r.value)[m] == if Admits(p, ParseYear(p.year).value, m) then multiset(catalog)[m] else 0
    ensures r.Success? ==> SortedBy(r.value, SortTerms(p.sort))
  {
    match ParseYear(p.year)
    case Failure(e) => Failure(e)
    case Success(year) => Success(OrderBy(Filtered(catalog, p, year), SortTerms(p.sort)))
  }

  /** Every step only narrows: the results are catalog movies, each accepted by every supplied filter. */
  lemma SearchNarrows(catalog: seq<Movie>, p: SearchParams)
    requires Search(catalog, p).Success?
    ensures multiset(Search(catalog, p).value) <= multiset(catalog)
    ensures forall m :: m in Search(catalog, p).value <==> m in catalog && Admits(p, ParseYear(p.year).value, m)
  {
    var r := Search(catalog, p).value;
    assert forall m :: multiset(r)[m] <= multiset(catalog)[m];
  }

  /** A catalog without repeated rows gives results without repeated rows (`distinct()`). */
  lemma SearchDistinct(catalog: seq<Movie>, p: SearchParams)
    requires NoDup(catalog) && Search(catalog, p).Success?
    ensures NoDup(Search(catalog, p).value)
  {
    SearchNarrows(catalog, p);
    SubMultisetNoDup(Search(catalog, p).value, catalog);
  }

  /** With no parameters the whole catalog comes back, newest first. */
  lemma SearchWithoutParams(catalog: seq<Movie>)
    ensures Search(catalog, NoParams).Success?
    ensures multiset(Search(catalog, NoParams).value) == multiset(catalog)
    ensures SortedBy(Search(catalog, NoParams).value, DefaultOrder)
  {
    assert Strip("") == [];
    SearchAdmittingAll(catalog, NoParams, AnyYear);
    assert SortTerms(NoParams.sort) == DefaultOrder;
  }

  /** When the year parses and every movie passes every filter, the search returns the whole catalog. */
  lemma SearchAdmittingAll(catalog: seq<Movie>, p: SearchParams, year: YearFilter)
    requires ParseYear(p.year) == Success(year)
    requires forall m :: Admits(p, year, m)
    ensures Search(catalog, p).Success?
    ensures multiset(Search(catalog, p).value) == multiset(catalog)
  {
    var r := Search(catalog, p).value;
    assert forall m :: multiset(r)[m] == multiset(catalog)[m];
  }

  /** A whitespace-only `q` constrains nothing: the search returns what it returns without `q`. */
  lemma BlankQueryIgnored(catalog: seq<Movie>, p: SearchParams)
    requires AllSpace(p.q)
    ensures Search(catalog, p).Success? <==> Search(catalog, p.(q := "")).Success?
    ensures Search(catalog, p).Success? ==>
      multiset(Search(catalog, p).value) == multiset(Search(catalog, p.(q := "")).value)
  {
    assert Strip("") == [];
    if Search(catalog, p).Success? {
      var r, s := Search(catalog, p).value, Search(catalog, p.(q := "")).value;
      assert forall m :: multiset(r)[m] == multiset(s)[m];
    }
  }

  /** With only a query, a catalog movie is kept iff the stripped query occurs, ignoring case, in its title, description or tagline. */
  lemma SearchByQueryOnly(catalog: seq<Movie>, query: string)
    requires !AllSpace(query)
    ensures var r := Search(catalog, NoParams.(q := query));
      r.Success? && forall m :: m in r.value <==> m in catalog && MatchesText(m, Strip(query))
  {
    assert Strip("") == [];
    SearchNarrows(catalog, NoParams.(q := query));
  }

  /** With only a year parameter the results are the catalog movies the year filter accepts. */
  lemma SearchByYearOnly(catalog: seq<Movie>, p: SearchParams, f: YearFilter)
    requires p.q == [] && p.categories == [] && p.languages == [] && p.qualities == []
    requires ParseYear(p.year) == Success(f)
    ensures Search(catalog, p).Success?
    ensures forall m :: m in Search(catalog, p).value <==> m in catalog && YearMatches(f, m)
  {
    assert Strip("") == [];
    SearchNarrows(catalog, p);
  }

  /** `year=start-end` keeps exactly the movies released in that inclusive range. */
  lemma SearchByYearRange(catalog: seq<Movie>, start: nat, end: nat)
    ensures var r := Search(catalog, NoParams.(year := NatToString(start) + "-" + NatToString(end)));
      r.Success? && forall m :: m in r.value <==> m in catalog && start <= m.releaseYear <= end
  {
    var p := NoParams.(year := NatToString(start) + "-" + NatToString(end));
    YearRangeRoundTrip(start, end);
    SearchByYearOnly(catalog, p, YearRange(start, end));
    var r := Search(catalog, p).value;
    forall m | m in catalog && start <= m.releaseYear <= end ensures m in r {
      assert YearMatches(YearRange(start, end), m);
    }
  }

  // ---------------------------------------------------------------------------
  // the year choices and the detail page's comments

  predicate StrictlyDescending(s: seq<int>) {
    forall i, j :: 0 <= i < j < |s| ==> s[i] > s[j]
  }

  /** Adds `y` to a strictly descending sequence, keeping it strictly descending. */
  function InsertDescending(y: int, s: seq<int>): (r: seq<int>)
    requires StrictlyDescending(s)
    ensures StrictlyDescending(r)
    ensures forall x :: x in r <==> x == y || x in s
  {
    if s == [] || y > s[0] then [y] + s
    else if y == s[0] then s
    else
      var rest := InsertDescending(y, s[1..]);
      assert forall x :: x in s <==> x == s[0] || x in s[1..] by { assert s == [s[0]] + s[1..]; }
      assert forall k :: 0 <= k < |rest| ==> rest[k] < s[0] by {
        forall k | 0 <= k < |rest| ensures rest[k] < s[0] {
          assert rest[k] in rest;
          if rest[k] != y {
            var t :| 0 <= t < |s[1..]| && s[1..][t] == rest[k];
            assert s[1..][t] == s[t + 1];
          }
        }
      }
      [s[0]] + rest
  }

  /** `sorted(set(release years), reverse=True)`: each year of the catalog once, newest first. */
  function YearChoices(catalog: seq<Movie>): (r: seq<int>)
    ensures StrictlyDescending(r)
    ensures forall y :: y in r <==> exists m: Movie :: m in catalog && m.releaseYear == y
  {
    if catalog == [] then []
    else
      var rest := YearChoices(catalog[1..]);
      var r := InsertDescending(catalog[0].releaseYear, rest);
      assert forall m :: m in catalog <==> m == catalog[0] || m in catalog[1..] by {
        assert catalog == [catalog[0]] + catalog[1..];
      }
      assert forall y :: (exists m: Movie :: m in catalog && m.releaseYear == y) ==> y in r by {
        forall y | exists m: Movie :: m in catalog && m.releaseYear == y ensures y in r {
          var m :| m in catalog && m.releaseYear == y;
          if m != catalog[0] { assert m in catalog[1..]; }
        }
      }
      r
  }

  /** `Comment.Meta.ordering`, `("-created_at",)`: a comment may come before any older or equally old one. */
  predicate NewerOrSame(a: Comment, b: Comment) {
    a.createdAt >= b.createdAt
  }

  /** The comment ordering is a total preorder, so sorting by it is well defined. */
  lemma NewerOrSameTotalPreorder()
    ensures Total(NewerOrSame) && Transitive(NewerOrSame)
  {
  }

  /**
    `movie.comments.filter(is_approved=True)`: the related manager applies the
    comments' default ordering, newest first.
  */
  function ApprovedComments(comments: seq<Comment>): (r: seq<Comment>)
    ensures forall c :: multiset(r)[c] == if c.isApproved then multiset(comments)[c] else 0
    ensures forall i, j :: 0 <= i < j < |r| ==> r[i].createdAt >= r[j].createdAt
  {
    NewerOrSameTotalPreorder();
    var r := SortBy(Where(comments, (c: Comment) => c.isApproved), NewerOrSame);
    ChainedOrdered(r, NewerOrSame);
    r
  }
}
