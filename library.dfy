/**
 * What the `MovieDatabase` operations compute, stated on values: a library
 * is the ordered sequence of records one user owns, and the store maps each
 * username to its library.
 */
module Library {
  import opened Wrappers
  import opened Text
  import opened Movies
  import opened Sorting

  type Libraries = map<string, seq<Movie>>

  /** `userLibraries[username]` read as a value: a user without a library has an empty one. */
  function LibraryOf(libs: Libraries, username: string): (lib: seq<Movie>)
    ensures username in libs ==> lib == libs[username]
    ensures username !in libs ==> lib == []
  {
    if username in libs then libs[username] else []
  }

  /** The store after `userLibraries[username]`: that key now exists, nothing else changes. */
  function Touch(libs: Libraries, username: string): (r: Libraries)
    ensures username in r && r[username] == LibraryOf(libs, username)
    ensures forall u :: u != username ==> (u in r <==> u in libs)
    ensures forall u :: u != username && u in libs ==> r[u] == libs[u]
  {
    libs[username := LibraryOf(libs, username)]
  }

  // ---------------------------------------------------------------------
  // First title match: searchMovie, editMovie, rateMovie, reviewMovie

  ghost predicate IsFirstMatch(lib: seq<Movie>, title: string, i: int) {
    && 0 <= i < |lib|
    && lib[i].title == title
    && forall k :: 0 <= k < i ==> lib[k].title != title
  }

  predicate NoMatch(lib: seq<Movie>, title: string) {
    forall k :: 0 <= k < |lib| ==> lib[k].title != title
  }

  /** The position of the first record titled `title`, if any. */
  function FirstMatch(lib: seq<Movie>, title: string): (r: Option<nat>)
    ensures r.None? <==> NoMatch(lib, title)
    ensures r.Some? ==> IsFirstMatch(lib, title, r.value)
  {
    if lib == [] then None
    else if lib[0].title == title then Some(0)
    else match FirstMatch(lib[1..], title)
      case None =>
        assert forall k :: 1 <= k < |lib| ==> lib[k] == lib[1..][k - 1];
        None
      case Some(i) =>
        assert forall k :: 1 <= k < i + 1 ==> lib[k] == lib[1..][k - 1];
        Some(i + 1)
  }

  /** What is done to the first matching record. */
  datatype Change =
    | Replace(updated: Movie)                 // editMovie: `movie = updatedMovie`
    | Rate(user: string, rating: int)         // rateMovie: `userRatings[username].push_back(rating)`
    | Review(user: string, text: string)      // reviewMovie: `userReviews[username] = review`

  /** `userRatings[username]` read as a value: no entry reads as no ratings. */
  function RatingsOf(m: Movie, user: string): seq<int> {
    if user in m.userRatings then m.userRatings[user] else []
  }

  function Apply(c: Change, m: Movie): (r: Movie)
    ensures c.Replace? ==> r == c.updated
    ensures c.Rate? || c.Review? ==> Base(r) == Base(m)
    ensures c.Rate? ==> r.userRatings == m.userRatings[c.user := RatingsOf(m, c.user) + [c.rating]]
    ensures c.Rate? ==> r.userReviews == m.userReviews
    ensures c.Review? ==> r.userReviews == m.userReviews[c.user := c.text]
    ensures c.Review? ==> r.userRatings == m.userRatings
  {
    match c
    case Replace(updated) => updated
    case Rate(user, rating) => m.(userRatings := m.userRatings[user := RatingsOf(m, user) + [rating]])
    case Review(user, text) => m.(userReviews := m.userReviews[user := text])
  }

  /** Rating appends exactly one rating for that user and touches no other user's ratings. */
  lemma RateAppendsOne(m: Movie, user: string, rating: int)
    ensures RatingsOf(Apply(Rate(user, rating), m), user) == RatingsOf(m, user) + [rating]
    ensures forall u :: u != user ==> RatingsOf(Apply(Rate(user, rating), m), u) == RatingsOf(m, u)
  {
  }

  /** Applies `c` to the first record titled `title`; equal to `lib` when there is none. */
  function UpdateFirst(lib: seq<Movie>, title: string, c: Change): (r: seq<Movie>)
    ensures |r| == |lib|
    ensures forall i :: IsFirstMatch(lib, title, i) ==> r == lib[i := Apply(c, lib[i])]
    ensures NoMatch(lib, title) ==> r == lib
  {
    match FirstMatch(lib, title)
    case None => lib
    case Some(i) =>
      lib[i := Apply(c, lib[i])]
  }

  /** A record added under a title the library lacks is what a search for that title finds. */
  lemma AddThenFind(lib: seq<Movie>, m: Movie)
    requires NoMatch(lib, m.title)
    ensures FirstMatch(lib + [m], m.title) == Some(|lib|)
  {
    assert forall k :: 0 <= k < |lib| ==> (lib + [m])[k] == lib[k];
    assert IsFirstMatch(lib + [m], m.title, |lib|);
  }

  /** After an edit that keeps the title, a search finds the new record at the old position. */
  lemma EditThenFind(lib: seq<Movie>, title: string, updated: Movie, i: int)
    requires IsFirstMatch(lib, title, i) && updated.title == title
    ensures FirstMatch(UpdateFirst(lib, title, Replace(updated)), title) == Some(i)
    ensures UpdateFirst(lib, title, Replace(updated))[i] == updated
  {
    assert IsFirstMatch(UpdateFirst(lib, title, Replace(updated)), title, i);
  }

  /** An edit installs the new record at the first match, whatever its title, and changes nothing else. */
  lemma EditReplaces(lib: seq<Movie>, title: string, updated: Movie, i: int)
    requires IsFirstMatch(lib, title, i)
    ensures var r := UpdateFirst(lib, title, Replace(updated));
      && |r| == |lib| && r[i] == updated
      && forall k :: 0 <= k < |lib| && k != i ==> r[k] == lib[k]
  {
  }

  /** A review stores its text under that user on the first match and changes nothing else. */
  lemma ReviewSets(lib: seq<Movie>, title: string, user: string, text: string, i: int)
    requires IsFirstMatch(lib, title, i)
    ensures var r := UpdateFirst(lib, title, Review(user, text));
      && |r| == |lib|
      && user in r[i].userReviews && r[i].userReviews[user] == text
      && r[i].userReviews == lib[i].userReviews[user := text]
      && Base(r[i]) == Base(lib[i]) && r[i].userRatings == lib[i].userRatings
      && forall k :: 0 <= k < |lib| && k != i ==> r[k] == lib[k]
  {
  }

  /** Ratings and reviews keep the title, so the same record stays the first match. */
  lemma AnnotationKeepsFirstMatch(lib: seq<Movie>, title: string, c: Change)
    requires !c.Replace?
    ensures FirstMatch(UpdateFirst(lib, title, c), title) == FirstMatch(lib, title)
  {
    var r := UpdateFirst(lib, title, c);
    match FirstMatch(lib, title)
    case None =>
    case Some(i) =>
      assert Base(r[i]) == Base(lib[i]);
      assert r[i].title == lib[i].title;
      assert IsFirstMatch(r, title, i);
  }

  /** Rating the same title twice keeps both ratings, in order. */
  lemma RateTwiceAccumulates(lib: seq<Movie>, title: string, user: string, a: int, b: int, i: int)
    requires IsFirstMatch(lib, title, i)
    ensures var r := UpdateFirst(UpdateFirst(lib, title, Rate(user, a)), title, Rate(user, b));
      && |r| == |lib|
      && RatingsOf(r[i], user) == RatingsOf(lib[i], user) + [a, b]
      && forall k :: 0 <= k < |lib| && k != i ==> r[k] == lib[k]
  {
    var r1 := UpdateFirst(lib, title, Rate(user, a));
    AnnotationKeepsFirstMatch(lib, title, Rate(user, a));
    assert FirstMatch(lib, title) == Some(i);
    assert IsFirstMatch(r1, title, i);
    RateAppendsOne(lib[i], user, a);
    RateAppendsOne(r1[i], user, b);
  }

  /** Reviewing the same title twice leaves only the second review. */
  lemma ReviewTwiceOverwrites(lib: seq<Movie>, title: string, user: string, first: string, second: string)
    ensures UpdateFirst(UpdateFirst(lib, title, Review(user, first)), title, Review(user, second))
         == UpdateFirst(lib, title, Review(user, second))
  {
    var r1 := UpdateFirst(lib, title, Review(user, first));
    AnnotationKeepsFirstMatch(lib, title, Review(user, first));
    match FirstMatch(lib, title)
    case None =>
    case Some(i) =>
      assert IsFirstMatch(r1, title, i);
      assert r1[i].userReviews[user := second] == lib[i].userReviews[user := second];
  }

  // ---------------------------------------------------------------------
  // Selection in order: deleteMovie (remove_if keeps order) and filterMovies

  /** The elements of `s` that satisfy `p`, in their original order. */
  function Select<T>(s: seq<T>, p: T -> bool): (r: seq<T>)
    ensures |r| <= |s|
  {
    if s == [] then []
    else Select(s[..|s| - 1], p) + (if p(s[|s| - 1]) then [s[|s| - 1]] else [])
  }

  /** Selection keeps exactly the occurrences that satisfy `p`, and each as often as before. */
  lemma {:induction false} SelectCounts<T(!new)>(s: seq<T>, p: T -> bool)
    ensures forall x :: multiset(Select(s, p))[x] == if p(x) then multiset(s)[x] else 0
    ensures forall x :: x in Select(s, p) <==> x in s && p(x)
    decreases |s|
  {
    if s != [] {
      var init := s[..|s| - 1];
      var last := s[|s| - 1];
      assert s == init + [last];
      SelectCounts(init, p);
      forall x ensures x in Select(s, p) <==> x in s && p(x) {
        assert x in Select(s, p) <==> multiset(Select(s, p))[x] > 0;
        assert x in s <==> multiset(s)[x] > 0;
      }
    }
  }

  /** Selection distributes over concatenation, so relative order is preserved. */
  lemma {:induction false} SelectAppend<T>(a: seq<T>, b: seq<T>, p: T -> bool)
    ensures Select(a + b, p) == Select(a, p) + Select(b, p)
    decreases |b|
  {
    if b == [] {
      assert a + b == a;
    } else {
      var ab := a + b;
      var init := b[..|b| - 1];
      var last := b[|b| - 1];
      assert ab[..|ab| - 1] == a + init;
      assert ab[|ab| - 1] == last;
      SelectAppend(a, init, p);
    }
  }

  function TitleIsNot(title: string): Movie -> bool {
    (m: Movie) => m.title != title
  }

  /** `deleteMovie`: the library with every record titled `title` removed. */
  function Without(lib: seq<Movie>, title: string): (r: seq<Movie>)
    ensures forall k :: 0 <= k < |r| ==> r[k].title != title
    ensures forall m: Movie :: m.title != title ==> multiset(r)[m] == multiset(lib)[m]
  {
    var r := Select(lib, TitleIsNot(title));
    SelectCounts(lib, TitleIsNot(title));
    assert forall k :: 0 <= k < |r| ==> r[k] in r;
    r
  }

  /** Deleting keeps every other record where it was relative to the rest, and drops each match. */
  lemma WithoutKeepsOrder(a: seq<Movie>, m: Movie, b: seq<Movie>, title: string)
    ensures Without(a + [m] + b, title)
         == Without(a, title) + (if m.title == title then [] else [m]) + Without(b, title)
  {
    SelectAppend(a + [m], b, TitleIsNot(title));
    SelectAppend(a, [m], TitleIsNot(title));
    assert [m][..0] == [];
  }

  /** Deleting twice is deleting once. */
  lemma WithoutIdempotent(lib: seq<Movie>, title: string)
    ensures Without(Without(lib, title), title) == Without(lib, title)
  {
    var r := Without(lib, title);
    SelectAll(r, TitleIsNot(title));
  }

  /** A selection no element passes is empty. */
  lemma {:induction false} SelectNone<T>(s: seq<T>, p: T -> bool)
    requires forall k :: 0 <= k < |s| ==> !p(s[k])
    ensures Select(s, p) == []
    decreases |s|
  {
    if s != [] {
      SelectNone(s[..|s| - 1], p);
    }
  }

  /** A selection every element passes is the whole sequence. */
  lemma {:induction false} SelectAll<T>(s: seq<T>, p: T -> bool)
    requires forall k :: 0 <= k < |s| ==> p(s[k])
    ensures Select(s, p) == s
    decreases |s|
  {
    if s != [] {
      SelectAll(s[..|s| - 1], p);
    }
  }

  /** Whether a record's `criteria` field equals `value`; the year compares as `to_string(year)`. */
  predicate Matches(criteria: string, value: string, m: Movie) {
    || (criteria == "title" && m.title == value)
    || (criteria == "year" && IntToString(m.year) == value)
    || (criteria == "director" && m.director == value)
    || (criteria == "genre" && m.genre == value)
  }

  function MatchesFn(criteria: string, value: string): Movie -> bool {
    (m: Movie) => Matches(criteria, value, m)
  }

  /** `filterMovies`: the records whose chosen field equals `value`, in library order. */
  function Filtered(lib: seq<Movie>, criteria: string, value: string): (r: seq<Movie>)
    ensures forall m :: m in r <==> m in lib && Matches(criteria, value, m)
  {
    SelectCounts(lib, MatchesFn(criteria, value));
    Select(lib, MatchesFn(criteria, value))
  }

  predicate KnownCriterion(criteria: string) {
    criteria == "title" || criteria == "year" || criteria == "director" || criteria == "genre"
  }

  /** An unknown criterion selects nothing. */
  lemma FilterUnknownCriterion(lib: seq<Movie>, criteria: string, value: string)
    requires !KnownCriterion(criteria)
    ensures Filtered(lib, criteria, value) == []
  {
    SelectNone(lib, MatchesFn(criteria, value));
  }

  /** Filtering by title finds nothing exactly when a search for that title finds nothing. */
  lemma FilterTitleEmptyIff(lib: seq<Movie>, title: string)
    ensures Filtered(lib, "title", title) == [] <==> NoMatch(lib, title)
  {
    var r := Filtered(lib, "title", title);
    if !NoMatch(lib, title) {
      var k :| 0 <= k < |lib| && lib[k].title == title;
      assert lib[k] in r;
    } else {
      SelectNone(lib, MatchesFn("title", title));
    }
  }

  // ---------------------------------------------------------------------
  // Sort keys: sortMovies

  datatype SortKey = ByTitle | ByYear | ByDirector | ByGenre

  function KeyOf(criteria: string): (k: Option<SortKey>)
    ensures k.Some? <==> KnownCriterion(criteria)
    ensures criteria == "title" ==> k == Some(ByTitle)
    ensures criteria == "year" ==> k == Some(ByYear)
    ensures criteria == "director" ==> k == Some(ByDirector)
    ensures criteria == "genre" ==> k == Some(ByGenre)
  {
    if criteria == "title" then Some(ByTitle)
    else if criteria == "year" then Some(ByYear)
    else if criteria == "director" then Some(ByDirector)
    else if criteria == "genre" then Some(ByGenre)
    else None
  }

  /** The comparator the source passes to `std::sort` for each criterion. */
  predicate KeyLess(k: SortKey, a: Movie, b: Movie) {
    match k
    case ByTitle => StrLess(a.title, b.title)
    case ByYear => a.year < b.year
    case ByDirector => StrLess(a.director, b.director)
    case ByGenre => StrLess(a.genre, b.genre)
  }

  /** "`b` is not less than `a`": the order `std::sort` leaves its range in. */
  function AscendingBy(k: SortKey): (Movie, Movie) -> bool {
    (a: Movie, b: Movie) => !KeyLess(k, b, a)
  }

  lemma StrNotLessTransitive(a: string, b: string, c: string)
    requires !StrLess(b, a) && !StrLess(c, b)
    ensures !StrLess(c, a)
  {
    if StrLess(c, a) {
      StrLessTrichotomy(a, b);
      if StrLess(a, b) {
        StrLessTransitive(c, a, b);
      }
    }
  }

  lemma StrNotLessTotal(a: string, b: string)
    ensures !StrLess(b, a) || !StrLess(a, b)
  {
    if StrLess(b, a) && StrLess(a, b) {
      StrLessTransitive(a, b, a);
      StrLessIrreflexive(a);
    }
  }

  /** Each comparator is a strict weak order, so "not less" is a total preorder to sort by. */
  lemma AscendingIsTotalPreorder(k: SortKey)
    ensures TotalPreorder(AscendingBy(k))
  {
    var le := AscendingBy(k);
    forall a: Movie, b: Movie
      ensures le(a, b) || le(b, a)
    {
      match k
      case ByTitle => StrNotLessTotal(a.title, b.title);
      case ByYear =>
      case ByDirector => StrNotLessTotal(a.director, b.director);
      case ByGenre => StrNotLessTotal(a.genre, b.genre);
    }
    forall a: Movie, b: Movie, c: Movie | le(a, b) && le(b, c)
      ensures le(a, c)
    {
      match k
      case ByTitle => StrNotLessTransitive(a.title, b.title, c.title);
      case ByYear =>
      case ByDirector => StrNotLessTransitive(a.director, b.director, c.director);
      case ByGenre => StrNotLessTransitive(a.genre, b.genre, c.genre);
    }
  }

  // ---------------------------------------------------------------------
  // Rating counts: recommendMovies

  /** The record has at least one rating from `user` (`find` succeeds and the vector is non-empty). */
  predicate RatedBy(m: Movie, user: string) {
    user in m.userRatings && |m.userRatings[user]| > 0
  }

  /** Records in `lib` titled `title` that `user` has rated. */
  function CountRated(lib: seq<Movie>, user: string, title: string): (n: nat)
    ensures n <= |lib|
    ensures n > 0 ==> exists i :: 0 <= i < |lib| && lib[i].title == title && RatedBy(lib[i], user)
  {
    if lib == [] then 0
    else
      var init := lib[..|lib| - 1];
      var last := lib[|lib| - 1];
      var n := CountRated(init, user, title);
      assert forall i :: 0 <= i < |init| ==> init[i] == lib[i];
      n + if last.title == title && RatedBy(last, user) then 1 else 0
  }

  /** The sum of `CountRated` over the libraries named in `keys`. */
  ghost function CountAll(libs: Libraries, keys: set<string>, user: string, title: string): nat
    requires keys <= libs.Keys
    decreases keys
  {
    if keys == {} then 0
    else
      var k :| k in keys;
      CountRated(libs[k], user, title) + CountAll(libs, keys - {k}, user, title)
  }

  /** The sum does not depend on which library is taken first. */
  lemma {:induction false} CountAllRemove(libs: Libraries, keys: set<string>, k: string, user: string, title: string)
    requires keys <= libs.Keys && k in keys
    ensures CountAll(libs, keys, user, title)
         == CountRated(libs[k], user, title) + CountAll(libs, keys - {k}, user, title)
    decreases keys
  {
    var j :| j in keys && CountAll(libs, keys, user, title)
      == CountRated(libs[j], user, title) + CountAll(libs, keys - {j}, user, title);
    if j != k {
      CountAllRemove(libs, keys - {j}, k, user, title);
      CountAllRemove(libs, keys - {k}, j, user, title);
      assert keys - {j} - {k} == keys - {k} - {j};
    }
  }

  /** Counting one more record. */
  lemma CountRatedSnoc(lib: seq<Movie>, j: nat, user: string)
    requires j < |lib|
    ensures forall t :: CountRated(lib[..j + 1], user, t)
                     == CountRated(lib[..j], user, t) + (if lib[j].title == t && RatedBy(lib[j], user) then 1 else 0)
  {
    assert lib[..j + 1][..j] == lib[..j];
  }

  /** Counting one more library. */
  lemma CountAllAdd(libs: Libraries, done: set<string>, k: string, user: string)
    requires done <= libs.Keys && k in libs && k !in done
    ensures forall t :: CountAll(libs, done + {k}, user, t)
                     == CountAll(libs, done, user, t) + CountRated(libs[k], user, t)
  {
    forall t ensures CountAll(libs, done + {k}, user, t)
      == CountAll(libs, done, user, t) + CountRated(libs[k], user, t)
    {
      CountAllRemove(libs, done + {k}, k, user, t);
      assert done + {k} - {k} == done;
    }
  }

  /** `movieFrequency[title]` read as a value: a title never incremented counts 0. */
  function Freq(freq: map<string, nat>, title: string): nat {
    if title in freq then freq[title] else 0
  }

  /** The count `recommendMovies` reports for `title`: across all libraries. */
  ghost function TotalRated(libs: Libraries, user: string, title: string): nat {
    CountAll(libs, libs.Keys, user, title)
  }

  predicate RatedNothing(libs: Libraries, user: string) {
    forall k, i :: k in libs && 0 <= i < |libs[k]| ==> !RatedBy(libs[k][i], user)
  }

  /** A positive count needs a rated record in one of the libraries counted. */
  lemma {:induction false} CountAllPositive(libs: Libraries, keys: set<string>, user: string, title: string)
    requires keys <= libs.Keys
    requires CountAll(libs, keys, user, title) > 0
    ensures exists k, i :: k in keys && 0 <= i < |libs[k]| && RatedBy(libs[k][i], user)
    decreases keys
  {
    var k :| k in keys && CountAll(libs, keys, user, title)
      == CountRated(libs[k], user, title) + CountAll(libs, keys - {k}, user, title);
    if CountRated(libs[k], user, title) == 0 {
      CountAllPositive(libs, keys - {k}, user, title);
    }
  }

  /** If `user` rated nothing anywhere, every title counts zero. */
  lemma NothingRatedCountsZero(libs: Libraries, user: string, title: string)
    requires RatedNothing(libs, user)
    ensures TotalRated(libs, user, title) == 0
  {
    if TotalRated(libs, user, title) > 0 {
      CountAllPositive(libs, libs.Keys, user, title);
    }
  }

  /** Recommendation entries ordered by count, largest first. */
  function ByCountDescending(): ((string, nat), (string, nat)) -> bool {
    (a: (string, nat), b: (string, nat)) => a.1 >= b.1
  }

  lemma ByCountDescendingIsTotalPreorder()
    ensures TotalPreorder(ByCountDescending())
  {
  }

  // ---------------------------------------------------------------------
  // Lines: importMovies, loadFromFile, exportMovies, saveToFile

  /** The entries of each line, one line after another. */
  function Collect<T>(lines: seq<string>, entry: string -> seq<T>): seq<T> {
    if lines == [] then [] else Collect(lines[..|lines| - 1], entry) + entry(lines[|lines| - 1])
  }

  lemma {:induction false} CollectAppend<T>(a: seq<string>, b: seq<string>, entry: string -> seq<T>)
    ensures Collect(a + b, entry) == Collect(a, entry) + Collect(b, entry)
    decreases |b|
  {
    if b == [] {
      assert a + b == a;
    } else {
      var ab := a + b;
      var init := b[..|b| - 1];
      assert ab[..|ab| - 1] == a + init;
      assert ab[|ab| - 1] == b[|b| - 1];
      CollectAppend(a, init, entry);
    }
  }

  /** What one line contributes on import: its record when it is non-empty and decodes. */
  function Entry(line: string): (r: seq<Movie>)
    ensures |r| <= 1
  {
    if line != "" && Decode(line).Ok? then [Decode(line).value] else []
  }

  /** A non-empty line that does not decode. */
  function Rejected(line: string): (r: seq<string>)
    ensures |r| <= 1
  {
    if line != "" && Decode(line).Err? then [line] else []
  }

  /** The records decoded from the non-empty lines that decode, in order. */
  function Decoded(lines: seq<string>): seq<Movie> {
    Collect(lines, Entry)
  }

  /** The number of non-empty lines that do not decode. */
  function Skipped(lines: seq<string>): nat {
    |Collect(lines, Rejected)|
  }

  /** Every non-empty line either yields a record or is counted as skipped. */
  lemma {:induction false} DecodedPlusSkipped(lines: seq<string>)
    ensures |Decoded(lines)| + Skipped(lines) + Blank(lines) == |lines|
    decreases |lines|
  {
    if lines != [] {
      DecodedPlusSkipped(lines[..|lines| - 1]);
    }
  }

  /** The number of empty lines. */
  function Blank(lines: seq<string>): (n: nat)
    ensures n <= |lines|
  {
    if lines == [] then 0
    else Blank(lines[..|lines| - 1]) + if lines[|lines| - 1] == "" then 1 else 0
  }

  /** `push_back` of each record in turn onto the user's library; with no records nothing is touched. */
  function AppendTo(libs: Libraries, username: string, records: seq<Movie>): (r: Libraries)
    ensures records == [] ==> r == libs
    ensures records != [] ==> username in r && r[username] == LibraryOf(libs, username) + records
    ensures forall u :: u != username ==> (u in r <==> u in libs)
    ensures forall u :: u != username && u in libs ==> r[u] == libs[u]
  {
    if records == [] then libs else libs[username := LibraryOf(libs, username) + records]
  }

  lemma AppendToSnoc(libs: Libraries, username: string, records: seq<Movie>, more: seq<Movie>)
    ensures var before := AppendTo(libs, username, records);
      AppendTo(libs, username, records + more)
        == if more == [] then before else before[username := LibraryOf(before, username) + more]
  {
    if more == [] {
      assert records + more == records;
    } else if records == [] {
      assert records + more == more;
    } else {
      var mine := LibraryOf(libs, username);
      assert mine + (records + more) == (mine + records) + more;
      assert libs[username := mine + records][username := mine + records + more]
          == libs[username := mine + (records + more)];
    }
  }

  /** `importMovies` on a value: the decoded records appended to the user's library. */
  function ImportInto(libs: Libraries, username: string, lines: seq<string>): Libraries {
    AppendTo(libs, username, Decoded(lines))
  }

  /** Importing one more line appends what that line contributes to the user's library. */
  lemma ImportIntoSnoc(libs: Libraries, username: string, lines: seq<string>, line: string)
    ensures var before := ImportInto(libs, username, lines);
      ImportInto(libs, username, lines + [line])
        == if Entry(line) == [] then before
           else before[username := LibraryOf(before, username) + Entry(line)]
  {
    var all := lines + [line];
    assert all[..|all| - 1] == lines;
    assert Decoded(all) == Decoded(lines) + Entry(line);
    AppendToSnoc(libs, username, Decoded(lines), Entry(line));
  }

  /** One `toString` line per record, in library order. */
  function Exported(lib: seq<Movie>): (lines: seq<string>)
    ensures |lines| == |lib|
    ensures forall i :: 0 <= i < |lib| ==> lines[i] == ToString(lib[i])
  {
    seq(|lib|, i requires 0 <= i < |lib| => ToString(lib[i]))
  }

  /** The library as the text form carries it: ratings and reviews dropped. */
  function BaseAll(lib: seq<Movie>): (r: seq<Movie>)
    ensures |r| == |lib|
    ensures forall i :: 0 <= i < |lib| ==> r[i] == Base(lib[i])
  {
    if lib == [] then [] else BaseAll(lib[..|lib| - 1]) + [Base(lib[|lib| - 1])]
  }

  predicate AllEncodable(lib: seq<Movie>) {
    forall i :: 0 <= i < |lib| ==> Encodable(lib[i])
  }

  /** A quote-free record's line contributes exactly its base record on import. */
  lemma EntryOfToString(m: Movie)
    requires Encodable(m)
    ensures Entry(ToString(m)) == [Base(m)]
    ensures Rejected(ToString(m)) == []
  {
    DecodeToString(m);
    ToStringFrame(m);
  }

  /** Exporting a library and importing the lines gives back its records without annotations. */
  lemma {:induction false} ExportImportRoundTrip(lib: seq<Movie>)
    requires AllEncodable(lib)
    ensures Decoded(Exported(lib)) == BaseAll(lib)
    ensures Skipped(Exported(lib)) == 0
    decreases |lib|
  {
    if lib != [] {
      var init := lib[..|lib| - 1];
      var last := lib[|lib| - 1];
      var lines := Exported(lib);
      assert lines[..|lines| - 1] == Exported(init);
      assert lines[|lines| - 1] == ToString(last);
      ExportImportRoundTrip(init);
      EntryOfToString(last);
      assert Decoded(lines) == Decoded(Exported(init)) + [Base(last)];
      assert BaseAll(lib) == BaseAll(init) + [Base(last)];
    }
  }

  /** The import loop's step: line `i` adds its record, or one to the skipped count, or nothing. */
  lemma ImportStep(libs: Libraries, username: string, lines: seq<string>, i: nat)
    requires i < |lines|
    ensures var before := ImportInto(libs, username, lines[..i]);
      ImportInto(libs, username, lines[..i + 1])
        == if Entry(lines[i]) == [] then before
           else before[username := LibraryOf(before, username) + Entry(lines[i])]
    ensures Skipped(lines[..i + 1]) == Skipped(lines[..i]) + |Rejected(lines[i])|
  {
    assert lines[..i + 1] == lines[..i] + [lines[i]];
    ImportIntoSnoc(libs, username, lines[..i], lines[i]);
    assert lines[..i + 1][..i] == lines[..i];
  }

  lemma DecodedAppend(a: seq<string>, b: seq<string>)
    ensures Decoded(a + b) == Decoded(a) + Decoded(b)
  {
    CollectAppend(a, b, Entry);
  }

  lemma ExportedAppend(a: seq<Movie>, b: seq<Movie>)
    ensures Exported(a + b) == Exported(a) + Exported(b)
  {
    var l := Exported(a + b);
    var r := Exported(a) + Exported(b);
    assert |l| == |r|;
    forall i | 0 <= i < |l| ensures l[i] == r[i] {
      if i < |a| { assert (a + b)[i] == a[i]; } else { assert (a + b)[i] == b[i - |a|]; }
    }
  }

  /** Ascending string order, as `std::map<std::string, …>` keeps its keys. */
  function StrLe(): (string, string) -> bool {
    (a: string, b: string) => !StrLess(b, a)
  }

  lemma StrLeIsTotalPreorder()
    ensures TotalPreorder(StrLe())
  {
    forall a: string, b: string ensures StrLe()(a, b) || StrLe()(b, a) {
      StrNotLessTotal(a, b);
    }
    forall a: string, b: string, c: string | StrLe()(a, b) && StrLe()(b, c)
      ensures StrLe()(a, c)
    {
      StrNotLessTransitive(a, b, c);
    }
  }

  /** The records of the libraries named in `order`, one library after another. */
  function Concat(libs: Libraries, order: seq<string>): (r: seq<Movie>)
    requires forall k :: k in order ==> k in libs
  {
    if order == [] then []
    else Concat(libs, order[..|order| - 1]) + libs[order[|order| - 1]]
  }

  /** `saveToFile`: every library's lines, one library after another in `order`. */
  function SaveLines(libs: Libraries, order: seq<string>): (lines: seq<string>)
    requires forall k :: k in order ==> k in libs
  {
    if order == [] then []
    else SaveLines(libs, order[..|order| - 1]) + Exported(libs[order[|order| - 1]])
  }

  lemma {:induction false} SaveLinesExported(libs: Libraries, order: seq<string>)
    requires forall k :: k in order ==> k in libs
    ensures SaveLines(libs, order) == Exported(Concat(libs, order))
    decreases |order|
  {
    if order != [] {
      var init := order[..|order| - 1];
      SaveLinesExported(libs, init);
      ExportedAppend(Concat(libs, init), libs[order[|order| - 1]]);
    }
  }

  /** No string field of any stored record holds a double quote. */
  predicate StoreEncodable(libs: Libraries) {
    forall k, i :: k in libs && 0 <= i < |libs[k]| ==> Encodable(libs[k][i])
  }

  lemma {:induction false} ConcatEncodable(libs: Libraries, order: seq<string>)
    requires forall k :: k in order ==> k in libs
    requires StoreEncodable(libs)
    ensures AllEncodable(Concat(libs, order))
    decreases |order|
  {
    if order != [] {
      var init := order[..|order| - 1];
      var lib := libs[order[|order| - 1]];
      ConcatEncodable(libs, init);
      var c := Concat(libs, order);
      assert c == Concat(libs, init) + lib;
      forall i | 0 <= i < |c| ensures Encodable(c[i]) {
        if i >= |Concat(libs, init)| {
          assert c[i] == lib[i - |Concat(libs, init)|];
        }
      }
    }
  }

  /** Loading lines into an empty store puts their records, if any, into "default". */
  lemma LoadRecords(lines: seq<string>, records: seq<Movie>)
    requires Decoded(lines) == records
    ensures ImportInto(map[], "default", lines) == if records == [] then map[] else map["default" := records]
  {
    assert [] + records == records;
  }

  /** The saved lines decode to the saved records, one library after another. */
  lemma SavedLinesDecode(libs: Libraries, order: seq<string>)
    requires forall k :: k in order ==> k in libs
    requires StoreEncodable(libs)
    ensures Decoded(SaveLines(libs, order)) == BaseAll(Concat(libs, order))
  {
    SaveLinesExported(libs, order);
    ConcatEncodable(libs, order);
    ExportImportRoundTrip(Concat(libs, order));
  }

  /**
   * Saving the store and loading the file again, as the next run's
   * constructor does, puts every record into "default" in the saved order,
   * without its ratings and reviews.
   */
  lemma SaveThenLoad(libs: Libraries, order: seq<string>)
    requires forall k :: k in order ==> k in libs
    requires StoreEncodable(libs)
    ensures var all := Concat(libs, order);
      ImportInto(map[], "default", SaveLines(libs, order))
        == if all == [] then map[] else map["default" := BaseAll(all)]
  {
    var all := Concat(libs, order);
    SavedLinesDecode(libs, order);
    LoadRecords(SaveLines(libs, order), BaseAll(all));
    assert |BaseAll(all)| == |all|;
  }
}
