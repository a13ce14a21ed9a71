/**
 * `MovieDatabase`: the per-user libraries as a mutable object. Every method
 * that reaches a library through `userLibraries[username]` creates an empty
 * one when the user had none; output the source prints is returned instead.
 */
module Database {
  import opened Wrappers
  import opened Movies
  import opened Sorting
  import opened Library

  /** The keys of `m` in ascending order, the order `std::map` visits them in. */
  method SortedKeys<V>(m: map<string, V>) returns (keys: seq<string>)
    ensures forall k :: k in keys <==> k in m
    ensures Distinct(keys)
    ensures SortedBy(keys, StrLe())
  {
    var unsorted: seq<string> := [];
    var rest := m.Keys;
    while rest != {}
      invariant rest <= m.Keys
      invariant forall k :: k in unsorted <==> k in m && k !in rest
      invariant Distinct(unsorted)
      decreases |rest|
    {
      var k :| k in rest;
      unsorted := unsorted + [k];
      rest := rest - {k};
    }
    StrLeIsTotalPreorder();
    keys := SortBy(unsorted, StrLe());
    PermutationDistinct(unsorted, keys);
    forall k ensures k in keys <==> k in unsorted {
      assert k in keys <==> k in multiset(keys);
      assert k in unsorted <==> k in multiset(unsorted);
    }
  }

  /** The `outFile << movie.toString() << endl` loop: one line per record, in order. */
  method ExportLines(movies: seq<Movie>) returns (lines: seq<string>)
    ensures lines == Exported(movies)
  {
    lines := [];
    var i := 0;
    while i < |movies|
      invariant 0 <= i <= |movies|
      invariant lines == Exported(movies[..i])
    {
      assert movies[..i + 1][..i] == movies[..i];
      var line := WriteMovie(movies[i]);
      lines := lines + [line];
      i := i + 1;
    }
    assert movies[..i] == movies;
  }

  class MovieDatabase {
    var userLibraries: Libraries

    /** Construction loads the stored lines into the "default" library. */
    constructor (stored: seq<string>)
      ensures userLibraries == ImportInto(map[], "default", stored)
    {
      userLibraries := map[];
      new;
      LoadFromFile(stored);
    }

    /** `loadFromFile`: the stored lines, read into "default". */
    method LoadFromFile(stored: seq<string>)
      modifies this
      ensures userLibraries == ImportInto(old(userLibraries), "default", stored)
    {
      var skipped := ImportMovies(stored, "default");
    }

    /**
     * `importMovies`: appends the record of each non-empty line that decodes
     * to the user's library, in order; `skipped` counts the others.
     */
    method ImportMovies(lines: seq<string>, username: string) returns (skipped: nat)
      modifies this
      ensures userLibraries == ImportInto(old(userLibraries), username, lines)
      ensures skipped == Skipped(lines)
    {
      skipped := 0;
      var i := 0;
      while i < |lines|
        invariant 0 <= i <= |lines|
        invariant userLibraries == ImportInto(old(userLibraries), username, lines[..i])
        invariant skipped == Skipped(lines[..i])
      {
        var line := lines[i];
        ImportStep(old(userLibraries), username, lines, i);
        if line != "" {
          match Decode(line)
          case Ok(m) =>
            assert Entry(line) == [m];
            userLibraries := userLibraries[username := LibraryOf(userLibraries, username) + [m]];
          case Err(_) =>
            assert Entry(line) == [] && Rejected(line) == [line];
            skipped := skipped + 1;
        }
        i := i + 1;
      }
      assert lines[..i] == lines;
    }

    method AddMovie(username: string, movie: Movie)
      modifies this
      ensures userLibraries == old(userLibraries)[username := LibraryOf(old(userLibraries), username) + [movie]]
    {
      userLibraries := userLibraries[username := LibraryOf(userLibraries, username) + [movie]];
    }

    /**
     * The loop `editMovie`, `rateMovie` and `reviewMovie` share: applies `c`
     * to the first record titled `title` and reports whether there was one.
     */
    method ChangeFirst(username: string, title: string, c: Change) returns (found: bool)
      modifies this
      ensures var lib := LibraryOf(old(userLibraries), username);
        && (found <==> !NoMatch(lib, title))
        && userLibraries == old(userLibraries)[username := UpdateFirst(lib, title, c)]
    {
      var movies := LibraryOf(userLibraries, username);
      userLibraries := userLibraries[username := movies];
      var i := 0;
      while i < |movies|
        invariant 0 <= i <= |movies|
        invariant userLibraries == old(userLibraries)[username := movies]
        invariant forall k :: 0 <= k < i ==> movies[k].title != title
      {
        if movies[i].title == title {
          assert IsFirstMatch(movies, title, i);
          userLibraries := userLibraries[username := movies[i := Apply(c, movies[i])]];
          return true;
        }
        i := i + 1;
      }
      return false;
    }

    /** `editMovie`: the first record titled `title` becomes `updated`. */
    method EditMovie(username: string, title: string, updated: Movie)
      modifies this
      ensures userLibraries == old(userLibraries)[username :=
                UpdateFirst(LibraryOf(old(userLibraries), username), title, Replace(updated))]
    {
      var found := ChangeFirst(username, title, Replace(updated));
    }

    /** `rateMovie`: appends `rating` under `username` on the first match; `found` is false for "Movie not found!". */
    method RateMovie(username: string, title: string, rating: int) returns (found: bool)
      modifies this
      ensures var lib := LibraryOf(old(userLibraries), username);
        && (found <==> !NoMatch(lib, title))
        && userLibraries == old(userLibraries)[username := UpdateFirst(lib, title, Rate(username, rating))]
    {
      found := ChangeFirst(username, title, Rate(username, rating));
    }

    /** `reviewMovie`: sets the review under `username` on the first match; `found` is false for "Movie not found!". */
    method ReviewMovie(username: string, title: string, review: string) returns (found: bool)
      modifies this
      ensures var lib := LibraryOf(old(userLibraries), username);
        && (found <==> !NoMatch(lib, title))
        && userLibraries == old(userLibraries)[username := UpdateFirst(lib, title, Review(username, review))]
    {
      found := ChangeFirst(username, title, Review(username, review));
    }

    /** `deleteMovie`: removes every record titled `title`, keeping the others in order. */
    method DeleteMovie(username: string, title: string)
      modifies this
      ensures userLibraries == old(userLibraries)[username := Without(LibraryOf(old(userLibraries), username), title)]
    {
      var movies := LibraryOf(userLibraries, username);
      var kept: seq<Movie> := [];
      var i := 0;
      while i < |movies|
        invariant 0 <= i <= |movies|
        invariant kept == Without(movies[..i], title)
      {
        assert movies[..i + 1][..i] == movies[..i];
        if movies[i].title != title {
          kept := kept + [movies[i]];
        }
        i := i + 1;
      }
      assert movies[..i] == movies;
      userLibraries := userLibraries[username := kept];
    }

    /** `searchMovie`: the first record titled `title`, or None for "Movie not found!". */
    method SearchMovie(username: string, title: string) returns (r: Option<Movie>)
      modifies this
      ensures userLibraries == Touch(old(userLibraries), username)
      ensures var lib := LibraryOf(old(userLibraries), username);
        && (r.None? <==> NoMatch(lib, title))
        && forall i :: IsFirstMatch(lib, title, i) ==> r == Some(lib[i])
    {
      var movies := LibraryOf(userLibraries, username);
      userLibraries := Touch(userLibraries, username);
      var i := 0;
      while i < |movies|
        invariant 0 <= i <= |movies|
        invariant forall k :: 0 <= k < i ==> movies[k].title != title
      {
        if movies[i].title == title {
          assert IsFirstMatch(movies, title, i);
          return Some(movies[i]);
        }
        i := i + 1;
      }
      return None;
    }

    /**
     * `sortMovies`: reorders the library by the chosen field; an unknown
     * criterion leaves it as it was.
     */
    method SortMovies(username: string, criteria: string)
      modifies this
      ensures username in userLibraries
      ensures userLibraries == old(userLibraries)[username := userLibraries[username]]
      ensures multiset(userLibraries[username]) == multiset(LibraryOf(old(userLibraries), username))
      ensures KeyOf(criteria).Some? ==> SortedBy(userLibraries[username], AscendingBy(KeyOf(criteria).value))
      ensures KeyOf(criteria).None? ==> userLibraries[username] == LibraryOf(old(userLibraries), username)
    {
      var movies := LibraryOf(userLibraries, username);
      var sorted := movies;
      match KeyOf(criteria) {
        case Some(k) =>
          AscendingIsTotalPreorder(k);
          sorted := SortBy(movies, AscendingBy(k));
        case None =>
      }
      userLibraries := userLibraries[username := sorted];
    }

    /** `filterMovies`: the records whose chosen field equals `value`, in library order. */
    method FilterMovies(username: string, criteria: string, value: string) returns (matches: seq<Movie>)
      modifies this
      ensures userLibraries == Touch(old(userLibraries), username)
      ensures matches == Filtered(LibraryOf(old(userLibraries), username), criteria, value)
    {
      var movies := LibraryOf(userLibraries, username);
      userLibraries := Touch(userLibraries, username);
      matches := [];
      var i := 0;
      while i < |movies|
        invariant 0 <= i <= |movies|
        invariant matches == Filtered(movies[..i], criteria, value)
      {
        assert movies[..i + 1][..i] == movies[..i];
        if Matches(criteria, value, movies[i]) {
          matches := matches + [movies[i]];
        }
        i := i + 1;
      }
      assert movies[..i] == movies;
    }

    /** `exportMovies`: one `toString` line per record of the user's library. */
    method ExportMovies(username: string) returns (lines: seq<string>)
      modifies this
      ensures userLibraries == Touch(old(userLibraries), username)
      ensures lines == Exported(LibraryOf(old(userLibraries), username))
    {
      var movies := LibraryOf(userLibraries, username);
      userLibraries := Touch(userLibraries, username);
      lines := ExportLines(movies);
    }

    /** `saveToFile`: every library's lines, users in ascending order. */
    method SaveToFile() returns (lines: seq<string>, order: seq<string>)
      ensures forall k :: k in order <==> k in userLibraries
      ensures Distinct(order) && SortedBy(order, StrLe())
      ensures lines == SaveLines(userLibraries, order)
    {
      order := SortedKeys(userLibraries);
      lines := [];
      var i := 0;
      while i < |order|
        invariant 0 <= i <= |order|
        invariant lines == SaveLines(userLibraries, order[..i])
      {
        var chunk := ExportLines(userLibraries[order[i]]);
        assert order[..i + 1][..i] == order[..i];
        assert SaveLines(userLibraries, order[..i + 1]) == SaveLines(userLibraries, order[..i]) + chunk;
        lines := lines + chunk;
        i := i + 1;
      }
      assert order[..i] == order;
    }

    /**
     * `recommendMovies`: for each title some record of which, in any
     * library, `username` has rated, the number of such records; largest
     * count first.
     */
    method RecommendMovies(username: string) returns (recs: seq<(string, nat)>)
      ensures forall i :: 0 <= i < |recs| ==>
                recs[i].1 >= 1 && recs[i].1 == TotalRated(userLibraries, username, recs[i].0)
      ensures forall t :: TotalRated(userLibraries, username, t) > 0 ==>
                exists i :: 0 <= i < |recs| && recs[i].0 == t
      ensures forall i, j :: 0 <= i < j < |recs| ==> recs[i].0 != recs[j].0
      ensures SortedBy(recs, ByCountDescending())
      ensures RatedNothing(userLibraries, username) ==> recs == []
    {
      var freq := CountRatings(username);
      var titles := SortedKeys(freq);
      var entries: seq<(string, nat)> := [];
      var i := 0;
      while i < |titles|
        invariant 0 <= i <= |titles|
        invariant |entries| == i
        invariant forall k :: 0 <= k < i ==> entries[k] == (titles[k], freq[titles[k]])
      {
        entries := entries + [(titles[i], freq[titles[i]])];
        i := i + 1;
      }
      ByCountDescendingIsTotalPreorder();
      recs := SortBy(entries, ByCountDescending());
      RecommendationsFromEntries(userLibraries, username, freq, titles, entries, recs);
    }

    /** The `movieFrequency` map: per title, the records rated by `username` across all libraries. */
    method CountRatings(username: string) returns (freq: map<string, nat>)
      ensures forall t :: Freq(freq, t) == TotalRated(userLibraries, username, t)
      ensures forall t :: t in freq ==> freq[t] >= 1
    {
      freq := map[];
      var keys := SortedKeys(userLibraries);
      ghost var done: set<string> := {};
      var i := 0;
      while i < |keys|
        invariant 0 <= i <= |keys|
        invariant forall k :: k in done <==> k in keys[..i]
        invariant done <= userLibraries.Keys
        invariant forall t :: Freq(freq, t) == CountAll(userLibraries, done, username, t)
        invariant forall t :: t in freq ==> freq[t] >= 1
      {
        assert keys[i] !in done by {
          assert forall a, b :: 0 <= a < b < |keys| ==> keys[a] != keys[b];
        }
        CountAllAdd(userLibraries, done, keys[i], username);
        freq := CountLibrary(userLibraries[keys[i]], username, freq);
        assert keys[..i + 1] == keys[..i] + [keys[i]];
        done := done + {keys[i]};
        i := i + 1;
      }
      assert keys[..i] == keys;
      assert done == userLibraries.Keys;
    }
  }

  /** The inner loop of `recommendMovies`: `movieFrequency[movie.title]++` for each record `username` rated. */
  method CountLibrary(lib: seq<Movie>, username: string, freq0: map<string, nat>) returns (freq: map<string, nat>)
    requires forall t :: t in freq0 ==> freq0[t] >= 1
    ensures forall t :: Freq(freq, t) == Freq(freq0, t) + CountRated(lib, username, t)
    ensures forall t :: t in freq ==> freq[t] >= 1
  {
    freq := freq0;
    var j := 0;
    while j < |lib|
      invariant 0 <= j <= |lib|
      invariant forall t :: Freq(freq, t) == Freq(freq0, t) + CountRated(lib[..j], username, t)
      invariant forall t :: t in freq ==> freq[t] >= 1
    {
      var m := lib[j];
      CountRatedSnoc(lib, j, username);
      if username in m.userRatings && |m.userRatings[username]| > 0 {
        freq := freq[m.title := Freq(freq, m.title) + 1];
      }
      j := j + 1;
    }
    assert lib[..j] == lib;
  }

  /** The sorted entries meet `RecommendMovies`' contract. */
  lemma RecommendationsFromEntries(libs: Libraries, username: string, freq: map<string, nat>,
                                   titles: seq<string>, entries: seq<(string, nat)>, recs: seq<(string, nat)>)
    requires forall t :: Freq(freq, t) == TotalRated(libs, username, t)
    requires forall t :: t in freq ==> freq[t] >= 1
    requires forall k :: k in titles <==> k in freq
    requires Distinct(titles)
    requires |entries| == |titles|
    requires forall k :: 0 <= k < |titles| ==> entries[k] == (titles[k], freq[titles[k]])
    requires multiset(recs) == multiset(entries)
    ensures forall i :: 0 <= i < |recs| ==>
              recs[i].1 >= 1 && recs[i].1 == TotalRated(libs, username, recs[i].0)
    ensures forall t :: TotalRated(libs, username, t) > 0 ==>
              exists i :: 0 <= i < |recs| && recs[i].0 == t
    ensures forall i, j :: 0 <= i < j < |recs| ==> recs[i].0 != recs[j].0
    ensures RatedNothing(libs, username) ==> recs == []
  {
    forall i | 0 <= i < |recs|
      ensures recs[i].1 >= 1 && recs[i].1 == TotalRated(libs, username, recs[i].0)
    {
      assert recs[i] in multiset(entries);
      var k :| 0 <= k < |entries| && entries[k] == recs[i];
    }
    forall t | TotalRated(libs, username, t) > 0
      ensures exists i :: 0 <= i < |recs| && recs[i].0 == t
    {
      var k :| 0 <= k < |titles| && titles[k] == t;
      assert entries[k] in multiset(recs);
      var i :| 0 <= i < |recs| && recs[i] == entries[k];
    }
    assert Distinct(entries) by {
      forall a, b | 0 <= a < b < |entries| ensures entries[a] != entries[b] {
        assert titles[a] != titles[b];
      }
    }
    PermutationDistinct(entries, recs);
    if RatedNothing(libs, username) && recs != [] {
      NothingRatedCountsZero(libs, username, recs[0].0);
    }
  }
}
