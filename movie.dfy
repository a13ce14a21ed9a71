/**
 * The movie record and its one-line text form: `Movie::toString` and the
 * decoder that `Movie::fromString` is meant to be (one that consumes the
 * literals `toString` writes rather than skipping fixed character counts).
 */
module Movies {
  import opened Wrappers
  import opened Text

  /** One catalog entry: six base fields and two per-user annotation maps. */
  datatype Movie = Movie(
    title: string,
    year: int,
    director: string,
    genre: string,
    cast: seq<string>,
    plotSummary: string,
    userRatings: map<string, seq<int>>,  // username -> ratings, in the order given
    userReviews: map<string, string>     // username -> review
  )

  /** The six-argument `Movie` constructor: the annotation maps start out empty. */
  function NewMovie(t: string, y: int, d: string, g: string, c: seq<string>, p: string): (m: Movie)
    ensures m.title == t && m.year == y && m.director == d && m.genre == g
    ensures m.cast == c && m.plotSummary == p
    ensures m.userRatings == map[] && m.userReviews == map[]
  {
    Movie(t, y, d, g, c, p, map[], map[])
  }

  /** The record with its ratings and reviews dropped: what the text form carries. */
  function Base(m: Movie): Movie {
    NewMovie(m.title, m.year, m.director, m.genre, m.cast, m.plotSummary)
  }

  // The literal text `toString` writes between the fields.
  const TitleOpen: string := "{\"title\": \""
  const YearOpen: string := "\", \"year\": "
  const DirectorOpen: string := ", \"director\": \""
  const GenreOpen: string := "\", \"genre\": \""
  const CastOpen: string := "\", \"cast\": ["
  const PlotOpen: string := "], \"plotSummary\": \""
  const Close: string := "\"}"

  function Quoted(s: string): string {
    "\"" + s + "\""
  }

  /** The cast as `toString` writes it: each name quoted, separated by ", ". */
  function CastList(cast: seq<string>): string {
    if |cast| == 0 then ""
    else if |cast| == 1 then Quoted(cast[0])
    else Quoted(cast[0]) + ", " + CastList(cast[1..])
  }

  /** `Movie::toString`: the six base fields on one line; ratings and reviews are not written. */
  function ToString(m: Movie): string {
    TitleOpen + m.title + YearOpen + IntToString(m.year)
    + DirectorOpen + m.director + GenreOpen + m.genre
    + CastOpen + CastList(m.cast) + PlotOpen + m.plotSummary + Close
  }

  /** Adding a name at the end adds ", " and the quoted name; the last one gets no separator. */
  lemma {:induction false} CastListSnoc(cast: seq<string>, c: string)
    requires |cast| >= 1
    ensures CastList(cast + [c]) == CastList(cast) + ", " + Quoted(c)
    decreases |cast|
  {
    if |cast| == 1 {
      assert cast + [c] == [cast[0], c];
      assert (cast + [c])[1..] == [c];
    } else {
      assert (cast + [c])[1..] == cast[1..] + [c];
      CastListSnoc(cast[1..], c);
    }
  }

  /** An empty cast is written as nothing between the brackets; otherwise the list opens and closes with a quote. */
  lemma {:induction false} CastListShape(cast: seq<string>)
    ensures cast == [] <==> CastList(cast) == ""
    ensures cast != [] ==> |CastList(cast)| >= 2 * |cast|
    ensures cast != [] ==> CastList(cast)[0] == '"' && CastList(cast)[|CastList(cast)| - 1] == '"'
    decreases |cast|
  {
    if |cast| > 1 {
      CastListShape(cast[1..]);
    }
  }

  /** Writing name `i`, after a separator unless it is the first, extends the list by one name. */
  lemma CastListStep(cast: seq<string>, i: nat)
    requires i < |cast|
    ensures CastList(cast[..i]) + (if 0 < i then ", " else "") + Quoted(cast[i]) == CastList(cast[..i + 1])
  {
    assert cast[..i + 1] == cast[..i] + [cast[i]];
    if i > 0 {
      CastListSnoc(cast[..i], cast[i]);
    } else {
      assert cast[..i + 1] == [cast[0]];
    }
  }

  lemma Assoc3<T>(a: seq<T>, b: seq<T>, c: seq<T>)
    ensures a + b + c == a + (b + c)
  {
  }

  /**
   * `toString` as the source writes it: pieces appended to a string stream,
   * the cast by an index loop that puts ", " after every name but the last.
   */
  method WriteMovie(m: Movie) returns (line: string)
    ensures line == ToString(m)
  {
    line := TitleOpen + m.title + YearOpen + IntToString(m.year);
    line := line + DirectorOpen + m.director + GenreOpen + m.genre + CastOpen;
    ghost var head := line;
    var i := 0;
    while i < |m.cast|
      invariant 0 <= i <= |m.cast|
      invariant line == head + (CastList(m.cast[..i]) + (if 0 < i < |m.cast| then ", " else ""))
    {
      ghost var sep := if 0 < i then ", " else "";
      ghost var done := CastList(m.cast[..i]);
      line := line + Quoted(m.cast[i]);
      assert line == head + CastList(m.cast[..i + 1]) by {
        Assoc3(head, done + sep, Quoted(m.cast[i]));
        CastListStep(m.cast, i);
      }
      if i < |m.cast| - 1 {
        line := line + ", ";
      }
      i := i + 1;
    }
    assert m.cast[..i] == m.cast;
    line := line + PlotOpen + m.plotSummary + Close;
  }

  /** The pieces above are the ones the source streams out, regrouped field by field. */
  lemma LiteralsAsStreamed()
    ensures TitleOpen == "{" + "\"title\": \""
    ensures YearOpen == "\", " + "\"year\": "
    ensures DirectorOpen == ", " + "\"director\": \""
    ensures GenreOpen == "\", " + "\"genre\": \""
    ensures CastOpen == "\", " + "\"cast\": ["
    ensures PlotOpen == "], " + "\"plotSummary\": \""
    ensures Close == "\"" + "}"
  {
  }

  /** The annotation maps never reach the text form. */
  lemma ToStringIgnoresAnnotations(m: Movie, ratings: map<string, seq<int>>, reviews: map<string, string>)
    ensures ToString(m.(userRatings := ratings, userReviews := reviews)) == ToString(m)
    ensures ToString(Base(m)) == ToString(m)
  {
  }

  /** The line opens with `{"title": "` and closes with `"}`. */
  lemma ToStringFrame(m: Movie)
    ensures TitleOpen <= ToString(m)
    ensures |ToString(m)| >= |TitleOpen| + |Close|
    ensures ToString(m)[|ToString(m)| - |Close|..] == Close
  {
  }

  // ---------------------------------------------------------------------
  // Decoding

  datatype DecodeError = MalformedRecord | InvalidYear

  datatype Result<+T> = Ok(value: T) | Err(error: DecodeError) {

    predicate IsFailure() {
      Err?
    }

    function PropagateFailure<U>(): Result<U>
      requires Err?
    {
      Err(error)
    }

    function Extract(): T
      requires Ok?
    {
      value
    }
  }

  function Need<T>(o: Option<T>, e: DecodeError): (r: Result<T>)
    ensures r.Ok? <==> o.Some?
    ensures r.Ok? ==> r.value == o.value
    ensures r.Err? ==> r.error == e
  {
    match o
    case Some(v) => Ok(v)
    case None => Err(e)
  }

  predicate NoQuote(s: string) {
    '"' !in s
  }

  /** A record the text form can carry: no string field contains a double quote. */
  predicate Encodable(m: Movie) {
    && NoQuote(m.title) && NoQuote(m.director) && NoQuote(m.genre) && NoQuote(m.plotSummary)
    && forall i :: 0 <= i < |m.cast| ==> NoQuote(m.cast[i])
  }

  predicate Unannotated(m: Movie) {
    m.userRatings == map[] && m.userReviews == map[]
  }

  /**
   * One or more quoted names separated by ", "; returns them and the text
   * after the last closing quote.
   */
  function ParseNames(s: string): (r: Result<(seq<string>, string)>)
    ensures r.Ok? ==> |r.value.0| >= 1 && s == CastList(r.value.0) + r.value.1
    ensures r.Ok? ==> (forall i :: 0 <= i < |r.value.0| ==> NoQuote(r.value.0[i]))
    ensures r.Ok? ==> !(", " <= r.value.1)
    decreases |s|
  {
    var a :- Need(Expect("\"", s), MalformedRecord);
    var p :- Need(SplitAt(a, '"'), MalformedRecord);
    var b := p.1[1..];
    QuotedSplit(s, a, p.0, p.1);
    if ", " <= b then
      var q :- ParseNames(b[2..]);
      NamesCons(s, p.0, b, q.0, q.1);
      Ok(([p.0] + q.0, q.1))
    else
      Ok(([p.0], b))
  }

  /** One more quoted name in front of a parsed list. */
  lemma NamesCons(s: string, name: string, b: string, names: seq<string>, rest: string)
    requires s == Quoted(name) + b && ", " <= b
    requires |names| >= 1 && b[2..] == CastList(names) + rest
    requires NoQuote(name) && forall i :: 0 <= i < |names| ==> NoQuote(names[i])
    ensures s == CastList([name] + names) + rest
    ensures forall i :: 0 <= i < |[name] + names| ==> NoQuote(([name] + names)[i])
  {
    CastListCons(name, names);
    assert b == ", " + b[2..];
    Assoc4(Quoted(name), ", ", CastList(names), rest);
    forall i | 0 <= i < |[name] + names| ensures NoQuote(([name] + names)[i]) {
      if i > 0 { assert ([name] + names)[i] == names[i - 1]; }
    }
  }

  lemma Assoc4<T>(a: seq<T>, b: seq<T>, c: seq<T>, d: seq<T>)
    ensures a + (b + (c + d)) == a + b + c + d
  {
  }

  lemma Assoc13<T>(a: seq<T>, b: seq<T>, c: seq<T>, d: seq<T>, e: seq<T>, f: seq<T>, g: seq<T>,
                   h: seq<T>, i: seq<T>, j: seq<T>, k: seq<T>, l: seq<T>, m: seq<T>)
    ensures a + b + c + d + e + f + g + h + i + j + k + l + m
         == a + (b + (c + (d + (e + (f + (g + (h + (i + (j + (k + (l + m)))))))))))
  {
  }

  /** `ToString` with its pieces nested to the right, in the order a decoder meets them. */
  lemma ToStringNested(m: Movie)
    ensures ToString(m) == TitleOpen + (m.title + (YearOpen + (IntToString(m.year)
      + (DirectorOpen + (m.director + (GenreOpen + (m.genre
      + (CastOpen + (CastList(m.cast) + (PlotOpen + (m.plotSummary + Close)))))))))))
  {
    Assoc13(TitleOpen, m.title, YearOpen, IntToString(m.year), DirectorOpen, m.director,
      GenreOpen, m.genre, CastOpen, CastList(m.cast), PlotOpen, m.plotSummary, Close);
  }

  lemma QuotedSplit(s: string, a: string, name: string, tail: string)
    requires s == "\"" + a && a == name + tail && |tail| > 0 && tail[0] == '"'
    ensures s == Quoted(name) + tail[1..]
  {
    assert tail == "\"" + tail[1..];
  }

  lemma CastListCons(c: string, cast: seq<string>)
    requires |cast| >= 1
    ensures CastList([c] + cast) == Quoted(c) + ", " + CastList(cast)
  {
    assert ([c] + cast)[1..] == cast;
  }

  /** The cast list after `[`: empty when `]` follows at once, else one or more names. */
  function ParseCast(s: string): (r: Result<(seq<string>, string)>)
    ensures r.Ok? ==> s == CastList(r.value.0) + r.value.1
    ensures r.Ok? ==> (forall i :: 0 <= i < |r.value.0| ==> NoQuote(r.value.0[i]))
    ensures r.Ok? && r.value.0 != [] ==> !(", " <= r.value.1)
  {
    if |s| > 0 && s[0] == ']' then Ok(([], s)) else ParseNames(s)
  }

  /**
   * The decoder `fromString` is meant to be: it consumes, in order, exactly
   * the literals `toString` writes and reads each field up to the next
   * delimiter. A line it accepts is precisely the text form of the record it
   * returns, with empty rating and review maps.
   */
  function Decode(line: string): (r: Result<Movie>)
    ensures r.Ok? ==> Encodable(r.value) && Unannotated(r.value)
    ensures r.Ok? ==> ToString(r.value) == line
  {
    var s0 :- Need(Expect(TitleOpen, line), MalformedRecord);
    var title :- Need(SplitAt(s0, '"'), MalformedRecord);
    var s1 :- Need(Expect(YearOpen, title.1), MalformedRecord);
    var year :- Need(ReadInt(s1), InvalidYear);
    var s2 :- Need(Expect(DirectorOpen, year.1), MalformedRecord);
    var director :- Need(SplitAt(s2, '"'), MalformedRecord);
    var s3 :- Need(Expect(GenreOpen, director.1), MalformedRecord);
    var genre :- Need(SplitAt(s3, '"'), MalformedRecord);
    var s4 :- Need(Expect(CastOpen, genre.1), MalformedRecord);
    var cast :- ParseCast(s4);
    var s5 :- Need(Expect(PlotOpen, cast.1), MalformedRecord);
    var plot :- Need(SplitAt(s5, '"'), MalformedRecord);
    if plot.1 != Close then Err(MalformedRecord)
    else
      var m := NewMovie(title.0, year.0, director.0, genre.0, cast.0, plot.0);
      ToStringNested(m);
      Ok(m)
  }

  /** One step of `ParseNames`: a quote-free name in quotes, then either ", " and more names, or the rest. */
  lemma ParseNamesUnfold(s: string, name: string, tail: string)
    requires s == "\"" + (name + ("\"" + tail)) && NoQuote(name)
    ensures ", " <= tail ==> ParseNames(s) == match ParseNames(tail[2..])
                                              case Ok(q) => Ok(([name] + q.0, q.1))
                                              case Err(e) => Err(e)
    ensures !(", " <= tail) ==> ParseNames(s) == Ok(([name], tail))
  {
    ExpectLiteral("\"", name + ("\"" + tail));
    SplitAtField(name, "\"" + tail, '"');
    assert ("\"" + tail)[1..] == tail;
  }

  /** What follows the first name's closing quote in a written cast list. */
  function AfterFirst(cast: seq<string>, rest: string): string
    requires |cast| >= 1
  {
    if |cast| == 1 then rest else ", " + (CastList(cast[1..]) + rest)
  }

  lemma CastListHead(cast: seq<string>, rest: string)
    requires |cast| >= 1
    ensures CastList(cast) + rest == "\"" + (cast[0] + ("\"" + AfterFirst(cast, rest)))
  {
    if |cast| == 1 {
      Assoc4("\"", cast[0], "\"", rest);
    } else {
      Assoc4(Quoted(cast[0]), ", ", CastList(cast[1..]), rest);
      Assoc4("\"", cast[0], "\"", AfterFirst(cast, rest));
    }
  }

  lemma ParseNamesSingle(name: string, rest: string)
    requires NoQuote(name) && !(", " <= rest)
    ensures ParseNames(CastList([name]) + rest) == Ok(([name], rest))
  {
    CastListHead([name], rest);
    ParseNamesUnfold(CastList([name]) + rest, name, rest);
  }

  lemma ParseNamesStep(cast: seq<string>, rest: string)
    requires |cast| >= 2 && NoQuote(cast[0])
    requires ParseNames(CastList(cast[1..]) + rest) == Ok((cast[1..], rest))
    ensures ParseNames(CastList(cast) + rest) == Ok((cast, rest))
  {
    var tail := AfterFirst(cast, rest);
    CastListHead(cast, rest);
    ParseNamesUnfold(CastList(cast) + rest, cast[0], tail);
    assert tail[2..] == CastList(cast[1..]) + rest;
    assert [cast[0]] + cast[1..] == cast;
  }

  lemma {:induction false} ParseNamesCastList(cast: seq<string>, rest: string)
    requires |cast| >= 1 && forall i :: 0 <= i < |cast| ==> NoQuote(cast[i])
    requires !(", " <= rest)
    ensures ParseNames(CastList(cast) + rest) == Ok((cast, rest))
    decreases |cast|
  {
    if |cast| == 1 {
      ParseNamesSingle(cast[0], rest);
      assert [cast[0]] == cast;
    } else {
      ParseNamesCastList(cast[1..], rest);
      ParseNamesStep(cast, rest);
    }
  }

  /** Round trip: decoding the text form of an encodable record gives back its base fields. */
  lemma {:induction false} DecodeToString(m: Movie)
    requires Encodable(m)
    ensures Decode(ToString(m)) == Ok(Base(m))
  {
    var t5 := m.plotSummary + Close;
    var t4 := CastList(m.cast) + (PlotOpen + t5);
    var t3 := m.genre + (CastOpen + t4);
    var t2 := m.director + (GenreOpen + t3);
    var t1 := IntToString(m.year) + (DirectorOpen + t2);
    var t0 := m.title + (YearOpen + t1);
    ToStringNested(m);
    var line := ToString(m);
    ExpectLiteral(TitleOpen, t0);
    SplitAtField(m.title, YearOpen + t1, '"');
    ExpectLiteral(YearOpen, t1);
    ReadIntToString(m.year, DirectorOpen + t2);
    ExpectLiteral(DirectorOpen, t2);
    SplitAtField(m.director, GenreOpen + t3, '"');
    ExpectLiteral(GenreOpen, t3);
    SplitAtField(m.genre, CastOpen + t4, '"');
    ExpectLiteral(CastOpen, t4);
    if m.cast == [] {
      assert t4 == PlotOpen + t5;
      assert ParseCast(t4) == Ok(([], PlotOpen + t5));
    } else {
      ParseNamesCastList(m.cast, PlotOpen + t5);
      assert ParseCast(t4) == Ok((m.cast, PlotOpen + t5));
    }
    ExpectLiteral(PlotOpen, t5);
    SplitAtField(m.plotSummary, Close, '"');
    assert Need(Expect(TitleOpen, line), MalformedRecord) == Ok(t0);
    assert Need(SplitAt(t0, '"'), MalformedRecord) == Ok((m.title, YearOpen + t1));
    assert Need(Expect(YearOpen, YearOpen + t1), MalformedRecord) == Ok(t1);
    assert Need(ReadInt(t1), InvalidYear) == Ok((m.year, DirectorOpen + t2));
    assert Need(Expect(DirectorOpen, DirectorOpen + t2), MalformedRecord) == Ok(t2);
    assert Need(SplitAt(t2, '"'), MalformedRecord) == Ok((m.director, GenreOpen + t3));
    assert Need(Expect(GenreOpen, GenreOpen + t3), MalformedRecord) == Ok(t3);
    assert Need(SplitAt(t3, '"'), MalformedRecord) == Ok((m.genre, CastOpen + t4));
    assert Need(Expect(CastOpen, CastOpen + t4), MalformedRecord) == Ok(t4);
    assert Need(Expect(PlotOpen, PlotOpen + t5), MalformedRecord) == Ok(t5);
    assert Need(SplitAt(t5, '"'), MalformedRecord) == Ok((m.plotSummary, Close));
  }

  /** Decoding accepts exactly the text forms of encodable, unannotated records. */
  lemma DecodeIff(line: string, m: Movie)
    ensures Decode(line) == Ok(m) <==> line == ToString(m) && Encodable(m) && Unannotated(m)
  {
    if line == ToString(m) && Encodable(m) && Unannotated(m) {
      DecodeToString(m);
      assert Base(m) == m;
    }
  }

  /** A year field that does not start with a digit or '-' is reported as InvalidYear. */
  lemma DecodeRejectsNonNumericYear(title: string, rest: string)
    requires NoQuote(title)
    requires rest == [] || (!IsDigit(rest[0]) && rest[0] != '-')
    ensures Decode(TitleOpen + title + YearOpen + rest) == Err(InvalidYear)
  {
    ExpectLiteral(TitleOpen, title + YearOpen + rest);
    assert TitleOpen + title + YearOpen + rest == TitleOpen + (title + (YearOpen + rest));
    SplitAtField(title, YearOpen + rest, '"');
    ExpectLiteral(YearOpen, rest);
    assert DigitSpan(rest) == 0;
    assert ReadInt(rest) == None;
  }
}
