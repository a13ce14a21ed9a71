/**
 * `Movie::fromString` as the source writes it: a cursor over an input
 * string stream that skips punctuation by fixed character counts and reads
 * fields with `getline` and `>>`. The stream keeps the two state bits the
 * code depends on: end-of-file and failure. Once either is set, every
 * further extraction fails and leaves its target untouched.
 */
module LegacyCodec {
  import opened Wrappers
  import opened Text
  import opened Movies

  /** An input string stream: its text, the read position, eofbit and failbit. */
  datatype Stream = Stream(text: string, pos: nat, eof: bool, fail: bool)

  predicate Good(s: Stream) {
    !s.eof && !s.fail
  }

  predicate Valid(s: Stream) {
    s.pos <= |s.text|
  }

  function Open(text: string): (s: Stream)
    ensures Valid(s) && Good(s) && s.pos == 0
  {
    Stream(text, 0, false, false)
  }

  /** `ignore(n)`: extracts up to n characters; running out of text sets eofbit. */
  function Ignore(s: Stream, n: nat): (r: Stream)
    requires Valid(s)
    ensures Valid(r) && r.text == s.text && r.pos >= s.pos
    ensures Good(s) && s.pos + n <= |s.text| ==> r == s.(pos := s.pos + n)
    ensures Good(s) && s.pos + n > |s.text| ==> r == s.(pos := |s.text|, eof := true)
    ensures !Good(s) ==> r == s.(fail := true)
  {
    if !Good(s) then s.(fail := true)
    else if s.pos + n <= |s.text| then s.(pos := s.pos + n)
    else s.(pos := |s.text|, eof := true)
  }

  /** The first index at or after `from` holding `c`, or `|text|` when there is none. */
  function FindFrom(text: string, from: nat, c: char): (i: nat)
    requires from <= |text|
    ensures from <= i <= |text|
    ensures i < |text| ==> text[i] == c
    ensures forall k :: from <= k < i ==> text[k] != c
    decreases |text| - from
  {
    if from == |text| || text[from] == c then from else FindFrom(text, from + 1, c)
  }

  lemma {:induction false} FindFromAt(text: string, from: nat, at: nat, c: char)
    requires from <= at < |text| && text[at] == c
    requires forall k :: from <= k < at ==> text[k] != c
    ensures FindFrom(text, from, c) == at
    decreases at - from
  {
    if from < at {
      FindFromAt(text, from + 1, at, c);
    }
  }

  /**
   * `getline(stream, str, delim)`: reads up to `delim`, which is consumed and
   * not stored. Reaching the end sets eofbit; extracting nothing at all sets
   * failbit. On a stream that is not good it only sets failbit and leaves
   * `str` as it was, which the result reports as None.
   */
  function GetLine(s: Stream, delim: char): (r: (Stream, Option<string>))
    requires Valid(s)
    ensures Valid(r.0) && r.0.text == s.text && r.0.pos >= s.pos
    ensures !r.0.fail ==> r.0.pos > s.pos && r.1.Some?
    ensures !Good(s) ==> r.0 == s.(fail := true) && r.1 == None
    ensures Good(s) && delim in s.text[s.pos..] ==>
              && r.0 == s.(pos := r.0.pos)
              && r.1.Some? && delim !in r.1.value
              && s.text[s.pos..r.0.pos] == r.1.value + [delim]
    ensures Good(s) && delim !in s.text[s.pos..] ==>
              && r.0 == s.(pos := |s.text|, eof := true, fail := s.pos == |s.text|)
              && r.1 == Some(s.text[s.pos..])
  {
    if !Good(s) then (s.(fail := true), None)
    else
      var i := FindFrom(s.text, s.pos, delim);
      if i < |s.text| then
        assert s.text[s.pos..i + 1] == s.text[s.pos..i] + [delim];
        assert delim !in s.text[s.pos..i] by {
          forall k | 0 <= k < i - s.pos
            ensures s.text[s.pos..i][k] != delim
          {
            assert s.text[s.pos..i][k] == s.text[s.pos + k];
          }
        }
        (s.(pos := i + 1), Some(s.text[s.pos..i]))
      else
        assert delim !in s.text[s.pos..] by {
          forall k | 0 <= k < |s.text| - s.pos
            ensures s.text[s.pos..][k] != delim
          {
            assert s.text[s.pos..][k] == s.text[s.pos + k];
          }
        }
        (s.(pos := |s.text|, eof := true, fail := s.pos == |s.text|), Some(s.text[s.pos..]))
  }

  /** `peek()`: the next character without extracting it, None for end of file. */
  function Peek(s: Stream): (r: (Stream, Option<char>))
    requires Valid(s)
    ensures Valid(r.0) && r.0.text == s.text && r.0.pos == s.pos
  {
    if !Good(s) then (s.(fail := true), None)
    else if s.pos == |s.text| then (s.(eof := true), None)
    else (s, Some(s.text[s.pos]))
  }

  predicate IsSpace(c: char) {
    c == ' ' || c == '\t' || c == '\n' || c == '\r' || c == '\U{B}' || c == '\U{C}'
  }

  function SkipSpace(text: string, from: nat): (i: nat)
    requires from <= |text|
    ensures from <= i <= |text|
    ensures i < |text| ==> !IsSpace(text[i])
    decreases |text| - from
  {
    if from == |text| || !IsSpace(text[from]) then from else SkipSpace(text, from + 1)
  }

  /**
   * `stream >> n` for an `int`: skips white space, reads an optional sign and
   * the digits after it. With no digits it stores 0 and sets failbit; on a
   * stream that is not good, or one that ends inside the white space, it
   * stores nothing (None). The value is not bounded to 32 bits here.
   */
  function ExtractInt(s: Stream): (r: (Stream, Option<int>))
    requires Valid(s)
    ensures Valid(r.0) && r.0.text == s.text && r.0.pos >= s.pos
  {
    if !Good(s) then (s.(fail := true), None)
    else
      var p := SkipSpace(s.text, s.pos);
      if p == |s.text| then (s.(pos := p, eof := true, fail := true), None)
      else
        var signed := s.text[p] == '-' || s.text[p] == '+';
        var start := if signed then p + 1 else p;
        var n := DigitSpan(s.text[start..]);
        var end := start + n;
        var atEnd := end == |s.text|;
        if n == 0 then (s.(pos := end, eof := atEnd, fail := true), Some(0))
        else
          assert s.text[start..end] == s.text[start..][..n];
          var v := DigitsValue(s.text[start..end]);
          (s.(pos := end, eof := atEnd), Some(if s.text[p] == '-' then 0 - v else v))
  }

  /**
   * `actor.substr(1, actor.size() - 2)`: the unsigned count wraps around when
   * the string is shorter than 2; an empty string makes `substr` throw
   * `std::out_of_range` (None).
   */
  function StripQuotes(a: string): (r: Option<string>)
    ensures r.None? <==> a == []
    ensures |a| >= 2 ==> r == Some(a[1..|a| - 1])
  {
    if a == [] then None
    else if |a| >= 2 then Some(a[1..|a| - 1])
    else Some(a[1..])
  }

  /**
   * The cast loop: `getline` up to ',', strip one character at each end,
   * keep it, stop if `]` comes next, else skip two characters. None when
   * `substr` throws.
   */
  function CastLoop(s: Stream, cast: seq<string>): (r: Option<(Stream, seq<string>)>)
    requires Valid(s)
    ensures r.Some? ==> Valid(r.value.0) && r.value.0.text == s.text
    ensures r.Some? ==> cast <= r.value.1
    decreases |s.text| - s.pos
  {
    var (s1, a) := GetLine(s, ',');
    if s1.fail then Some((s1, cast))
    else
      match StripQuotes(a.value)
      case None => None
      case Some(actor) =>
        var (s2, next) := Peek(s1);
        if next == Some(']') then Some((s2, cast + [actor]))
        else
          var r := CastLoop(Ignore(s2, 2), cast + [actor]);
          r
  }

  /** What becomes of the `Movie::fromString` call: a record, or an escaping `std::out_of_range`. */
  datatype Outcome = Returned(movie: Movie) | OutOfRange

  // The skip counts the source uses, in order.
  const SkipTitle: nat := 9
  const SkipYear: nat := 10
  const SkipDirector: nat := 12
  const SkipGenre: nat := 10
  const SkipCast: nat := 9
  const SkipPlot: nat := 16

  /**
   * Only the year skip matches the literal left after the previous read;
   * each of the others is short by two or three characters.
   */
  lemma SkipCountsVersusLiterals()
    ensures SkipTitle == |TitleOpen| - 2
    ensures SkipYear == |YearOpen| - 1
    ensures SkipDirector == |DirectorOpen| - 3
    ensures SkipGenre == |GenreOpen| - 1 - 2
    ensures SkipCast == |CastOpen| - 1 - 2
    ensures SkipPlot == |PlotOpen| - 3
  {
  }

  /**
   * `Movie::fromString` as written. `indeterminate` is whatever the
   * uninitialised `int year` holds when `>>` stores nothing.
   */
  function FromString(line: string, indeterminate: int): Outcome {
    var s1 := Ignore(Open(line), SkipTitle);
    var (s2, title) := GetLine(s1, '"');
    var s3 := Ignore(s2, SkipYear);
    var (s4, year) := ExtractInt(s3);
    var s5 := Ignore(s4, SkipDirector);
    var (s6, director) := GetLine(s5, '"');
    var s7 := Ignore(s6, SkipGenre);
    var (s8, genre) := GetLine(s7, '"');
    var s9 := Ignore(s8, SkipCast);
    match CastLoop(s9, [])
    case None => OutOfRange
    case Some(c) =>
      var s11 := Ignore(c.0, SkipPlot);
      var (s12, plot) := GetLine(s11, '"');
      Returned(NewMovie(title.GetOr(""), year.GetOr(indeterminate), director.GetOr(""),
                        genre.GetOr(""), c.1, plot.GetOr("")))
  }

  /**
   * Finding: after skipping 9 characters of `{"title": "` the cursor sits on
   * the space before the opening quote, so every record is read back with
   * the title " ", whatever its real title.
   */
  lemma SourceSkipsBlankTitle(m: Movie, indeterminate: int)
    ensures FromString(ToString(m), indeterminate).Returned? ==>
              FromString(ToString(m), indeterminate).movie.title == " "
    ensures m.title != " " ==> FromString(ToString(m), indeterminate) != Returned(Base(m))
  {
    var line := ToString(m);
    ToStringNested(m);
    assert line[..11] == TitleOpen;
    assert line[9] == ' ' && line[10] == '"';
    var s1 := Ignore(Open(line), SkipTitle);
    assert s1 == Stream(line, 9, false, false);
    FindFromAt(line, 9, 10, '"');
    assert GetLine(s1, '"').1 == Some(line[9..10]);
    assert line[9..10] == " ";
  }

  /**
   * Finding: even with the cursor placed right after `[`, the loop reads the
   * last (here, only) name up to the next comma, which lies inside the
   * `], "plotSummary": "` that follows; stripping one character from each
   * end of `"B"]` keeps a trailing quote.
   */
  lemma CastLoopSplitsLastActor(s: Stream, name: string, rest: string)
    requires Valid(s) && Good(s)
    requires s.text[s.pos..] == Quoted(name) + PlotOpen + rest
    requires ',' !in name
    ensures CastLoop(s, []).Some? ==>
              |CastLoop(s, []).value.1| >= 1 && CastLoop(s, []).value.1[0] == name + "\""
    ensures CastLoop(s, []).Some? ==> CastLoop(s, []).value.1 != [name]
  {
    var at := s.pos + |name| + 3;
    var tail := s.text[s.pos..];
    assert tail == "\"" + name + "\"" + PlotOpen + rest;
    assert tail[..|name| + 3] == "\"" + name + "\"]";
    assert s.text[s.pos..at] == tail[..|name| + 3];
    assert s.text[at] == tail[|name| + 3];
    CastLoopFirstName(s, name);
  }

  /** The first `getline` up to ',' takes the name, its quotes and the `]` after them. */
  lemma CastLoopFirstName(s: Stream, name: string)
    requires Valid(s) && Good(s)
    requires s.pos + |name| + 3 < |s.text|
    requires s.text[s.pos..s.pos + |name| + 3] == "\"" + name + "\"]"
    requires s.text[s.pos + |name| + 3] == ','
    requires ',' !in name
    ensures CastLoop(s, []).Some? ==>
              |CastLoop(s, []).value.1| >= 1 && CastLoop(s, []).value.1[0] == name + "\""
    ensures CastLoop(s, []).Some? ==> CastLoop(s, []).value.1 != [name]
  {
    var raw := "\"" + name + "\"]";
    assert ',' !in raw;
    GetLineAt(s, ',', raw);
    assert raw == ['"'] + (name + "\"") + [']'];
    StripEnds('"', name + "\"", ']');
    CastLoopKeepsFirst(s, [], raw, name + "\"");
    assert |name + "\""| != |name|;
  }

  /**
   * Finding: `getline` has already consumed the ',' when `ignore(2)` runs, so
   * the skip takes the space and the next opening quote, and every name after
   * the first is read without its first character (and, as above, with a
   * trailing quote).
   */
  lemma CastLoopDropsFirstLetter(s: Stream, a: string, b: string, rest: string)
    requires Valid(s) && Good(s)
    requires s.text[s.pos..] == Quoted(a) + ", " + Quoted(b) + PlotOpen + rest
    requires ',' !in a && ',' !in b && b != ""
    ensures CastLoop(s, []).Some? ==>
              && |CastLoop(s, []).value.1| >= 2
              && CastLoop(s, []).value.1[0] == a
              && CastLoop(s, []).value.1[1] == b[1..] + "\""
    ensures CastLoop(s, []).Some? && '"' !in b ==> CastLoop(s, []).value.1[..2] != [a, b]
  {
    StreamLayout(s, a, b, rest);
    CastLoopSkipFirst(s, a);
    var s3 := s.(pos := s.pos + |a| + 5);
    CastLoopLaterName(s3, [a], b);
    var r := CastLoop(s3, [a]);
    assert CastLoop(s, []) == r;
    if r.Some? {
      assert [a] <= r.value.1;
      if '"' !in b {
        var second := b[1..] + "\"";
        assert second[|second| - 1] == '"';
        assert r.value.1[..2][1] == second != b;
      }
    }
  }

  /** `TwoNamesLayout` read off the stream's text from the cursor on. */
  lemma StreamLayout(s: Stream, a: string, b: string, rest: string)
    requires Valid(s)
    requires s.text[s.pos..] == Quoted(a) + ", " + Quoted(b) + PlotOpen + rest
    requires ',' !in a && ',' !in b
    ensures FirstNameAt(s, a)
    ensures LaterNameAt(s.(pos := s.pos + |a| + 5), b)
  {
    var p := s.pos;
    var t := s.text[p..];
    TwoNamesLayout(a, b, rest);
    assert s.text[p..p + |a| + 2] == t[..|a| + 2];
    assert s.text[p + |a| + 2] == t[|a| + 2] && s.text[p + |a| + 3] == t[|a| + 3];
    assert s.text[p + |a| + 5..p + |a| + |b| + 7] == t[|a| + 5..|a| + |b| + 7];
    assert s.text[p + |a| + |b| + 7] == t[|a| + |b| + 7];
    var s3 := s.(pos := p + |a| + 5);
    assert s3.text[s3.pos..s3.pos + |b| + 2] == b + "\"]";
  }

  /** Where the pieces of a two-name cast list and the plot literal after it lie. */
  lemma TwoNamesLayout(a: string, b: string, rest: string)
    ensures var t := Quoted(a) + ", " + Quoted(b) + PlotOpen + rest;
      && |t| > |a| + |b| + 7
      && t[..|a| + 2] == Quoted(a)
      && t[|a| + 2] == ',' && t[|a| + 3] == ' '
      && t[|a| + 5..|a| + |b| + 7] == b + "\"]"
      && t[|a| + |b| + 7] == ','
  {
    var t := Quoted(a) + ", " + Quoted(b) + PlotOpen + rest;
    var u := Quoted(a) + ", \"";
    assert t == u + (b + "\"]") + (", \"plotSummary\": \"" + rest);
    assert |u| == |a| + 5;
    assert t[..|a| + 2] == u[..|a| + 2];
  }

  /** The cursor is on a quoted name `a`, then ", " and another name. */
  predicate FirstNameAt(s: Stream, a: string) {
    && s.pos + |a| + 5 <= |s.text|
    && s.text[s.pos..s.pos + |a| + 2] == Quoted(a) && ',' !in a
    && s.text[s.pos + |a| + 2] == ',' && s.text[s.pos + |a| + 3] == ' '
  }

  /** The cursor is on `b` followed by `"]` and a ','. */
  predicate LaterNameAt(s: Stream, b: string) {
    && s.pos + |b| + 2 < |s.text|
    && s.text[s.pos..s.pos + |b| + 2] == b + "\"]" && ',' !in b
    && s.text[s.pos + |b| + 2] == ','
  }

  /** The first name is kept whole; the cursor ends on the next name's first character. */
  lemma CastLoopSkipFirst(s: Stream, a: string)
    requires Valid(s) && Good(s) && FirstNameAt(s, a)
    ensures CastLoop(s, []) == CastLoop(s.(pos := s.pos + |a| + 5), [a])
  {
    var first := Quoted(a);
    var s1 := s.(pos := s.pos + |first| + 1);
    assert GetLine(s, ',') == (s1, Some(first)) by {
      assert ',' !in first;
      GetLineAt(s, ',', first);
    }
    assert StripQuotes(first) == Some(a) by {
      assert first == ['"'] + a + ['"'];
      StripEnds('"', a, '"');
    }
    assert Ignore(s1, 2) == s.(pos := s.pos + |a| + 5);
    CastLoopNext(s, [], s1, first, a);
    assert [] + [a] == [a];
  }

  /** A name read after the skip of two is kept without its first character. */
  lemma CastLoopLaterName(s: Stream, cast: seq<string>, b: string)
    requires Valid(s) && Good(s) && b != "" && LaterNameAt(s, b)
    ensures CastLoop(s, cast).Some? ==>
              |CastLoop(s, cast).value.1| > |cast| && CastLoop(s, cast).value.1[|cast|] == b[1..] + "\""
  {
    var raw := b + "\"]";
    assert ',' !in raw;
    GetLineAt(s, ',', raw);
    StripLaterName(b);
    CastLoopKeepsFirst(s, cast, raw, b[1..] + "\"");
  }

  /** `getline` reads `raw`, which stops right before a `delim`, and consumes that `delim`. */
  lemma GetLineAt(s: Stream, delim: char, raw: string)
    requires Valid(s) && Good(s)
    requires s.pos + |raw| < |s.text| && s.text[s.pos..s.pos + |raw|] == raw
    requires s.text[s.pos + |raw|] == delim && delim !in raw
    ensures GetLine(s, delim) == (s.(pos := s.pos + |raw| + 1), Some(raw))
  {
    forall k | s.pos <= k < s.pos + |raw|
      ensures s.text[k] != delim
    {
      assert s.text[k] == raw[k - s.pos];
    }
    FindFromAt(s.text, s.pos, s.pos + |raw|, delim);
  }

  /** `substr(1, size-2)` drops exactly the first and the last character. */
  lemma StripEnds(first: char, mid: string, last: char)
    ensures StripQuotes([first] + mid + [last]) == Some(mid)
  {
    var t := [first] + mid + [last];
    assert t[1..|t| - 1] == mid;
  }

  /** A later name is read as `name"]`, so stripping leaves it without its first character. */
  lemma StripLaterName(b: string)
    requires b != ""
    ensures StripQuotes(b + "\"]") == Some(b[1..] + "\"")
  {
    var t := b + "\"]";
    var mid := t[1..|t| - 1];
    forall k | 0 <= k < |mid|
      ensures mid[k] == (b[1..] + "\"")[k]
    {
      assert mid[k] == t[k + 1];
    }
    assert mid == b[1..] + "\"";
  }

  /** When the name read is not followed by `]`, the loop skips two characters and reads on. */
  lemma CastLoopNext(s: Stream, cast: seq<string>, s1: Stream, raw: string, actor: string)
    requires Valid(s)
    requires GetLine(s, ',') == (s1, Some(raw)) && Valid(s1) && Good(s1)
    requires StripQuotes(raw) == Some(actor)
    requires s1.pos < |s1.text| && s1.text[s1.pos] != ']'
    ensures CastLoop(s, cast) == CastLoop(Ignore(s1, 2), cast + [actor])
  {
  }

  /** A name the first `getline` reads and strips is the first one kept. */
  lemma CastLoopKeepsFirst(s: Stream, cast: seq<string>, raw: string, actor: string)
    requires Valid(s)
    requires !GetLine(s, ',').0.fail && GetLine(s, ',').1 == Some(raw)
    requires StripQuotes(raw) == Some(actor)
    ensures CastLoop(s, cast).Some? ==>
              |CastLoop(s, cast).value.1| > |cast| && CastLoop(s, cast).value.1[|cast|] == actor
  {
  }
}
