/** Adding series to track (src/add.rs): the "Title (YYYY)" line format of
    the bulk-add file, which lines of that file are read, which search hit
    is chosen for a title, and the short-circuit for a series that is
    already tracked. Searching, fetching and inserting are collaborators. */
module Add {
  import opened Wrappers
  import opened Errors
  import opened Text
  import opened OptionalDates
  import opened TmdbSeries
  import opened Store

  // ---------------------------------------------------------------------------
  // One line of the bulk-add file

  /** The year suffix `parse_line` looks for: after the last space of the
      line, a parenthesised text that parses as an i32. The result is the
      index of that space and the year. */
  function YearSuffix(t: string): (r: Option<(nat, int)>)
    ensures r.Some? ==> r.value.0 < |t| && t[r.value.0] == ' '
    ensures r.Some? ==> I32Min <= r.value.1 <= I32Max
    ensures ' ' !in t ==> r.None?
    // the space is the last one, and everything after it is '(' + an i32 + ')'
    ensures r.Some? ==>
      var (i, year) := r.value;
      && (forall k :: i < k < |t| ==> t[k] != ' ')
      && i + 3 <= |t| && t[i + 1] == '(' && t[|t| - 1] == ')'
      && ParseI32(t[i + 2..|t| - 1]) == Some(year)
  {
    match LastIndexOf(t, ' ')
    case None => None
    case Some(i) =>
      var maybeYear := t[i + 1..];
      if !(|maybeYear| > 0 && maybeYear[0] == '(') || !(|maybeYear| > 0 && maybeYear[|maybeYear| - 1] == ')') then
        None
      else
        match ParseI32(maybeYear[1..|maybeYear| - 1])
        case Some(year) =>
          assert maybeYear[1..|maybeYear| - 1] == t[i + 2..|t| - 1];
          Some((i, year))
        case None => None
  }

  /** `parse_line`: a title, optionally followed by a space and a year in
      parentheses. Anything that does not fit that shape is all title. */
  function ParseLine(line: string): (r: (string, Option<int>))
    ensures r.1.None? ==> r.0 == Trim(line)
    ensures ' ' !in Trim(line) ==> r == (Trim(line), None)
    ensures r.1.Some? ==> I32Min <= r.1.value <= I32Max
  {
    var trimmed := Trim(line);
    match YearSuffix(trimmed)
    case None => (trimmed, None)
    case Some((i, year)) => (TrimEnd(trimmed[..i]), Some(year))
  }

  /** A trimmed string starts and ends with a non-whitespace character. */
  lemma TrimmedEnds(s: string)
    ensures var t := Trim(s); t == [] || (!IsWhitespace(t[0]) && !IsWhitespace(t[|t| - 1]))
  {
    var u := TrimStart(s);
    if u != [] {
      TrimEndKeepsFirst(u);
    }
  }

  /** A year is only ever read from a last token of the form "(" + i32 + ")"
      that follows the title and some whitespace: a line of any other shape
      is all title. */
  lemma ParsedYearComesFromSuffix(line: string)
    ensures var r := ParseLine(line);
      r.1.Some? ==> exists w, token ::
        && Trim(line) == r.0 + w + " (" + token + ")"
        && (forall c | c in w :: IsWhitespace(c))
        && ' ' !in token
        && ParseI32(token) == Some(r.1.value)
  {
    var t := Trim(line);
    match YearSuffix(t)
    case None =>
    case Some((i, year)) =>
      assert ParseLine(line) == (TrimEnd(t[..i]), Some(year));
      SuffixForm(t, i, year);
  }

  /** What `YearSuffix` accepts: a title, whitespace, " (", an i32 with no
      space in it, and ")". */
  lemma SuffixForm(t: string, i: nat, year: int)
    requires YearSuffix(t) == Some((i, year))
    ensures exists w, token ::
      && t == TrimEnd(t[..i]) + w + " (" + token + ")"
      && (forall c | c in w :: IsWhitespace(c))
      && ' ' !in token
      && ParseI32(token) == Some(year)
  {
    var title := TrimEnd(t[..i]);
    var w := t[|title|..i];
    var token := t[i + 2..|t| - 1];
    SplitAtSuffix(t, i, title, w, token);
    WhitespaceGap(t[..i], title, w);
    NoSpaceInToken(t, i, token);
    FormWitness(t, title, w, token, year);
  }

  lemma FormWitness(t: string, title: string, w: string, token: string, year: int)
    requires t == title + w + " (" + token + ")"
    requires forall c | c in w :: IsWhitespace(c)
    requires ' ' !in token && ParseI32(token) == Some(year)
    ensures exists w', token' ::
      && t == title + w' + " (" + token' + ")"
      && (forall c | c in w' :: IsWhitespace(c))
      && ' ' !in token'
      && ParseI32(token') == Some(year)
  {
  }

  lemma SplitAtSuffix(t: string, i: nat, title: string, w: string, token: string)
    requires i + 3 <= |t| && t[i] == ' ' && t[i + 1] == '(' && t[|t| - 1] == ')'
    requires |title| <= i && title == t[..|title|]
    requires w == t[|title|..i] && token == t[i + 2..|t| - 1]
    ensures t == title + w + " (" + token + ")"
  {
    assert t[..i] == title + w;
    assert t[i..] == " (" + token + ")";
    assert t == t[..i] + t[i..];
  }

  lemma WhitespaceGap(s: string, title: string, w: string)
    requires title == TrimEnd(s) && w == s[|title|..]
    ensures forall c | c in w :: IsWhitespace(c)
  {
    forall c | c in w ensures IsWhitespace(c) {
      var k :| 0 <= k < |w| && w[k] == c;
      assert w[k] == s[|title| + k];
    }
  }

  lemma NoSpaceInToken(t: string, i: nat, token: string)
    requires i + 3 <= |t| && forall k :: i < k < |t| ==> t[k] != ' '
    requires token == t[i + 2..|t| - 1]
    ensures ' ' !in token
  {
    forall k | 0 <= k < |token| ensures token[k] != ' ' {
      assert token[k] == t[i + 2 + k];
    }
  }

  /** Conversely, a trimmed line ending in a space, '(', an i32 and ')'
      yields that year and the text before the space, trimmed at its end. */
  lemma ParenthesisedLastTokenIsYear(line: string, title: string, token: string, year: int)
    requires Trim(line) == title + " (" + token + ")"
    requires ' ' !in token && ParseI32(token) == Some(year)
    ensures ParseLine(line) == (TrimEnd(title), Some(year))
  {
    var t := Trim(line);
    TokenSuffix(t, title, token, year);
    assert t[..|title|] == title;
  }

  lemma TokenSuffix(t: string, title: string, token: string, year: int)
    requires t == title + " (" + token + ")"
    requires ' ' !in token && ParseI32(token) == Some(year)
    ensures YearSuffix(t) == Some((|title|, year))
  {
    var i := |title|;
    TokenShape(t, title, token);
    SuffixAfterLastSpace(t, i, year);
  }

  lemma TokenShape(t: string, title: string, token: string)
    requires t == title + " (" + token + ")" && ' ' !in token
    ensures var i := |title|;
      && i + 3 <= |t| && t[i] == ' ' && t[i + 1] == '(' && t[|t| - 1] == ')'
      && t[i + 2..|t| - 1] == token
      && forall k :: i < k < |t| ==> t[k] != ' '
  {
    var i := |title|;
    assert t[i + 2..|t| - 1] == token;
    forall k | i < k < |t| ensures t[k] != ' ' {
      if i + 2 <= k < |t| - 1 {
        assert t[k] == token[k - i - 2];
      }
    }
  }

  /** `YearSuffix` reads the year after a space that no later space follows. */
  lemma SuffixAfterLastSpace(t: string, i: nat, year: int)
    requires i < |t| && t[i] == ' ' && forall k :: i < k < |t| ==> t[k] != ' '
    requires i + 3 <= |t| && t[i + 1] == '(' && t[|t| - 1] == ')'
    requires ParseI32(t[i + 2..|t| - 1]) == Some(year)
    ensures YearSuffix(t) == Some((i, year))
  {
    var m := t[i + 1..];
    assert m[1..|m| - 1] == t[i + 2..|t| - 1];
    YearSuffixAt(t, i, year);
  }

  /** The title `parse_line` yields is trimmed, and when a year was split off
      the title is a non-empty proper prefix of the trimmed line. */
  lemma ParsedTitleIsTrimmed(line: string)
    ensures var r := ParseLine(line);
      r.0 == [] || (!IsWhitespace(r.0[0]) && !IsWhitespace(r.0[|r.0| - 1]))
    ensures var r := ParseLine(line);
      r.1.Some? ==> r.0 != [] && |r.0| < |Trim(line)| && Trim(line)[..|r.0|] == r.0
  {
    var trimmed := Trim(line);
    TrimmedEnds(line);
    match YearSuffix(trimmed)
    case None =>
    case Some((i, year)) =>
      assert i != 0;
      var title := trimmed[..i];
      TrimEndKeepsFirst(title);
  }

  /** A line written as title, space, year in parentheses reads back as that
      title and year. */
  lemma ParseLineOfTitleAndYear(title: string, year: int)
    requires title != [] && !IsWhitespace(title[0]) && !IsWhitespace(title[|title| - 1])
    requires I32Min <= year <= I32Max
    ensures ParseLine(title + " (" + IntToString(year) + ")") == (title, Some(year))
  {
    var line := title + " (" + IntToString(year) + ")";
    TrimOfTitleAndYear(title, year);
    YearSuffixOfTitleAndYear(title, year);
    assert line[..|title|] == title;
    TrimEndOfTrimmed(title);
  }

  lemma TrimOfTitleAndYear(title: string, year: int)
    requires title != [] && !IsWhitespace(title[0])
    ensures var line := title + " (" + IntToString(year) + ")"; Trim(line) == line
  {
    var line := title + " (" + IntToString(year) + ")";
    assert line[0] == title[0];
    TrimStartOfTrimmed(line);
    TrimEndOfTrimmed(line);
  }

  lemma YearSuffixOfTitleAndYear(title: string, year: int)
    requires I32Min <= year <= I32Max
    ensures YearSuffix(title + " (" + IntToString(year) + ")") == Some((|title|, year))
  {
    var digits := IntToString(year);
    var line := title + " (" + digits + ")";
    LastSpaceBeforeYear(title, digits, year);
    assert line[|title| + 1..] == "(" + digits + ")";
    ParenthesisedYear(digits, year);
    YearSuffixAt(line, |title|, year);
  }

  /** The year suffix is read from what follows the last space. */
  lemma YearSuffixAt(t: string, i: nat, year: int)
    requires LastIndexOf(t, ' ') == Some(i)
    requires var m := t[i + 1..]; |m| >= 2 && m[0] == '(' && m[|m| - 1] == ')' && ParseI32(m[1..|m| - 1]) == Some(year)
    ensures YearSuffix(t) == Some((i, year))
  {
  }

  lemma ParenthesisedYear(digits: string, year: int)
    requires digits == IntToString(year) && I32Min <= year <= I32Max
    ensures var m := "(" + digits + ")";
      |m| >= 2 && m[0] == '(' && m[|m| - 1] == ')' && ParseI32(m[1..|m| - 1]) == Some(year)
  {
    var m := "(" + digits + ")";
    assert m[1..|m| - 1] == digits;
    ParseI32OfToString(year);
  }

  lemma LastSpaceBeforeYear(title: string, digits: string, year: int)
    requires digits == IntToString(year)
    ensures LastIndexOf(title + " (" + digits + ")", ' ') == Some(|title|)
  {
    var tail := "(" + digits + ")";
    var line := title + " " + tail;
    assert line == title + " (" + digits + ")";
    IntToStringChars(year);
    forall k | |title| < k < |line| ensures line[k] != ' ' {
      assert line[k] == tail[k - |title| - 1];
    }
    assert line[|title|] == ' ';
  }

  // ---------------------------------------------------------------------------
  // The bulk-add file

  /** Lines the bulk add passes over: empty ones and those whose very first
      character is '#'. A '#' after leading spaces does not make a comment. */
  predicate IsSkipped(line: string) {
    line == [] || line[0] == '#'
  }

  /** The (title, year) requests of the given lines, in order. */
  function Requests(lines: seq<string>): (r: seq<(string, Option<int>)>)
    ensures |r| <= |lines|
    ensures lines != [] && !IsSkipped(lines[0]) ==> r != [] && r[0] == ParseLine(lines[0])
  {
    if |lines| == 0 then []
    else
      var rest := Requests(lines[1..]);
      if IsSkipped(lines[0]) then rest else [ParseLine(lines[0])] + rest
  }

  /** Every line that is neither empty nor a comment yields its request. */
  lemma {:induction false} KeptLinesAreRequested(lines: seq<string>, j: int)
    requires 0 <= j < |lines| && !IsSkipped(lines[j])
    ensures ParseLine(lines[j]) in Requests(lines)
  {
    if j > 0 {
      KeptLinesAreRequested(lines[1..], j - 1);
      assert lines[1..][j - 1] == lines[j];
    }
  }

  /** Every request comes from a line that is not skipped. */
  lemma {:induction false} RequestsComeFromKeptLines(lines: seq<string>, x: (string, Option<int>))
    requires x in Requests(lines)
    ensures exists j :: 0 <= j < |lines| && !IsSkipped(lines[j]) && x == ParseLine(lines[j])
  {
    if !IsSkipped(lines[0]) && x == ParseLine(lines[0]) {
      assert !IsSkipped(lines[0]);
    } else {
      RequestsComeFromKeptLines(lines[1..], x);
      var j :| 0 <= j < |lines[1..]| && !IsSkipped(lines[1..][j]) && x == ParseLine(lines[1..][j]);
      assert lines[1..][j] == lines[j + 1];
    }
  }

  /** The requests of a bulk-add file's text. */
  function FileRequests(text: string): seq<(string, Option<int>)> {
    Requests(Lines(text))
  }

  /** Comment and blank lines contribute nothing: a file of only those asks
      for nothing. */
  lemma {:induction false} OnlySkippedLinesRequestNothing(lines: seq<string>)
    requires forall j :: 0 <= j < |lines| ==> IsSkipped(lines[j])
    ensures Requests(lines) == []
  {
    if |lines| > 0 {
      OnlySkippedLinesRequestNothing(lines[1..]);
    }
  }

  /** `add_all_series`: add every request in turn; the first failure ends the
      run. The result is the outcome and how many requests were attempted. */
  function AddAll(requests: seq<(string, Option<int>)>, add: (string, Option<int>) -> Result<bool, Error>)
    : (r: (Outcome<Error>, nat))
    ensures r.1 <= |requests|
    ensures forall i :: 0 <= i < r.1 - (if r.0.Fail? then 1 else 0) ==> add(requests[i].0, requests[i].1).Ok?
    ensures r.0.Pass? <==> r.1 == |requests| && forall i :: 0 <= i < |requests| ==> add(requests[i].0, requests[i].1).Ok?
    ensures r.0.Fail? ==> r.1 >= 1 && add(requests[r.1 - 1].0, requests[r.1 - 1].1) == Err(r.0.error)
  {
    if |requests| == 0 then (Pass, 0)
    else match add(requests[0].0, requests[0].1)
      case Err(e) => (Fail(e), 1)
      case Ok(_) =>
        var (o, n) := AddAll(requests[1..], add);
        assert forall i :: 1 <= i <= |requests[1..]| ==> requests[1..][i - 1] == requests[i];
        (o, n + 1)
  }

  // ---------------------------------------------------------------------------
  // Choosing a search hit

  /** A search hit (`SeriesFound`); its popularity score is not modelled. */
  datatype SeriesFound = SeriesFound(id: int, name: string, overview: string, firstAirDate: OptionalDate)

  /** `candidates.retain(|sr| sr.name == title)`. */
  function ExactMatches(title: string, cs: seq<SeriesFound>): (r: seq<SeriesFound>)
    ensures forall c :: c in r <==> c in cs && c.name == title
  {
    if |cs| == 0 then []
    else
      var last := cs[|cs| - 1];
      assert cs == cs[..|cs| - 1] + [last];
      ExactMatches(title, cs[..|cs| - 1]) + (if last.name == title then [last] else [])
  }

  /** `idx` lists, in increasing order, exactly the positions of the hits in
      `cs` named `title`. */
  predicate ExactPositions(title: string, cs: seq<SeriesFound>, idx: seq<int>) {
    && (forall k :: 0 <= k < |idx| ==> 0 <= idx[k] < |cs| && cs[idx[k]].name == title)
    && (forall k1, k2 :: 0 <= k1 < k2 < |idx| ==> idx[k1] < idx[k2])
    && (forall i :: 0 <= i < |cs| && cs[i].name == title ==> i in idx)
  }

  /** The positions of the exact-name hits, in order. */
  function ExactIndices(title: string, cs: seq<SeriesFound>): seq<int> {
    if |cs| == 0 then []
    else ExactIndices(title, cs[..|cs| - 1]) + (if cs[|cs| - 1].name == title then [|cs| - 1] else [])
  }

  /** `retain` keeps order and multiplicity: the exact matches are the hits
      at the exact-name positions of the search result, in search order. */
  lemma ExactMatchesKeepOrder(title: string, cs: seq<SeriesFound>)
    ensures var r := ExactMatches(title, cs);
      var idx := ExactIndices(title, cs);
      && ExactPositions(title, cs, idx)
      && |idx| == |r|
      && forall k :: 0 <= k < |r| ==> r[k] == cs[idx[k]]
  {
    ExactIndicesArePositions(title, cs);
    ExactMatchesAtIndices(title, cs);
  }

  lemma ExactIndicesArePositions(title: string, cs: seq<SeriesFound>)
    ensures ExactPositions(title, cs, ExactIndices(title, cs))
  {
    ExactIndicesInOrder(title, cs);
    ExactIndicesComplete(title, cs);
  }

  lemma {:induction false} ExactIndicesInOrder(title: string, cs: seq<SeriesFound>)
    ensures forall k :: 0 <= k < |ExactIndices(title, cs)| ==>
      0 <= ExactIndices(title, cs)[k] < |cs| && cs[ExactIndices(title, cs)[k]].name == title
    ensures forall k1, k2 :: 0 <= k1 < k2 < |ExactIndices(title, cs)| ==>
      ExactIndices(title, cs)[k1] < ExactIndices(title, cs)[k2]
  {
    if |cs| > 0 {
      var n := |cs| - 1;
      var init := cs[..n];
      ExactIndicesInOrder(title, init);
      var idx' := ExactIndices(title, init);
      var idx := ExactIndices(title, cs);
      assert idx == idx' + (if cs[n].name == title then [n] else []);
      forall k | 0 <= k < |idx| ensures 0 <= idx[k] < |cs| && cs[idx[k]].name == title {
        if k < |idx'| {
          assert idx[k] == idx'[k] && init[idx'[k]] == cs[idx'[k]];
        }
      }
      forall k1, k2 | 0 <= k1 < k2 < |idx| ensures idx[k1] < idx[k2] {
        assert idx[k1] == idx'[k1];
        if k2 < |idx'| {
          assert idx[k2] == idx'[k2];
        }
      }
    }
  }

  lemma {:induction false} ExactIndicesComplete(title: string, cs: seq<SeriesFound>)
    ensures forall i :: 0 <= i < |cs| && cs[i].name == title ==> i in ExactIndices(title, cs)
  {
    if |cs| > 0 {
      var n := |cs| - 1;
      var init := cs[..n];
      ExactIndicesComplete(title, init);
      var idx := ExactIndices(title, cs);
      assert idx == ExactIndices(title, init) + (if cs[n].name == title then [n] else []);
      forall i | 0 <= i < |cs| && cs[i].name == title ensures i in idx {
        if i < n {
          assert init[i] == cs[i];
        }
      }
    }
  }

  lemma {:induction false} ExactMatchesAtIndices(title: string, cs: seq<SeriesFound>)
    ensures var r := ExactMatches(title, cs);
      var idx := ExactIndices(title, cs);
      |idx| == |r| && forall k :: 0 <= k < |r| ==> 0 <= idx[k] < |cs| && r[k] == cs[idx[k]]
  {
    if |cs| > 0 {
      var n := |cs| - 1;
      var init := cs[..n];
      ExactMatchesAtIndices(title, init);
      var r' := ExactMatches(title, init);
      var idx' := ExactIndices(title, init);
      var r := ExactMatches(title, cs);
      var idx := ExactIndices(title, cs);
      forall k | 0 <= k < |r| ensures 0 <= idx[k] < |cs| && r[k] == cs[idx[k]] {
        if k < |r'| {
          assert r[k] == r'[k] && idx[k] == idx'[k];
          assert init[idx'[k]] == cs[idx'[k]];
        }
      }
    }
  }

  /** Keep only the exact-name hits if there are any, otherwise all hits. */
  function Narrow(title: string, cs: seq<SeriesFound>): (r: seq<SeriesFound>)
    ensures (exists c :: c in cs && c.name == title) ==>
      r != [] && forall c :: c in r <==> c in cs && c.name == title
    ensures (forall c :: c in cs ==> c.name != title) ==> r == cs
  {
    var exact := ExactMatches(title, cs);
    if exact != [] then assert exact[0] in exact; exact else cs
  }

  /** `max_by_key` on the first air date: the index of a latest-dated hit,
      where no date is earliest; among equally dated hits the last wins. */
  function MaxByDate(cs: seq<SeriesFound>): (r: Option<nat>)
    ensures r.None? <==> cs == []
    ensures r.Some? ==> r.value < |cs|
    ensures r.Some? ==> forall i :: 0 <= i < |cs| ==> AtMost(cs[i].firstAirDate, cs[r.value].firstAirDate)
    ensures r.Some? ==> forall i :: r.value < i < |cs| ==> !AtMost(cs[r.value].firstAirDate, cs[i].firstAirDate)
  {
    if |cs| == 0 then None
    else
      var last := |cs| - 1;
      match MaxByDate(cs[..last])
      case None => Some(last)
      case Some(k) =>
        AtMostIsTotalOrder();
        assert forall i :: 0 <= i < last ==> cs[..last][i] == cs[i];
        if AtMost(cs[k].firstAirDate, cs[last].firstAirDate) then Some(last) else Some(k)
  }

  /** The candidate `add_series` settles on for a title, if any. */
  function SelectCandidate(title: string, cs: seq<SeriesFound>): (r: Option<SeriesFound>)
    ensures r.None? <==> cs == []
    ensures r.Some? ==> r.value in cs
    ensures r.Some? && (exists c :: c in cs && c.name == title) ==> r.value.name == title
    ensures r.Some? ==> forall c :: c in cs && (c.name == title || forall c' :: c' in cs ==> c'.name != title) ==>
      AtMost(c.firstAirDate, r.value.firstAirDate)
    // among equally dated eligible hits, the last in search order wins
    ensures r.Some? ==> exists i ::
      && 0 <= i < |cs| && cs[i] == r.value
      && forall j :: i < j < |cs| && (cs[j].name == title || !HasExact(title, cs)) ==>
           !AtMost(r.value.firstAirDate, cs[j].firstAirDate)
  {
    var pool := Narrow(title, cs);
    match MaxByDate(pool)
    case None => None
    case Some(k) =>
      LastLatestInSearchOrder(title, cs, k);
      assert pool[k] in pool;
      forall c | c in cs && (c.name == title || forall c' :: c' in cs ==> c'.name != title)
        ensures AtMost(c.firstAirDate, pool[k].firstAirDate)
      {
        assert c in pool;
        var i :| 0 <= i < |pool| && pool[i] == c;
      }
      Some(pool[k])
  }

  predicate HasExact(title: string, cs: seq<SeriesFound>) {
    exists c :: c in cs && c.name == title
  }

  /** The hit `max_by_key` picks from the narrowed pool sits in the search
      result with no later eligible hit dated as late. */
  lemma LastLatestInSearchOrder(title: string, cs: seq<SeriesFound>, k: nat)
    requires MaxByDate(Narrow(title, cs)) == Some(k)
    ensures exists i ::
      && 0 <= i < |cs| && cs[i] == Narrow(title, cs)[k]
      && forall j :: i < j < |cs| && (cs[j].name == title || !HasExact(title, cs)) ==>
           !AtMost(Narrow(title, cs)[k].firstAirDate, cs[j].firstAirDate)
  {
    var pool := Narrow(title, cs);
    if HasExact(title, cs) {
      ExactMatchesKeepOrder(title, cs);
      var idx := ExactIndices(title, cs);
      LaterExactHitsAreEarlier(title, cs, pool, idx, k);
      assert cs[idx[k]] == pool[k];
    } else {
      assert cs[k] == pool[k];
    }
  }

  /** If `pool` lists the hits at the exact-name positions `idx` and no
      member of it after `pool[k]` is dated as late, then no exact-name hit
      after `pool[k]`'s position in the search result is dated as late. */
  lemma LaterExactHitsAreEarlier(title: string, cs: seq<SeriesFound>, pool: seq<SeriesFound>, idx: seq<int>, k: nat)
    requires ExactPositions(title, cs, idx) && |idx| == |pool| && k < |pool|
    requires forall m :: 0 <= m < |pool| ==> pool[m] == cs[idx[m]]
    requires forall m :: k < m < |pool| ==> !AtMost(pool[k].firstAirDate, pool[m].firstAirDate)
    ensures forall j :: idx[k] < j < |cs| && cs[j].name == title ==> !AtMost(pool[k].firstAirDate, cs[j].firstAirDate)
  {
    forall j | idx[k] < j < |cs| && cs[j].name == title
      ensures !AtMost(pool[k].firstAirDate, cs[j].firstAirDate)
    {
      assert j in idx;
      var m :| 0 <= m < |idx| && idx[m] == j;
      assert pool[m] == cs[j];
    }
  }

  /** `add_series`: search, choose, then add by id; no hit means Ok(false). */
  function AddSeries(
    title: string, year: Option<int>,
    search: (string, Option<int>) -> Result<seq<SeriesFound>, Error>,
    addById: int -> Result<bool, Error>)
    : (r: Result<bool, Error>)
    ensures search(title, year).Err? ==> r == Err(search(title, year).error)
    ensures search(title, year) == Ok([]) ==> r == Ok(false)
    ensures search(title, year).Ok? && search(title, year).value != [] ==>
      r == addById(SelectCandidate(title, search(title, year).value).value.id)
  {
    match search(title, year)
    case Err(e) => Err(e)
    case Ok(cs) =>
      match SelectCandidate(title, cs)
      case None => Ok(false)
      case Some(best) => addById(best.id)
  }

  // ---------------------------------------------------------------------------
  // Adding by id

  datatype AddEffect =
    | LookupTracked(id: int)
    | FetchDetails(id: int)
    | FetchPoster(path: string)
    | InsertPoster
    | InsertSeries(id: int, posterId: int)

  /** The collaborators of `add_series_by_id`: the tracked-series query, the
      catalogue, and the two inserts (the poster insert yields the new row
      id). */
  datatype AddPorts = AddPorts(
    tracked: int -> Result<Option<(string, OptionalDate)>, Error>,
    fetch: int -> Result<SeriesDetails, Error>,
    getPoster: string -> Result<Poster, Error>,
    insertPoster: Poster -> Result<int, Error>,
    insertSeries: (int, SeriesDetails, int) -> Outcome<Error>)

  /** `add_series_by_id`: a series that is already tracked is reported as
      added without any further call; otherwise fetch its details and poster
      and insert both. Success is always Ok(true). */
  function AddById(id: int, ports: AddPorts): (r: (Result<bool, Error>, seq<AddEffect>))
    ensures r.0.Ok? ==> r.0.value
    ensures |r.1| >= 1 && r.1[0] == LookupTracked(id)
    ensures ports.tracked(id).Ok? && ports.tracked(id).value.Some? ==> r == (Ok(true), [LookupTracked(id)])
    ensures ports.tracked(id).Err? ==> r == (Err(ports.tracked(id).error), [LookupTracked(id)])
    ensures FetchDetails(id) in r.1 <==> ports.tracked(id) == Ok(None)
    ensures r.0.Ok? && ports.tracked(id) == Ok(None) ==>
      exists pid :: r.1[|r.1| - 1] == InsertSeries(id, pid)
  {
    match ports.tracked(id)
    case Err(e) => (Err(e), [LookupTracked(id)])
    case Ok(Some(_)) => (Ok(true), [LookupTracked(id)])
    case Ok(None) =>
      var trace := [LookupTracked(id), FetchDetails(id)];
      match ports.fetch(id)
      case Err(e) => (Err(e), trace)
      case Ok(details) =>
        var trace := trace + [FetchPoster(details.posterPath)];
        match ports.getPoster(details.posterPath)
        case Err(e) => (Err(e), trace)
        case Ok(poster) =>
          var trace := trace + [InsertPoster];
          match ports.insertPoster(poster)
          case Err(e) => (Err(e), trace)
          case Ok(posterId) =>
            var trace := trace + [InsertSeries(id, posterId)];
            match ports.insertSeries(id, details, posterId)
            case Fail(e) => (Err(e), trace)
            case Pass => (Ok(true), trace)
  }
}
