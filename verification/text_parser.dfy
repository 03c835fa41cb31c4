/**
 The show-post classifier and the date, location and time extractors of
 `ShowTextParser`.

 The regular-expression engine and `dateutil` are outside the model: a `Finder`
 returns, for one of the parser's patterns and a text, the matches `re.finditer`
 would produce in text order, and a `DateParser` is `date_parser.parse(s,
 default=t)`, with None standing for any exception it (or the comparison after
 it) raises. What the parser itself decides is modelled exactly: the keyword
 count, the acceptance window, the priority order of patterns and matches,
 the relative-word fallback and the length filter.
 */
module TextParser {
  import opened Options
  import opened Strings
  import opened Dates
  import opened PrioritySearch

  /** The parser's regular expressions, by role. */
  datatype Regex =
    // DATE_PATTERNS
    | MonthNameDay     // "March 14", "Mar 14th, 2025"
    | NumericDate      // "3/14", "14-03-2025"
    | WeekdayDay       // "Friday the 14th"
    | OnWeekday        // "on Friday", "next Sat"
    | RelativeWord     // "tonight", "tomorrow", "today"
    | DayOfMonthName   // "14th of March"
    // location patterns
    | VenueTypedPlace  // "at The Blue Note Club"
    | CapitalisedPlace // "at Blue Note"
    | AtHandle         // "@bluenote"
    // TIME_PATTERNS
    | ClockMeridiem    // "7:00 PM"
    | BareClock        // "19:00"
    | StartPhrase      // "doors at 7pm"

  /** One regex match: `group(0)` and `group(1)` (empty when the pattern has no group). */
  datatype Match = Match(whole: string, group: string)

  /** `re.finditer(pattern, text, re.IGNORECASE)`, as a list. */
  type Finder = (Regex, string) -> seq<Match>

  /** `date_parser.parse(s, default=t)`; None when it raises. */
  type DateParser = (string, Instant) -> Option<Instant>

  const ShowKeywords: seq<string> := [
    "show", "concert", "gig", "performance", "event", "live",
    "tickets", "doors", "opening", "headliner", "support",
    "venue", "playing", "performing", "on stage", "tour",
    "tonight", "this week", "coming", "upcoming"
  ]

  /** The smaller word list of the date-plus-event-word rule. */
  const EventWords: seq<string> := ["ticket", "door", "venue", "stage", "live"]

  const DatePatterns: seq<Regex> := [MonthNameDay, NumericDate, WeekdayDay, OnWeekday, RelativeWord, DayOfMonthName]
  const LocationPatterns: seq<Regex> := [VenueTypedPlace, CapitalisedPlace, AtHandle]
  const TimePatterns: seq<Regex> := [ClockMeridiem, BareClock, StartPhrase]

  /** The relative fallback puts the show at 20:00. */
  const EveningHour: nat := 20

  /** The matches of each pattern, in pattern order. */
  function MatchLists(find: Finder, patterns: seq<Regex>, text: string): (r: seq<seq<Match>>)
    ensures |r| == |patterns|
    ensures forall i :: 0 <= i < |patterns| ==> r[i] == find(patterns[i], text)
  {
    seq(|patterns|, i requires 0 <= i < |patterns| => find(patterns[i], text))
  }

  // ---------------------------------------------------------------------------
  // Classifier

  predicate NoDuplicates(xs: seq<string>) {
    forall i, j :: 0 <= i < j < |xs| ==> xs[i] != xs[j]
  }

  /** How many entries of `keywords` occur somewhere in `lower`, counting each entry once. */
  function CountKeywords(keywords: seq<string>, lower: string): (n: nat)
    ensures n <= |keywords|
    decreases |keywords|
  {
    if |keywords| == 0 then 0
    else
      CountKeywords(keywords[..|keywords| - 1], lower)
      + (if Contains(lower, keywords[|keywords| - 1]) then 1 else 0)
  }

  /** The distinct keywords that occur in `lower`. */
  ghost function PresentKeywords(keywords: seq<string>, lower: string): set<string> {
    set k | k in keywords && Contains(lower, k)
  }

  /** On a duplicate-free list the count is the number of distinct keywords present. */
  lemma {:induction false} CountIsDistinctPresent(keywords: seq<string>, lower: string)
    requires NoDuplicates(keywords)
    ensures CountKeywords(keywords, lower) == |PresentKeywords(keywords, lower)|
    decreases |keywords|
  {
    if |keywords| > 0 {
      var init, last := keywords[..|keywords| - 1], keywords[|keywords| - 1];
      assert keywords == init + [last];
      CountIsDistinctPresent(init, lower);
      assert forall i :: 0 <= i < |init| ==> init[i] == keywords[i] && keywords[i] != last;
      assert last !in init;
      if Contains(lower, last) {
        assert PresentKeywords(keywords, lower) == PresentKeywords(init, lower) + {last};
      } else {
        assert PresentKeywords(keywords, lower) == PresentKeywords(init, lower);
      }
    }
  }

  lemma ShowKeywordsDistinct()
    ensures NoDuplicates(ShowKeywords)
  {
  }

  /** Some date pattern matches somewhere in the text, ignoring case. */
  predicate HasDateMatch(find: Finder, text: string) {
    exists i | 0 <= i < |DatePatterns| :: |find(DatePatterns[i], text)| > 0
  }

  predicate HasEventWord(lower: string) {
    exists i | 0 <= i < |EventWords| :: Contains(lower, EventWords[i])
  }

  /**
   `is_show_post`: at least two distinct keywords, or else a date-like
   pattern together with an event word.
   */
  function IsShowPost(text: string, find: Finder): (r: bool)
    ensures |text| == 0 ==> !r
    ensures |text| > 0 && |PresentKeywords(ShowKeywords, ToLower(text))| >= 2 ==> r
    ensures |text| > 0 && |PresentKeywords(ShowKeywords, ToLower(text))| < 2 ==>
              (r <==> HasDateMatch(find, text) && HasEventWord(ToLower(text)))
  {
    if |text| == 0 then false
    else
      var lower := ToLower(text);
      ShowKeywordsDistinct();
      CountIsDistinctPresent(ShowKeywords, lower);
      if CountKeywords(ShowKeywords, lower) >= 2 then true
      else HasDateMatch(find, text) && HasEventWord(lower)
  }

  /** Two different keywords in the text make it a show post whatever else it says. */
  lemma TwoKeywordsSuffice(text: string, find: Finder, i: int, j: int)
    requires |text| > 0
    requires 0 <= i < j < |ShowKeywords|
    requires Contains(ToLower(text), ShowKeywords[i]) && Contains(ToLower(text), ShowKeywords[j])
    ensures IsShowPost(text, find)
  {
    ShowKeywordsDistinct();
    var present := PresentKeywords(ShowKeywords, ToLower(text));
    assert {ShowKeywords[i], ShowKeywords[j]} <= present;
    assert |{ShowKeywords[i], ShowKeywords[j]}| == 2;
    CardinalityMonotone({ShowKeywords[i], ShowKeywords[j]}, present);
  }

  lemma CardinalityMonotone<T>(a: set<T>, b: set<T>)
    requires a <= b
    ensures |a| <= |b|
  {
    assert b == a + (b - a);
  }

  // ---------------------------------------------------------------------------
  // Date extraction

  /**
   The acceptance window of `extract_date`: on or after the post day's
   midnight, or at most 7 whole days (`timedelta.days`, a floor) before the post.
   */
  predicate InWindow(parsed: Instant, post: Instant) {
    parsed >= Midnight(post) || (post - parsed) / SecondsPerDay <= 7
  }

  /**
   The window is exactly "less than 8 days before the post instant": the
   midnight test adds nothing, and there is no upper bound.
   */
  lemma WindowIsEightDays(parsed: Instant, post: Instant)
    ensures InWindow(parsed, post) <==> parsed + 8 * SecondsPerDay > post
  {
    if parsed < Midnight(post) {
      var diff := post - parsed;
      assert diff > 0;
      if diff < 8 * SecondsPerDay {
        assert diff / SecondsPerDay <= 7;
      } else {
        assert diff / SecondsPerDay >= 8;
      }
    }
  }

  /**
   A candidate parsed at the post's own time of day `k` days earlier (how
   `default=post_timestamp` fills in the clock) is accepted exactly when `k <= 7`.
   */
  lemma WindowInWholeDays(post: Instant, k: nat)
    requires k * SecondsPerDay <= post
    ensures InWindow(post - k * SecondsPerDay, post) <==> k <= 7
  {
    WindowIsEightDays(post - k * SecondsPerDay, post);
  }

  /** A candidate string the date parser understands and whose date lies in the window. */
  predicate DateAccepted(parse: DateParser, post: Instant, s: string) {
    parse(s, post).Some? && InWindow(parse(s, post).value, post)
  }

  /** The per-candidate step of `extract_date`: parse, then keep only in-window dates. */
  function DateCandidate(post: Instant, parse: DateParser): Match -> Option<Instant> {
    (m: Match) => if DateAccepted(parse, post, m.whole) then parse(m.whole, post) else None
  }

  /** There is a match of some date pattern that is parsed into the window. */
  ghost predicate SomeDateAccepted(text: string, post: Instant, find: Finder, parse: DateParser) {
    exists i, j :: 0 <= i < |DatePatterns| && 0 <= j < |find(DatePatterns[i], text)|
                   && DateAccepted(parse, post, find(DatePatterns[i], text)[j].whole)
  }

  /** Match `j` of date pattern `i` is the first, in priority order, that parses into the window. */
  ghost predicate FirstAcceptedDateAt(text: string, post: Instant, find: Finder, parse: DateParser, i: int, j: int) {
    && 0 <= i < |DatePatterns| && 0 <= j < |find(DatePatterns[i], text)|
    && DateAccepted(parse, post, find(DatePatterns[i], text)[j].whole)
    && (forall i', j' :: 0 <= i' < i && 0 <= j' < |find(DatePatterns[i'], text)| ==>
          !DateAccepted(parse, post, find(DatePatterns[i'], text)[j'].whole))
    && (forall j' :: 0 <= j' < j ==> !DateAccepted(parse, post, find(DatePatterns[i], text)[j'].whole))
  }

  /**
   The pattern stage of `extract_date`: the first candidate, pattern by pattern
   in list order and match by match in text order, that parses into the window.
   */
  function PatternStageDate(text: string, post: Instant, find: Finder, parse: DateParser): (r: Option<Instant>)
    ensures r.Some? <==> SomeDateAccepted(text, post, find, parse)
    ensures r.Some? ==> InWindow(r.value, post)
    ensures r.Some? ==>
              exists i, j :: FirstAcceptedDateAt(text, post, find, parse, i, j)
                             && r == parse(find(DatePatterns[i], text)[j].whole, post)
  {
    PatternStageDateIsFirstAccepted(text, post, find, parse);
    FirstSomeAcross(MatchLists(find, DatePatterns, text), DateCandidate(post, parse))
  }

  lemma PatternStageDateIsFirstAccepted(text: string, post: Instant, find: Finder, parse: DateParser)
    ensures var r := FirstSomeAcross(MatchLists(find, DatePatterns, text), DateCandidate(post, parse));
            && (r.Some? <==> SomeDateAccepted(text, post, find, parse))
            && (r.Some? ==> InWindow(r.value, post))
            && (r.Some? ==>
                  exists i, j :: FirstAcceptedDateAt(text, post, find, parse, i, j)
                                 && r == parse(find(DatePatterns[i], text)[j].whole, post))
  {
    var ms := MatchLists(find, DatePatterns, text);
    var f := DateCandidate(post, parse);
    var r := FirstSomeAcross(ms, f);
    if r.Some? {
      var i, j :| IsFirstHit(ms, f, i, j) && r == f(ms[i][j]);
      forall i', j' | 0 <= i' < i && 0 <= j' < |find(DatePatterns[i'], text)|
        ensures !DateAccepted(parse, post, find(DatePatterns[i'], text)[j'].whole)
      {
        assert ms[i'] == find(DatePatterns[i'], text);
        assert f(ms[i'][j']).None?;
      }
      forall j' | 0 <= j' < j
        ensures !DateAccepted(parse, post, find(DatePatterns[i], text)[j'].whole)
      {
        assert f(ms[i][j']).None?;
      }
      assert FirstAcceptedDateAt(text, post, find, parse, i, j);
    } else {
      forall i, j | 0 <= i < |DatePatterns| && 0 <= j < |find(DatePatterns[i], text)|
        ensures !DateAccepted(parse, post, find(DatePatterns[i], text)[j].whole)
      {
        assert ms[i] == find(DatePatterns[i], text);
        assert f(ms[i][j]).None?;
      }
    }
  }

  /**
   The relative-word fallback: "tonight"/"today" give 20:00 on the post's day,
   otherwise "tomorrow" gives 20:00 on the next day.
   */
  function RelativeDate(lower: string, post: Instant): (r: Option<Instant>)
    ensures r.Some? <==> Contains(lower, "tonight") || Contains(lower, "today") || Contains(lower, "tomorrow")
    ensures r.Some? ==> r.value % SecondsPerDay == EveningHour * SecondsPerHour
    ensures r.Some? && (Contains(lower, "tonight") || Contains(lower, "today")) ==>
              DayNumber(r.value) == DayNumber(post)
    ensures r.Some? && !(Contains(lower, "tonight") || Contains(lower, "today")) ==>
              DayNumber(r.value) == DayNumber(post) + 1
  {
    if Contains(lower, "tonight") || Contains(lower, "today") then Some(AtHour(post, EveningHour))
    else if Contains(lower, "tomorrow") then Some(AtHour(post + SecondsPerDay, EveningHour))
    else None
  }

  /** `extract_date` */
  function ExtractDate(text: string, post: Instant, find: Finder, parse: DateParser): (r: Option<Instant>)
    ensures |text| == 0 ==> r.None?
    ensures |text| > 0 && SomeDateAccepted(text, post, find, parse) ==>
              r.Some? && InWindow(r.value, post) && r == PatternStageDate(text, post, find, parse)
    ensures |text| > 0 && !SomeDateAccepted(text, post, find, parse) ==> r == RelativeDate(ToLower(text), post)
  {
    if |text| == 0 then None
    else
      var staged := PatternStageDate(text, post, find, parse);
      if staged.Some? then staged else RelativeDate(ToLower(text), post)
  }

  /**
   Every extracted date is either in the window or the 20:00 fallback; in
   both cases it is less than 8 days before the post.
   */
  lemma ExtractDateLowerBound(text: string, post: Instant, find: Finder, parse: DateParser)
    ensures var r := ExtractDate(text, post, find, parse);
            r.Some? ==> r.value + 8 * SecondsPerDay > post
  {
    var r := ExtractDate(text, post, find, parse);
    if r.Some? {
      if |text| > 0 && SomeDateAccepted(text, post, find, parse) {
        WindowIsEightDays(r.value, post);
      } else {
        assert DayNumber(r.value) >= DayNumber(post);
      }
    }
  }

  // ---------------------------------------------------------------------------
  // Location extraction

  /** The length filter: more than 2 and fewer than 100 characters. */
  predicate PlausibleLocation(s: string) {
    2 < |s| < 100
  }

  /** The per-candidate step of `extract_location`: strip the capture, then filter on length. */
  const LocationCandidate: Match -> Option<string> :=
    (m: Match) => if PlausibleLocation(Strip(m.group)) then Some(Strip(m.group)) else None

  /** Capture `j` of location pattern `i` is the first, in priority order, that passes the length filter. */
  ghost predicate FirstPlausibleLocationAt(text: string, find: Finder, i: int, j: int) {
    && 0 <= i < |LocationPatterns| && 0 <= j < |find(LocationPatterns[i], text)|
    && PlausibleLocation(Strip(find(LocationPatterns[i], text)[j].group))
    && (forall i', j' :: 0 <= i' < i && 0 <= j' < |find(LocationPatterns[i'], text)| ==>
          !PlausibleLocation(Strip(find(LocationPatterns[i'], text)[j'].group)))
    && (forall j' :: 0 <= j' < j ==> !PlausibleLocation(Strip(find(LocationPatterns[i], text)[j'].group)))
  }

  /** `extract_location` */
  function ExtractLocation(text: string, find: Finder): (r: Option<string>)
    ensures |text| == 0 ==> r.None?
    ensures r.Some? ==> PlausibleLocation(r.value) && Stripped(r.value)
    ensures |text| > 0 ==>
              (r.Some? <==> exists i, j :: 0 <= i < |LocationPatterns| && 0 <= j < |find(LocationPatterns[i], text)|
                                           && PlausibleLocation(Strip(find(LocationPatterns[i], text)[j].group)))
    ensures r.Some? ==>
              exists i, j :: FirstPlausibleLocationAt(text, find, i, j)
                             && r.value == Strip(find(LocationPatterns[i], text)[j].group)
  {
    if |text| == 0 then None
    else
      LocationSearchIsFirstPlausible(text, find);
      FirstSomeAcross(MatchLists(find, LocationPatterns, text), LocationCandidate)
  }

  lemma LocationSearchIsFirstPlausible(text: string, find: Finder)
    ensures var r := FirstSomeAcross(MatchLists(find, LocationPatterns, text), LocationCandidate);
            && (r.Some? <==> exists i, j :: 0 <= i < |LocationPatterns| && 0 <= j < |find(LocationPatterns[i], text)|
                                           && PlausibleLocation(Strip(find(LocationPatterns[i], text)[j].group)))
            && (r.Some? ==> PlausibleLocation(r.value) && Stripped(r.value))
            && (r.Some? ==>
                  exists i, j :: FirstPlausibleLocationAt(text, find, i, j)
                                 && r.value == Strip(find(LocationPatterns[i], text)[j].group))
  {
    var ms := MatchLists(find, LocationPatterns, text);
    var f := LocationCandidate;
    var r := FirstSomeAcross(ms, f);
    if r.Some? {
      var i, j :| IsFirstHit(ms, f, i, j) && r == f(ms[i][j]);
      forall i', j' | 0 <= i' < i && 0 <= j' < |find(LocationPatterns[i'], text)|
        ensures !PlausibleLocation(Strip(find(LocationPatterns[i'], text)[j'].group))
      {
        assert ms[i'] == find(LocationPatterns[i'], text);
        assert f(ms[i'][j']).None?;
      }
      forall j' | 0 <= j' < j
        ensures !PlausibleLocation(Strip(find(LocationPatterns[i], text)[j'].group))
      {
        assert f(ms[i][j']).None?;
      }
      assert FirstPlausibleLocationAt(text, find, i, j);
    } else {
      forall i, j | 0 <= i < |LocationPatterns| && 0 <= j < |find(LocationPatterns[i], text)|
        ensures !PlausibleLocation(Strip(find(LocationPatterns[i], text)[j].group))
      {
        assert ms[i] == find(LocationPatterns[i], text);
        assert f(ms[i][j]).None?;
      }
    }
  }

  // ---------------------------------------------------------------------------
  // Time extraction

  /**
   The per-pattern step of `extract_time`: the first match of a pattern, if
   any, is returned at once (stripped); a pattern without matches is skipped.
   */
  function TimeOfPattern(find: Finder, text: string): Regex -> Option<string> {
    (p: Regex) => if |find(p, text)| > 0 then Some(Strip(find(p, text)[0].whole)) else None
  }

  /** Time pattern `i` is the first, in priority order, that matches at all. */
  ghost predicate FirstMatchingTimePattern(text: string, find: Finder, i: int) {
    && 0 <= i < |TimePatterns| && |find(TimePatterns[i], text)| > 0
    && forall i' :: 0 <= i' < i ==> |find(TimePatterns[i'], text)| == 0
  }

  /** `extract_time` */
  function ExtractTime(text: string, find: Finder): (r: Option<string>)
    ensures |text| == 0 ==> r.None?
    ensures |text| > 0 ==> (r.Some? <==> exists i :: 0 <= i < |TimePatterns| && |find(TimePatterns[i], text)| > 0)
    ensures r.Some? ==>
              exists i :: FirstMatchingTimePattern(text, find, i) && r.value == Strip(find(TimePatterns[i], text)[0].whole)
  {
    if |text| == 0 then None
    else
      TimeSearchTakesFirstMatch(text, find);
      FirstSome(TimePatterns, TimeOfPattern(find, text))
  }

  lemma TimeSearchTakesFirstMatch(text: string, find: Finder)
    ensures var r := FirstSome(TimePatterns, TimeOfPattern(find, text));
            && (r.Some? <==> exists i :: 0 <= i < |TimePatterns| && |find(TimePatterns[i], text)| > 0)
            && (r.Some? ==>
                  exists i :: FirstMatchingTimePattern(text, find, i) && r.value == Strip(find(TimePatterns[i], text)[0].whole))
  {
    var f := TimeOfPattern(find, text);
    var r := FirstSome(TimePatterns, f);
    if r.Some? {
      var i :| 0 <= i < |TimePatterns| && r == f(TimePatterns[i]) && forall i' :: 0 <= i' < i ==> f(TimePatterns[i']).None?;
      forall i' | 0 <= i' < i
        ensures |find(TimePatterns[i'], text)| == 0
      {
        assert f(TimePatterns[i']).None?;
      }
      assert FirstMatchingTimePattern(text, find, i);
    } else {
      forall i | 0 <= i < |TimePatterns|
        ensures |find(TimePatterns[i], text)| == 0
      {
        assert f(TimePatterns[i]).None?;
      }
    }
  }

  // ---------------------------------------------------------------------------
  // Whole-text parse

  /** Date (as `YYYY-MM-DD`), location and time found in one text; None where nothing was found. */
  datatype Fields = Fields(date: Option<string>, location: Option<string>, time: Option<string>)

  const NoFields: Fields := Fields(None, None, None)

  /** An extracted date rendered as year-month-day, or nothing when no date was extracted. */
  function FormatDate(t: Option<Instant>): (r: Option<string>)
    ensures r.Some? <==> t.Some?
    ensures r.Some? ==> ParseDateString(r.value) == Some(DateOf(t.value))
    ensures t.Some? ==> r.value == DateString(DateOf(t.value)) && IsDateString(r.value)
    ensures r.Some? ==> |r.value| > 0 && r.value != "Unknown"
  {
    match t
    case Some(v) =>
      DateStringCanonical(DateOf(v));
      DateStringIsNotUnknown(DateOf(v));
      Some(DateString(DateOf(v)))
    case None => None
  }

  /** The three extractors applied to one text. */
  function ExtractFields(text: string, post: Instant, find: Finder, parse: DateParser): (r: Fields)
    ensures r.date == FormatDate(ExtractDate(text, post, find, parse))
    ensures r.location == ExtractLocation(text, find)
    ensures r.time == ExtractTime(text, find)
  {
    Fields(FormatDate(ExtractDate(text, post, find, parse)), ExtractLocation(text, find), ExtractTime(text, find))
  }

  /** A date found in a text is a date string in canonical form, never the "Unknown" placeholder. */
  lemma FieldsDateReadable(text: string, post: Instant, find: Finder, parse: DateParser)
    ensures var d := ExtractFields(text, post, find, parse).date;
            d.Some? ==> IsDateString(d.value) && |d.value| > 0 && d.value != "Unknown"
  {
  }

  datatype ShowInfo = ShowInfo(isShow: bool, fields: Fields)

  /** `parse_show_info`: the fields are extracted only from a caption classified as a show. */
  function ParseShowInfo(caption: string, post: Instant, find: Finder, parse: DateParser): (r: ShowInfo)
    ensures r.isShow <==> IsShowPost(caption, find)
    ensures !r.isShow ==> r.fields == NoFields
    ensures r.isShow ==> r.fields == ExtractFields(caption, post, find, parse)
  {
    if |caption| == 0 then ShowInfo(false, NoFields)
    else if IsShowPost(caption, find) then ShowInfo(true, ExtractFields(caption, post, find, parse))
    else ShowInfo(false, NoFields)
  }
}
