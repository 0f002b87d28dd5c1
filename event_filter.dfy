/**
 * The events page's filter pipeline: a title search, a category filter and
 * a same-day filter applied in turn to the fetched events, and the filter
 * state that drives it.
 */
module EventFilter {
  import opened EventModel

  /** The category choice that filters nothing. */
  const AllCategories: string := "All"

  // ------------------------------------------------------ text primitives

  predicate IsUpper(ch: char) {
    'A' <= ch <= 'Z'
  }

  /** Lower-casing, for ASCII letters only. */
  function LowerChar(ch: char): char {
    if IsUpper(ch) then (ch as int + 32) as char else ch
  }

  /** `s.toLowerCase()`: no capital is left, and each character is mapped on its own. */
  function Lower(s: string): (r: string)
    ensures |r| == |s|
    ensures forall i :: 0 <= i < |s| ==> r[i] == LowerChar(s[i])
    ensures forall i :: 0 <= i < |r| ==> !IsUpper(r[i])
  {
    seq(|s|, i requires 0 <= i < |s| => LowerChar(s[i]))
  }

  /** Two characters that are equal or the capital and small form of one ASCII letter. */
  predicate SameLetter(x: char, y: char) {
    || x == y
    || (IsUpper(x) && y as int == x as int + 32)
    || (IsUpper(y) && x as int == y as int + 32)
  }

  /** Two strings that differ at most in the case of their ASCII letters. */
  predicate SameUpToCase(a: string, b: string) {
    |a| == |b| && forall i :: 0 <= i < |a| ==> SameLetter(a[i], b[i])
  }

  /** Lower-casing identifies exactly the strings that differ only in letter case. */
  lemma LowerIffSameUpToCase(a: string, b: string)
    ensures Lower(a) == Lower(b) <==> SameUpToCase(a, b)
  {
    if Lower(a) == Lower(b) {
      forall i | 0 <= i < |a| ensures SameLetter(a[i], b[i]) {
        assert LowerChar(a[i]) == Lower(a)[i] == Lower(b)[i] == LowerChar(b[i]);
      }
    }
    if SameUpToCase(a, b) {
      forall i | 0 <= i < |a| ensures Lower(a)[i] == Lower(b)[i] {
        assert SameLetter(a[i], b[i]);
      }
    }
  }

  /** Lower-casing twice is lower-casing once, and changes only letter case. */
  lemma LowerIdempotent(s: string)
    ensures Lower(Lower(s)) == Lower(s)
    ensures SameUpToCase(s, Lower(s))
  {
    LowerIffSameUpToCase(s, Lower(s));
  }

  /**
   * The title search ignores case on both sides: titles and terms that
   * differ only in the case of their letters give the same answer.
   */
  lemma SearchIgnoresCase(e: Event, e': Event, term: string, term': string)
    requires SameUpToCase(e.title, e'.title) && SameUpToCase(term, term')
    ensures TitleMatches(e, term) == TitleMatches(e', term')
  {
    LowerIffSameUpToCase(e.title, e'.title);
    LowerIffSameUpToCase(term, term');
  }

  /** `hay.includes(needle)`: `needle` occurs in `hay` at some offset. */
  predicate Includes(hay: string, needle: string): (found: bool)
    ensures found ==> |needle| <= |hay|
    ensures needle <= hay ==> found
    decreases |hay|
  {
    needle <= hay || (hay != [] && Includes(hay[1..], needle))
  }

  /** `needle` occurs in `hay` starting at offset `i`. */
  predicate OccursAt(hay: string, needle: string, i: int) {
    0 <= i <= |hay| - |needle| && hay[i..i + |needle|] == needle
  }

  /** Includes means an occurrence at some offset. */
  lemma {:induction false} IncludesAt(hay: string, needle: string)
    ensures Includes(hay, needle) <==> exists i :: OccursAt(hay, needle, i)
    decreases |hay|
  {
    if needle <= hay {
      assert OccursAt(hay, needle, 0);
    } else if hay != [] {
      IncludesAt(hay[1..], needle);
      if Includes(hay[1..], needle) {
        var i :| OccursAt(hay[1..], needle, i);
        assert hay[1..][i..i + |needle|] == hay[i + 1..i + 1 + |needle|];
        assert OccursAt(hay, needle, i + 1);
      }
      if exists i :: OccursAt(hay, needle, i) {
        var i :| OccursAt(hay, needle, i);
        // i is not 0, since needle is not a prefix of hay
        assert hay[1..][i - 1..i - 1 + |needle|] == hay[i..i + |needle|];
        assert OccursAt(hay[1..], needle, i - 1);
      }
    }
  }

  // ------------------------------------------------------------- filtering

  /** `s.filter(p)`: the elements satisfying `p`, in order. */
  function Keep(s: seq<Event>, p: Event -> bool): (r: seq<Event>)
    ensures |r| <= |s|
    ensures forall x :: x in r <==> x in s && p(x)
  {
    if s == [] then [] else (if p(s[0]) then [s[0]] else []) + Keep(s[1..], p)
  }

  /** `a` is obtained from `b` by deleting elements: order kept, nothing added. */
  predicate IsSubsequence(a: seq<Event>, b: seq<Event>)
    decreases |b|
  {
    if a == [] then true
    else if b == [] then false
    else if a[0] == b[0] then IsSubsequence(a[1..], b[1..])
    else IsSubsequence(a, b[1..])
  }

  /** Dropping the first element of a subsequence leaves a subsequence. */
  lemma {:induction false} SubsequenceDropHead(a: seq<Event>, b: seq<Event>)
    requires a != [] && IsSubsequence(a, b)
    ensures IsSubsequence(a[1..], b)
    decreases |b|
  {
    var a' := a[1..];
    if a' != [] && a'[0] == b[0] {
      // what remains to show is IsSubsequence(a'[1..], b[1..])
      if a[0] == b[0] {
        SubsequenceDropHead(a', b[1..]);
      } else {
        SubsequenceDropHead(a, b[1..]);
        SubsequenceDropHead(a', b[1..]);
      }
    } else if a' != [] {
      if a[0] != b[0] {
        SubsequenceDropHead(a, b[1..]);
      }
    }
  }

  /** A subsequence of the tail is a subsequence of the whole. */
  lemma SubsequenceOfTail(a: seq<Event>, b: seq<Event>)
    requires b != [] && IsSubsequence(a, b[1..])
    ensures IsSubsequence(a, b)
  {
    if a != [] && a[0] == b[0] {
      SubsequenceDropHead(a, b[1..]);
    }
  }

  lemma {:induction false} KeepIsSubsequence(s: seq<Event>, p: Event -> bool)
    ensures IsSubsequence(Keep(s, p), s)
  {
    if s != [] {
      KeepIsSubsequence(s[1..], p);
      var rest := Keep(s[1..], p);
      if p(s[0]) {
        assert Keep(s, p) == [s[0]] + rest;
        assert ([s[0]] + rest)[1..] == rest;
      } else {
        assert Keep(s, p) == rest;
        SubsequenceOfTail(rest, s);
      }
    }
  }

  /** A predicate true of every element keeps them all. */
  lemma {:induction false} KeepEverything(s: seq<Event>, p: Event -> bool)
    requires forall x :: x in s ==> p(x)
    ensures Keep(s, p) == s
  {
    if s != [] {
      KeepEverything(s[1..], p);
      assert [s[0]] + s[1..] == s;
    }
  }

  /** Predicates that agree on the elements keep the same elements. */
  lemma {:induction false} KeepSame(s: seq<Event>, p: Event -> bool, q: Event -> bool)
    requires forall x :: x in s ==> p(x) == q(x)
    ensures Keep(s, p) == Keep(s, q)
  {
    if s != [] {
      KeepSame(s[1..], p, q);
    }
  }

  /** Two filters in turn are one filter by their conjunction. */
  lemma {:induction false} KeepKeep(s: seq<Event>, p: Event -> bool, q: Event -> bool, pq: Event -> bool)
    requires forall x :: x in s ==> pq(x) == (p(x) && q(x))
    ensures Keep(Keep(s, p), q) == Keep(s, pq)
  {
    if s != [] {
      KeepKeep(s[1..], p, q, pq);
      var rest := Keep(s[1..], p);
      if p(s[0]) {
        assert Keep(s, p) == [s[0]] + rest;
        assert ([s[0]] + rest)[1..] == rest;
      } else {
        assert Keep(s, p) == rest;
      }
    }
  }

  // ------------------------------------------------------- the three filters

  /** The search filter passes titles containing the term, ignoring case. */
  predicate TitleMatches(e: Event, term: string) {
    Includes(Lower(e.title), Lower(term))
  }

  /** Each stage is skipped when its control is empty or "All". */
  function BySearch(events: seq<Event>, term: string): seq<Event> {
    if term != "" then Keep(events, e => TitleMatches(e, term)) else events
  }

  function ByCategory(events: seq<Event>, category: string): seq<Event> {
    if category != AllCategories then Keep(events, (e: Event) => e.category == category) else events
  }

  /**
   * The date filter compares calendar days: `eventDay` gives the local day
   * of an event's start and `pickedDay` the day of the date input's value.
   */
  function ByDate(events: seq<Event>, date: string, eventDay: Millis -> int, pickedDay: string -> int): seq<Event> {
    if date != "" then Keep(events, (e: Event) => eventDay(e.dateTime) == pickedDay(date)) else events
  }

  /** The list the page shows: some of the events, never more of them. */
  function Filtered(events: seq<Event>, term: string, category: string, date: string,
                    eventDay: Millis -> int, pickedDay: string -> int): (r: seq<Event>)
    ensures |r| <= |events|
    ensures forall e :: e in r ==> e in events
    ensures term != "" ==> forall e :: e in r ==> TitleMatches(e, term)
    ensures category != AllCategories ==> forall e :: e in r ==> e.category == category
  {
    ByDate(ByCategory(BySearch(events, term), category), date, eventDay, pickedDay)
  }

  /** An event passes every active filter. */
  predicate Passes(e: Event, term: string, category: string, date: string,
                   eventDay: Millis -> int, pickedDay: string -> int)
  {
    && (term != "" ==> TitleMatches(e, term))
    && (category != AllCategories ==> e.category == category)
    && (date != "" ==> eventDay(e.dateTime) == pickedDay(date))
  }

  /** The three stages in turn are one filter by `Passes`. */
  lemma FilteredIsOneFilter(events: seq<Event>, term: string, category: string, date: string,
                            eventDay: Millis -> int, pickedDay: string -> int)
    ensures Filtered(events, term, category, date, eventDay, pickedDay)
         == Keep(events, e => Passes(e, term, category, date, eventDay, pickedDay))
  {
    var p1 := e => term != "" ==> TitleMatches(e, term);
    var p2 := (e: Event) => category != AllCategories ==> e.category == category;
    var p3 := (e: Event) => date != "" ==> eventDay(e.dateTime) == pickedDay(date);
    var p12 := (e: Event) => p1(e) && p2(e);
    var all := e => Passes(e, term, category, date, eventDay, pickedDay);

    var s1 := BySearch(events, term);
    assert s1 == Keep(events, p1) by {
      if term == "" { KeepEverything(events, p1); }
      else { KeepSame(events, p1, e => TitleMatches(e, term)); }
    }
    var s2 := ByCategory(s1, category);
    assert s2 == Keep(s1, p2) by {
      if category == AllCategories { KeepEverything(s1, p2); }
      else { KeepSame(s1, p2, (e: Event) => e.category == category); }
    }
    var s3 := ByDate(s2, date, eventDay, pickedDay);
    assert s3 == Keep(s2, p3) by {
      if date == "" { KeepEverything(s2, p3); }
      else { KeepSame(s2, p3, (e: Event) => eventDay(e.dateTime) == pickedDay(date)); }
    }
    KeepKeep(events, p1, p2, p12);
    assert s2 == Keep(events, p12);
    KeepKeep(events, p12, p3, all);
  }

  /** An event is shown exactly when it is among the events and passes every active filter. */
  lemma ShownIffPasses(events: seq<Event>, term: string, category: string, date: string,
                       eventDay: Millis -> int, pickedDay: string -> int, e: Event)
    ensures e in Filtered(events, term, category, date, eventDay, pickedDay)
        <==> e in events && Passes(e, term, category, date, eventDay, pickedDay)
  {
    FilteredIsOneFilter(events, term, category, date, eventDay, pickedDay);
  }

  /** The shown list keeps the events' order, adds nothing, and is no longer ("Showing n of m"). */
  lemma ShownIsSubsequence(events: seq<Event>, term: string, category: string, date: string,
                           eventDay: Millis -> int, pickedDay: string -> int)
    ensures IsSubsequence(Filtered(events, term, category, date, eventDay, pickedDay), events)
    ensures |Filtered(events, term, category, date, eventDay, pickedDay)| <= |events|
  {
    FilteredIsOneFilter(events, term, category, date, eventDay, pickedDay);
    KeepIsSubsequence(events, e => Passes(e, term, category, date, eventDay, pickedDay));
  }

  /** With a search term, every shown title contains it, ignoring case. */
  lemma ShownMatchSearch(events: seq<Event>, term: string, category: string, date: string,
                         eventDay: Millis -> int, pickedDay: string -> int)
    requires term != ""
    ensures forall e :: e in Filtered(events, term, category, date, eventDay, pickedDay) ==>
      Includes(Lower(e.title), Lower(term))
  {
    forall e | e in Filtered(events, term, category, date, eventDay, pickedDay)
      ensures Includes(Lower(e.title), Lower(term))
    {
      ShownIffPasses(events, term, category, date, eventDay, pickedDay, e);
    }
  }

  /** With a category other than "All", every shown event has that category. */
  lemma ShownMatchCategory(events: seq<Event>, term: string, category: string, date: string,
                           eventDay: Millis -> int, pickedDay: string -> int)
    requires category != AllCategories
    ensures forall e :: e in Filtered(events, term, category, date, eventDay, pickedDay) ==>
      e.category == category
  {
    forall e | e in Filtered(events, term, category, date, eventDay, pickedDay)
      ensures e.category == category
    {
      ShownIffPasses(events, term, category, date, eventDay, pickedDay, e);
    }
  }

  /** With no search, "All" and no date, every event is shown, in order. */
  lemma NoFilterShowsAll(events: seq<Event>, eventDay: Millis -> int, pickedDay: string -> int)
    ensures Filtered(events, "", AllCategories, "", eventDay, pickedDay) == events
  {
  }

  // -------------------------------------------------------------- the page

  /** The page's state: the fetched events and the three filter controls. */
  class EventsPage {
    var events: seq<Event>
    var searchTerm: string
    var selectedCategory: string
    var selectedDate: string
    /** The calendar-day functions the date filter compares with. */
    const eventDay: Millis -> int
    const pickedDay: string -> int

    constructor (eventDay: Millis -> int, pickedDay: string -> int)
      ensures this.eventDay == eventDay && this.pickedDay == pickedDay
      ensures events == [] && searchTerm == "" && selectedCategory == AllCategories && selectedDate == ""
    {
      this.eventDay := eventDay;
      this.pickedDay := pickedDay;
      events := [];
      searchTerm := "";
      selectedCategory := AllCategories;
      selectedDate := "";
    }

    /**
     * The filtered list, recomputed whenever a control or the events change:
     * exactly the events passing the current controls, in their order.
     */
    function Shown(): (r: seq<Event>)
      reads this
      ensures forall e :: e in r <==> e in events && Passes(e, searchTerm, selectedCategory, selectedDate, eventDay, pickedDay)
      ensures IsSubsequence(r, events)
    {
      ShownIsSubsequence(events, searchTerm, selectedCategory, selectedDate, eventDay, pickedDay);
      Filtered(events, searchTerm, selectedCategory, selectedDate, eventDay, pickedDay)
    }

    /** The events fetched from the listing route replace the old ones; the filters stay. */
    method SetEvents(fetched: seq<Event>)
      modifies this
      ensures events == fetched
      ensures searchTerm == old(searchTerm) && selectedCategory == old(selectedCategory)
      ensures selectedDate == old(selectedDate)
    {
      events := fetched;
    }

    method SetSearchTerm(term: string)
      modifies this
      ensures searchTerm == term && events == old(events)
      ensures selectedCategory == old(selectedCategory) && selectedDate == old(selectedDate)
    {
      searchTerm := term;
    }

    method SetCategory(category: string)
      modifies this
      ensures selectedCategory == category && events == old(events)
      ensures searchTerm == old(searchTerm) && selectedDate == old(selectedDate)
    {
      selectedCategory := category;
    }

    method SetDate(date: string)
      modifies this
      ensures selectedDate == date && events == old(events)
      ensures searchTerm == old(searchTerm) && selectedCategory == old(selectedCategory)
    {
      selectedDate := date;
    }

    /** Reset the three controls; afterwards every event is shown. */
    method ClearFilters()
      modifies this
      ensures searchTerm == "" && selectedCategory == AllCategories && selectedDate == ""
      ensures events == old(events)
      ensures Shown() == events
    {
      searchTerm := "";
      selectedCategory := AllCategories;
      selectedDate := "";
      NoFilterShowsAll(events, eventDay, pickedDay);
    }
  }
}
