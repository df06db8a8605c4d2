/**
 * The address book: records keyed by their name, iterated in insertion
 * order, with the upcoming-birthdays query and the upsert done by the
 * "add" command.
 */
module AddressBooks {
  import opened Wrappers
  import opened Calendar
  import opened Fields
  import opened Contacts

  /** birthdays() reports occurrences at most this many days after today. */
  const WINDOW_DAYS := 7

  const CONTACT_ADDED := "Contact added."
  const CONTACT_UPDATED := "Contact updated."

  /** One item of the birthdays() report: {"name": ..., "celebration_date": ...}. */
  datatype Upcoming = Upcoming(name: string, celebrationDate: string)

  /** A record as the birthday query sees it: its key and its birthday. */
  type Entry = (string, Option<Date>)

  // ------------------------------------------------ the birthday window

  /**
   * This year's occurrence of the birthday, or next year's when this year's
   * is already before today; None when date.replace(year=...) fails.
   */
  function Occurrence(b: Date, today: Date): (r: Option<Date>)
    requires IsValid(b) && IsValid(today)
    ensures r.Some? ==> IsValid(r.value) && r.value.month == b.month && r.value.day == b.day
  {
    match ReplaceYear(b, today.year)
    case None => None
    case Some(t) => if Before(t, today) then ReplaceYear(b, today.year + 1) else Some(t)
  }

  /** The occurrence is the earliest date on or after today that has the birthday's month and day. */
  lemma OccurrenceIsNext(b: Date, today: Date)
    requires IsValid(b) && IsValid(today) && Occurrence(b, today).Some?
    ensures var o := Occurrence(b, today).value;
      && Ordinal(today) <= Ordinal(o)
      && (o.year == today.year || (o.year == today.year + 1 && Before(Date(today.year, b.month, b.day), today)))
      && forall x :: IsValid(x) && x.month == b.month && x.day == b.day && Ordinal(today) <= Ordinal(x) ==>
           Ordinal(o) <= Ordinal(x)
  {
    var o := Occurrence(b, today).value;
    var t := Date(today.year, b.month, b.day);
    BeforeIffOrdinalLess(o, today);
    forall x | IsValid(x) && x.month == b.month && x.day == b.day && Ordinal(today) <= Ordinal(x)
      ensures Ordinal(o) <= Ordinal(x)
    {
      assert x.year == today.year ==> x == t;
      BeforeIffOrdinalLess(x, today);
      BeforeIffOrdinalLess(x, o);
    }
  }

  /** The occurrence is missing only for a Feb 29 birthday without a leap day ahead, or past the last year. */
  lemma OccurrenceMissing(b: Date, today: Date)
    requires IsValid(b) && IsValid(today)
    ensures Occurrence(b, today).None? <==>
      || (b.month == 2 && b.day == 29 && (!IsLeapYear(today.year) || Before(Date(today.year, 2, 29), today)))
      || (today.year == MAX_YEAR && Before(Date(MAX_YEAR, b.month, b.day), today))
  {
  }

  /** Adding 7 - weekday() to a Saturday or Sunday never leaves year 9999, so no OverflowError is raised. */
  lemma ShiftInRange(o: Date)
    requires IsValid(o) && Weekday(o) >= 5
    ensures AddDays(o, 7 - Weekday(o)).year <= MAX_YEAR
  {
    OrdinalAtMostLast(o);
    WeekendBeforeEnd(Ordinal(o));
    WithinLastIsValid(AddDays(o, 7 - Weekday(o)));
  }

  /** A Saturday or Sunday no later than day 3652059, a Friday, is followed by its Monday no later than it. */
  lemma WeekendBeforeEnd(n: int)
    requires n <= 3652059 && (n + 6) % 7 >= 5
    ensures n + 7 - (n + 6) % 7 <= 3652059
  {
    var q := (n + 6) / 7;
    assert n + 6 == 7 * q + (n + 6) % 7;
  }

  /** The Monday after a Saturday or Sunday: 7 - weekday() days later, still in year 9999 at the latest. */
  function MondayAfter(o: Date): (c: Date)
    requires IsValid(o) && Weekday(o) >= 5
    ensures IsValid(c) && Ordinal(c) == Ordinal(o) + 7 - Weekday(o) && Weekday(c) == 0
  {
    ShiftInRange(o);
    WeekdayAfter(o, 7 - Weekday(o));
    AddDays(o, 7 - Weekday(o))
  }

  /** A Saturday or Sunday moves forward to Monday; a weekday stays. */
  function WeekendToMonday(o: Date): (c: Date)
    requires IsValid(o)
    ensures IsValid(c) && Ordinal(o) <= Ordinal(c) <= Ordinal(o) + 2 && Weekday(c) < 5
    ensures Weekday(o) >= 5 ==> Weekday(c) == 0
    ensures Weekday(o) < 5 ==> c == o
  {
    if Weekday(o) >= 5 then MondayAfter(o) else o
  }

  /** Day numbers from a Saturday or Sunday up to the next Monday are all Saturdays or Sundays. */
  lemma WeekendRun(n: int, m: int, w: int, v: int)
    requires w == (n + 6) % 7 && v == (m + 6) % 7
    requires w >= 5 && n <= m < n + 7 - w
    ensures v >= 5
  {
    ModAdd(n + 6, m - n);
  }

  /** The Monday after o is the first weekday after it: every day skipped is a Saturday or Sunday. */
  lemma WeekendSkipped(o: Date, x: Date)
    requires IsValid(o) && IsCalendarDate(x)
    requires Weekday(o) >= 5 && Ordinal(o) <= Ordinal(x) < Ordinal(o) + 7 - Weekday(o)
    ensures Weekday(x) >= 5
  {
    WeekendRun(Ordinal(o), Ordinal(x), Weekday(o), Weekday(x));
  }

  /**
   * The celebration date of a birthday: its occurrence when that is 0..7
   * days from today, moved from a Saturday or Sunday to the next Monday.
   */
  function Celebration(b: Date, today: Date): (r: Option<Date>)
    requires IsValid(b) && IsValid(today)
    ensures r.Some? <==>
      Occurrence(b, today).Some? && 0 <= Ordinal(Occurrence(b, today).value) - Ordinal(today) <= WINDOW_DAYS
    ensures r.Some? ==> IsValid(r.value) && Weekday(r.value) < 5
    ensures r.Some? ==> r.value == WeekendToMonday(Occurrence(b, today).value)
  {
    match Occurrence(b, today)
    case None => None
    case Some(o) =>
      var delta := Ordinal(o) - Ordinal(today);
      if 0 <= delta <= WINDOW_DAYS then Some(WeekendToMonday(o)) else None
  }

  /** A celebrated birthday is observed 0..9 days after today, never on a weekend. */
  lemma CelebrationWindow(b: Date, today: Date)
    requires IsValid(b) && IsValid(today) && Celebration(b, today).Some?
    ensures var c := Celebration(b, today).value;
      0 <= Ordinal(c) - Ordinal(today) <= WINDOW_DAYS + 2 && Weekday(c) < 5
  {
    var o := Occurrence(b, today).value;
    assert Ordinal(o) <= Ordinal(WeekendToMonday(o)) <= Ordinal(o) + 2;
  }

  /** A Feb 29 birthday is reported only in a leap year, for this year's occurrence. */
  lemma LeapDayCelebration(b: Date, today: Date)
    requires IsValid(b) && IsValid(today) && b.month == 2 && b.day == 29
    ensures Celebration(b, today).Some? ==>
      IsLeapYear(today.year) && Occurrence(b, today).value.year == today.year
  {
    OccurrenceMissing(b, today);
  }

  /** Asked on a Monday, a birthday falling on the Saturday after is reported for the Monday after it. */
  lemma SaturdayShift(b: Date, today: Date)
    requires IsValid(b) && IsValid(today) && Weekday(today) == 0
    requires Occurrence(b, today).Some? && Ordinal(Occurrence(b, today).value) == Ordinal(today) + 5
    ensures Celebration(b, today).Some?
    ensures Ordinal(Celebration(b, today).value) == Ordinal(today) + 7
  {
    var o := Occurrence(b, today).value;
    FiveAfterMonday(Ordinal(today), Weekday(today), Ordinal(o), Weekday(o));
    assert WeekendToMonday(o) == MondayAfter(o);
  }

  /** Five days after a Monday's day number comes a Saturday's. */
  lemma FiveAfterMonday(n: int, w: int, m: int, v: int)
    requires w == (n + 6) % 7 && v == (m + 6) % 7
    requires w == 0 && m == n + 5
    ensures v == 5
  {
  }

  /** 10.06.2024, the day the worked examples are asked on, is a Monday. */
  lemma MondayTenthJune2024()
    ensures Ordinal(Date(2024, 6, 10)) == 739047 && Weekday(Date(2024, 6, 10)) == 0
  {
    DaysBeforeYearFormula(2024);
    MonthTable(2024, 6);
  }

  /** Born 15.06.1990, asked on Monday 10.06.2024: the birthday is a Saturday, so 17.06.2024 is reported. */
  lemma SaturdayBirthdayExample()
    ensures Celebration(Date(1990, 6, 15), Date(2024, 6, 10)) == Some(Date(2024, 6, 17))
  {
    MondayTenthJune2024();
    assert Occurrence(Date(1990, 6, 15), Date(2024, 6, 10)) == Some(Date(2024, 6, 15));
    assert Weekday(Date(2024, 6, 15)) == 5;
    assert AddDays(Date(2024, 6, 15), 2) == Date(2024, 6, 17);
  }

  /** Born 08.06.1990, asked on 10.06.2024: this year's birthday has passed and next year's is too far away. */
  lemma PassedBirthdayExample()
    ensures Celebration(Date(1990, 6, 8), Date(2024, 6, 10)) == None
  {
    MondayTenthJune2024();
    DaysBeforeYearFormula(2025);
    MonthTable(2025, 6);
    assert Occurrence(Date(1990, 6, 8), Date(2024, 6, 10)) == Some(Date(2025, 6, 8));
  }

  // ------------------------------------------------------ the report

  ghost predicate EntriesValid(es: seq<Entry>) {
    forall i :: 0 <= i < |es| && es[i].1.Some? ==> IsValid(es[i].1.value)
  }

  lemma PrefixStep(es: seq<Entry>, i: nat)
    requires i < |es|
    ensures es[..i + 1] == es[..i] + [es[i]]
  {
  }

  lemma EntriesValidPrefix(es: seq<Entry>, n: nat)
    requires EntriesValid(es) && n <= |es|
    ensures EntriesValid(es[..n])
  {
    assert forall i :: 0 <= i < n ==> es[..n][i] == es[i];
  }

  /** The loop body of birthdays() for one record. */
  function ReportOf(e: Entry, today: Date): seq<Upcoming>
    requires (e.1.Some? ==> IsValid(e.1.value)) && IsValid(today)
  {
    match e.1
    case None => []
    case Some(b) =>
      match Celebration(b, today)
      case None => []
      case Some(c) => [Upcoming(e.0, FormatDate(c))]
  }

  /** The items of each entry's report, entry by entry. */
  function Reports(es: seq<Entry>, today: Date): seq<seq<Upcoming>>
    requires EntriesValid(es) && IsValid(today)
  {
    seq(|es|, i requires 0 <= i < |es| => ReportOf(es[i], today))
  }

  /** The lists of ss joined end to end, in order. */
  function Concat(ss: seq<seq<Upcoming>>): seq<Upcoming>
    decreases |ss|
  {
    if ss == [] then [] else Concat(ss[..|ss| - 1]) + ss[|ss| - 1]
  }

  lemma {:induction false} ConcatMembership(ss: seq<seq<Upcoming>>, u: Upcoming)
    ensures u in Concat(ss) <==> exists i :: 0 <= i < |ss| && u in ss[i]
    decreases |ss|
  {
    if ss != [] {
      var init := ss[..|ss| - 1];
      ConcatMembership(init, u);
      if exists i :: 0 <= i < |init| && u in init[i] {
        var i :| 0 <= i < |init| && u in init[i];
        assert ss[i] == init[i];
      }
      if exists i :: 0 <= i < |ss| && u in ss[i] {
        var i :| 0 <= i < |ss| && u in ss[i];
        if i < |init| {
          assert init[i] == ss[i];
        }
      }
    }
  }

  /** idx maps each item of us to the list of ss it comes from, in increasing position. */
  ghost predicate DrawnInOrder(us: seq<Upcoming>, ss: seq<seq<Upcoming>>, idx: seq<int>) {
    && |idx| == |us|
    && (forall k :: 0 <= k < |idx| ==> 0 <= idx[k] < |ss| && us[k] in ss[idx[k]])
    && (forall k, l :: 0 <= k < l < |idx| ==> idx[k] < idx[l])
  }

  /** Appending a list of at most one item extends the drawing by its position. */
  lemma DrawnAppend(us: seq<Upcoming>, ss: seq<seq<Upcoming>>, idx: seq<int>, last: seq<Upcoming>)
    requires DrawnInOrder(us, ss, idx) && |last| <= 1
    ensures DrawnInOrder(us + last, ss + [last], if last == [] then idx else idx + [|ss|])
  {
    var us', ss' := us + last, ss + [last];
    var idx' := if last == [] then idx else idx + [|ss|];
    forall k | 0 <= k < |idx'|
      ensures 0 <= idx'[k] < |ss'| && us'[k] in ss'[idx'[k]]
    {
      if k < |idx| {
        assert idx'[k] == idx[k] && us'[k] == us[k] && ss'[idx[k]] == ss[idx[k]];
      } else {
        assert us'[k] == last[0] && ss'[|ss|] == last;
      }
    }
  }

  lemma {:induction false} ConcatInOrder(ss: seq<seq<Upcoming>>)
    requires forall i :: 0 <= i < |ss| ==> |ss[i]| <= 1
    ensures exists idx :: DrawnInOrder(Concat(ss), ss, idx)
    decreases |ss|
  {
    if ss == [] {
      assert Concat(ss) == [];
      assert DrawnInOrder(Concat(ss), ss, []);
    } else {
      var init, last := ss[..|ss| - 1], ss[|ss| - 1];
      assert init + [last] == ss;
      forall i | 0 <= i < |init|
        ensures |init[i]| <= 1
      {
        assert init[i] == ss[i];
      }
      ConcatInOrder(init);
      var idx :| DrawnInOrder(Concat(init), init, idx);
      DrawnAppend(Concat(init), init, idx, last);
      var idx' := if last == [] then idx else idx + [|init|];
      assert Concat(ss) == Concat(init) + last;
      assert DrawnInOrder(Concat(ss), ss, idx');
    }
  }

  /** The report birthdays() builds from the records, in their order. */
  function UpcomingOf(es: seq<Entry>, today: Date): seq<Upcoming>
    requires EntriesValid(es) && IsValid(today)
    decreases |es|
  {
    if es == [] then [] else UpcomingOf(es[..|es| - 1], today) + ReportOf(es[|es| - 1], today)
  }

  /** One more record adds its own report item, if any, at the end. */
  lemma UpcomingAppend(es: seq<Entry>, e: Entry, today: Date)
    requires EntriesValid(es + [e]) && IsValid(today)
    ensures EntriesValid(es) && (e.1.Some? ==> IsValid(e.1.value))
    ensures UpcomingOf(es + [e], today) == UpcomingOf(es, today) + ReportOf(e, today)
  {
    assert forall i :: 0 <= i < |es| ==> es[i] == (es + [e])[i];
    assert (es + [e])[|es|] == e;
    assert (es + [e])[..|es|] == es;
  }

  /** The report over one more record of es is the report so far and that record's item. */
  lemma UpcomingPrefixStep(es: seq<Entry>, i: nat, today: Date)
    requires EntriesValid(es) && IsValid(today) && i < |es|
    ensures EntriesValid(es[..i + 1]) && EntriesValid(es[..i])
    ensures UpcomingOf(es[..i + 1], today) == UpcomingOf(es[..i], today) + ReportOf(es[i], today)
  {
    PrefixStep(es, i);
    EntriesValidPrefix(es, i + 1);
    UpcomingAppend(es[..i], es[i], today);
  }

  /** The report is the entries' own reports joined in order. */
  lemma {:induction false} UpcomingIsConcat(es: seq<Entry>, today: Date)
    requires EntriesValid(es) && IsValid(today)
    ensures UpcomingOf(es, today) == Concat(Reports(es, today))
    decreases |es|
  {
    if es != [] {
      var init := es[..|es| - 1];
      EntriesValidPrefix(es, |es| - 1);
      UpcomingIsConcat(init, today);
      var rs := Reports(es, today);
      assert rs[..|rs| - 1] == Reports(init, today);
    }
  }

  /** u is the report item of entry e: e has a birthday that is celebrated, on the date u shows. */
  ghost predicate Reported(e: Entry, today: Date, u: Upcoming)
    requires (e.1.Some? ==> IsValid(e.1.value)) && IsValid(today)
  {
    u in ReportOf(e, today)
  }

  /** The report item of a record is its name with its celebration date; a record without one has none. */
  lemma ReportedMeans(e: Entry, today: Date, u: Upcoming)
    requires (e.1.Some? ==> IsValid(e.1.value)) && IsValid(today)
    ensures Reported(e, today, u) <==>
      && e.1.Some?
      && Celebration(e.1.value, today).Some?
      && u == Upcoming(e.0, FormatDate(Celebration(e.1.value, today).value))
  {
  }

  /** An item is in the report exactly when it is the report item of some record. */
  lemma UpcomingMembership(es: seq<Entry>, today: Date, u: Upcoming)
    requires EntriesValid(es) && IsValid(today)
    ensures u in UpcomingOf(es, today) <==> exists i :: 0 <= i < |es| && Reported(es[i], today, u)
  {
    UpcomingIsConcat(es, today);
    var rs := Reports(es, today);
    ConcatMembership(rs, u);
    assert forall i :: 0 <= i < |es| ==> rs[i] == ReportOf(es[i], today);
  }

  /** idx maps each report item to the record it comes from, in increasing position. */
  ghost predicate ReportedInOrder(us: seq<Upcoming>, es: seq<Entry>, today: Date, idx: seq<int>)
    requires EntriesValid(es) && IsValid(today)
  {
    && |idx| == |us|
    && (forall k :: 0 <= k < |idx| ==> 0 <= idx[k] < |es| && Reported(es[idx[k]], today, us[k]))
    && (forall k, l :: 0 <= k < l < |idx| ==> idx[k] < idx[l])
  }

  /** The report follows the order of the records, one item per celebrated record. */
  lemma UpcomingInOrder(es: seq<Entry>, today: Date)
    requires EntriesValid(es) && IsValid(today)
    ensures exists idx :: ReportedInOrder(UpcomingOf(es, today), es, today, idx)
  {
    var rs := Reports(es, today);
    UpcomingIsConcat(es, today);
    ConcatInOrder(rs);
    var idx :| DrawnInOrder(Concat(rs), rs, idx);
    assert ReportedInOrder(UpcomingOf(es, today), es, today, idx);
  }

  // --------------------------------------------------- the book itself

  predicate NoDuplicates(s: seq<string>)
    decreases |s|
  {
    s == [] || (s[0] !in s[1..] && NoDuplicates(s[1..]))
  }

  /** The head-first definition says what it should: no two positions hold the same key. */
  lemma {:induction false} NoDuplicatesIff(s: seq<string>)
    ensures NoDuplicates(s) <==> forall i, j :: 0 <= i < j < |s| ==> s[i] != s[j]
    decreases |s|
  {
    if s != [] {
      NoDuplicatesIff(s[1..]);
      if NoDuplicates(s) {
        forall i, j | 0 <= i < j < |s|
          ensures s[i] != s[j]
        {
          assert s[j] == s[1..][j - 1];
          if 0 < i {
            assert s[i] == s[1..][i - 1];
          }
        }
      } else if s[0] in s[1..] {
        var j :| 0 <= j < |s[1..]| && s[1..][j] == s[0];
        assert s[0] == s[j + 1];
      } else {
        var i, j :| 0 <= i < j < |s[1..]| && s[1..][i] == s[1..][j];
        assert s[i + 1] == s[j + 1];
      }
    }
  }

  lemma NoDuplicatesCons(x: string, t: seq<string>)
    requires x !in t && NoDuplicates(t)
    ensures NoDuplicates([x] + t)
  {
    assert ([x] + t)[1..] == t;
  }

  /** Appending a key not yet listed keeps the keys listed once each. */
  lemma {:induction false} NoDuplicatesSnoc(s: seq<string>, x: string)
    requires NoDuplicates(s) && x !in s
    ensures NoDuplicates(s + [x])
    decreases |s|
  {
    if s != [] {
      NoDuplicatesSnoc(s[1..], x);
      assert (s + [x])[1..] == s[1..] + [x];
    }
  }

  /** The key order after `del d[x]`: x taken out, the rest in the same order. */
  function Without(s: seq<string>, x: string): (r: seq<string>)
    ensures forall y :: y in r <==> y in s && y != x
    ensures x !in s ==> r == s
    decreases |s|
  {
    if s == [] then []
    else if s[0] == x then Without(s[1..], x)
    else [s[0]] + Without(s[1..], x)
  }

  /** Taking a key out of keys listed once each leaves them listed once each. */
  lemma {:induction false} WithoutNoDuplicates(s: seq<string>, x: string)
    requires NoDuplicates(s)
    ensures NoDuplicates(Without(s, x))
    decreases |s|
  {
    if s != [] {
      WithoutNoDuplicates(s[1..], x);
      if s[0] != x {
        NoDuplicatesCons(s[0], Without(s[1..], x));
      }
    }
  }

  /** On keys listed once each, Without removes exactly the one position of x. */
  lemma {:induction false} WithoutFirst(s: seq<string>, x: string)
    requires NoDuplicates(s) && x in s
    ensures Without(s, x) == s[..FirstIndex(s, x)] + s[FirstIndex(s, x) + 1..]
    decreases |s|
  {
    if s[0] != x {
      WithoutFirst(s[1..], x);
      DropAfterHead(s, FirstIndex(s[1..], x));
    } else {
      assert s[..0] + s[1..] == s[1..];
    }
  }

  /** Dropping position k of the tail is dropping position k + 1 of the whole. */
  lemma DropAfterHead(s: seq<string>, k: int)
    requires 0 <= k < |s| - 1
    ensures [s[0]] + (s[1..][..k] + s[1..][k + 1..]) == s[..k + 1] + s[k + 2..]
  {
    assert s[..k + 1] == [s[0]] + s[1..][..k];
    assert s[k + 2..] == s[1..][k + 1..];
  }

  class AddressBook {
    /** The underlying dict, from name to record. */
    var data: map<string, Record>
    /** The dict's keys in insertion order. */
    var order: seq<string>

    /** Every key is its record's name, every record is valid, and order lists the keys once each. */
    ghost predicate Valid()
      reads this, data.Values
    {
      && (forall k :: k in data ==> data[k].name == k && data[k].Valid())
      && (forall k :: k in data <==> k in order)
      && NoDuplicates(order)
    }

    constructor ()
      ensures Valid() && data == map[] && order == []
    {
      data := map[];
      order := [];
    }

    /** add_record: the record is stored under its name, replacing any record already there. */
    method AddRecord(r: Record)
      requires Valid() && r.Valid()
      modifies this
      ensures Valid()
      ensures data == old(data)[r.name := r]
      ensures order == if r.name in old(data) then old(order) else old(order) + [r.name]
    {
      if r.name !in data {
        NoDuplicatesSnoc(order, r.name);
        order := order + [r.name];
      }
      data := data[r.name := r];
    }

    /** delete: an absent name fails and changes nothing; a present one is removed and nothing else changes. */
    method Delete(name: string) returns (res: Outcome)
      requires Valid()
      modifies this
      ensures Valid()
      ensures name !in old(data) ==> res == Fail(RecordNotFound) && data == old(data) && order == old(order)
      ensures name in old(data) ==> res == Pass && data == old(data) - {name} && order == Without(old(order), name)
      ensures Find(name) == None
    {
      if name in data {
        data := data - {name};
        WithoutNoDuplicates(order, name);
        order := Without(order, name);
        return Pass;
      } else {
        return Fail(RecordNotFound);
      }
    }

    /** find: the record stored under name, or None; it never fails. */
    function Find(name: string): (r: Option<Record>)
      reads this, data.Values
      requires Valid()
      ensures r.None? <==> name !in data
      ensures r.Some? ==> r.value == data[name] && r.value.name == name
    {
      if name in data then Some(data[name]) else None
    }

    /** add_birthday: delegates to the record under name; an absent name fails and nothing changes. */
    method AddBirthday(name: string, text: string) returns (res: Outcome)
      requires Valid()
      modifies data.Values
      ensures Valid() && unchanged(this)
      ensures name !in data ==> res == Fail(RecordNotFound)
      ensures name in data && ParseBirthday(text).Ok? ==>
        res == Pass && data[name].birthday == Some(ParseBirthday(text).value)
      ensures name in data && ParseBirthday(text).Err? ==>
        res == Fail(ParseBirthday(text).error) && data[name].birthday == old(data[name].birthday)
      ensures forall k :: k in data ==> data[k].phones == old(data[k].phones)
      ensures forall k :: k in data && k != name ==> data[k].birthday == old(data[k].birthday)
    {
      var found := Find(name);
      if found.None? {
        return Fail(RecordNotFound);
      }
      var message := found.value.AddBirthday(text);
      if message.Err? {
        return Fail(message.error);
      }
      return Pass;
    }

    /** show_birthday: the record's birthday text under name, or RecordNotFound. */
    function ShowBirthday(name: string): (r: Result<string>)
      reads this, data.Values
      requires Valid()
      ensures name !in data ==> r == Err(RecordNotFound)
      ensures name in data && data[name].birthday.None? ==> r == Ok(NO_BIRTHDAY)
      ensures name in data && data[name].birthday.Some? ==>
        && r == Ok(FormatDate(data[name].birthday.value))
        && ParseBirthday(r.value) == Ok(data[name].birthday.value)
    {
      match Find(name)
      case None => Err(RecordNotFound)
      case Some(rec) => Ok(rec.ShowBirthday())
    }

    /** The (name, birthday) pairs of the records whose keys are ks, in that order. */
    function SnapshotOf(ks: seq<string>): (es: seq<Entry>)
      reads this, data.Values
      requires forall k :: k in ks ==> k in data
      ensures |es| == |ks|
      ensures forall i :: 0 <= i < |ks| ==> es[i] == (ks[i], data[ks[i]].birthday)
      ensures Valid() ==> EntriesValid(es)
      decreases |ks|
    {
      if ks == [] then [] else SnapshotOf(ks[..|ks| - 1]) + [(ks[|ks| - 1], data[ks[|ks| - 1]].birthday)]
    }

    /** The records as birthdays() iterates over them. */
    function Snapshot(): (es: seq<Entry>)
      reads this, data.Values
      requires Valid()
      ensures EntriesValid(es)
    {
      SnapshotOf(order)
    }

    /** birthdays(), with today given: the report over the records in insertion order. */
    method Birthdays(today: Date) returns (upcoming: seq<Upcoming>)
      requires Valid() && IsValid(today)
      ensures upcoming == UpcomingOf(Snapshot(), today)
    {
      ghost var es := Snapshot();
      upcoming := [];
      var i := 0;
      EntriesValidPrefix(es, 0);
      while i < |order|
        invariant 0 <= i <= |order|
        invariant EntriesValid(es[..i])
        invariant upcoming == UpcomingOf(es[..i], today)
      {
        var name := order[i];
        var rec := data[name];
        assert es[i] == (name, rec.birthday);
        UpcomingPrefixStep(es, i, today);
        if rec.birthday.Some? {
          match Celebration(rec.birthday.value, today)
          case None =>
          case Some(c) =>
            upcoming := upcoming + [Upcoming(name, FormatDate(c))];
        }
        i := i + 1;
      }
      assert es[..i] == es;
    }
  }

  /** Record(name) followed by add_record: a new, empty record stored under name, or EmptyName and no change. */
  method AddNewRecord(book: AddressBook, name: string) returns (res: Result<Record>)
    requires book.Valid() && name !in book.data
    modifies book
    ensures book.Valid()
    ensures res.Err? <==> !IsValidName(name)
    ensures res.Err? ==> res.error == EmptyName && book.data == old(book.data) && book.order == old(book.order)
    ensures res.Ok? ==>
      && fresh(res.value)
      && res.value.name == name && res.value.phones == [] && res.value.birthday == None
      && book.data == old(book.data)[name := res.value]
      && book.order == old(book.order) + [name]
  {
    var created := Record.Create(name);
    if created.Err? {
      return Err(created.error);
    }
    book.AddRecord(created.value);
    return Ok(created.value);
  }

  /**
   * The "add <name> <phone>" command: find or create the record, store a new
   * one before validating the phone, then append the phone if one was given.
   * An invalid phone therefore still leaves a new, empty record in the book.
   */
  method AddContact(book: AddressBook, name: string, phone: string) returns (res: Result<string>)
    requires book.Valid()
    modifies book, book.data.Values
    ensures book.Valid()
    ensures name !in old(book.data) && !IsValidName(name) ==>
      res == Err(EmptyName) && book.data == old(book.data) && book.order == old(book.order)
    ensures name in old(book.data) || IsValidName(name) ==>
      && name in book.data
      && (forall k :: k in old(book.data) ==> k in book.data && book.data[k] == old(book.data[k]))
      && (forall k :: k in book.data ==> k in old(book.data) || k == name)
      && book.order == (if name in old(book.data) then old(book.order) else old(book.order) + [name])
    ensures forall k :: k in old(book.data) && k != name ==>
      book.data[k].phones == old(book.data[k].phones) && book.data[k].birthday == old(book.data[k].birthday)
    ensures name in old(book.data) || IsValidName(name) ==>
      var before := if name in old(book.data) then old(book.data[name].phones) else [];
      var message := if name in old(book.data) then CONTACT_UPDATED else CONTACT_ADDED;
      && book.data[name].birthday == (if name in old(book.data) then old(book.data[name].birthday) else None)
      && (phone == "" ==> res == Ok(message) && book.data[name].phones == before)
      && (phone != "" && IsValidPhone(phone) ==> res == Ok(message) && book.data[name].phones == before + [phone])
      && (phone != "" && !IsValidPhone(phone) ==> res == Err(InvalidPhone) && book.data[name].phones == before)
  {
    var found := book.Find(name);
    var message := CONTACT_UPDATED;
    var rec: Record;
    if found.None? {
      var created := AddNewRecord(book, name);
      if created.Err? {
        return Err(created.error);
      }
      rec := created.value;
      message := CONTACT_ADDED;
    } else {
      rec := found.value;
    }
    if phone != "" {
      var added := rec.AddPhone(phone);
      if added.Fail? {
        return Err(added.error);
      }
    }
    return Ok(message);
  }
}
