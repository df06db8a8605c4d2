/**
 * The three validated fields of a contact: Name, Phone and Birthday.
 * Each constructor of the source either keeps its value or raises
 * ValueError; here each is a function returning a Result.
 */
module Fields {
  import opened Wrappers
  import opened Calendar

  /** The ASCII characters str.strip() removes: TAB..CR, FS..US and space. */
  predicate IsSpace(c: char) {
    (9 <= c as int <= 13) || (28 <= c as int <= 32)
  }

  predicate IsDigit(c: char) {
    '0' <= c <= '9'
  }

  function StripLeft(s: string): (r: string)
    ensures |r| <= |s| && r == s[|s| - |r|..]
    ensures forall i :: 0 <= i < |s| - |r| ==> IsSpace(s[i])
    ensures r != [] ==> !IsSpace(r[0])
    decreases |s|
  {
    if s != [] && IsSpace(s[0]) then StripLeft(s[1..]) else s
  }

  function StripRight(s: string): (r: string)
    ensures |r| <= |s| && r == s[..|r|]
    ensures forall i :: |r| <= i < |s| ==> IsSpace(s[i])
    ensures r != [] ==> !IsSpace(r[|r| - 1])
    decreases |s|
  {
    if s != [] && IsSpace(s[|s| - 1]) then StripRight(s[..|s| - 1]) else s
  }

  /** str.strip(): s without its leading and trailing whitespace. */
  function Strip(s: string): (r: string)
    ensures r == [] <==> forall i :: 0 <= i < |s| ==> IsSpace(s[i])
    ensures r != [] ==> !IsSpace(r[0]) && !IsSpace(r[|r| - 1])
  {
    var l := StripLeft(s);
    var r := StripRight(l);
    assert l != [] ==> r != [];
    r
  }

  /** Strip removes only leading and trailing whitespace, leaving the middle of s as it is. */
  lemma StripTrims(s: string)
    ensures exists i :: 0 <= i <= |s| && IsTrimOf(s, i, Strip(s))
  {
    var l := StripLeft(s);
    assert IsTrimOf(s, |s| - |l|, Strip(s));
  }

  /** s is whitespace before position i, then r, then whitespace to the end. */
  predicate IsTrimOf(s: string, i: nat, r: string)
    requires i <= |s|
  {
    && (forall k :: 0 <= k < i ==> IsSpace(s[k]))
    && r <= s[i..]
    && (forall k :: |r| <= k < |s[i..]| ==> IsSpace(s[i..][k]))
  }

  lemma StripUnpadded(s: string)
    requires s != [] && !IsSpace(s[0]) && !IsSpace(s[|s| - 1])
    ensures Strip(s) == s
  {
  }

  /** Every character is an ASCII digit; str.isdigit() also demands a non-empty text, which IsValidPhone adds. */
  predicate AllDigits(s: string)
    ensures AllDigits(s) <==> forall i :: 0 <= i < |s| ==> IsDigit(s[i])
  {
    s == [] || (IsDigit(s[0]) && AllDigits(s[1..]))
  }

  // ---------------------------------------------------------------- Name

  /** Some character of s is not whitespace, scanning from the front. */
  predicate HasNonSpace(s: string)
    decreases |s|
  {
    s != [] && (!IsSpace(s[0]) || HasNonSpace(s[1..]))
  }

  lemma {:induction false} HasNonSpaceIff(s: string)
    ensures HasNonSpace(s) <==> exists i :: 0 <= i < |s| && !IsSpace(s[i])
    decreases |s|
  {
    if s != [] {
      HasNonSpaceIff(s[1..]);
      if exists i :: 0 <= i < |s[1..]| && !IsSpace(s[1..][i]) {
        var i :| 0 <= i < |s[1..]| && !IsSpace(s[1..][i]);
        assert s[i + 1] == s[1..][i];
      }
      if exists i :: 0 <= i < |s| && !IsSpace(s[i]) {
        var i :| 0 <= i < |s| && !IsSpace(s[i]);
        if i > 0 {
          assert s[1..][i - 1] == s[i];
        }
      }
    }
  }

  /** What Name accepts: text that is not all whitespace. */
  predicate IsValidName(v: string) {
    HasNonSpace(v)
  }

  /** Name(v): accepted exactly when v.strip() is not empty; the value is kept unstripped. */
  function NewName(v: string): (r: Result<string>)
    ensures r.Ok? <==> IsValidName(v)
    ensures r.Ok? <==> exists i :: 0 <= i < |v| && !IsSpace(v[i])
    ensures r.Ok? ==> r.value == v
    ensures r.Err? ==> r.error == EmptyName
  {
    HasNonSpaceIff(v);
    if Strip(v) == [] then Err(EmptyName) else Ok(v)
  }

  // --------------------------------------------------------------- Phone

  predicate IsValidPhone(v: string) {
    v != [] && AllDigits(v) && |v| == 10
  }

  /** Phone(v): accepted exactly when v is ten ASCII digits. */
  function NewPhone(v: string): (r: Result<string>)
    ensures r.Ok? <==> |v| == 10 && forall i :: 0 <= i < |v| ==> IsDigit(v[i])
    ensures r.Ok? ==> r.value == v
    ensures r.Err? ==> r.error == InvalidPhone
  {
    if !(v != [] && AllDigits(v)) || |v| != 10 then Err(InvalidPhone) else Ok(v)
  }

  // ------------------------------------------------------------ Birthday

  function DigitValue(c: char): int
    requires IsDigit(c)
  {
    c as int - '0' as int
  }

  function Digit(n: int): (c: char)
    requires 0 <= n <= 9
    ensures IsDigit(c) && DigitValue(c) == n
  {
    ('0' as int + n) as char
  }

  function Pow10(k: nat): nat {
    if k == 0 then 1 else 10 * Pow10(k - 1)
  }

  /** int(s) for a string of ASCII digits. */
  function NumberValue(s: string): (n: nat)
    requires AllDigits(s)
    ensures n < Pow10(|s|)
    decreases |s|
  {
    if s == [] then 0 else NumberValue(s[..|s| - 1]) * 10 + DigitValue(s[|s| - 1])
  }

  /** strftime's zero-padded two-digit field (%d, %m). */
  function TwoDigits(n: int): (s: string)
    requires 0 <= n <= 99
    ensures |s| == 2 && AllDigits(s)
  {
    [Digit(n / 10), Digit(n % 10)]
  }

  /** strftime's four-digit year field (%Y), zero-padded. */
  function FourDigits(n: int): (s: string)
    requires 0 <= n <= 9999
    ensures |s| == 4 && AllDigits(s)
  {
    TwoDigits(n / 100) + TwoDigits(n % 100)
  }

  /** date.strftime('%d.%m.%Y'). */
  function FormatDate(d: Date): (s: string)
    requires IsValid(d)
    ensures |s| == 10 && s[2] == '.' && s[5] == '.'
  {
    TwoDigits(d.day) + "." + TwoDigits(d.month) + "." + FourDigits(d.year)
  }

  /**
   * Length of the run of digits in t starting at i: strptime's %d and %m
   * fields are followed by a literal '.', so each field is such a run.
   */
  function DigitRun(t: string, i: nat): (n: nat)
    requires i <= |t|
    ensures i + n <= |t|
    ensures forall k :: i <= k < i + n ==> IsDigit(t[k])
    ensures i + n < |t| ==> !IsDigit(t[i + n])
    decreases |t| - i
  {
    if i < |t| && IsDigit(t[i]) then 1 + DigitRun(t, i + 1) else 0
  }

  /**
   * The shape strptime(t, '%d.%m.%Y') demands of t on ASCII text: one or two
   * digits, a '.', one or two digits, a '.', exactly four digits, and
   * nothing after them. The three digit fields, when t has that shape.
   */
  function SplitFields(t: string): (r: Option<(string, string, string)>)
    ensures r.Some? ==>
      && 1 <= |r.value.0| <= 2 && AllDigits(r.value.0)
      && 1 <= |r.value.1| <= 2 && AllDigits(r.value.1)
      && |r.value.2| == 4 && AllDigits(r.value.2)
      && t == r.value.0 + "." + r.value.1 + "." + r.value.2
  {
    var a := DigitRun(t, 0);
    if !(1 <= a <= 2 && a < |t| && t[a] == '.') then None
    else
      var b := DigitRun(t, a + 1);
      if !(1 <= b <= 2 && a + 1 + b < |t| && t[a + 1 + b] == '.') then None
      else
        var ds, ms, ys := t[..a], t[a + 1..a + 1 + b], t[a + 2 + b..];
        if !(|ys| == 4 && AllDigits(ys)) then None
        else
          assert AllDigits(ds) && AllDigits(ms) by {
            assert forall k :: 0 <= k < a ==> ds[k] == t[k];
            assert forall k :: 0 <= k < b ==> ms[k] == t[a + 1 + k];
          }
          assert t == ds + "." + ms + "." + ys;
          Some((ds, ms, ys))
  }

  /**
   * The date the fields of SplitFields are worth: the day 1..31, the month
   * 1..12, the year at least 1 and the day within the month, as strptime and
   * date() check them.
   */
  function FieldsDate(ds: string, ms: string, ys: string): (r: Option<Date>)
    requires AllDigits(ds) && AllDigits(ms) && AllDigits(ys) && |ys| == 4
    ensures r.Some? ==> IsValid(r.value)
    ensures r.Some? ==> r.value == Date(NumberValue(ys), NumberValue(ms), NumberValue(ds))
  {
    var day, month, year := NumberValue(ds), NumberValue(ms), NumberValue(ys);
    if 1 <= day <= 31 && 1 <= month <= 12 && 1 <= year && day <= DaysInMonth(year, month)
    then Some(Date(year, month, day))
    else None
  }

  /** datetime.strptime(t, '%d.%m.%Y').date() on ASCII text. */
  function ParseDate(t: string): (r: Option<Date>)
    ensures r.Some? ==> IsValid(r.value)
  {
    match SplitFields(t)
    case None => None
    case Some((ds, ms, ys)) => FieldsDate(ds, ms, ys)
  }

  /** Birthday(v): empty after stripping, or not a DD.MM.YYYY date, raises; otherwise the parsed date. */
  function ParseBirthday(v: string): (r: Result<Date>)
    ensures r.Ok? ==> IsValid(r.value)
    ensures r == Err(EmptyBirthday) <==> forall i :: 0 <= i < |v| ==> IsSpace(v[i])
    ensures r.Err? ==> r.error in {EmptyBirthday, InvalidDate}
  {
    var t := Strip(v);
    if t == [] then Err(EmptyBirthday)
    else match ParseDate(t)
      case None => Err(InvalidDate)
      case Some(d) => Ok(d)
  }

  /** A text whose first, unpadded character is not a digit is no date. */
  lemma NonDigitStartRejected(v: string)
    requires v != [] && !IsSpace(v[0]) && !IsSpace(v[|v| - 1]) && !IsDigit(v[0])
    ensures ParseBirthday(v) == Err(InvalidDate)
  {
    StripUnpadded(v);
    assert DigitRun(v, 0) == 0;
  }

  /** The texts strptime accepts for a day or month field worth n: two digits, or one when n < 10. */
  function FieldForms(n: int): set<string>
    requires 1 <= n <= 99
  {
    if n < 10 then {[Digit(n)], TwoDigits(n)} else {TwoDigits(n)}
  }

  /** t spells the date d in '%d.%m.%Y' form. */
  ghost predicate IsSpelling(t: string, d: Date)
    requires IsValid(d)
  {
    exists ds, ms :: ds in FieldForms(d.day) && ms in FieldForms(d.month) &&
      t == ds + "." + ms + "." + FourDigits(d.year)
  }

  // ------------------------------------------------- lemmas about digits

  lemma NumberValueTwo(s: string)
    requires |s| == 2 && AllDigits(s)
    ensures NumberValue(s) == DigitValue(s[0]) * 10 + DigitValue(s[1])
  {
    assert s[..1][..0] == [];
  }

  lemma NumberValueFour(s: string)
    requires |s| == 4 && AllDigits(s)
    ensures NumberValue(s) == NumberValue(s[..2]) * 100 + NumberValue(s[2..])
  {
    var s3 := s[..3];
    assert s3[..2] == s[..2];
    NumberValueTwo(s[..2]);
    NumberValueTwo(s[2..]);
  }

  lemma DigitRoundTrip(c: char)
    requires IsDigit(c)
    ensures Digit(DigitValue(c)) == c
  {
  }

  /** Reading back a two-digit field gives its number. */
  lemma TwoDigitsValue(n: int)
    requires 0 <= n <= 99
    ensures NumberValue(TwoDigits(n)) == n
  {
    NumberValueTwo(TwoDigits(n));
  }

  /** A two-digit string is the spelling of its own value. */
  lemma TwoDigitsOf(s: string)
    requires |s| == 2 && AllDigits(s)
    ensures TwoDigits(NumberValue(s)) == s
  {
    NumberValueTwo(s);
    DigitRoundTrip(s[0]);
    DigitRoundTrip(s[1]);
  }

  lemma FourDigitsValue(n: int)
    requires 0 <= n <= 9999
    ensures NumberValue(FourDigits(n)) == n
  {
    var f := FourDigits(n);
    assert f[..2] == TwoDigits(n / 100) && f[2..] == TwoDigits(n % 100);
    NumberValueFour(f);
    TwoDigitsValue(n / 100);
    TwoDigitsValue(n % 100);
  }

  lemma FourDigitsOf(s: string)
    requires |s| == 4 && AllDigits(s)
    ensures FourDigits(NumberValue(s)) == s
  {
    NumberValueFour(s);
    TwoDigitsOf(s[..2]);
    TwoDigitsOf(s[2..]);
    var v := NumberValue(s);
    assert v / 100 == NumberValue(s[..2]) && v % 100 == NumberValue(s[2..]);
    assert s == s[..2] + s[2..];
  }

  lemma OneDigitRoundTrip(s: string)
    requires |s| == 1 && AllDigits(s)
    ensures NumberValue(s) == DigitValue(s[0]) && [Digit(NumberValue(s))] == s
  {
    assert s[..0] == [];
    DigitRoundTrip(s[0]);
  }

  /** A field of FieldForms(n) is a run of one or two digits worth n. */
  lemma FieldFormValue(n: int, s: string)
    requires 1 <= n <= 99 && s in FieldForms(n)
    ensures 1 <= |s| <= 2 && AllDigits(s) && NumberValue(s) == n
  {
    if |s| == 1 {
      OneDigitRoundTrip(s);
    } else {
      TwoDigitsOf(s);
    }
  }

  /** A run of one or two digits worth n is one of FieldForms(n). */
  lemma FieldFormOf(s: string)
    requires 1 <= |s| <= 2 && AllDigits(s) && 1 <= NumberValue(s) <= 99
    ensures s in FieldForms(NumberValue(s))
  {
    if |s| == 1 {
      OneDigitRoundTrip(s);
    } else {
      TwoDigitsOf(s);
    }
  }

  /** DigitRun measures exactly a run of digits that ends the text or stops at a non-digit. */
  lemma {:induction false} DigitRunIs(t: string, i: nat, n: nat)
    requires i + n <= |t|
    requires forall k :: i <= k < i + n ==> IsDigit(t[k])
    requires i + n < |t| ==> !IsDigit(t[i + n])
    ensures DigitRun(t, i) == n
    decreases n
  {
    if n > 0 {
      DigitRunIs(t, i + 1, n - 1);
    }
  }

  // ------------------------------------------------ lemmas about parsing

  /** Text of the right shape is split back into the fields it was made of. */
  lemma SplitFieldsOf(ds: string, ms: string, ys: string)
    requires 1 <= |ds| <= 2 && AllDigits(ds) && 1 <= |ms| <= 2 && AllDigits(ms)
    requires |ys| == 4 && AllDigits(ys)
    ensures SplitFields(ds + "." + ms + "." + ys) == Some((ds, ms, ys))
  {
    var t := ds + "." + ms + "." + ys;
    var a, b := |ds|, |ms|;
    assert t[..a] == ds && t[a] == '.';
    assert t[a + 1..a + 1 + b] == ms && t[a + 1 + b] == '.';
    assert t[a + 2 + b..] == ys;
    DigitRunIs(t, 0, a);
    DigitRunIs(t, a + 1, b);
    SplitFieldsAt(t, a, b);
  }

  lemma SplitFieldsAt(t: string, a: nat, b: nat)
    requires 1 <= a <= 2 && a + 1 + b < |t| && 1 <= b <= 2
    requires DigitRun(t, 0) == a && t[a] == '.' && DigitRun(t, a + 1) == b && t[a + 1 + b] == '.'
    requires |t[a + 2 + b..]| == 4 && AllDigits(t[a + 2 + b..])
    ensures SplitFields(t) == Some((t[..a], t[a + 1..a + 1 + b], t[a + 2 + b..]))
  {
  }

  /** Everything strptime accepts is a spelling of the date it returns. */
  lemma ParseDateSound(t: string)
    requires ParseDate(t).Some?
    ensures IsSpelling(t, ParseDate(t).value)
  {
    var (ds, ms, ys) := SplitFields(t).value;
    FieldFormOf(ds);
    FieldFormOf(ms);
    FourDigitsOf(ys);
  }

  /** Every spelling of a valid date is accepted by strptime and yields that date. */
  lemma ParseDateComplete(t: string, d: Date)
    requires IsValid(d) && IsSpelling(t, d)
    ensures ParseDate(t) == Some(d)
  {
    var ds, ms :| ds in FieldForms(d.day) && ms in FieldForms(d.month) &&
      t == ds + "." + ms + "." + FourDigits(d.year);
    FieldFormValue(d.day, ds);
    FieldFormValue(d.month, ms);
    FourDigitsValue(d.year);
    SplitFieldsOf(ds, ms, FourDigits(d.year));
  }

  /** Birthday(v) yields d exactly when v, stripped, spells the valid date d. */
  lemma ParseBirthdayIff(v: string, d: Date)
    ensures ParseBirthday(v) == Ok(d) <==> IsValid(d) && IsSpelling(Strip(v), d)
  {
    if ParseBirthday(v) == Ok(d) {
      ParseDateSound(Strip(v));
    }
    if IsValid(d) && IsSpelling(Strip(v), d) {
      ParseDateComplete(Strip(v), d);
    }
  }

  /** The '%d.%m.%Y' rendering of a date reads back as that date. */
  lemma FormatRoundTrip(d: Date)
    requires IsValid(d)
    ensures ParseBirthday(FormatDate(d)) == Ok(d)
  {
    var s := FormatDate(d);
    StripUnpadded(s);
    assert TwoDigits(d.day) in FieldForms(d.day) && TwoDigits(d.month) in FieldForms(d.month);
    ParseDateComplete(s, d);
  }
}
