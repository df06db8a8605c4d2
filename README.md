# Contact book with birthday reminders, in Dafny

This project models the in-memory core of a command-line contact book, `hw.py`.
It covers three parts:

- **Fields.** The three validated fields of a contact:
  - `Name`: any text that is not all whitespace;
  - `Phone`: exactly ten ASCII digits;
  - `Birthday`: a `DD.MM.YYYY` date read with `strptime('%d.%m.%Y')` after stripping.
- **Records.** A `Record` is a class. Its name is immutable, its phones are an ordered list, and its birthday is optional. The phone operations scan the list from the front and act on the first match.
- **The address book.** An `AddressBook` is a class holding a `map` from name to record and a `seq` of keys in insertion order, which is the iteration order of a Python dict. It provides:
  - add, delete and find;
  - the birthday delegates;
  - the upcoming-birthdays query, with `today` given as a parameter;
  - the find-or-create-then-add-phone logic of the `add` command.

Python's `ValueError` exceptions become `Result` and `Outcome` values carrying an `Error`.

Dates follow Python's `datetime.date`:

- the proleptic Gregorian calendar, years 1..9999;
- comparison field by field;
- `toordinal()` counted year by year, and proved equal to the closed form Python uses;
- `weekday() = (ordinal + 6) % 7`, with 0 = Monday;
- `replace(year=...)`, which fails for 29 February in a common year and for years outside 1..9999.

The birthday query is proved to have these properties:

- It reports exactly the records whose birthday has an occurrence 0..7 days from today. The occurrence is this year's date, or next year's when this year's has passed.
- A Saturday moves to Monday (+2 days) and a Sunday moves to Monday (+1 day). No reported date is a weekend.
- Records without a birthday are skipped, and so are records whose 29 February has no occurrence.
- The report follows insertion order.
- The Monday shift can never pass 31.12.9999, because that date is a Friday. So the `OverflowError` that the source's `except` clause would not catch cannot happen.

The code reports the shifted celebration date, not the birthday itself.

Modules:

| file | module | content |
|---|---|---|
| wrappers.dfy | `Wrappers` | `Option`, `Result`, `Outcome`, `Error` |
| calendar.dfy | `Calendar` | dates, ordinal, weekday, adding days, `replace(year=...)` |
| fields.dfy | `Fields` | `str.strip`, the Name/Phone validators, the `%d.%m.%Y` parser and formatter |
| record.dfy | `Contacts` | `class Record` |
| address_book.dfy | `AddressBooks` | the birthday window and report, `class AddressBook`, the `add` upsert |

## Model

| member | source | states |
|---|---|---|
| Fields.Strip | hw.py:34 | the stripped text is empty exactly when every character is whitespace; otherwise it starts and ends with a non-space |
| Fields.StripTrims | hw.py:34 | the stripped text is `s` with only a whitespace prefix and a whitespace suffix removed (`Fields.IsTrimOf`), so its middle is unchanged |
| Fields.AllDigits | hw.py:42 | holds exactly when every character is an ASCII digit |
| Fields.HasNonSpaceIff | hw.py:34 | the name check holds exactly when some character is not whitespace |
| Fields.NewName | hw.py:31-36 | `Name(v)` succeeds exactly when `v.strip()` is non-empty, keeps `v` unstripped, and otherwise fails with the empty-name error |
| Fields.NewPhone | hw.py:39-44 | `Phone(v)` succeeds exactly when `v` has length 10 and only digits, keeps `v`, and otherwise fails with the invalid-phone error |
| Fields.NumberValue | hw.py:52 | the value of a digit string is below 10 to the power of its length |
| Fields.DigitRun | hw.py:52 | the measured run holds only digits and ends at the end of the text or at a non-digit |
| Fields.DigitRunIs | hw.py:52 | any digit run that is maximal in that sense is the one measured |
| Fields.SplitFields | hw.py:52 | an accepted text is 1-2 digits, '.', 1-2 digits, '.', exactly 4 digits, with nothing before or after |
| Fields.SplitFieldsOf | hw.py:52 | every text of that shape is split back into the fields it was built from |
| Fields.FieldsDate | hw.py:52 | an accepted field triple yields a valid date whose year, month and day are the fields' values |
| Fields.ParseDate | hw.py:52 | any date `strptime` returns is one Python can hold |
| Fields.ParseDateSound | hw.py:52 | every accepted text is a spelling of the returned date (1-2 digit day and month, 4-digit year) |
| Fields.ParseDateComplete | hw.py:52 | every spelling of every valid date is accepted and yields that date |
| Fields.ParseBirthday | hw.py:46-55 | only whitespace-only text gets the empty-birthday error; every other failure is the invalid-date error; success yields a valid date |
| Fields.ParseBirthdayIff | hw.py:46-55 | `Birthday(v)` yields `d` exactly when `d` is valid and `v.strip()` spells `d` |
| Fields.TwoDigits | hw.py:100 | `%d` and `%m` write exactly two digits, padding with a zero; characterised by `Fields.TwoDigitsValue` and `Fields.TwoDigitsOf` |
| Fields.FourDigits | hw.py:100 | `%Y` writes exactly four digits; characterised by `Fields.FourDigitsValue` and `Fields.FourDigitsOf` |
| Fields.FormatDate | hw.py:100 | `strftime('%d.%m.%Y')` is ten characters with '.' at positions 2 and 5; characterised by `Fields.FormatRoundTrip` |
| Fields.NonDigitStartRejected | hw.py:52-55 | an unpadded text that does not start with a digit fails with the invalid-date error |
| Fields.FormatRoundTrip | hw.py:95-100 | the `%d.%m.%Y` text of any valid date parses back to that date |
| Fields.TwoDigitsValue | hw.py:100 | a zero-padded two-digit field reads back as its number |
| Fields.TwoDigitsOf | hw.py:52 | every two-digit string is the padded spelling of its own value |
| Fields.FourDigitsValue | hw.py:100 | the four-digit year field reads back as the year |
| Fields.FourDigitsOf | hw.py:52 | every four-digit string is the padded spelling of its own value |
| Fields.FieldFormValue | hw.py:52 | each accepted spelling of a day or month is 1-2 digits worth that number |
| Fields.FieldFormOf | hw.py:52 | each run of 1-2 digits is an accepted spelling of its value |
| Calendar.IsLeapYear | hw.py:141 | definition of the Gregorian leap year, used by `replace(year=...)`; characterised by `Calendar.ReplaceYear` and `Calendar.DaysBeforeYearFormula` |
| Calendar.Before | hw.py:143 | definition of `date` comparison, field by field; characterised by `Calendar.BeforeIffOrdinalLess` |
| Calendar.Ordinal | hw.py:146 | definition of `toordinal()`, counted year by year and month by month; characterised by `Calendar.DaysBeforeYearFormula`, `Calendar.MonthTable` and `Calendar.BeforeIffOrdinalLess` |
| Calendar.Weekday | hw.py:149 | definition of `weekday()` as `(ordinal + 6) % 7`; characterised by `Calendar.WeekdayAfter` and `Calendar.LastDateIsFriday` |
| Calendar.DaysInMonth | hw.py:141 | every month has 28 to 31 days |
| Calendar.DaysBeforeYearFormula | hw.py:146 | the year-by-year day count equals `365(y-1) + (y-1)/4 - (y-1)/100 + (y-1)/400` |
| Calendar.FormulaStep | hw.py:146 | one more year in the closed form adds exactly that year's length |
| Calendar.MonthTable | hw.py:146 | the month-by-month day count equals the cumulative month table, plus one after February in a leap year |
| Calendar.MonthsOrdered | hw.py:143 | an earlier month of the same year ends no later than a later month begins |
| Calendar.YearsOrdered | hw.py:143 | an earlier year ends no later than a later year begins |
| Calendar.DayOfYearBound | hw.py:143 | a date's day within its year is at most the year's length |
| Calendar.OrdinalMonotone | hw.py:143 | a date compared as earlier has a smaller ordinal |
| Calendar.BeforeIffOrdinalLess | hw.py:143 | field-by-field `<` agrees with ordinal `<`, and equal dates are exactly those with equal ordinals |
| Calendar.NextDay | hw.py:150 | the next day is a calendar date whose ordinal is one more |
| Calendar.AddDays | hw.py:150 | `d + timedelta(days=n)` is a calendar date whose ordinal is `n` more |
| Calendar.ReplaceYear | hw.py:141 | `replace(year=y)` keeps month and day, and fails exactly for years outside 1..9999 or for 29 February in a common year |
| Calendar.WeekdayAfter | hw.py:149-150 | `n` days later the weekday has moved on by `n` modulo 7 |
| Calendar.LastDateIsFriday | hw.py:150 | 31.12.9999 has ordinal 3652059 and is a Friday |
| Calendar.OrdinalAtMostLast | hw.py:150 | no date Python can hold has an ordinal past 31.12.9999 |
| Calendar.WithinLastIsValid | hw.py:150 | a calendar date whose ordinal is at most that of 31.12.9999 has a year of at most 9999 |
| Contacts.FirstIndex | hw.py:74-76 | the position found holds the number, and no earlier position does |
| Contacts.JoinPhones | hw.py:66 | definition of `'; '.join(...)` over the phone values; characterised by `Contacts.SplitJoin` |
| Contacts.SplitJoin | hw.py:66 | a list of ten-character phones joined with '; ' splits back into the same list |
| Contacts.Record.constructor | hw.py:58-61 | a record built from a valid name has that name, no phones and no birthday |
| Contacts.Record.Create | hw.py:58-61 | `Record(name)` fails exactly when `Name(name)` does, with the empty-name error; otherwise it returns a new valid record with no phones and no birthday |
| Contacts.Record.ToString | hw.py:65-66 | `str(record)` starts with "Contact name: ", the name and ", phones: ", and the rest reads back as the phone list in order |
| Contacts.Record.AddPhone | hw.py:68-70 | a valid number is appended at the end with no deduplication; an invalid one fails and leaves the phones unchanged; the birthday is untouched |
| Contacts.Record.EditPhone | hw.py:72-78 | an invalid new number fails even if the old one is absent; otherwise only the first occurrence of the old number is replaced; an absent old number fails and changes nothing |
| Contacts.Record.FindPhone | hw.py:80-84 | finds something exactly when the number is present, and then returns the first match; nothing changes |
| Contacts.Record.DeletePhone | hw.py:86-91 | removes only the first occurrence and keeps the rest in order; an absent number fails and changes nothing |
| Contacts.Record.AddBirthday | hw.py:93-95 | a parsed birthday replaces any previous one, and the message is "Birthday added: " plus its `%d.%m.%Y` text; a rejected text fails with the parser's error and changes nothing |
| Contacts.Record.ShowBirthday | hw.py:97-100 | "Birthday not set" when there is no birthday, which does not parse as a date; otherwise exactly the zero-padded `%d.%m.%Y` text of the birthday, which parses back to it |
| Contacts.NotSetIsNoDate | hw.py:97-98 | the not-set message is rejected by the birthday parser |
| AddressBooks.Occurrence | hw.py:140-144 | an occurrence is a valid date with the birthday's month and day |
| AddressBooks.OccurrenceIsNext | hw.py:140-144 | the occurrence is not before today, is in this year or, when this year's date has passed, in next year, and is the earliest such date |
| AddressBooks.OccurrenceMissing | hw.py:140-144 | there is no occurrence exactly for 29 February without a usable leap day, or when the date has passed in year 9999 |
| AddressBooks.ShiftInRange | hw.py:149-150 | moving a Saturday or Sunday on to Monday never passes year 9999 |
| AddressBooks.MondayAfter | hw.py:149-150 | a Saturday moves on 2 days and a Sunday 1 day, to a valid Monday |
| AddressBooks.WeekendToMonday | hw.py:148-150 | the celebration date is a weekday 0..2 days later; a weekend day becomes Monday; a weekday stays |
| AddressBooks.WeekendRun | hw.py:149-150 | day numbers from a weekend day up to its Monday are all weekend days |
| AddressBooks.WeekendSkipped | hw.py:149-150 | every day the shift skips is a Saturday or Sunday, so the Monday is the first weekday on or after the occurrence |
| AddressBooks.Celebration | hw.py:140-150 | a celebration exists exactly when the occurrence exists and is 0..7 days from today; it is the occurrence moved off the weekend, and never a Saturday or Sunday |
| AddressBooks.CelebrationWindow | hw.py:146-150 | a celebration is 0..9 days after today and is a weekday |
| AddressBooks.LeapDayCelebration | hw.py:141-144 | a 29 February birthday is celebrated only in a leap year, on this year's occurrence |
| AddressBooks.SaturdayShift | hw.py:146-151 | asked on a Monday, a birthday on the following Saturday is reported for the Monday seven days after today |
| AddressBooks.MondayTenthJune2024 | hw.py:149 | 10.06.2024 has ordinal 739047 and is a Monday |
| AddressBooks.SaturdayBirthdayExample | hw.py:140-151 | born 15.06.1990 and asked on Monday 10.06.2024, the Saturday birthday is celebrated on Monday 17.06.2024 |
| AddressBooks.PassedBirthdayExample | hw.py:140-147 | born 08.06.1990 and asked on 10.06.2024, the birthday has passed and next year's occurrence is outside the window, so nothing is reported |
| AddressBooks.ReportOf | hw.py:137-151 | definition of one record's contribution to the report; characterised by `AddressBooks.ReportedMeans` |
| AddressBooks.UpcomingOf | hw.py:132-154 | definition of the whole report over the records in order; characterised by `AddressBooks.UpcomingMembership` and `AddressBooks.UpcomingInOrder` |
| AddressBooks.ConcatMembership | hw.py:151 | an item is in the joined lists exactly when it is in one of them |
| AddressBooks.ConcatInOrder | hw.py:151 | joining lists of at most one item each lists those items in the lists' order |
| AddressBooks.UpcomingAppend | hw.py:151 | one more record adds its own item, if any, at the end of the report |
| AddressBooks.UpcomingPrefixStep | hw.py:136-151 | the report over one more record is the report so far followed by that record's item |
| AddressBooks.UpcomingIsConcat | hw.py:136-154 | the report is the records' own reports joined in record order |
| AddressBooks.ReportedMeans | hw.py:137-151 | a record reports an item exactly when it has a birthday with a celebration, and the item is its name with that date as `%d.%m.%Y` |
| AddressBooks.UpcomingMembership | hw.py:136-154 | an item is in the report exactly when some record reports it |
| AddressBooks.UpcomingInOrder | hw.py:136-154 | the report items map to the records they come from in increasing position, so the output follows the book's order |
| AddressBooks.NoDuplicatesIff | hw.py:107 | the key list has no repeats exactly when no two positions hold the same key |
| AddressBooks.NoDuplicatesCons | hw.py:107 | putting a new key in front keeps the keys distinct |
| AddressBooks.NoDuplicatesSnoc | hw.py:107 | appending a new key keeps the keys distinct |
| AddressBooks.Without | hw.py:111 | after removal the list holds exactly the other keys, and an absent key changes nothing |
| AddressBooks.WithoutNoDuplicates | hw.py:111 | removing a key keeps the keys distinct |
| AddressBooks.WithoutFirst | hw.py:111 | on distinct keys, removal takes out exactly the one position of the key |
| AddressBooks.AddressBook.constructor | hw.py:104 | a new book is valid and empty |
| AddressBooks.AddressBook.AddRecord | hw.py:106-107 | the record is stored under its name, replacing any earlier one; a new name goes to the end of the order and an existing name keeps its place |
| AddressBooks.AddressBook.Delete | hw.py:109-113 | an absent name fails and changes nothing; a present one is removed from the map and the order, nothing else changes, and a later find returns None |
| AddressBooks.AddressBook.Find | hw.py:115-116 | None exactly for absent names, otherwise the record stored under the name, whose name it is |
| AddressBooks.AddressBook.AddBirthday | hw.py:118-123 | an absent name fails; otherwise the record's birthday is set or the parser's error is returned; no phones and no other birthdays change |
| AddressBooks.AddressBook.ShowBirthday | hw.py:125-130 | an absent name fails; otherwise "Birthday not set", or exactly the zero-padded `%d.%m.%Y` text of the record's birthday, which parses back to it |
| AddressBooks.AddressBook.SnapshotOf | hw.py:136 | one (name, birthday) pair per key, in key order, each from the record under that key |
| AddressBooks.AddressBook.Snapshot | hw.py:136 | the pairs `birthdays()` iterates over have valid birthdays |
| AddressBooks.AddressBook.Birthdays | hw.py:132-154 | the loop returns the report over the records in insertion order |
| AddressBooks.AddNewRecord | hw.py:183-184 | an invalid name fails and changes nothing; otherwise a new empty record is stored under the name and appended to the order |
| AddressBooks.AddContact | hw.py:177-188 | a new invalid name fails with no change; otherwise the name is present, no other record is added, replaced or changed, a new name is appended to the order, the message is "Contact added." for a new name and "Contact updated." otherwise, an empty phone adds nothing, a valid phone is appended, and an invalid phone fails while the new empty record stays |


## Left out

- Persistence (`save_data` and `load_data`, hw.py:5-21) is left out: it is pickle file I/O.
- `main` (hw.py:241-294) is left out: it is an interactive `input`/`print` loop.
- `parse_input` is left out: it is `str.split` and `str.lower` on Unicode text.
- The `input_error` decorator, and the command handlers other than `add`, are left out. They translate exceptions to fixed texts and format output; errors here stay `Error` values.
- `add` with fewer than two arguments is left out; it is an `input_error` message.
- `datetime.today()` is left out: it is a clock. `today` is a parameter of `AddressBooks.AddressBook.Birthdays`.
- Whitespace and digits are ASCII only. `str.strip`, `str.isdigit` and `strptime`'s `\d` also accept other Unicode whitespace and digits.
- Fields.FourDigits: writes the year zero-padded to four digits. What `strftime('%Y')` prints for years below 1000 depends on the platform. Where it prints no padding ("999"), hw.py:100 shows "01.01.999", which the parser at hw.py:52 rejects; `Fields.FormatRoundTrip` and the parses-back clauses of both `ShowBirthday` members hold only because the year is padded.
- Contacts.Record.FindPhone: returns the phone's value. The source returns the `Phone` object, and phones are modelled by value throughout.
- Contacts.Record.DeletePhone: `list.remove` removes the first element equal to the found `Phone`. `Phone` has no `__eq__`, so equality is object identity. That element is the first one matching by value, so the resulting list is the same.
- Contacts.Record.ToString: states the exact prefix and that the tail reads back as the phone list. It does not state the tail text character by character.
- `if record:` in `add_birthday` and `show_birthday` (hw.py:120, 127) tests a `Record`. A `Record` is always truthy, so it is modelled as a test for presence.

