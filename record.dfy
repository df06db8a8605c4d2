/**
 * A contact: an immutable validated name, an ordered list of validated
 * phones (duplicates allowed) and an optional birthday. The phone
 * operations scan the list from the front and act on the first match.
 */
module Contacts {
  import opened Wrappers
  import opened Calendar
  import opened Fields

  /** The position of the first occurrence of x in s. */
  function FirstIndex(s: seq<string>, x: string): (k: nat)
    requires x in s
    ensures k < |s| && s[k] == x
    ensures forall j :: 0 <= j < k ==> s[j] != x
  {
    if s[0] == x then 0 else 1 + FirstIndex(s[1..], x)
  }

  /** '; '.join(phones). */
  function JoinPhones(ps: seq<string>): string {
    if ps == [] then "" else if |ps| == 1 then ps[0] else ps[0] + "; " + JoinPhones(ps[1..])
  }

  /** Reads a '; '-separated list of ten-character phones back into a list. */
  function SplitPhones(s: string): seq<string>
    decreases |s|
  {
    if s == [] then [] else if |s| < 12 then [s] else [s[..10]] + SplitPhones(s[12..])
  }

  /** The phone list of a contact can be read back from its display form. */
  lemma {:induction false} SplitJoin(ps: seq<string>)
    requires forall i :: 0 <= i < |ps| ==> |ps[i]| == 10
    ensures SplitPhones(JoinPhones(ps)) == ps
  {
    if |ps| > 1 {
      SplitJoin(ps[1..]);
      var s := JoinPhones(ps);
      assert s[..10] == ps[0] && s[12..] == JoinPhones(ps[1..]);
      assert ps == [ps[0]] + ps[1..];
    }
  }

  const DISPLAY_PREFIX := "Contact name: "
  const PHONES_LABEL := ", phones: "
  const NO_BIRTHDAY := "Birthday not set"
  const BIRTHDAY_ADDED := "Birthday added: "

  /** The not-set message is not a date the parser accepts. */
  lemma NotSetIsNoDate()
    ensures ParseBirthday(NO_BIRTHDAY) == Err(InvalidDate)
  {
    NonDigitStartRejected(NO_BIRTHDAY);
  }

  class Record {
    const name: string
    var phones: seq<string>
    var birthday: Option<Date>

    /** Every field holds a value its validator accepted. */
    ghost predicate Valid()
      reads this
    {
      && IsValidName(name)
      && (forall i :: 0 <= i < |phones| ==> IsValidPhone(phones[i]))
      && (birthday.Some? ==> IsValid(birthday.value))
    }

    constructor (name: string)
      requires IsValidName(name)
      ensures Valid()
      ensures this.name == name && phones == [] && birthday == None
    {
      this.name := name;
      phones := [];
      birthday := None;
    }

    /** Record(name): fails exactly when Name(name) raises. */
    static method Create(name: string) returns (r: Result<Record>)
      ensures r.Err? <==> NewName(name).Err?
      ensures r.Err? ==> r.error == EmptyName
      ensures r.Ok? ==> fresh(r.value) && r.value.Valid()
      ensures r.Ok? ==> r.value.name == name && r.value.phones == [] && r.value.birthday == None
    {
      var n := NewName(name);
      if n.Err? {
        return Err(n.error);
      }
      var rec := new Record(name);
      return Ok(rec);
    }

    /** str(record). */
    function ToString(): (s: string)
      reads this
      requires Valid()
      ensures DISPLAY_PREFIX + name + PHONES_LABEL <= s
      ensures SplitPhones(s[|DISPLAY_PREFIX| + |name| + |PHONES_LABEL|..]) == phones
    {
      var head := DISPLAY_PREFIX + name + PHONES_LABEL;
      var s := head + JoinPhones(phones);
      assert s[|head|..] == JoinPhones(phones);
      SplitJoin(phones);
      s
    }

    /** add_phone: appends a valid number, no deduplication; an invalid one changes nothing. */
    method AddPhone(number: string) returns (res: Outcome)
      requires Valid()
      modifies this
      ensures Valid() && birthday == old(birthday)
      ensures IsValidPhone(number) ==> res == Pass && phones == old(phones) + [number]
      ensures !IsValidPhone(number) ==> res == Fail(InvalidPhone) && phones == old(phones)
    {
      var p := NewPhone(number);
      if p.Err? {
        return Fail(p.error);
      }
      phones := phones + [p.value];
      return Pass;
    }

    /**
     * edit_phone: the new number is validated before the search, so an
     * invalid one fails even when the old one is absent; otherwise the first
     * occurrence of the old number is replaced in place.
     */
    method EditPhone(oldNumber: string, newNumber: string) returns (res: Outcome)
      requires Valid()
      modifies this
      ensures Valid() && birthday == old(birthday)
      ensures !IsValidPhone(newNumber) ==> res == Fail(InvalidPhone) && phones == old(phones)
      ensures IsValidPhone(newNumber) && oldNumber !in old(phones) ==>
        res == Fail(OldPhoneNotFound) && phones == old(phones)
      ensures IsValidPhone(newNumber) && oldNumber in old(phones) ==>
        res == Pass && phones == old(phones)[FirstIndex(old(phones), oldNumber) := newNumber]
    {
      var p := NewPhone(newNumber);
      if p.Err? {
        return Fail(p.error);
      }
      var i := 0;
      while i < |phones|
        invariant 0 <= i <= |phones|
        invariant phones == old(phones)
        invariant forall j :: 0 <= j < i ==> phones[j] != oldNumber
      {
        if phones[i] == oldNumber {
          phones := phones[i := p.value];
          return Pass;
        }
        i := i + 1;
      }
      return Fail(OldPhoneNotFound);
    }

    /** find_phone: the first phone equal to number, or None; nothing changes. */
    method FindPhone(number: string) returns (r: Option<string>)
      ensures r.Some? <==> number in phones
      ensures r.Some? ==> r.value == phones[FirstIndex(phones, number)]
    {
      var i := 0;
      while i < |phones|
        invariant 0 <= i <= |phones|
        invariant forall j :: 0 <= j < i ==> phones[j] != number
      {
        if phones[i] == number {
          return Some(phones[i]);
        }
        i := i + 1;
      }
      return None;
    }

    /** delete_phone: removes the first occurrence only, keeping the order of the rest. */
    method DeletePhone(number: string) returns (res: Outcome)
      requires Valid()
      modifies this
      ensures Valid() && birthday == old(birthday)
      ensures number !in old(phones) ==> res == Fail(PhoneNotFound) && phones == old(phones)
      ensures number in old(phones) ==>
        var k := FirstIndex(old(phones), number);
        res == Pass && phones == old(phones)[..k] + old(phones)[k + 1..]
    {
      var i := 0;
      while i < |phones|
        invariant 0 <= i <= |phones|
        invariant phones == old(phones)
        invariant forall j :: 0 <= j < i ==> phones[j] != number
      {
        if phones[i] == number {
          phones := phones[..i] + phones[i + 1..];
          return Pass;
        }
        i := i + 1;
      }
      return Fail(PhoneNotFound);
    }

    /** add_birthday: a parsed birthday replaces any previous one; a rejected text changes nothing. */
    method AddBirthday(text: string) returns (res: Result<string>)
      requires Valid()
      modifies this
      ensures Valid() && phones == old(phones)
      ensures ParseBirthday(text).Err? ==> res == Err(ParseBirthday(text).error) && birthday == old(birthday)
      ensures ParseBirthday(text).Ok? ==>
        birthday == Some(ParseBirthday(text).value) && res == Ok(BIRTHDAY_ADDED + FormatDate(birthday.value))
    {
      var b := ParseBirthday(text);
      if b.Err? {
        return Err(b.error);
      }
      birthday := Some(b.value);
      return Ok(BIRTHDAY_ADDED + FormatDate(b.value));
    }

    /** show_birthday: the '%d.%m.%Y' text of the birthday, which reads back as it, or the not-set message. */
    function ShowBirthday(): (s: string)
      reads this
      requires Valid()
      ensures birthday.None? ==> s == NO_BIRTHDAY && ParseBirthday(s) == Err(InvalidDate)
      ensures birthday.Some? ==> s == FormatDate(birthday.value) && ParseBirthday(s) == Ok(birthday.value)
    {
      if birthday.None? then
        NotSetIsNoDate();
        NO_BIRTHDAY
      else
        FormatRoundTrip(birthday.value);
        FormatDate(birthday.value)
    }
  }
}
