/** Result types standing in for the ValueError exceptions of the contact book. */
module Wrappers {

  datatype Option<+T> = None | Some(value: T)

  /** One constructor per distinct ValueError the core raises. */
  datatype Error =
    | EmptyName          // Name("") or a whitespace-only name
    | InvalidPhone       // a phone that is not exactly ten digits
    | EmptyBirthday      // a whitespace-only birthday text
    | InvalidDate        // a birthday text that is not a DD.MM.YYYY calendar date
    | OldPhoneNotFound   // edit_phone: the number to replace is absent
    | PhoneNotFound      // delete_phone: the number to remove is absent
    | RecordNotFound     // AddressBook: no record under that name

  datatype Result<+T> = Ok(value: T) | Err(error: Error)

  datatype Outcome = Pass | Fail(error: Error)

}
