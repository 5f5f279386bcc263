# Contact book model

A Dafny model of `oop_bot.py`, a small in-memory contact book. It has three layers:

- **Phone** (module `Phone`): the rule "exactly ten digits" and the constructor that raises `ValueError` for any other string.
- **Record** (module `Records`): a contact name with an ordered list of phone numbers. It supports add (with validation), remove-all-equal, edit-first-equal, find-first-equal and rendering to text.
- **AddressBook** (module `AddressBook`): a map from a contact's name to its record, with insert-or-overwrite, lookup and delete-if-present.

Module `Wrappers` holds `Option` and `Result`. Module `Demo` restates the demonstration at the end of the source file as lemmas.

Phones are immutable strings and a record is a value. So every operation returns the record or book after it. An operation that raises in the source returns `Failure(ValueError(message))`. The caller then keeps what it had. This matches the source, which raises before it changes anything.

Two details of the code shape the model:

- The code raises plain `ValueError` for both failures; only the message differs. The model has one `Error = ValueError(message)` with the two messages of the source.
- `edit_phone` assigns the new value without validating it (oop_bot.py:45). `Records.EditPhone` does not validate either, and `Records.EditPhoneMayBreakValidity` shows that an edit can put an invalid number into a record that held only valid ones.

One deliberate difference from the code: validation. The source's regular expression also accepts ten digits followed by one final newline. The model checks the intended rule, exactly ten digits, in `Phone.Validate`, and the phone constructor and `add_phone` use that rule. The code's behaviour is modelled beside it as `Phone.ValidateAsWritten`; see "## Findings".

## Model

| member | source | states |
|---|---|---|
| Phone.Validate | oop_bot.py:23-26 | the check holds exactly for strings of ten characters that are all digits |
| Phone.MatchDigitsThenEndCorrect | oop_bot.py:26 | the matcher for `\d{n}` anchored at both ends accepts exactly the strings of n digits |
| Phone.NewPhone | oop_bot.py:17-21 | construction succeeds exactly for valid strings and keeps the value; otherwise it raises ValueError with the source's message |
| Phone.ValidateAsWritten | oop_bot.py:26 | the regex check as written accepts the valid strings plus any valid string followed by one newline, and nothing else |
| Phone.AsWrittenAcceptsTrailingNewline | oop_bot.py:24-26 | "1234567890\n" passes the check as written although it is not ten digits, and the corrected check rejects it |
| Records.NewRecord | oop_bot.py:29-31 | a new record has the given name and no phones, so every phone lookup in it finds nothing and it trivially holds only valid phones |
| Records.AddPhone | oop_bot.py:33-35 | succeeds exactly when the number is valid; then the name and all earlier phones are kept and the number is appended last; the all-valid invariant is preserved; otherwise it raises ValueError |
| Records.Without | oop_bot.py:39 | no element equals the removed number, every other number keeps its count, nothing new appears, and an absent number changes nothing |
| Records.WithoutKeepsOrder | oop_bot.py:39 | the filtered list is a subsequence of the original, so the remaining phones keep their relative order |
| Records.RemovePhone | oop_bot.py:37-39 | the number is gone, the name and the count of every other number are kept, an absent number leaves the record unchanged, and the all-valid invariant is preserved |
| Records.RemovePhoneIdempotent | oop_bot.py:37-39 | removing a number twice equals removing it once |
| Records.RemovePhoneKeepsOrder | oop_bot.py:37-39 | after removal the phones that stay are in their original order |
| Records.FirstIndex | oop_bot.py:50-55 | the scan finds nothing exactly when no phone equals the number; otherwise it finds the least position holding it |
| Records.FindPhone | oop_bot.py:50-55 | the result is None exactly when no phone equals the number; otherwise it is the matching number |
| Records.ReplaceFirst | oop_bot.py:43-46 | the loop with break keeps the length and replaces only the first occurrence, so later duplicates stay; a list without the number is unchanged |
| Records.EditPhone | oop_bot.py:41-48 | fails with the not-found ValueError exactly when the old number is absent; otherwise only the first position holding it takes the new value, with the name, length and every other position kept |
| Records.EditPhoneMayBreakValidity | oop_bot.py:45 | the new value is not validated: a record of valid phones can gain an invalid one by an edit |
| Records.Join | oop_bot.py:59 | the empty list joins to the empty string; a non-empty list joins to text as long as its phones plus one two-character separator between each neighbouring pair, starting with the first phone |
| Records.Render | oop_bot.py:57-59 | for every record the rendering starts with "Contact name: ", the name and ", phones: ", and the rest is the joined phone list; a record without phones renders as that header alone |
| Records.JoinNotInjective | oop_bot.py:59 | joining arbitrary strings loses information: the single value "a; b" and the two values "a" and "b" join to the same text |
| Records.JoinLength | oop_bot.py:59 | joining n valid phones with "; " gives text of 12n - 2 characters |
| Records.SplitJoinRoundTrip | oop_bot.py:59 | the joined text of valid phones can be split back into the same list |
| Records.RenderRoundTrip | oop_bot.py:57-59 | for records whose phones are all valid, the text after the header reads back as exactly the record's phones in order |
| Records.JoinAppend | oop_bot.py:59 | joining a list with one more phone adds the separator (if the list was non-empty) and the phone at the end |
| Records.RenderAfterAdd | oop_bot.py:33-35 | after a successful add the rendering grows by the separator (if needed) and the new number |
| AddressBook.AddRecord | oop_bot.py:62-64 | the record is filed under its name, overwriting any earlier record there; every other entry is unchanged; books that file each record under its own name stay so |
| AddressBook.Find | oop_bot.py:66-68 | the lookup is None exactly when the name is absent, otherwise the record filed under it |
| AddressBook.Delete | oop_bot.py:70-73 | only the name's entry is removed and every other entry is unchanged; an absent name leaves the book unchanged |
| AddressBook.FindAfterAdd | oop_bot.py:62-68 | after adding r, finding r's name returns r and other lookups are unchanged |
| AddressBook.AddRecordOverwrites | oop_bot.py:62-64 | adding two records with the same name leaves only the second, with no merge |
| AddressBook.FindAfterDelete | oop_bot.py:66-73 | after deleting a name, finding it returns None and other lookups are unchanged |
| AddressBook.DeleteIdempotent | oop_bot.py:70-73 | deleting a name twice equals deleting it once |
| AddressBook.DeleteUndoesAdd | oop_bot.py:62-73 | adding a record under a new name and then deleting it gives back the original book |
| Demo.JohnGetsTwoPhones | oop_bot.py:80-83 | both numbers of the example are valid and are stored in the order added |
| Demo.JohnEdited | oop_bot.py:97-99 | editing the first number changes only the first position |
| Demo.EditedJohnRendered | oop_bot.py:101 | the edited record renders as "Contact name: John, phones: 1112223333; 5555555555" |
| Demo.JohnFindsSecondPhone | oop_bot.py:103-105 | looking up the second number finds it |
| Demo.JaneDeleted | oop_bot.py:85-108 | after adding John and Jane, finding and editing John, filing the edited record and deleting Jane, the book holds only the edited John |

## Left out

- The demonstration driver's printing (oop_bot.py:93-108). It is I/O; its example values appear only as the `Demo` lemmas.
- Non-ASCII digits. Python's `\d` also matches other Unicode decimal digits. The model accepts only '0'..'9', both as written and corrected.
- Object identity and aliasing. `find_phone` returns the mutable `Phone` object, `find` returns the mutable `Record`, and `edit_phone` changes a `Phone` in place. The demonstration edits John through the record that `find` returned, which changes the book. Phones and records here are values, so such an edit is modelled as a new record.
- Phone.NewPhone: uses the corrected ten-digit rule, so ten digits followed by one final newline, which the source's constructor accepts, fail here (see "## Findings").
- Records.AddPhone: uses the corrected ten-digit rule, so ten digits followed by one final newline, which the source stores, are rejected here (see "## Findings").
- Records.FindPhone: returns the matching value rather than the `Phone` object. Which object it would be (the least position holding the number) is stated by `Records.FirstIndex`.
- The `Field`/`Name` wrapper classes (oop_bot.py:5-14). They hold a value with no validation, so a name is a plain string.
- `UserDict` machinery and dict iteration order (oop_bot.py:61). The book is a `map`, so the order in which the demonstration lists records is not modelled.
- Python's dynamic typing. Calls with non-string arguments, which Python would reject or mishandle at run time, have no counterpart.

## Findings

| source | as written | input that shows it | evidently intended | confidence | as-written member | corrected member |
|---|---|---|---|---|---|---|
| oop_bot.py:26 | `re.match(r'^\d{10}$', phone)`: `$` also matches just before one final newline, so ten digits followed by a newline pass | "1234567890\n" is accepted and stored as a phone | exactly ten digits and nothing else, as the comment on line 25 says (needs `re.fullmatch` or `\Z`) | high; not executed | Phone.AsWrittenAcceptsTrailingNewline (about Phone.ValidateAsWritten) | Phone.Validate |
