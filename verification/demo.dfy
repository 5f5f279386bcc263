/**
 * The scenario of the demonstration at the end of oop_bot.py, as facts about
 * the model: John gets two phones, Jane one; John's first phone is edited;
 * John's second phone is found; Jane is deleted. The printing is left out.
 */
module Demo {
  import opened Wrappers
  import opened Phone
  import opened Records
  import opened AddressBook

  /** John's record after his two `add_phone` calls. */
  const John: Record := Record("John", ["1234567890", "5555555555"])

  /** John's record after his first phone is edited. */
  const EditedJohn: Record := Record("John", ["1112223333", "5555555555"])

  const Jane: Record := Record("Jane", ["9876543210"])

  lemma TenDigits(s: string)
    requires |s| == Length
    requires forall i :: 0 <= i < |s| ==> IsDigit(s[i])
    ensures IsPhoneNumber(s)
  {
  }

  /** Both of John's numbers pass validation and are kept in the order they were added. */
  lemma JohnGetsTwoPhones()
    ensures AddPhone(NewRecord("John"), "1234567890").Success?
    ensures AddPhone(AddPhone(NewRecord("John"), "1234567890").value, "5555555555") == Success(John)
  {
    TenDigits("1234567890");
    TenDigits("5555555555");
    var first := AddPhone(NewRecord("John"), "1234567890").value;
    assert first.phones == ["1234567890"];
    var both := AddPhone(first, "5555555555").value;
    assert both.phones == ["1234567890"] + ["5555555555"];
    assert both.phones == John.phones;
  }

  /** `john.edit_phone("1234567890", "1112223333")` changes the first number only. */
  lemma JohnEdited()
    ensures EditPhone(John, "1234567890", "1112223333") == Success(EditedJohn)
  {
    var edited := EditPhone(John, "1234567890", "1112223333").value;
    assert edited.phones[0] == "1112223333";
    assert edited.phones[1] == "5555555555";
    assert edited.phones == EditedJohn.phones;
  }

  /** The line the demonstration prints for John after the edit. */
  lemma EditedJohnRendered()
    ensures Render(EditedJohn) == "Contact name: John, phones: 1112223333; 5555555555"
  {
  }

  /** `john.find_phone("5555555555")` finds the second number. */
  lemma JohnFindsSecondPhone()
    ensures FindPhone(EditedJohn, "5555555555") == Some("5555555555")
  {
  }

  /**
   * The book's part of the demonstration: John and Jane are added, John's
   * record is found and edited, the edited record replaces the one in the
   * book (the source's edit reaches the book through aliasing), and Jane is
   * deleted; only the edited John is left.
   */
  lemma JaneDeleted()
    ensures var book := AddRecord(AddRecord(Empty, John), Jane);
            && Find(book, "John") == Some(John)
            && EditPhone(Find(book, "John").value, "1234567890", "1112223333").Success?
            && var edited := EditPhone(Find(book, "John").value, "1234567890", "1112223333").value;
               Delete(AddRecord(book, edited), "Jane") == map["John" := EditedJohn]
  {
    JohnEdited();
  }
}
