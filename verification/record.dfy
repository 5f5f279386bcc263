/**
 * A contact record (class `Record` in oop_bot.py): a name and the ordered
 * list of its phone numbers. Phones are immutable string values, so a
 * record is a value and every operation returns the record after it.
 * An operation that raises in the source returns `Failure`; the caller
 * keeps the record it had, as the source raises before changing anything.
 */
module Records {
  import opened Wrappers
  import opened Phone

  datatype Record = Record(name: string, phones: seq<string>)

  /** The message `edit_phone` raises when the old number is not in the record. */
  const NotFoundMessage: string := "Phone number not found"

  /** `Record(name)`: a contact with no phones yet. The name is not validated. */
  function NewRecord(name: string): (r: Record)
    ensures r.name == name
    ensures forall p :: p !in r.phones
    ensures AllValid(r.phones)
  {
    Record(name, [])
  }

  /** Every phone of the list satisfies the validation rule. */
  ghost predicate AllValid(phones: seq<string>) {
    forall i :: 0 <= i < |phones| ==> IsPhoneNumber(phones[i])
  }

  // ----- add_phone -----

  /** `add_phone`: validate, then append at the end; an invalid number raises and adds nothing. */
  function AddPhone(r: Record, phone: string): (res: Result<Record, Error>)
    ensures res.Success? <==> IsPhoneNumber(phone)
    ensures res.Failure? ==> res.error == ValueError(InvalidMessage)
    ensures res.Success? ==>
              && res.value.name == r.name
              && |res.value.phones| == |r.phones| + 1
              && res.value.phones[..|r.phones|] == r.phones
              && res.value.phones[|r.phones|] == phone
    ensures res.Success? && AllValid(r.phones) ==> AllValid(res.value.phones)
  {
    match NewPhone(phone)
    case Failure(e) => Failure(e)
    case Success(p) => Success(r.(phones := r.phones + [p]))
  }

  // ----- remove_phone -----

  /** The list comprehension `[p for p in phones if p.value != phone]`. */
  function Without(phones: seq<string>, phone: string): (rest: seq<string>)
    ensures phone !in rest
    ensures forall q :: q in rest ==> q in phones
    ensures forall q :: q != phone ==> multiset(rest)[q] == multiset(phones)[q]
    ensures phone !in phones ==> rest == phones
  {
    if |phones| == 0 then []
    else
      assert phones == [phones[0]] + phones[1..];
      if phones[0] == phone then Without(phones[1..], phone)
      else [phones[0]] + Without(phones[1..], phone)
  }

  /** `a` is obtained from `b` by deleting elements, keeping the order of the rest. */
  ghost predicate IsSubsequence(a: seq<string>, b: seq<string>)
    decreases |b|
  {
    if |a| == 0 then true
    else if |b| == 0 then false
    else (a[0] == b[0] && IsSubsequence(a[1..], b[1..])) || IsSubsequence(a, b[1..])
  }

  /** Removal keeps the remaining phones in their original relative order. */
  lemma {:induction false} WithoutKeepsOrder(phones: seq<string>, phone: string)
    ensures IsSubsequence(Without(phones, phone), phones)
    decreases |phones|
  {
    if |phones| > 0 {
      WithoutKeepsOrder(phones[1..], phone);
      var rest := Without(phones[1..], phone);
      if phones[0] != phone {
        assert ([phones[0]] + rest)[1..] == rest;
      }
    }
  }

  /** `remove_phone`: every phone equal to the argument is gone, the others stay in order. */
  function RemovePhone(r: Record, phone: string): (r': Record)
    ensures r'.name == r.name
    ensures phone !in r'.phones
    ensures forall q :: q != phone ==> multiset(r'.phones)[q] == multiset(r.phones)[q]
    ensures phone !in r.phones ==> r' == r
    ensures AllValid(r.phones) ==> AllValid(r'.phones)
  {
    var rest := Without(r.phones, phone);
    assert AllValid(r.phones) ==> AllValid(rest) by {
      if AllValid(r.phones) {
        forall i | 0 <= i < |rest| ensures IsPhoneNumber(rest[i]) {
          assert rest[i] in rest;
          var j :| 0 <= j < |r.phones| && r.phones[j] == rest[i];
        }
      }
    }
    r.(phones := rest)
  }

  /** Removing a number twice is the same as removing it once. */
  lemma RemovePhoneIdempotent(r: Record, phone: string)
    ensures RemovePhone(RemovePhone(r, phone), phone) == RemovePhone(r, phone)
  {
  }

  /** Removal keeps the order of the phones that stay. */
  lemma RemovePhoneKeepsOrder(r: Record, phone: string)
    ensures IsSubsequence(RemovePhone(r, phone).phones, r.phones)
  {
    WithoutKeepsOrder(r.phones, phone);
  }

  // ----- find_phone -----

  /** Position of the first phone equal to `phone`: the scan of `find_phone` and `edit_phone`. */
  function FirstIndex(phones: seq<string>, phone: string): (o: Option<nat>)
    ensures o.None? <==> phone !in phones
    ensures o.Some? ==> o.value < |phones| && phones[o.value] == phone
    ensures o.Some? ==> forall j :: 0 <= j < o.value ==> phones[j] != phone
  {
    if |phones| == 0 then None
    else if phones[0] == phone then Some(0)
    else
      match FirstIndex(phones[1..], phone)
      case None => None
      case Some(i) => Some(i + 1)
  }

  /** `find_phone`: the first phone equal to the argument, or `None` when there is none. */
  function FindPhone(r: Record, phone: string): (found: Option<string>)
    ensures found.None? <==> phone !in r.phones
    ensures found.Some? ==> found.value == phone
  {
    match FirstIndex(r.phones, phone)
    case None => None
    case Some(i) => Some(r.phones[i])
  }

  // ----- edit_phone -----

  /** The `for`/`break` loop of `edit_phone`: the first phone equal to `oldPhone` becomes `newPhone`. */
  function ReplaceFirst(phones: seq<string>, oldPhone: string, newPhone: string): (out: seq<string>)
    ensures |out| == |phones|
    ensures FirstIndex(phones, oldPhone).None? ==> out == phones
    ensures FirstIndex(phones, oldPhone).Some? ==> out == phones[FirstIndex(phones, oldPhone).value := newPhone]
  {
    if |phones| == 0 then []
    else if phones[0] == oldPhone then [newPhone] + phones[1..]
    else
      var rest := ReplaceFirst(phones[1..], oldPhone, newPhone);
      assert phones == [phones[0]] + phones[1..];
      [phones[0]] + rest
  }

  /**
   * `edit_phone`: the first phone equal to `oldPhone` takes the value `newPhone`;
   * every other position, later duplicates of `oldPhone` included, is unchanged.
   * The new value is not validated. When no phone equals `oldPhone` it raises.
   */
  function EditPhone(r: Record, oldPhone: string, newPhone: string): (res: Result<Record, Error>)
    ensures res.Failure? <==> oldPhone !in r.phones
    ensures res.Failure? ==> res.error == ValueError(NotFoundMessage)
    ensures res.Success? ==>
              && res.value.name == r.name
              && |res.value.phones| == |r.phones|
              && exists i :: && 0 <= i < |r.phones|
                             && r.phones[i] == oldPhone
                             && oldPhone !in r.phones[..i]
                             && res.value.phones[i] == newPhone
                             && forall j :: 0 <= j < |r.phones| && j != i ==> res.value.phones[j] == r.phones[j]
  {
    if oldPhone in r.phones then
      Success(r.(phones := ReplaceFirst(r.phones, oldPhone, newPhone)))
    else
      Failure(ValueError(NotFoundMessage))
  }

  /** `edit_phone` does not validate: it can turn a record of valid phones into one with an invalid phone. */
  lemma EditPhoneMayBreakValidity()
    ensures var r := Record("John", ["1234567890"]);
            && AllValid(r.phones)
            && EditPhone(r, "1234567890", "12-34").Success?
            && !AllValid(EditPhone(r, "1234567890", "12-34").value.phones)
  {
  }

  // ----- __str__ -----

  const Separator: string := "; "

  /** Total number of characters of the phones of a list. */
  function TotalLength(phones: seq<string>): nat {
    if |phones| == 0 then 0 else |phones[0]| + TotalLength(phones[1..])
  }

  /**
   * `'; '.join(phones)`: the phones in order, one separator between each
   * neighbouring pair, nothing before the first or after the last.
   */
  function Join(phones: seq<string>): (s: string)
    ensures |phones| == 0 ==> s == ""
    ensures |phones| > 0 ==> |s| == TotalLength(phones) + |Separator| * (|phones| - 1)
    ensures |phones| > 0 ==> s[..|phones[0]|] == phones[0]
  {
    if |phones| == 0 then ""
    else if |phones| == 1 then phones[0]
    else phones[0] + Separator + Join(phones[1..])
  }

  /** The text before the phone list in a record's rendering. */
  function Header(name: string): string {
    "Contact name: " + name + ", phones: "
  }

  /**
   * `Record.__str__`: the header naming the contact, then the joined phones;
   * a record without phones renders as the header alone.
   */
  function Render(r: Record): (s: string)
    ensures |s| >= |Header(r.name)|
    ensures s[..|Header(r.name)|] == Header(r.name)
    ensures s[|Header(r.name)|..] == Join(r.phones)
    ensures |r.phones| == 0 ==> s == Header(r.name)
  {
    var s := Header(r.name) + Join(r.phones);
    assert s[..|Header(r.name)|] == Header(r.name);
    s
  }

  /** Joining is not injective on arbitrary strings, which an unvalidated edit can store. */
  lemma JoinNotInjective()
    ensures Join(["a; b"]) == Join(["a", "b"])
    ensures ["a; b"] != ["a", "b"]
  {
  }

  /**
   * Reads a joined list of ten-digit phones back: fixed-width fields of
   * `Length` characters separated by `Separator`.
   */
  function SplitJoined(s: string): seq<string>
    decreases |s|
  {
    if |s| == 0 then []
    else if |s| <= Length + |Separator| then [s[..if |s| < Length then |s| else Length]]
    else [s[..Length]] + SplitJoined(s[Length + |Separator|..])
  }

  /** A non-empty list of n valid phones joins to text of exactly 12n - 2 characters. */
  lemma {:induction false} JoinLength(phones: seq<string>)
    requires AllValid(phones)
    ensures |phones| > 0 ==> |Join(phones)| == |phones| * (Length + |Separator|) - |Separator|
    decreases |phones|
  {
    if |phones| > 1 {
      assert IsPhoneNumber(phones[0]);
      JoinLength(phones[1..]);
    } else if |phones| == 1 {
      assert IsPhoneNumber(phones[0]);
    }
  }

  /** Joining valid phones loses nothing: splitting the text gives the list back. */
  lemma {:induction false} SplitJoinRoundTrip(phones: seq<string>)
    requires AllValid(phones)
    ensures SplitJoined(Join(phones)) == phones
    decreases |phones|
  {
    if |phones| == 1 {
      assert IsPhoneNumber(phones[0]);
      assert phones[0][..Length] == phones[0];
    } else if |phones| > 1 {
      assert IsPhoneNumber(phones[0]);
      var tail := Join(phones[1..]);
      JoinLength(phones[1..]);
      var s := Join(phones);
      assert s == phones[0] + Separator + tail;
      assert s[..Length] == phones[0];
      assert s[Length + |Separator|..] == tail;
      SplitJoinRoundTrip(phones[1..]);
      assert phones == [phones[0]] + phones[1..];
    }
  }

  /** For a record whose phones are all valid, the rendering lists exactly its phones, in order. */
  lemma RenderRoundTrip(r: Record)
    requires AllValid(r.phones)
    ensures SplitJoined(Render(r)[|Header(r.name)|..]) == r.phones
  {
    SplitJoinRoundTrip(r.phones);
  }

  /** Adding a phone extends the rendering by a separator (when needed) and the new number. */
  lemma {:induction false} JoinAppend(phones: seq<string>, phone: string)
    ensures Join(phones + [phone]) == if |phones| == 0 then phone else Join(phones) + Separator + phone
    decreases |phones|
  {
    if |phones| > 1 {
      assert (phones + [phone])[1..] == phones[1..] + [phone];
      JoinAppend(phones[1..], phone);
    } else if |phones| == 1 {
      assert (phones + [phone])[1..] == [phone];
    }
  }

  /** After a successful `add_phone`, the rendering ends with the new number. */
  lemma RenderAfterAdd(r: Record, phone: string)
    requires AddPhone(r, phone).Success?
    ensures Render(AddPhone(r, phone).value) ==
              Render(r) + (if |r.phones| == 0 then "" else Separator) + phone
  {
    var r' := AddPhone(r, phone).value;
    assert r'.phones == r.phones + [phone];
    JoinAppend(r.phones, phone);
  }
}
