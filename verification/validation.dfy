/** The two submission checks of the booking modal: the boolean gate
    `isFormValid` and `validateBookingForm`, which lists every problem it
    finds. The two disagree in a few places; the lemmas at the end say
    exactly where. */
module Validation {
  import opened Common
  import opened Uuid
  import opened Passengers

  /** The form state both checks read. `seatCount` is the number of loaded
      seats; an empty `seatError` or `phoneError` means no error is shown. */
  datatype BookingForm = BookingForm(
    name: string,
    email: string,
    phone: string,
    phoneError: string,
    seatCount: nat,
    seatError: string,
    selectedPrice: Option<Money>,
    selected: seq<string>,
    adults: nat,
    passengers: seq<Passenger>)

  /** `validatePhone`: at least ten UTF-16 code units once trimmed. */
  predicate PhoneLongEnough(phone: string) {
    Utf16Length(Trim(phone)) >= 10
  }

  /** The pattern `^[^\s@]+@[^\s@]+\.[^\s@]+$`: no whitespace, a single `@`
      that is not the first character, and a `.` at least two characters
      after the `@` and before the last character. */
  predicate ValidEmail(s: string) {
    && (forall k | 0 <= k < |s| :: !IsSpace(s[k]))
    && exists i, j | 0 < i && i + 1 < j < |s| - 1 ::
         && s[i] == '@' && s[j] == '.'
         && forall k | 0 <= k < |s| && s[k] == '@' :: k == i
  }

  /** A valid address contains no whitespace and exactly one `@`. */
  lemma ValidEmailShape(s: string)
    requires ValidEmail(s)
    ensures forall k | 0 <= k < |s| :: !IsSpace(s[k])
    ensures exists i | 0 < i < |s| :: s[i] == '@' && forall k | 0 <= k < |s| && s[k] == '@' :: k == i
  {
  }

  /** `!x || x.trim().length < 3` for an identity number. */
  predicate IdTooShort(id: string) {
    Utf16Length(Trim(id)) < 3
  }

  /** What `isFormValid` asks of one passenger. */
  predicate PassengerComplete(p: Passenger) {
    && !IsBlank(p.name)
    && (p.kind == Adult ==> !IdTooShort(p.idNumber))
    && (p.kind == Infant && !IsBlank(p.idNumber) ==> !IdTooShort(p.idNumber))
  }

  /** The passenger loop of `isFormValid`, returning false at the first
      incomplete passenger. */
  function AllPassengersComplete(ps: seq<Passenger>): (r: bool)
    ensures r <==> forall i | 0 <= i < |ps| :: PassengerComplete(ps[i])
  {
    if |ps| == 0 then true
    else if !PassengerComplete(ps[0]) then false
    else
      assert forall i | 1 <= i < |ps| :: ps[i] == ps[1..][i - 1];
      AllPassengersComplete(ps[1..])
  }

  /** `isFormValid`: its early returns amount to one conjunction, in which
      the passenger loop demands that every passenger be complete. */
  function IsFormValid(f: BookingForm): (r: bool)
    ensures r <==>
      && f.name != "" && f.email != "" && f.phone != ""
      && f.phoneError == "" && PhoneLongEnough(f.phone)
      && !SeatMapDown(f) && f.selectedPrice.Some?
      && |f.selected| == f.adults
      && (forall i | 0 <= i < |f.selected| :: IsValidUuid(f.selected[i]))
      && (forall i | 0 <= i < |f.passengers| :: PassengerComplete(f.passengers[i]))
  {
    if f.name == "" || f.email == "" || f.phone == "" then false
    else if f.phoneError != "" || !PhoneLongEnough(f.phone) then false
    else if f.seatCount == 0 || f.seatError != "" then false
    else if f.selectedPrice.None? then false
    else if |f.selected| != f.adults || exists i | 0 <= i < |f.selected| :: !IsValidUuid(f.selected[i]) then false
    else AllPassengersComplete(f.passengers)
  }

  /** The messages of `validateBookingForm`; passenger messages carry the
      passenger's position (shown to the user counted from one). */
  datatype FormError =
    | NameMissing
    | EmailMissing
    | EmailInvalid
    | PhoneMissing
    | PhoneTooShort
    | SeatMapUnavailable
    | NoSeatsSelected(adults: nat)
    | TooFewSeats(adults: nat, selectedCount: nat)
    | InvalidSeats
    | PriceUnavailable
    | PassengerNameMissing(index: nat)
    | PassengerIdMissing(index: nat)
    | PassengerIdTooShort(index: nat)
    | InfantIdTooShort(index: nat)

  predicate SeatMapDown(f: BookingForm) {
    f.seatCount == 0 || f.seatError != ""
  }

  predicate SomeInvalidSeat(f: BookingForm) {
    exists i | 0 <= i < |f.selected| :: !IsValidUuid(f.selected[i])
  }

  /** When each message applies, stated message by message. */
  predicate Applies(f: BookingForm, e: FormError) {
    var ps := f.passengers;
    match e
    case NameMissing => IsBlank(f.name)
    case EmailMissing => IsBlank(f.email)
    case EmailInvalid => !IsBlank(f.email) && !ValidEmail(f.email)
    case PhoneMissing => IsBlank(f.phone)
    case PhoneTooShort => !IsBlank(f.phone) && !PhoneLongEnough(f.phone)
    case SeatMapUnavailable => SeatMapDown(f)
    case NoSeatsSelected(n) => !SeatMapDown(f) && |f.selected| == 0 && n == f.adults
    case TooFewSeats(n, k) =>
      !SeatMapDown(f) && 0 < |f.selected| < f.adults && n == f.adults && k == |f.selected|
    case InvalidSeats => !SeatMapDown(f) && 0 < |f.selected| && f.adults <= |f.selected| && SomeInvalidSeat(f)
    case PriceUnavailable => f.selectedPrice.None?
    case PassengerNameMissing(i) => i < |ps| && IsBlank(ps[i].name)
    case PassengerIdMissing(i) => i < |ps| && ps[i].kind == Adult && IsBlank(ps[i].idNumber)
    case PassengerIdTooShort(i) =>
      i < |ps| && ps[i].kind == Adult && !IsBlank(ps[i].idNumber) && IdTooShort(ps[i].idNumber)
    case InfantIdTooShort(i) =>
      i < |ps| && ps[i].kind == Infant && !IsBlank(ps[i].idNumber) && IdTooShort(ps[i].idNumber)
  }

  predicate IsPassengerError(e: FormError) {
    e.PassengerNameMissing? || e.PassengerIdMissing? || e.PassengerIdTooShort? || e.InfantIdTooShort?
  }

  predicate IsContactError(e: FormError) {
    e.NameMissing? || e.EmailMissing? || e.EmailInvalid? || e.PhoneMissing? || e.PhoneTooShort?
  }

  predicate IsSeatError(e: FormError) {
    e.SeatMapUnavailable? || e.NoSeatsSelected? || e.TooFewSeats? || e.InvalidSeats?
  }

  /** The result of `validateBookingForm`. */
  datatype Validation = Validation(isValid: bool, errors: seq<FormError>)

  /** The contact checks: name, then email, then phone. */
  function ContactErrors(f: BookingForm): (r: seq<FormError>)
    ensures forall e | e in r :: IsContactError(e)
    ensures NameMissing in r <==> Applies(f, NameMissing)
    ensures EmailMissing in r <==> Applies(f, EmailMissing)
    ensures EmailInvalid in r <==> Applies(f, EmailInvalid)
    ensures PhoneMissing in r <==> Applies(f, PhoneMissing)
    ensures PhoneTooShort in r <==> Applies(f, PhoneTooShort)
  {
    ContactMessages(IsBlank(f.name), IsBlank(f.email), ValidEmail(f.email), IsBlank(f.phone), PhoneLongEnough(f.phone))
  }

  /** The contact messages given the outcome of each test on the fields. */
  function ContactMessages(nameBlank: bool, emailBlank: bool, emailValid: bool, phoneBlank: bool, phoneLong: bool): (r: seq<FormError>)
    ensures forall e | e in r :: IsContactError(e)
    ensures NameMissing in r <==> nameBlank
    ensures EmailMissing in r <==> emailBlank
    ensures EmailInvalid in r <==> !emailBlank && !emailValid
    ensures PhoneMissing in r <==> phoneBlank
    ensures PhoneTooShort in r <==> !phoneBlank && !phoneLong
  {
    var name := if nameBlank then [NameMissing] else [];
    var email := if emailBlank then [EmailMissing] else if !emailValid then [EmailInvalid] else [];
    var phone := if phoneBlank then [PhoneMissing] else if !phoneLong then [PhoneTooShort] else [];
    assert forall e :: e in name + email + phone <==> e in name || e in email || e in phone;
    name + email + phone
  }

  /** The seat checks report at most one message, the first that applies. */
  function SeatErrors(f: BookingForm): (r: seq<FormError>)
    ensures |r| <= 1
    ensures forall e | e in r :: IsSeatError(e)
    ensures forall e :: e in r <==> IsSeatError(e) && Applies(f, e)
  {
    if SeatMapDown(f) then [SeatMapUnavailable]
    else if |f.selected| == 0 then [NoSeatsSelected(f.adults)]
    else if |f.selected| < f.adults then [TooFewSeats(f.adults, |f.selected|)]
    else if SomeInvalidSeat(f) then [InvalidSeats]
    else []
  }

  /** The messages for the passenger at position `i`. */
  function PassengerErrorsAt(f: BookingForm, i: nat): (r: seq<FormError>)
    requires i < |f.passengers|
    ensures forall e :: e in r <==> IsPassengerError(e) && e.index == i && Applies(f, e)
  {
    var p := f.passengers[i];
    var nameErrors := if IsBlank(p.name) then [PassengerNameMissing(i)] else [];
    var idErrors :=
      if p.kind == Adult then
        (if IsBlank(p.idNumber) then [PassengerIdMissing(i)]
         else if IdTooShort(p.idNumber) then [PassengerIdTooShort(i)] else [])
      else
        (if !IsBlank(p.idNumber) && IdTooShort(p.idNumber) then [InfantIdTooShort(i)] else []);
    var r := nameErrors + idErrors;
    assert forall e :: e in r <==> IsPassengerError(e) && e.index == i && Applies(f, e) by {
      forall e ensures e in r <==> IsPassengerError(e) && e.index == i && Applies(f, e) {
        assert e in r <==> e in nameErrors || e in idErrors;
        if e.PassengerNameMissing? {
        } else if e.PassengerIdMissing? {
        } else if e.PassengerIdTooShort? {
        } else if e.InfantIdTooShort? {
        }
      }
    }
    r
  }

  /** The `forEach` over the passengers from position `from` on. */
  function PassengerErrors(f: BookingForm, from: nat): (r: seq<FormError>)
    requires from <= |f.passengers|
    ensures forall e | e in r :: IsPassengerError(e)
    ensures forall e :: e in r <==> IsPassengerError(e) && e.index >= from && Applies(f, e)
    decreases |f.passengers| - from
  {
    if from == |f.passengers| then []
    else
      var here := PassengerErrorsAt(f, from);
      var rest := PassengerErrors(f, from + 1);
      assert forall e :: e in here + rest <==> IsPassengerError(e) && e.index >= from && Applies(f, e) by {
        forall e ensures e in here + rest <==> IsPassengerError(e) && e.index >= from && Applies(f, e) {
          assert e in here + rest <==> e in here || e in rest;
          if IsPassengerError(e) && e.index == from {
            assert e !in rest;
          }
        }
      }
      here + rest
  }

  /** The messages in the order `validateBookingForm` pushes them: contact,
      seats, price, then passengers by position. */
  function AllErrors(f: BookingForm): seq<FormError> {
    ContactErrors(f) + SeatErrors(f) + PriceErrors(f) + PassengerErrors(f, 0)
  }

  function PriceErrors(f: BookingForm): (r: seq<FormError>)
    ensures forall e | e in r :: e.PriceUnavailable?
    ensures forall e :: e in r <==> e.PriceUnavailable? && Applies(f, e)
  {
    if f.selectedPrice.None? then [PriceUnavailable] else []
  }

  /** Each message is pushed exactly when it applies. */
  lemma AllErrorsSpec(f: BookingForm, e: FormError)
    ensures e in AllErrors(f) <==> Applies(f, e)
  {
    var c := ContactErrors(f);
    var st := SeatErrors(f);
    var pr := PriceErrors(f);
    var ps := PassengerErrors(f, 0);
    assert e in AllErrors(f) <==> e in c || e in st || e in pr || e in ps;
    ContactErrorSpec(f, e);
    assert IsContactError(e) || IsSeatError(e) || e.PriceUnavailable? || IsPassengerError(e);
  }

  lemma ContactErrorSpec(f: BookingForm, e: FormError)
    ensures e in ContactErrors(f) <==> IsContactError(e) && Applies(f, e)
  {
    if e == NameMissing {
    } else if e == EmailMissing {
    } else if e == EmailInvalid {
    } else if e == PhoneMissing {
    } else if e == PhoneTooShort {
    } else {
      assert !IsContactError(e);
    }
  }

  /** `validateBookingForm`: every message that applies, and `isValid`
      exactly when there is none. */
  function ValidateBookingForm(f: BookingForm): (r: Validation)
    ensures forall e :: e in r.errors <==> Applies(f, e)
    ensures r.isValid <==> |r.errors| == 0
    ensures r.isValid <==> forall e :: !Applies(f, e)
  {
    var errors := AllErrors(f);
    forall e ensures e in errors <==> Applies(f, e) {
      AllErrorsSpec(f, e);
    }
    assert |errors| != 0 ==> errors[0] in errors;
    Validation(|errors| == 0, errors)
  }

  /** `isFormValid`'s passenger check and the passenger messages of
      `validateBookingForm` agree on every passenger. */
  lemma PassengerCompleteIffNoMessage(f: BookingForm, i: nat)
    requires i < |f.passengers|
    ensures PassengerComplete(f.passengers[i]) <==>
      && !Applies(f, PassengerNameMissing(i)) && !Applies(f, PassengerIdMissing(i))
      && !Applies(f, PassengerIdTooShort(i)) && !Applies(f, InfantIdTooShort(i))
  {
  }

  /** With no phone error shown and a selection no longer than the adult
      count, a form `validateBookingForm` accepts also passes `isFormValid`. */
  lemma ValidatedFormIsValid(f: BookingForm)
    requires ValidateBookingForm(f).isValid
    requires f.phoneError == "" && |f.selected| <= f.adults
    ensures IsFormValid(f)
  {
    var none := forall e :: !Applies(f, e);
    assert none;
    ValidatedContactAndSeats(f);
    forall i | 0 <= i < |f.passengers| ensures PassengerComplete(f.passengers[i]) {
      PassengerCompleteIffNoMessage(f, i);
    }
  }

  lemma ValidatedContactAndSeats(f: BookingForm)
    requires forall e :: !Applies(f, e)
    requires |f.selected| <= f.adults
    ensures f.name != "" && f.email != "" && f.phone != "" && PhoneLongEnough(f.phone)
    ensures !SeatMapDown(f) && f.selectedPrice.Some?
    ensures |f.selected| == f.adults && forall i | 0 <= i < |f.selected| :: IsValidUuid(f.selected[i])
  {
    assert !Applies(f, NameMissing) && !Applies(f, EmailMissing) && !Applies(f, PhoneMissing);
    assert !Applies(f, PhoneTooShort) && !Applies(f, SeatMapUnavailable) && !Applies(f, PriceUnavailable);
    assert !Applies(f, NoSeatsSelected(f.adults)) && !Applies(f, TooFewSeats(f.adults, |f.selected|));
    assert !Applies(f, InvalidSeats);
  }

  /** A form `isFormValid` accepts can still draw messages from
      `validateBookingForm`, but only these: a whitespace-only name or email,
      a malformed email, and, with no adults, the request to select seats. */
  lemma FormValidLeavesContactErrors(f: BookingForm)
    requires IsFormValid(f)
    ensures forall e | e in ValidateBookingForm(f).errors ::
      e.NameMissing? || e.EmailMissing? || e.EmailInvalid? || (e.NoSeatsSelected? && f.adults == 0)
  {
    forall e | e in ValidateBookingForm(f).errors
      ensures e.NameMissing? || e.EmailMissing? || e.EmailInvalid? || (e.NoSeatsSelected? && f.adults == 0)
    {
      FormValidMessage(f, e);
    }
  }

  /** A form for one adult with a complete passenger, a well-formed seat, a
      price and a ten-digit phone, with the given name and email. */
  function OneAdultForm(name: string, email: string): (f: BookingForm)
    ensures |f.selected| == f.adults == |f.passengers| == 1
  {
    BookingForm(name, email, "0123456789", "", 1, "", Some(10.0),
                ["123e4567-e89b-12d3-a456-426614174000"], 1,
                [Passenger(Adult, "Ann", "A12345", [])])
  }

  /** Such a form passes `isFormValid` whenever its name and email are not
      empty strings. */
  lemma OneAdultFormValid(name: string, email: string)
    requires name != "" && email != ""
    ensures IsFormValid(OneAdultForm(name, email))
  {
    var f := OneAdultForm(name, email);
    TenDigitPhone();
    SamplePassengerComplete();
    SampleSeatIdValid();
    assert AllPassengersComplete(f.passengers);
  }

  /** A ten-digit phone number is long enough. */
  lemma TenDigitPhone()
    ensures PhoneLongEnough("0123456789")
  {
    var p := "0123456789";
    assert TrimStart(p) == p;
    assert TrimEnd(p) == p;
    Utf16LengthBmp(p);
  }

  /** An adult with a name and a six-character id is complete. */
  lemma SamplePassengerComplete()
    ensures PassengerComplete(Passenger(Adult, "Ann", "A12345", []))
  {
    assert Trim("Ann") == "Ann";
    var id := "A12345";
    assert TrimStart(id) == id;
    assert TrimEnd(id) == id;
    Utf16LengthBmp(id);
  }

  /** A version-1 identifier with variant digit `a` is UUID-shaped. */
  lemma SampleSeatIdValid()
    ensures IsValidUuid("123e4567-e89b-12d3-a456-426614174000")
  {
  }

  /** The bound of `FormValidLeavesContactErrors` is reached: a form that
      passes `isFormValid` draws the blank-name and the blank-email message
      when both are a single space, and the invalid-email message for an
      address without `@`. */
  lemma FormValidDrawsContactErrors()
    ensures IsFormValid(OneAdultForm(" ", " "))
    ensures NameMissing in ValidateBookingForm(OneAdultForm(" ", " ")).errors
    ensures EmailMissing in ValidateBookingForm(OneAdultForm(" ", " ")).errors
    ensures IsFormValid(OneAdultForm("Ann", "x"))
    ensures EmailInvalid in ValidateBookingForm(OneAdultForm("Ann", "x")).errors
  {
    OneAdultFormValid(" ", " ");
    OneAdultFormValid("Ann", "x");
    assert IsBlank(" ") by { BlankIffAllSpace(" "); }
    assert !IsBlank("x") by { BlankIffAllSpace("x"); }
    assert Applies(OneAdultForm(" ", " "), NameMissing);
    assert Applies(OneAdultForm(" ", " "), EmailMissing);
    assert Applies(OneAdultForm("Ann", "x"), EmailInvalid);
  }

  /** One message that applies to a form `isFormValid` accepts. */
  lemma FormValidMessage(f: BookingForm, e: FormError)
    requires IsFormValid(f) && Applies(f, e)
    ensures e.NameMissing? || e.EmailMissing? || e.EmailInvalid? || (e.NoSeatsSelected? && f.adults == 0)
  {
    assert forall i | 0 <= i < |f.passengers| :: PassengerComplete(f.passengers[i]);
  }

  /** `validateBookingForm` reports too few seats but not too many: an
      over-long selection of well-formed ids draws no seat message, while
      `isFormValid` rejects it. */
  lemma OverlongSelectionSlipsThrough(f: BookingForm)
    requires !SeatMapDown(f) && |f.selected| > f.adults
    requires forall i | 0 <= i < |f.selected| :: IsValidUuid(f.selected[i])
    ensures forall e | e in ValidateBookingForm(f).errors ::
      !(e.SeatMapUnavailable? || e.NoSeatsSelected? || e.TooFewSeats? || e.InvalidSeats?)
    ensures !IsFormValid(f)
  {
  }
}
