/** The presentation layer's logic: the validation of the reservation form
    shared by the create and edit windows, the gender radio buttons, the
    confirmation text, and the part of the reservations window that the
    controller refreshes. Widgets, layouts and event loops are not modelled. */
module ReservationsView {
  import opened Outcomes
  import opened Sequences
  import opened TreeData

  /** A date and time, as `strptime` would produce it; only the order matters. */
  type Instant = int

  /** The values the form hands to its event loop. `destination` is the
      list-box selection: a list of selected rows, each the `[city]` list the
      list box was filled with. */
  datatype FormValues = FormValues(
    name: string,
    passportNumber: string,
    male: bool,
    female: bool,
    departure: string,
    arrival: string,
    destination: seq<seq<string>>)

  /** `values['-Destination-'][0][0]` exists: some row is selected and it is not empty. */
  predicate HasDestination(v: FormValues)
  {
    |v.destination| > 0 && |v.destination[0]| > 0
  }

  /** The fields whose absence the validator reports. */
  datatype Field = NameField | PassportNumberField | GenderField | DepartureDateField | ArrivalDateField | DestinationField

  /** The order in which the validator checks the fields. */
  const FieldOrder: seq<Field> :=
    [NameField, PassportNumberField, GenderField, DepartureDateField, ArrivalDateField, DestinationField]

  function FieldRank(f: Field): int
  {
    match f
    case NameField => 0
    case PassportNumberField => 1
    case GenderField => 2
    case DepartureDateField => 3
    case ArrivalDateField => 4
    case DestinationField => 5
  }

  /** The name the error message uses for a field. */
  function FieldName(f: Field): string
  {
    match f
    case NameField => "Name"
    case PassportNumberField => "Passport Number"
    case GenderField => "Gender"
    case DepartureDateField => "Departure Date"
    case ArrivalDateField => "Arrival Date"
    case DestinationField => "Destination"
  }

  /** The field has no value in the form. */
  predicate IsMissing(v: FormValues, f: Field)
  {
    match f
    case NameField => |v.name| == 0
    case PassportNumberField => |v.passportNumber| == 0
    case GenderField => !v.male && !v.female
    case DepartureDateField => |v.departure| == 0
    case ArrivalDateField => |v.arrival| == 0
    case DestinationField => !HasDestination(v)
  }

  /** The test the validator applies to each field of `v`. */
  function MissingIn(v: FormValues): Field -> bool
  {
    f => IsMissing(v, f)
  }

  /** The missing fields, in checking order. */
  function MissingFields(v: FormValues): (r: seq<Field>)
    ensures |r| <= |FieldOrder|
  {
    Select(FieldOrder, MissingIn(v))
  }

  function FieldNames(fs: seq<Field>): (r: seq<string>)
    ensures |r| == |fs| && forall i :: 0 <= i < |fs| ==> r[i] == FieldName(fs[i])
  {
    seq(|fs|, i requires 0 <= i < |fs| => FieldName(fs[i]))
  }

  /** The three date checks of the validator. */
  datatype DateError = DepartureBeforeNow | ArrivalBeforeNow | ArrivalBeforeDeparture

  /** The order in which the validator runs the date checks. */
  const DateCheckOrder: seq<DateError> := [DepartureBeforeNow, ArrivalBeforeNow, ArrivalBeforeDeparture]

  function DateErrorRank(e: DateError): int
  {
    match e
    case DepartureBeforeNow => 0
    case ArrivalBeforeNow => 1
    case ArrivalBeforeDeparture => 2
  }

  /** The text the error message uses for a date error. */
  function DateErrorText(e: DateError): string
  {
    match e
    case DepartureBeforeNow => "Departure Date comes before today's date!!!\n"
    case ArrivalBeforeNow => "Arrival Date comes before today's date!!!\n"
    case ArrivalBeforeDeparture => "Arrival Date comes before Departure Date!"
  }

  function DateErrorTexts(es: seq<DateError>): (r: seq<string>)
    ensures |r| == |es| && forall i :: 0 <= i < |es| ==> r[i] == DateErrorText(es[i])
  {
    seq(|es|, i requires 0 <= i < |es| => DateErrorText(es[i]))
  }

  /** The exception `strptime` raises for a date that does not have the
      form `%Y-%m-%d %H:%M:%S`. */
  datatype ParseError = MalformedDate(text: string)

  /** Every date the validator parses is well formed: a date field is only
      parsed when it is not empty. */
  predicate DatesParse(v: FormValues, parse: string -> Option<Instant>)
  {
    (|v.departure| > 0 ==> parse(v.departure).Some?) && (|v.arrival| > 0 ==> parse(v.arrival).Some?)
  }

  /** The date check runs (its inputs are present) and finds the dates wrong. */
  predicate DateCheckFails(v: FormValues, parse: string -> Option<Instant>, now: Instant, e: DateError)
  {
    var dep := parse(v.departure);
    var arr := parse(v.arrival);
    match e
    case DepartureBeforeNow => |v.departure| > 0 && dep.Some? && dep.value <= now
    case ArrivalBeforeNow => |v.arrival| > 0 && arr.Some? && arr.value <= now
    case ArrivalBeforeDeparture =>
      |v.departure| > 0 && |v.arrival| > 0 && dep.Some? && arr.Some? && arr.value <= dep.value
  }

  /** The test the validator applies to each date check of `v`. */
  function FailingIn(v: FormValues, parse: string -> Option<Instant>, now: Instant): DateError -> bool
  {
    e => DateCheckFails(v, parse, now, e)
  }

  /** The failing date checks, in checking order. */
  function DateErrors(v: FormValues, parse: string -> Option<Instant>, now: Instant): (r: seq<DateError>)
    ensures |r| <= |DateCheckOrder|
  {
    Select(DateCheckOrder, FailingIn(v, parse, now))
  }

  const MissingHeader: string := "Missing data for the following fields: "
  const DateErrorsHeader: string := "\nDate/Time Errors:\n"

  /** The message `validate` builds from the missing field names and the date
      error texts. It opens with the missing-data header and ends with the date
      error texts, also when nothing is missing and no date check fails. */
  function ErrorMessage(missing: seq<string>, invalid: seq<string>): (msg: string)
    ensures |msg| >= |MissingHeader| + |DateErrorsHeader| + 2 + |Concat(invalid)|
    ensures msg[..|MissingHeader|] == MissingHeader
    ensures msg[|msg| - |Concat(invalid)|..] == Concat(invalid)
  {
    MissingHeader + "\n" + Join(",\n", missing) + "\n" + DateErrorsHeader + Concat(invalid)
  }

  /** `setGender`: "Male" exactly when the Male button is on, otherwise
      "Female", also when neither button is on. */
  function SetGender(v: FormValues): (gender: string)
    ensures gender == "Male" <==> v.male
    ensures !v.male ==> gender == "Female"
  {
    if v.male then "Male" else "Female"
  }

  /** The two radio buttons the edit window turns on for a stored gender. */
  function RadioButtonsFor(gender: string): (buttons: (bool, bool))
    ensures buttons.0 != buttons.1
    ensures buttons.0 <==> gender == "Male"
  {
    if gender == "Male" then (true, false) else (false, true)
  }

  /** Reading the radio buttons back gives the stored gender, for both genders the form offers. */
  lemma GenderRoundTrip(v: FormValues, gender: string)
    requires gender == "Male" || gender == "Female"
    requires (v.male, v.female) == RadioButtonsFor(gender)
    ensures SetGender(v) == gender
  {
  }

  const InfoHeader: string := "Reservation for \nName: "
  const InfoFooter: string := " \nsaved."

  /** `formatReservationInfo`: the confirmation shown after a reservation is saved. */
  function FormatReservationInfo(v: FormValues, gender: string): (msg: string)
    requires HasDestination(v)
    ensures |msg| >= |InfoHeader| + |InfoFooter|
    ensures msg[..|InfoHeader|] == InfoHeader && msg[|msg| - |InfoFooter|..] == InfoFooter
    ensures Occurs("\nDestination: " + v.destination[0][0] + "\n", msg)
  {
    var middle := v.name + " \nGender: " + gender + "\nPassport #: " + v.passportNumber;
    var destLine := "\nDestination: " + v.destination[0][0] + "\n";
    var dates := "Departure: " + v.departure + "\nArrival: " + v.arrival;
    var msg := InfoHeader + middle + destLine + dates + InfoFooter;
    assert msg[|InfoHeader| + |middle|..|InfoHeader| + |middle| + |destLine|] == destLine;
    assert OccursAt(destLine, msg, |InfoHeader| + |middle|);
    msg
  }

  /** `is_departure_before_now`: whether the departure is not after `now`. */
  function IsDepartureBeforeNow(v: FormValues, parse: string -> Option<Instant>, now: Instant): (r: Result<bool, ParseError>)
    ensures r.Failure? <==> parse(v.departure).None?
    ensures r.Failure? ==> r.error == MalformedDate(v.departure)
    ensures r.Success? ==> (r.value <==> parse(v.departure).value <= now)
  {
    match parse(v.departure)
    case None => Failure(MalformedDate(v.departure))
    case Some(departure) => if departure > now then Success(false) else Success(true)
  }

  /** `is_arrival_before_now`: whether the arrival is not after `now`. */
  function IsArrivalBeforeNow(v: FormValues, parse: string -> Option<Instant>, now: Instant): (r: Result<bool, ParseError>)
    ensures r.Failure? <==> parse(v.arrival).None?
    ensures r.Failure? ==> r.error == MalformedDate(v.arrival)
    ensures r.Success? ==> (r.value <==> parse(v.arrival).value <= now)
  {
    match parse(v.arrival)
    case None => Failure(MalformedDate(v.arrival))
    case Some(arrival) => if arrival > now then Success(false) else Success(true)
  }

  /** `is_arrival_before_departure`: whether the arrival is not after the
      departure; the departure is parsed first. */
  function IsArrivalBeforeDeparture(v: FormValues, parse: string -> Option<Instant>): (r: Result<bool, ParseError>)
    ensures r.Failure? <==> parse(v.departure).None? || parse(v.arrival).None?
    ensures r.Failure? ==>
      r.error == MalformedDate(if parse(v.departure).None? then v.departure else v.arrival)
    ensures r.Success? ==> (r.value <==> parse(v.arrival).value <= parse(v.departure).value)
  {
    match parse(v.departure)
    case None => Failure(MalformedDate(v.departure))
    case Some(departure) =>
      match parse(v.arrival)
      case None => Failure(MalformedDate(v.arrival))
      case Some(arrival) => if arrival > departure then Success(false) else Success(true)
  }

  /** The names collected so far, after the check of field `f`. */
  function WithMissing(v: FormValues, names: seq<string>, f: Field): seq<string>
  {
    names + (if IsMissing(v, f) then [FieldName(f)] else [])
  }

  /** The date error texts collected so far, after date check `e`. */
  function WithFailing(v: FormValues, parse: string -> Option<Instant>, now: Instant, texts: seq<string>, e: DateError): seq<string>
  {
    texts + (if DateCheckFails(v, parse, now, e) then [DateErrorText(e)] else [])
  }

  /** The names of the missing fields among the first `k` that the validator checks. */
  function MissingNamesUpTo(v: FormValues, k: nat): seq<string>
    requires k <= |FieldOrder|
  {
    if k == 0 then [] else WithMissing(v, MissingNamesUpTo(v, k - 1), FieldOrder[k - 1])
  }

  /** The texts of the failing date checks among the first `k` that the validator runs. */
  function DateErrorTextsUpTo(v: FormValues, parse: string -> Option<Instant>, now: Instant, k: nat): seq<string>
    requires k <= |DateCheckOrder|
  {
    if k == 0 then [] else WithFailing(v, parse, now, DateErrorTextsUpTo(v, parse, now, k - 1), DateCheckOrder[k - 1])
  }

  lemma FieldNamesAppend(a: seq<Field>, b: seq<Field>)
    ensures FieldNames(a + b) == FieldNames(a) + FieldNames(b)
  {
  }

  lemma DateErrorTextsAppend(a: seq<DateError>, b: seq<DateError>)
    ensures DateErrorTexts(a + b) == DateErrorTexts(a) + DateErrorTexts(b)
  {
  }

  lemma {:induction false} MissingNamesSelect(v: FormValues, k: nat)
    requires k <= |FieldOrder|
    ensures MissingNamesUpTo(v, k) == FieldNames(Select(FieldOrder[..k], MissingIn(v)))
  {
    if k > 0 {
      var f := FieldOrder[k - 1];
      MissingNamesSelect(v, k - 1);
      assert FieldOrder[..k] == FieldOrder[..k - 1] + [f];
      SelectSnoc(FieldOrder[..k - 1], f, MissingIn(v));
      FieldNamesAppend(Select(FieldOrder[..k - 1], MissingIn(v)), if IsMissing(v, f) then [f] else []);
    }
  }

  lemma {:induction false} DateErrorTextsSelect(v: FormValues, parse: string -> Option<Instant>, now: Instant, k: nat)
    requires k <= |DateCheckOrder|
    ensures DateErrorTextsUpTo(v, parse, now, k) == DateErrorTexts(Select(DateCheckOrder[..k], FailingIn(v, parse, now)))
  {
    if k > 0 {
      var e := DateCheckOrder[k - 1];
      DateErrorTextsSelect(v, parse, now, k - 1);
      assert DateCheckOrder[..k] == DateCheckOrder[..k - 1] + [e];
      SelectSnoc(DateCheckOrder[..k - 1], e, FailingIn(v, parse, now));
      DateErrorTextsAppend(Select(DateCheckOrder[..k - 1], FailingIn(v, parse, now)),
        if DateCheckFails(v, parse, now, e) then [e] else []);
    }
  }

  /** The presence checks of `validate`, in the order it runs them, collect
      exactly the names of the missing fields. */
  lemma PresenceChecksInOrder(v: FormValues)
    ensures FieldNames(MissingFields(v)) ==
      WithMissing(v, WithMissing(v, WithMissing(v, WithMissing(v, WithMissing(v, WithMissing(v, [],
        NameField), PassportNumberField), GenderField), DepartureDateField), ArrivalDateField), DestinationField)
  {
    MissingNamesSelect(v, |FieldOrder|);
    assert FieldOrder[..|FieldOrder|] == FieldOrder;
    assert MissingNamesUpTo(v, 1) == WithMissing(v, [], NameField);
    assert MissingNamesUpTo(v, 2) == WithMissing(v, MissingNamesUpTo(v, 1), PassportNumberField);
    assert MissingNamesUpTo(v, 3) == WithMissing(v, MissingNamesUpTo(v, 2), GenderField);
    assert MissingNamesUpTo(v, 4) == WithMissing(v, MissingNamesUpTo(v, 3), DepartureDateField);
    assert MissingNamesUpTo(v, 5) == WithMissing(v, MissingNamesUpTo(v, 4), ArrivalDateField);
    assert MissingNamesUpTo(v, 6) == WithMissing(v, MissingNamesUpTo(v, 5), DestinationField);
  }

  /** The date checks of `validate`, in the order it runs them, collect
      exactly the texts of the failing checks. */
  lemma DateChecksInOrder(v: FormValues, parse: string -> Option<Instant>, now: Instant)
    ensures DateErrorTexts(DateErrors(v, parse, now)) ==
      WithFailing(v, parse, now, WithFailing(v, parse, now, WithFailing(v, parse, now, [],
        DepartureBeforeNow), ArrivalBeforeNow), ArrivalBeforeDeparture)
  {
    DateErrorTextsSelect(v, parse, now, |DateCheckOrder|);
    assert DateCheckOrder[..|DateCheckOrder|] == DateCheckOrder;
    assert DateErrorTextsUpTo(v, parse, now, 1) == WithFailing(v, parse, now, [], DepartureBeforeNow);
    assert DateErrorTextsUpTo(v, parse, now, 2) ==
      WithFailing(v, parse, now, DateErrorTextsUpTo(v, parse, now, 1), ArrivalBeforeNow);
    assert DateErrorTextsUpTo(v, parse, now, 3) ==
      WithFailing(v, parse, now, DateErrorTextsUpTo(v, parse, now, 2), ArrivalBeforeDeparture);
  }

  /** What `validate` returns: the validity flag and the error message. */
  datatype Verdict = Verdict(isValid: bool, errorMsg: string)

  /** One presence check of `validate`: when field `f` has no value its
      name is appended to the missing list and the form is no longer valid. */
  method CheckPresent(v: FormValues, f: Field, valuesMissing: seq<string>, isValid: bool)
    returns (updated: seq<string>, stillValid: bool)
    ensures updated == WithMissing(v, valuesMissing, f)
    ensures stillValid <==> isValid && !IsMissing(v, f)
  {
    updated, stillValid := valuesMissing, isValid;
    if IsMissing(v, f) {
      updated := updated + [FieldName(f)];
      stillValid := false;
    }
  }

  /** Whether date check `e` raises: one of the dates it reads is non-empty
      but cannot be parsed. */
  predicate DateCheckRaises(v: FormValues, parse: string -> Option<Instant>, e: DateError)
  {
    match e
    case DepartureBeforeNow => |v.departure| > 0 && parse(v.departure).None?
    case ArrivalBeforeNow => |v.arrival| > 0 && parse(v.arrival).None?
    case ArrivalBeforeDeparture =>
      |v.departure| > 0 && |v.arrival| > 0 && (parse(v.departure).None? || parse(v.arrival).None?)
  }

  /** One date check of `validate`: run only when the dates it reads are
      non-empty; a failing check appends its text and the form is no
      longer valid; an unreadable date raises. */
  method CheckDate(v: FormValues, parse: string -> Option<Instant>, now: Instant, e: DateError,
                   valuesInvalid: seq<string>, isValid: bool)
    returns (r: Result<(seq<string>, bool), ParseError>)
    ensures r.Failure? <==> DateCheckRaises(v, parse, e)
    ensures r.Failure? ==>
      r.error == MalformedDate(if e != ArrivalBeforeNow && parse(v.departure).None? then v.departure else v.arrival)
    ensures r.Success? ==> r.value.0 == WithFailing(v, parse, now, valuesInvalid, e)
    ensures r.Success? ==> (r.value.1 <==> isValid && !DateCheckFails(v, parse, now, e))
  {
    var check: Result<bool, ParseError> := Success(false);
    match e {
      case DepartureBeforeNow =>
        if |v.departure| > 0 {
          check := IsDepartureBeforeNow(v, parse, now);
        }
      case ArrivalBeforeNow =>
        if |v.arrival| > 0 {
          check := IsArrivalBeforeNow(v, parse, now);
        }
      case ArrivalBeforeDeparture =>
        if |v.departure| > 0 && |v.arrival| > 0 {
          check := IsArrivalBeforeDeparture(v, parse);
        }
    }
    if check.Failure? {
      return Failure(check.error);
    }
    if check.value {
      return Success((valuesInvalid + [DateErrorText(e)], false));
    }
    return Success((valuesInvalid, isValid));
  }

  /** `validate`: checks the form field by field, collecting the names of the
      missing fields and the texts of the failing date checks, and reports
      them in one message. A non-empty date that `strptime` cannot read
      raises instead, the departure being read before the arrival. */
  method Validate(v: FormValues, parse: string -> Option<Instant>, now: Instant)
    returns (r: Result<Verdict, ParseError>)
    ensures r.Failure? <==> !DatesParse(v, parse)
    ensures r.Failure? ==>
      r.error == MalformedDate(if |v.departure| > 0 && parse(v.departure).None? then v.departure else v.arrival)
    ensures r.Success? ==>
      (r.value.isValid <==> MissingFields(v) == [] && DateErrors(v, parse, now) == [])
    ensures r.Success? ==>
      r.value.errorMsg == ErrorMessage(FieldNames(MissingFields(v)), DateErrorTexts(DateErrors(v, parse, now)))
  {
    var isValid := true;
    var valuesInvalid: seq<string> := [];
    var valuesMissing: seq<string> := [];

    valuesMissing, isValid := CheckPresent(v, NameField, valuesMissing, isValid);
    valuesMissing, isValid := CheckPresent(v, PassportNumberField, valuesMissing, isValid);
    valuesMissing, isValid := CheckPresent(v, GenderField, valuesMissing, isValid);
    valuesMissing, isValid := CheckPresent(v, DepartureDateField, valuesMissing, isValid);
    var checked := CheckDate(v, parse, now, DepartureBeforeNow, valuesInvalid, isValid);
    if checked.Failure? {
      return Failure(checked.error);
    }
    valuesInvalid, isValid := checked.value.0, checked.value.1;
    valuesMissing, isValid := CheckPresent(v, ArrivalDateField, valuesMissing, isValid);
    checked := CheckDate(v, parse, now, ArrivalBeforeNow, valuesInvalid, isValid);
    if checked.Failure? {
      return Failure(checked.error);
    }
    valuesInvalid, isValid := checked.value.0, checked.value.1;
    checked := CheckDate(v, parse, now, ArrivalBeforeDeparture, valuesInvalid, isValid);
    if checked.Failure? {
      return Failure(checked.error);
    }
    valuesInvalid, isValid := checked.value.0, checked.value.1;
    valuesMissing, isValid := CheckPresent(v, DestinationField, valuesMissing, isValid);

    PresenceChecksInOrder(v);
    DateChecksInOrder(v, parse, now);
    var missingMsg := MissingHeader + "\n" + Join(",\n", valuesMissing);
    var invalidMsg := Concat(valuesInvalid);
    var errorMsg := missingMsg + "\n" + DateErrorsHeader + invalidMsg;
    r := Success(Verdict(isValid, errorMsg));
  }

  /** A field is reported missing exactly when it has no value. */
  lemma MissingFieldsExactly(v: FormValues, f: Field)
    ensures f in MissingFields(v) <==> IsMissing(v, f)
  {
    SelectMembers(FieldOrder, MissingIn(v), f);
    assert f in FieldOrder by {
      match f
      case NameField => assert FieldOrder[0] == f;
      case PassportNumberField => assert FieldOrder[1] == f;
      case GenderField => assert FieldOrder[2] == f;
      case DepartureDateField => assert FieldOrder[3] == f;
      case ArrivalDateField => assert FieldOrder[4] == f;
      case DestinationField => assert FieldOrder[5] == f;
    }
  }

  /** Missing fields are reported once each, in the order Name, Passport
      Number, Gender, Departure Date, Arrival Date, Destination. */
  lemma MissingFieldsInOrder(v: FormValues)
    ensures forall i, j :: 0 <= i < j < |MissingFields(v)| ==>
      FieldRank(MissingFields(v)[i]) < FieldRank(MissingFields(v)[j])
  {
    SelectKeepsOrder(FieldOrder, MissingIn(v), FieldRank);
  }

  /** A date error is reported exactly when its check runs and fails. */
  lemma DateErrorsExactly(v: FormValues, parse: string -> Option<Instant>, now: Instant, e: DateError)
    ensures e in DateErrors(v, parse, now) <==> DateCheckFails(v, parse, now, e)
  {
    SelectMembers(DateCheckOrder, FailingIn(v, parse, now), e);
    assert e in DateCheckOrder by {
      match e
      case DepartureBeforeNow => assert DateCheckOrder[0] == e;
      case ArrivalBeforeNow => assert DateCheckOrder[1] == e;
      case ArrivalBeforeDeparture => assert DateCheckOrder[2] == e;
    }
  }

  /** Date errors are reported once each, departure first, then arrival, then their order. */
  lemma DateErrorsInOrder(v: FormValues, parse: string -> Option<Instant>, now: Instant)
    ensures forall i, j :: 0 <= i < j < |DateErrors(v, parse, now)| ==>
      DateErrorRank(DateErrors(v, parse, now)[i]) < DateErrorRank(DateErrors(v, parse, now)[j])
  {
    SelectKeepsOrder(DateCheckOrder, FailingIn(v, parse, now), DateErrorRank);
  }

  /** No field is reported missing exactly when every field has a value. */
  lemma NothingMissingExactly(v: FormValues)
    ensures MissingFields(v) == [] <==>
      && |v.name| > 0 && |v.passportNumber| > 0 && (v.male || v.female) && HasDestination(v)
      && |v.departure| > 0 && |v.arrival| > 0
  {
    if MissingFields(v) != [] {
      MissingFieldsExactly(v, MissingFields(v)[0]);
    }
    MissingFieldsExactly(v, NameField);
    MissingFieldsExactly(v, PassportNumberField);
    MissingFieldsExactly(v, GenderField);
    MissingFieldsExactly(v, DepartureDateField);
    MissingFieldsExactly(v, ArrivalDateField);
    MissingFieldsExactly(v, DestinationField);
  }

  /** With both dates given and readable, no date error is reported exactly
      when the departure lies strictly after `now` and the arrival strictly
      after the departure. */
  lemma NoDateErrorsExactly(v: FormValues, parse: string -> Option<Instant>, now: Instant)
    requires |v.departure| > 0 && |v.arrival| > 0 && DatesParse(v, parse)
    ensures DateErrors(v, parse, now) == [] <==> now < parse(v.departure).value < parse(v.arrival).value
  {
    if DateErrors(v, parse, now) != [] {
      DateErrorsExactly(v, parse, now, DateErrors(v, parse, now)[0]);
    }
    DateErrorsExactly(v, parse, now, DepartureBeforeNow);
    DateErrorsExactly(v, parse, now, ArrivalBeforeDeparture);
  }

  /** A form with readable dates passes exactly when every field has a value,
      the departure lies strictly after `now` and the arrival strictly after
      the departure (and so after `now`). Equal instants fail. */
  lemma ValidExactly(v: FormValues, parse: string -> Option<Instant>, now: Instant)
    requires DatesParse(v, parse)
    ensures (MissingFields(v) == [] && DateErrors(v, parse, now) == []) <==>
      && |v.name| > 0 && |v.passportNumber| > 0 && (v.male || v.female) && HasDestination(v)
      && |v.departure| > 0 && |v.arrival| > 0
      && now < parse(v.departure).value < parse(v.arrival).value
  {
    NothingMissingExactly(v);
    if |v.departure| > 0 && |v.arrival| > 0 {
      NoDateErrorsExactly(v, parse, now);
    }
  }

  /** Every missing field is named in the error message. */
  lemma MissingFieldNamed(v: FormValues, parse: string -> Option<Instant>, now: Instant, f: Field)
    requires IsMissing(v, f)
    ensures Occurs(FieldName(f), ErrorMessage(FieldNames(MissingFields(v)), DateErrorTexts(DateErrors(v, parse, now))))
  {
    var names := FieldNames(MissingFields(v));
    MissingFieldsExactly(v, f);
    var i :| 0 <= i < |MissingFields(v)| && MissingFields(v)[i] == f;
    assert names[i] == FieldName(f);
    JoinContains(",\n", names, FieldName(f));
    var joined := Join(",\n", names);
    OccursInRight(FieldName(f), MissingHeader + "\n", joined);
    OccursInLeft(FieldName(f), MissingHeader + "\n" + joined, "\n");
    OccursInLeft(FieldName(f), MissingHeader + "\n" + joined + "\n", DateErrorsHeader);
    OccursInLeft(FieldName(f), MissingHeader + "\n" + joined + "\n" + DateErrorsHeader,
      Concat(DateErrorTexts(DateErrors(v, parse, now))));
  }

  /** Every failing date check has its text in the error message. */
  lemma DateErrorReported(v: FormValues, parse: string -> Option<Instant>, now: Instant, e: DateError)
    requires DateCheckFails(v, parse, now, e)
    ensures Occurs(DateErrorText(e), ErrorMessage(FieldNames(MissingFields(v)), DateErrorTexts(DateErrors(v, parse, now))))
  {
    var texts := DateErrorTexts(DateErrors(v, parse, now));
    DateErrorsExactly(v, parse, now, e);
    var i :| 0 <= i < |DateErrors(v, parse, now)| && DateErrors(v, parse, now)[i] == e;
    assert texts[i] == DateErrorText(e);
    ConcatContains(texts, DateErrorText(e));
    var head := MissingHeader + "\n" + Join(",\n", FieldNames(MissingFields(v))) + "\n" + DateErrorsHeader;
    OccursInRight(DateErrorText(e), head, Concat(texts));
  }

  /** A form without missing fields has a selected destination, so the
      confirmation text can be built for it. */
  lemma NothingMissingHasDestination(v: FormValues)
    requires MissingFields(v) == []
    ensures HasDestination(v)
  {
    MissingFieldsExactly(v, DestinationField);
  }

  /** The part of the reservations window that the controller updates: the
      cached tree data, what the tree widget shows, and how often it was refreshed. */
  class ReservationsWindow {
    var treedata: seq<TreeRow>
    var shown: seq<TreeRow>
    var refreshes: nat

    constructor (treedata: seq<TreeRow>)
      ensures this.treedata == treedata && shown == treedata && refreshes == 0
    {
      this.treedata := treedata;
      shown := treedata;
      refreshes := 0;
    }

    /** `refreshTree`: the tree widget shows the cached tree data again. */
    method RefreshTree()
      modifies this`shown, this`refreshes
      ensures shown == treedata && refreshes == old(refreshes) + 1
    {
      shown := treedata;
      refreshes := refreshes + 1;
    }
  }
}
