/** The ice-rental booking page: picking a free slot fills in the form
    from the signed-in user, and submitting validates the form and sends
    one booking request for the chosen slot. */
module BookingPage {
  import opened Common
  import opened IceRental
  import opened FormValidators
  import BookingSerializer

  datatype FormData = FormData(name: string, phone: string, message: string)

  /** The signed-in user's profile; an absent value is "". */
  datatype Profile = Profile(firstName: string, lastName: string, username: string, phone: string)

  /** The request body: date, times, duration and the form fields. */
  datatype BookingRequest = BookingRequest(date: int, start: int, end: int, duration: real, name: string, phone: string, message: string)

  const EmptyForm := FormData("", "", "")

  /** The slot's length in hours, as the page shows and sends it. */
  function SlotHours(slot: SlotView): real
  {
    (slot.end - slot.start) as real / 60.0
  }

  /** The name the form is filled with: "first last" when both are
      known, else the username, else nothing. */
  function PrefillName(user: Option<Profile>): string
  {
    if user.Some? && user.value.firstName != "" && user.value.lastName != "" then user.value.firstName + " " + user.value.lastName
    else if user.Some? then user.value.username
    else ""
  }

  /** `handleSlotSelect`'s form update: only a form with neither a name
      nor a phone is filled, and then the message is cleared. */
  function Prefill(form: FormData, user: Option<Profile>): (r: FormData)
    ensures form.name == "" && form.phone == "" ==>
      r == FormData(PrefillName(user), if user.Some? then user.value.phone else "", "")
    ensures !(form.name == "" && form.phone == "") ==> r == form
  {
    if form.name == "" && form.phone == "" then FormData(PrefillName(user), if user.Some? then user.value.phone else "", "")
    else form
  }

  /** The form's fields by name, as `validateForm` reads them. */
  function FieldOf(form: FormData): string -> string
  {
    (f: string) => if f == "name" then form.name else if f == "phone" then form.phone else if f == "message" then form.message else ""
  }

  /** The schema: name and phone required and checked, the message checked. */
  function BookingSchema(): seq<(string, seq<string -> Option<string>>)>
  {
    [("name", [Required, Name]), ("phone", [Required, Phone]), ("message", [Message])]
  }

  /** What a submit does: store errors, send a request, or nothing when
      no slot is chosen. */
  datatype SubmitOutcome = ShowErrors(errors: map<string, string>) | Send(request: BookingRequest) | NoSlot

  /** `handleSubmit`. */
  function Submit(form: FormData, slot: Option<SlotView>, date: int): (r: SubmitOutcome)
    ensures r.Send? ==> slot.Some? && r.request == BookingRequest(date, slot.value.start, slot.value.end, SlotHours(slot.value), form.name, form.phone, form.message)
  {
    var errs := FormErrors(FieldOf(form), BookingSchema());
    if errs != map[] then ShowErrors(errs)
    else if slot.Some? then Send(BookingRequest(date, slot.value.start, slot.value.end, SlotHours(slot.value), form.name, form.phone, form.message))
    else NoSlot
  }

  lemma FirstErrorOne(v: string, a: string -> Option<string>)
    ensures FirstError(v, [a]).None? <==> a(v).None?
  {
    assert [a][1..] == [];
  }

  lemma FirstErrorTwo(v: string, a: string -> Option<string>, b: string -> Option<string>)
    ensures FirstError(v, [a, b]).None? <==> a(v).None? && b(v).None?
  {
    assert [a, b][1..] == [b];
    FirstErrorOne(v, b);
  }

  lemma FormErrorsThree(data: string -> string, f1: string, f2: string, f3: string,
                        r1: seq<string -> Option<string>>, r2: seq<string -> Option<string>>, r3: seq<string -> Option<string>>)
    ensures FormErrors(data, [(f1, r1), (f2, r2), (f3, r3)]) == map[] <==>
      FirstError(data(f1), r1).None? && FirstError(data(f2), r2).None? && FirstError(data(f3), r3).None?
  {
    var sc := [(f1, r1), (f2, r2), (f3, r3)];
    FormErrorsEmpty(data, sc);
    assert sc[0] == (f1, r1) && sc[1] == (f2, r2) && sc[2] == (f3, r3);
  }

  /** The form passes exactly when name and phone are present and well
      formed and the message is acceptable. */
  lemma BookingSchemaPasses(form: FormData)
    ensures FormErrors(FieldOf(form), BookingSchema()) == map[] <==>
      Required(form.name).None? && Name(form.name).None? && Required(form.phone).None? && Phone(form.phone).None? && Message(form.message).None?
  {
    var data := FieldOf(form);
    FormErrorsThree(data, "name", "phone", "message", [Required, Name], [Required, Phone], [Message]);
    assert data("name") == form.name && data("phone") == form.phone && data("message") == form.message;
    FirstErrorTwo(form.name, Required, Name);
    FirstErrorTwo(form.phone, Required, Phone);
    FirstErrorOne(form.message, Message);
  }

  /** A request goes out exactly when a slot is chosen and every field
      passes its rules; errors are shown exactly when some field fails,
      and then they are the failing fields with their first errors. */
  lemma SubmitSpec(form: FormData, slot: Option<SlotView>, date: int)
    ensures Submit(form, slot, date).ShowErrors? <==>
      Required(form.name).Some? || Name(form.name).Some? || Required(form.phone).Some? || Phone(form.phone).Some? || Message(form.message).Some?
    ensures Submit(form, slot, date).ShowErrors? ==>
      Submit(form, slot, date).errors == FormErrors(FieldOf(form), BookingSchema())
    ensures Submit(form, slot, date).Send? <==> slot.Some? && !Submit(form, slot, date).ShowErrors?
  {
    BookingSchemaPasses(form);
  }

  /** The duration the page sends is the one the serializer computes and
      stores for the same times. */
  lemma SentDurationAgrees(form: FormData, slot: Option<SlotView>, date: int)
    requires Submit(form, slot, date).Send?
    ensures Submit(form, slot, date).request.duration == BookingSerializer.Duration(slot.value.start, slot.value.end)
  {
  }

  /** The three inputs of the form. */
  datatype Field = NameField | PhoneField | MessageField

  /** The key under which a field's value and error are stored. */
  function FieldKey(f: Field): string
  {
    match f
    case NameField => "name"
    case PhoneField => "phone"
    case MessageField => "message"
  }

  /** The form with one field replaced by what was typed. */
  function WithField(form: FormData, f: Field, v: string): (r: FormData)
    ensures FieldOf(r)(FieldKey(f)) == v
    ensures forall g :: g != f ==> FieldOf(r)(FieldKey(g)) == FieldOf(form)(FieldKey(g))
  {
    match f
    case NameField => form.(name := v)
    case PhoneField => form.(phone := v)
    case MessageField => form.(message := v)
  }

  /** The error shown under a field: a stored, non-empty message. */
  function ShownError(errors: map<string, string>, key: string): Option<string>
  {
    if key in errors && errors[key] != "" then Some(errors[key]) else None
  }

  /** Typing into a field blanks that field's shown error and touches no
      other key; a field without a shown error keeps the map as it is. */
  function ClearError(errors: map<string, string>, key: string): (r: map<string, string>)
    ensures r.Keys == errors.Keys
    ensures ShownError(r, key).None?
    ensures forall k :: k in errors && k != key ==> r[k] == errors[k]
    ensures ShownError(errors, key).None? ==> r == errors
  {
    if ShownError(errors, key).Some? then errors[key := ""] else errors
  }

  /** The page's state. */
  class BookingForm {
    var date: int
    var selected: Option<SlotView>
    var form: FormData
    var errors: map<string, string>

    /** Only a free slot can be the chosen one. */
    predicate Valid()
      reads this
    {
      selected.Some? ==> selected.value.available
    }

    constructor (date: int)
      ensures Valid() && this.date == date && selected.None? && form == EmptyForm && errors == map[]
    {
      this.date := date;
      selected := None;
      form := EmptyForm;
      errors := map[];
    }

    /** A click on a slot button: a taken slot does nothing; a free one
        becomes the choice and may fill the form. */
    method ClickSlot(slot: SlotView, user: Option<Profile>)
      requires Valid()
      modifies this
      ensures Valid()
      ensures slot.available ==> selected == Some(slot) && form == Prefill(old(form), user)
      ensures !slot.available ==> selected == old(selected) && form == old(form)
      ensures date == old(date) && errors == old(errors)
    {
      if slot.available {
        selected := Some(slot);
        form := Prefill(form, user);
      }
    }

    /** The submit button: errors are stored and nothing is sent, or the
        request for the chosen slot is sent; passing errors are left as
        they were. */
    method HandleSubmit() returns (sent: Option<BookingRequest>)
      requires Valid()
      modifies this
      ensures Valid()
      ensures Submit(old(form), old(selected), old(date)).ShowErrors? ==>
        errors == Submit(old(form), old(selected), old(date)).errors && sent.None?
      ensures !Submit(old(form), old(selected), old(date)).ShowErrors? ==> errors == old(errors)
      ensures Submit(old(form), old(selected), old(date)).Send? ==> sent == Some(Submit(old(form), old(selected), old(date)).request)
      ensures Submit(old(form), old(selected), old(date)).NoSlot? ==> sent.None?
      ensures date == old(date) && selected == old(selected) && form == old(form)
    {
      var outcome := Submit(form, selected, date);
      sent := None;
      match outcome {
        case ShowErrors(e) => errors := e;
        case Send(req) => sent := Some(req);
        case NoSlot =>
      }
    }

    /** A date button or the date input: only the date changes; the
        chosen slot, the form and the errors stay, so a later submit sends
        the new date with the times of the slot chosen before. */
    method SetDate(d: int)
      requires Valid()
      modifies this
      ensures Valid()
      ensures date == d && selected == old(selected) && form == old(form) && errors == old(errors)
    {
      date := d;
    }

    /** Typing into a field: the field takes the new value and its shown
        error is blanked; the other fields, the date and the choice stay. */
    method EditField(f: Field, v: string)
      requires Valid()
      modifies this
      ensures Valid()
      ensures form == WithField(old(form), f, v) && errors == ClearError(old(errors), FieldKey(f))
      ensures date == old(date) && selected == old(selected)
    {
      form := WithField(form, f, v);
      if ShownError(errors, FieldKey(f)).Some? {
        errors := errors[FieldKey(f) := ""];
      }
    }

    /** A successful request clears the choice, the form and the errors. */
    method Succeeded()
      modifies this
      ensures Valid() && selected.None? && form == EmptyForm && errors == map[] && date == old(date)
    {
      selected := None;
      form := EmptyForm;
      errors := map[];
    }
  }
}
