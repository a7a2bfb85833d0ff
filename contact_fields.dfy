/** The name, phone and message fields that the booking and
    section-request serializers build from their models. Django REST
    framework's `CharField` first strips the value. A blank value is refused
    unless the model allows it. Otherwise the model's `max_length` applies and
    null characters are refused. Then the serializer's own
    `validate_<field>` runs on the stripped value, which is also the value
    stored. */
module ContactFields {
  import opened Common
  import opened Text
  import opened CoreValidators

  datatype FieldResult = Accepted(value: string) | Refused(error: string)

  /** The keys of a serializer's error map: the fields of the booking and
      section-request serializers. */
  datatype FieldName = NameKey | PhoneKey | MessageKey | DateKey | TimeStartKey | TimeEndKey | DurationKey | SectionKey

  /** The JSON name under which the field's error is reported. */
  function JsonName(f: FieldName): string
  {
    match f
    case NameKey => "name"
    case PhoneKey => "phone"
    case MessageKey => "message"
    case DateKey => "date"
    case TimeStartKey => "time_start"
    case TimeEndKey => "time_end"
    case DurationKey => "duration_hours"
    case SectionKey => "section"
  }

  const BlankError := "This field may not be blank."
  const RequiredError := "This field is required."
  const NullCharError := "Null characters are not allowed."

  /** The `max_length` message of the framework. */
  function MaxLengthError(n: nat): string
  {
    "Ensure this field has no more than " + NatToString(n) + " characters."
  }

  /** `max_length` of the models' `name` and `phone`. */
  const NameMaxLength := 100
  const PhoneMaxLength := 20

  /** `CharField.run_validation` with `trim_whitespace` on. A blank value
      gives '' or the blank error, and no validator runs on it. Any other
      value is stripped, then checked against the length limit and for
      null characters. */
  function CharField(raw: string, allowBlank: bool, maxLength: Option<nat>): (r: FieldResult)
    ensures var t := Trim(raw, IsPySpace);
      r.Accepted? <==>
        (t == "" && allowBlank) || (t != "" && (maxLength.None? || |t| <= maxLength.value) && '\0' !in t)
    ensures r.Accepted? ==> r.value == Trim(raw, IsPySpace)
    ensures r.Refused? && Trim(raw, IsPySpace) == "" ==> r.error == BlankError
  {
    var t := Trim(raw, IsPySpace);
    if t == "" then (if allowBlank then Accepted("") else Refused(BlankError))
    else if maxLength.Some? && |t| > maxLength.value then Refused(MaxLengthError(maxLength.value))
    else if '\0' in t then Refused(NullCharError)
    else Accepted(t)
  }

  /** The stored value passes the field again unchanged. */
  lemma CharFieldStable(raw: string, allowBlank: bool, maxLength: Option<nat>)
    requires CharField(raw, allowBlank, maxLength).Accepted?
    ensures CharField(CharField(raw, allowBlank, maxLength).value, allowBlank, maxLength) == CharField(raw, allowBlank, maxLength)
  {
    TrimIdempotent(raw, IsPySpace);
  }

  /** The string field, then the serializer's check on the stripped value. */
  function ContactField(raw: string, allowBlank: bool, maxLength: Option<nat>, check: string -> Option<string>): (r: FieldResult)
    ensures r.Accepted? <==> CharField(raw, allowBlank, maxLength).Accepted? && check(Trim(raw, IsPySpace)).None?
    ensures r.Accepted? ==> r.value == Trim(raw, IsPySpace)
  {
    match CharField(raw, allowBlank, maxLength)
    case Refused(e) => Refused(e)
    case Accepted(t) => match check(t) case Some(e) => Refused(e) case None => Accepted(t)
  }

  /** `validate_message` checks only a non-empty message (`if value:`). */
  function MessageCheck(s: string): Option<string>
  {
    if s != "" then ValidateMessage(s) else None
  }

  function NameField(raw: string): FieldResult
  {
    ContactField(raw, false, Some(NameMaxLength), ValidateName)
  }

  function PhoneField(raw: string): FieldResult
  {
    ContactField(raw, false, Some(PhoneMaxLength), ValidatePhone)
  }

  /** The message is a `TextField(blank=True)`: blank allowed, no length
      limit. */
  function MessageField(raw: string): FieldResult
  {
    ContactField(raw, true, None, MessageCheck)
  }

  /** A name is accepted exactly when, once stripped, it is at most 100
      characters long, holds no null character and passes `validate_name`.
      The phone has the same rule with 20 characters and `validate_phone`,
      and both refuse a blank value with the blank error. */
  lemma NamePhoneSpec(raw: string)
    ensures var t := Trim(raw, IsPySpace);
      NameField(raw).Accepted? <==> |t| <= NameMaxLength && '\0' !in t && ValidateName(t).None?
    ensures var t := Trim(raw, IsPySpace);
      PhoneField(raw).Accepted? <==> t != "" && |t| <= PhoneMaxLength && '\0' !in t && ValidatePhone(t).None?
    ensures Trim(raw, IsPySpace) == "" ==> NameField(raw) == Refused(BlankError) && PhoneField(raw) == Refused(BlankError)
  {
    var t := Trim(raw, IsPySpace);
    if ValidateName(t).None? {
      assert |Trim(t, IsPySpace)| >= 2;
      TrimIdempotent(raw, IsPySpace);
    }
  }

  /** A message is accepted exactly when it is blank, and then stored as
      '', or when, stripped, it is at least ten characters long with no
      null character. */
  lemma MessageSpec(raw: string)
    ensures var t := Trim(raw, IsPySpace);
      MessageField(raw).Accepted? <==> t == "" || (|t| >= 10 && '\0' !in t)
    ensures Trim(raw, IsPySpace) == "" ==> MessageField(raw) == Accepted("")
  {
    TrimIdempotent(raw, IsPySpace);
  }

  /** A message of twelve spaces is stored as ''. The serializer never
      hands the raw value to `validate_message`, which would refuse it. */
  lemma BlankMessageStored()
    ensures MessageField("            ") == Accepted("")
    ensures ValidateMessage("            ") == Some(MessageError)
  {
    TrimEmptyIff("            ", IsPySpace);
    BlankMessageRefused("            ");
  }

  /** The name, phone and message of a request. `None` means the
      request leaves the field out. */
  datatype Contact = Contact(name: Option<string>, phone: Option<string>, message: Option<string>)

  /** The error of one field, given the result of its checks when the
      request sends it. A missing field is an error only when it is
      required and the update is not partial. */
  function ErrorOf(checked: Option<FieldResult>, required: bool, partial: bool): (e: Option<string>)
    ensures e.Some? <==> (checked.None? && required && !partial) || (checked.Some? && checked.value.Refused?)
    ensures e.Some? && checked.Some? ==> e.value == checked.value.error
    ensures e.Some? && checked.None? ==> e.value == RequiredError
  {
    match checked
    case None => if required && !partial then Some(RequiredError) else None
    case Some(Refused(e)) => Some(e)
    case Some(Accepted(_)) => None
  }

  /** A map with `key` set to the error, if there is one. */
  function WithError(m: map<FieldName, string>, key: FieldName, e: Option<string>): (r: map<FieldName, string>)
    ensures forall k :: k in r <==> k in m || (k == key && e.Some?)
    ensures forall k :: k in m && k != key ==> r[k] == m[k]
    ensures e.Some? ==> key in r && r[key] == e.value
  {
    if e.Some? then m[key := e.value] else m
  }

  /** The results of the three fields a request sends. */
  function NameChecked(c: Contact): Option<FieldResult> { if c.name.Some? then Some(NameField(c.name.value)) else None }
  function PhoneChecked(c: Contact): Option<FieldResult> { if c.phone.Some? then Some(PhoneField(c.phone.value)) else None }
  function MessageChecked(c: Contact): Option<FieldResult> { if c.message.Some? then Some(MessageField(c.message.value)) else None }

  /** The field errors of the contact part. Name and phone are required on
      a full update. The message is not, because the model allows it
      blank. */
  function ContactErrors(c: Contact, partial: bool): (errs: map<FieldName, string>)
    ensures NameKey in errs <==> (c.name.None? && !partial) || (c.name.Some? && NameField(c.name.value).Refused?)
    ensures PhoneKey in errs <==> (c.phone.None? && !partial) || (c.phone.Some? && PhoneField(c.phone.value).Refused?)
    ensures MessageKey in errs <==> c.message.Some? && MessageField(c.message.value).Refused?
    ensures errs.Keys <= {NameKey, PhoneKey, MessageKey}
    ensures NameKey in errs && c.name.Some? ==> errs[NameKey] == NameField(c.name.value).error
  {
    var m1 := WithError(map[], NameKey, ErrorOf(NameChecked(c), true, partial));
    var m2 := WithError(m1, PhoneKey, ErrorOf(PhoneChecked(c), true, partial));
    WithError(m2, MessageKey, ErrorOf(MessageChecked(c), false, partial))
  }

  /** The stripped value of a field the request sends. */
  function Stripped(raw: Option<string>): (r: Option<string>)
    ensures r.Some? <==> raw.Some?
    ensures raw.Some? ==> r.value == Trim(raw.value, IsPySpace)
  {
    if raw.Some? then Some(Trim(raw.value, IsPySpace)) else None
  }

  /** Without errors, the stored values are the stripped ones: every
      field's accepted value. */
  lemma CleanedValues(c: Contact, partial: bool)
    requires ContactErrors(c, partial) == map[]
    ensures c.name.Some? ==> NameField(c.name.value) == Accepted(Stripped(c.name).value)
    ensures c.phone.Some? ==> PhoneField(c.phone.value) == Accepted(Stripped(c.phone).value)
    ensures c.message.Some? ==> MessageField(c.message.value) == Accepted(Stripped(c.message).value)
  {
    assert NameKey !in ContactErrors(c, partial);
    assert PhoneKey !in ContactErrors(c, partial);
    assert MessageKey !in ContactErrors(c, partial);
  }
}
