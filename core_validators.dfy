/** The back end's field validators: each returns the message of the
    `ValidationError` it raises, or `None` when the value passes. */
module CoreValidators {
  import opened Common
  import opened Text

  /** The characters the phone validators keep: the complement of
      `[^\d+]`. */
  predicate IsPhoneChar(c: char) { IsDigit(c) || c == '+' }

  predicate AllDigits(s: string) { forall i :: 0 <= i < |s| ==> IsDigit(s[i]) }

  /** The phone number with every other character deleted. */
  function PhoneDigits(s: string): string { Keep(s, IsPhoneChar) }

  /** The letters of the name class: а–я, А–Я, ё, Ё, a–z, A–Z. */
  predicate IsNameLetter(c: char)
  {
    ('а' <= c <= 'я') || ('А' <= c <= 'Я') || c == 'ё' || c == 'Ё' || ('a' <= c <= 'z') || ('A' <= c <= 'Z')
  }

  /** The class `[а-яА-ЯёЁa-zA-Z\s-]` for the white space `ws`. */
  predicate IsNameChar(c: char, ws: char -> bool) { IsNameLetter(c) || ws(c) || c == '-' }

  predicate AllNameChars(s: string, ws: char -> bool) { forall i :: 0 <= i < |s| ==> IsNameChar(s[i], ws) }

  const PhoneError := "Неверный формат телефона. Используйте +7 (XXX) XXX-XX-XX"
  const NameShortError := "Имя должно содержать минимум 2 символа"
  const NameCharsError := "Имя может содержать только буквы, пробелы и дефисы"
  const MessageError := "Сообщение должно содержать минимум 10 символов"
  const PriceError := "Цена должна быть больше 0"
  const DurationError := "Длительность должна быть от 1 до 8 часов"

  /** `validate_phone`: the kept characters must match `^(\+7|8)\d{10}$`. */
  function ValidatePhone(s: string): Option<string>
  {
    var p := PhoneDigits(s);
    if (|p| == 12 && p[..2] == "+7" && AllDigits(p[2..])) || (|p| == 11 && p[0] == '8' && AllDigits(p[1..]))
    then None else Some(PhoneError)
  }

  /** The regular expression's language: '+7' or '8', then ten digits. */
  lemma ValidatePhoneSpec(s: string)
    ensures ValidatePhone(s).None? <==>
      exists d :: |d| == 10 && AllDigits(d) && (PhoneDigits(s) == "+7" + d || PhoneDigits(s) == "8" + d)
    ensures ValidatePhone(s).Some? ==> ValidatePhone(s).value == PhoneError
  {
    var p := PhoneDigits(s);
    if |p| == 12 && p[..2] == "+7" && AllDigits(p[2..]) {
      assert p == "+7" + p[2..];
    } else if |p| == 11 && p[0] == '8' && AllDigits(p[1..]) {
      assert p == "8" + p[1..];
    }
    if exists d :: |d| == 10 && AllDigits(d) && (p == "+7" + d || p == "8" + d) {
      var d :| |d| == 10 && AllDigits(d) && (p == "+7" + d || p == "8" + d);
      if p == "+7" + d { assert p[2..] == d && p[..2] == "+7"; } else { assert p[1..] == d; }
    }
  }

  /** `validate_name`: at least two characters once stripped (checked
      first), then only letters, white space and '-'. */
  function ValidateName(s: string): (r: Option<string>)
    ensures r.None? <==> |Trim(s, IsPySpace)| >= 2 && AllNameChars(s, IsPySpace)
    ensures r.Some? ==> r.value == (if |Trim(s, IsPySpace)| < 2 then NameShortError else NameCharsError)
  {
    if |Trim(s, IsPySpace)| < 2 then Some(NameShortError)
    else if !AllNameChars(s, IsPySpace) then Some(NameCharsError)
    else None
  }

  /** A name that passes holds two characters that are not white space,
      and a white-space-only name is refused as too short. */
  lemma ValidateNameSpec(s: string)
    ensures ValidateName(s).None? ==> exists i, j :: 0 <= i < j < |s| && !IsPySpace(s[i]) && !IsPySpace(s[j])
    ensures (forall i :: 0 <= i < |s| ==> IsPySpace(s[i])) ==> ValidateName(s) == Some(NameShortError)
  {
    var t := TrimStart(s, IsPySpace);
    var u := Trim(s, IsPySpace);
    var off := |s| - |t|;
    if ValidateName(s).None? {
      assert u[0] == t[0] == s[off];
      assert u[|u| - 1] == t[|u| - 1] == s[off + |u| - 1];
    }
    TrimEmptyIff(s, IsPySpace);
  }

  /** `validate_message`: an empty message passes; any other needs ten
      characters once stripped. */
  function ValidateMessage(s: string): (r: Option<string>)
    ensures r.None? <==> s == "" || |Trim(s, IsPySpace)| >= 10
  {
    if s != "" && |Trim(s, IsPySpace)| < 10 then Some(MessageError) else None
  }

  /** A non-empty message of white space only is refused. */
  lemma BlankMessageRefused(s: string)
    requires s != "" && forall i :: 0 <= i < |s| ==> IsPySpace(s[i])
    ensures ValidateMessage(s) == Some(MessageError)
  {
    TrimEmptyIff(s, IsPySpace);
  }

  /** `validate_price`. */
  function ValidatePrice(x: real): (r: Option<string>)
    ensures r.None? <==> x > 0.0
  {
    if x <= 0.0 then Some(PriceError) else None
  }

  /** `validate_duration`: 1 to 8 hours, both ends included. */
  function ValidateDuration(x: real): (r: Option<string>)
    ensures r.None? <==> 1.0 <= x <= 8.0
  {
    if x < 1.0 || x > 8.0 then Some(DurationError) else None
  }
}
