/** The front end's form validators: rule functions returning an error
    message or `None`, the first-failing-rule search of a field and the
    per-field error map of a form. Lengths are JavaScript's UTF-16
    lengths and white space is JavaScript's. */
module FormValidators {
  import opened Common
  import opened Text
  import opened CoreValidators

  /** The phone rule: the kept characters must match `^\+7\d{10}$`. */
  function Phone(s: string): Option<string>
  {
    var p := PhoneDigits(s);
    if |p| == 12 && p[..2] == "+7" && AllDigits(p[2..]) then None else Some(PhoneError)
  }

  /** The pattern's language: '+7' followed by exactly ten digits. */
  lemma PhoneSpec(s: string)
    ensures Phone(s).None? <==> exists d :: |d| == 10 && AllDigits(d) && PhoneDigits(s) == "+7" + d
  {
    var p := PhoneDigits(s);
    if Phone(s).None? { assert p == "+7" + p[2..]; }
    if exists d :: |d| == 10 && AllDigits(d) && p == "+7" + d {
      var d :| |d| == 10 && AllDigits(d) && p == "+7" + d;
      assert p[..2] == "+7" && p[2..] == d;
    }
  }

  /** Every number the form accepts the back end accepts too, through
      its '+7' branch. */
  lemma PhoneAcceptedByBackEnd(s: string)
    requires Phone(s).None?
    ensures ValidatePhone(s).None?
  {
  }

  /** The back end also accepts the '8' form, which the form refuses. */
  lemma EightPrefixOnlyBackEnd()
    ensures ValidatePhone("89123456789").None? && Phone("89123456789").Some?
  {
    var s := "89123456789";
    assert forall i :: 0 <= i < |s| ==> IsPhoneChar(s[i]);
    KeepAll(s, IsPhoneChar);
  }

  lemma {:induction false} KeepAll(s: string, f: char -> bool)
    requires forall i :: 0 <= i < |s| ==> f(s[i])
    ensures Keep(s, f) == s
  {
    if s != [] {
      KeepAll(s[..|s| - 1], f);
      assert s[..|s| - 1] + [s[|s| - 1]] == s;
    }
  }

  /** The name rule: trimmed UTF-16 length at least 2 (checked first),
      then only letters, white space and '-'. */
  function Name(s: string): (r: Option<string>)
    ensures r.None? <==> Utf16Length(Trim(s, IsJsSpace)) >= 2 && AllNameChars(s, IsJsSpace)
  {
    if Utf16Length(Trim(s, IsJsSpace)) < 2 then Some(NameShortError)
    else if !AllNameChars(s, IsJsSpace) then Some(NameCharsError)
    else None
  }

  /** On text where the two white-space classes agree and every
      character is in the Basic Multilingual Plane, the form's name rule
      and the back end's give the same answer. */
  lemma NameRulesAgree(s: string)
    requires forall i :: 0 <= i < |s| ==> (IsJsSpace(s[i]) <==> IsPySpace(s[i]))
    requires forall i :: 0 <= i < |s| ==> s[i] as int < 0x1_0000
    ensures Name(s) == ValidateName(s)
  {
    TrimSameClass(s, IsJsSpace, IsPySpace);
    TrimBmp(s, IsJsSpace);
    assert AllNameChars(s, IsJsSpace) == AllNameChars(s, IsPySpace);
  }

  /** Trimming text of the Basic Multilingual Plane leaves such text. */
  lemma TrimBmp(s: string, ws: char -> bool)
    requires forall i :: 0 <= i < |s| ==> s[i] as int < 0x1_0000
    ensures Utf16Length(Trim(s, ws)) == |Trim(s, ws)|
  {
    var a := TrimStart(s, ws);
    var t := TrimEnd(a, ws);
    forall i | 0 <= i < |t| ensures t[i] as int < 0x1_0000 {
      assert t[i] == a[i];
      assert a[i] == s[|s| - |a| + i];
    }
    Utf16LengthBmp(t);
  }

  /** Trimming with two classes that agree on `s` gives the same result. */
  lemma TrimSameClass(s: string, p: char -> bool, q: char -> bool)
    requires forall i :: 0 <= i < |s| ==> (p(s[i]) <==> q(s[i]))
    ensures Trim(s, p) == Trim(s, q)
  {
    TrimStartSame(s, p, q);
    var a := TrimStart(s, p);
    AgreeOnSuffix(s, |s| - |a|, p, q);
    TrimEndSame(a, p, q);
  }

  lemma AgreeOnSuffix(s: string, k: int, p: char -> bool, q: char -> bool)
    requires forall i :: 0 <= i < |s| ==> (p(s[i]) <==> q(s[i]))
    requires 0 <= k <= |s|
    ensures forall i :: 0 <= i < |s[k..]| ==> (p(s[k..][i]) <==> q(s[k..][i]))
  {
    forall i | 0 <= i < |s[k..]| ensures p(s[k..][i]) <==> q(s[k..][i]) {
      assert s[k..][i] == s[k + i];
    }
  }

  lemma {:induction false} TrimStartSame(s: string, p: char -> bool, q: char -> bool)
    requires forall i :: 0 <= i < |s| ==> (p(s[i]) <==> q(s[i]))
    ensures TrimStart(s, p) == TrimStart(s, q)
    decreases |s|
  {
    if s != [] && p(s[0]) {
      assert forall i :: 0 <= i < |s[1..]| ==> s[1..][i] == s[i + 1];
      TrimStartSame(s[1..], p, q);
    }
  }

  lemma {:induction false} TrimEndSame(s: string, p: char -> bool, q: char -> bool)
    requires forall i :: 0 <= i < |s| ==> (p(s[i]) <==> q(s[i]))
    ensures TrimEnd(s, p) == TrimEnd(s, q)
    decreases |s|
  {
    if s != [] && p(s[|s| - 1]) {
      TrimEndSame(s[..|s| - 1], p, q);
    }
  }

  /** The message rule: empty passes, otherwise ten UTF-16 units once
      trimmed. */
  function Message(s: string): (r: Option<string>)
    ensures r.None? <==> s == "" || Utf16Length(Trim(s, IsJsSpace)) >= 10
  {
    if s != "" && Utf16Length(Trim(s, IsJsSpace)) < 10 then Some(MessageError) else None
  }

  /** Five to nine characters outside the Basic Multilingual Plane
      count ten or more units here but fewer than ten characters on the
      back end, so the two message rules disagree on them. */
  lemma MessageLengthsDiffer(s: string)
    requires 5 <= |s| < 10 && forall i :: 0 <= i < |s| ==> s[i] as int >= 0x1_0000
    ensures Message(s).None? && ValidateMessage(s).Some?
  {
    assert !IsJsSpace(s[0]) && !IsJsSpace(s[|s| - 1]) && !IsPySpace(s[0]) && !IsPySpace(s[|s| - 1]);
    assert TrimStart(s, IsJsSpace) == s && TrimEnd(s, IsJsSpace) == s;
    assert TrimStart(s, IsPySpace) == s && TrimEnd(s, IsPySpace) == s;
    Utf16LengthAstral(s);
  }

  lemma {:induction false} Utf16LengthAstral(s: string)
    requires forall i :: 0 <= i < |s| ==> s[i] as int >= 0x1_0000
    ensures Utf16Length(s) == 2 * |s|
  {
    if s != [] { Utf16LengthAstral(s[..|s| - 1]); }
  }

  /** A run of the class `[^\s@]`. */
  predicate Segment(s: string)
  {
    s != "" && forall i :: 0 <= i < |s| ==> !IsJsSpace(s[i]) && s[i] != '@'
  }

  /** The language of `^[^\s@]+@[^\s@]+\.[^\s@]+$`. */
  predicate EmailPattern(s: string)
  {
    exists a, d :: 0 <= a < d < |s| && s[a] == '@' && s[d] == '.'
      && Segment(s[..a]) && Segment(s[a + 1..d]) && Segment(s[d + 1..])
  }

  function Email(s: string): Option<string>
  {
    if EmailPattern(s) then None else Some("Неверный формат email")
  }

  /** The shape the pattern describes, stated on positions: no white
      space, a single '@' that is not the first character, and a '.'
      after the '@' that is neither the domain's first nor its last
      character. */
  predicate EmailShape(s: string)
  {
    (forall i :: 0 <= i < |s| ==> !IsJsSpace(s[i]))
    && exists a :: 0 < a < |s| && s[a] == '@' && (forall i :: 0 <= i < |s| && i != a ==> s[i] != '@')
                   && exists j :: a + 1 < j < |s| - 1 && s[j] == '.'
  }

  lemma SegmentOf(s: string, lo: int, hi: int)
    requires 0 <= lo < hi <= |s|
    requires forall i :: lo <= i < hi ==> !IsJsSpace(s[i]) && s[i] != '@'
    ensures Segment(s[lo..hi])
  {
    forall k | 0 <= k < hi - lo ensures !IsJsSpace(s[lo..hi][k]) && s[lo..hi][k] != '@' {
      assert s[lo..hi][k] == s[lo + k];
    }
  }

  lemma InSegment(s: string, lo: int, hi: int, i: int)
    requires 0 <= lo <= i < hi <= |s| && Segment(s[lo..hi])
    ensures !IsJsSpace(s[i]) && s[i] != '@'
  {
    assert s[i] == s[lo..hi][i - lo];
  }

  /** An address the pattern matches has the shape. */
  lemma EmailPatternShape(s: string)
    requires EmailPattern(s)
    ensures EmailShape(s)
  {
    var a, d :| 0 <= a < d < |s| && s[a] == '@' && s[d] == '.'
      && Segment(s[..a]) && Segment(s[a + 1..d]) && Segment(s[d + 1..]);
    assert s[..a] == s[0..a] && s[d + 1..] == s[d + 1..|s|];
    forall i | 0 <= i < |s| && i != a && i != d ensures !IsJsSpace(s[i]) && s[i] != '@' {
      if i < a { InSegment(s, 0, a, i); }
      else if i < d { InSegment(s, a + 1, d, i); }
      else { InSegment(s, d + 1, |s|, i); }
    }
    assert !IsJsSpace(s[a]) && !IsJsSpace(s[d]);
    assert 0 < a && a + 1 < d < |s| - 1;
    assert exists j :: a + 1 < j < |s| - 1 && s[j] == '.';
  }

  /** An address of that shape is matched by the pattern. */
  lemma EmailShapePattern(s: string)
    requires EmailShape(s)
    ensures EmailPattern(s)
  {
    var a :| 0 < a < |s| && s[a] == '@' && (forall i :: 0 <= i < |s| && i != a ==> s[i] != '@')
             && exists j :: a + 1 < j < |s| - 1 && s[j] == '.';
    var j :| a + 1 < j < |s| - 1 && s[j] == '.';
    SegmentOf(s, 0, a);
    SegmentOf(s, a + 1, j);
    SegmentOf(s, j + 1, |s|);
    assert s[..a] == s[0..a] && s[j + 1..] == s[j + 1..|s|];
  }

  /** The email rule passes exactly the addresses of that shape. */
  lemma EmailSpec(s: string)
    ensures Email(s).None? <==> EmailShape(s)
  {
    if EmailPattern(s) { EmailPatternShape(s); }
    if EmailShape(s) { EmailShapePattern(s); }
  }

  /** The password rule: at least six UTF-16 units. */
  function Password(s: string): (r: Option<string>)
    ensures r.None? <==> Utf16Length(s) >= 6
  {
    if Utf16Length(s) < 6 then Some("Пароль должен содержать минимум 6 символов") else None
  }

  /** The required rule on text: empty or white-space-only text fails. */
  function Required(s: string): (r: Option<string>)
    ensures r.None? <==> exists i :: 0 <= i < |s| && !IsJsSpace(s[i])
  {
    TrimEmptyIff(s, IsJsSpace);
    if s == "" || Trim(s, IsJsSpace) == "" then Some("Это поле обязательно") else None
  }

  function Price(x: real): (r: Option<string>)
    ensures r.None? <==> x > 0.0
  {
    if x <= 0.0 then Some(PriceError) else None
  }

  function Duration(x: real): (r: Option<string>)
    ensures r.None? <==> 1.0 <= x <= 8.0
  {
    if x < 1.0 || x > 8.0 then Some(DurationError) else None
  }

  /** The rule functions agree with the back end's on prices and
      durations. */
  lemma NumberRulesAgree(x: real)
    ensures Price(x) == ValidatePrice(x) && Duration(x) == ValidateDuration(x)
  {
  }

  /** The error of the first rule, in list order, that fails. */
  function FirstError<T>(v: T, rules: seq<T -> Option<string>>): Option<string>
  {
    if rules == [] then None
    else if rules[0](v).Some? then rules[0](v)
    else FirstError(v, rules[1..])
  }

  /** `None` exactly when every rule passes; otherwise the error of a
      failing rule all of whose predecessors pass. */
  lemma {:induction false} FirstErrorSpec<T>(v: T, rules: seq<T -> Option<string>>)
    ensures FirstError(v, rules).None? <==> forall i :: 0 <= i < |rules| ==> rules[i](v).None?
    ensures FirstError(v, rules).Some? ==>
      exists i :: 0 <= i < |rules| && rules[i](v) == FirstError(v, rules)
        && forall j :: 0 <= j < i ==> rules[j](v).None?
    decreases |rules|
  {
    if rules != [] && rules[0](v).None? {
      var t := rules[1..];
      FirstErrorSpec(v, t);
      assert forall i :: 0 < i < |rules| ==> rules[i] == t[i - 1];
      if FirstError(v, t).Some? {
        var i :| 0 <= i < |t| && t[i](v) == FirstError(v, t) && forall j :: 0 <= j < i ==> t[j](v).None?;
        assert rules[i + 1] == t[i];
      }
    }
  }

  /** `validateField`: the loop over the rules with its early return. */
  method ValidateField<T>(v: T, rules: seq<T -> Option<string>>) returns (err: Option<string>)
    ensures err == FirstError(v, rules)
  {
    var i := 0;
    while i < |rules|
      invariant 0 <= i <= |rules|
      invariant FirstError(v, rules[i..]) == FirstError(v, rules)
    {
      assert rules[i..][1..] == rules[i + 1..];
      var e := rules[i](v);
      if e.Some? {
        return e;
      }
      i := i + 1;
    }
    return None;
  }

  /** The `errors` object after the loop over the form's entries: each
      field whose rules fail is set to its first error. */
  function FormErrors<T>(data: string -> T, schema: seq<(string, seq<T -> Option<string>>)>): map<string, string>
  {
    if schema == [] then map[]
    else
      var m := FormErrors(data, schema[..|schema| - 1]);
      var (field, rules) := schema[|schema| - 1];
      match FirstError(data(field), rules)
      case Some(e) => m[field := e]
      case None => m
  }

  function Fields<T>(schema: seq<(string, T)>): seq<string>
  {
    seq(|schema|, i requires 0 <= i < |schema| => schema[i].0)
  }

  /** With distinct field names, the errors name exactly the failing
      fields, each with its first error. */
  lemma {:induction false} FormErrorsSpec<T>(data: string -> T, schema: seq<(string, seq<T -> Option<string>>)>)
    requires NoDuplicates(Fields(schema))
    ensures forall i :: 0 <= i < |schema| ==>
      (schema[i].0 in FormErrors(data, schema) <==> FirstError(data(schema[i].0), schema[i].1).Some?)
    ensures forall i :: 0 <= i < |schema| && schema[i].0 in FormErrors(data, schema) ==>
      FormErrors(data, schema)[schema[i].0] == FirstError(data(schema[i].0), schema[i].1).value
  {
    if schema != [] {
      var n := |schema| - 1;
      var init := schema[..n];
      assert Fields(init) == Fields(schema)[..n];
      assert NoDuplicates(Fields(init)) by {
        forall i, j | 0 <= i < j < n ensures Fields(init)[i] != Fields(init)[j] {
          assert Fields(schema)[i] != Fields(schema)[j];
        }
      }
      FormErrorsSpec(data, init);
      FormErrorsFields(data, init);
      forall i | 0 <= i < n ensures schema[i].0 != schema[n].0 {
        assert Fields(schema)[i] != Fields(schema)[n];
      }
      assert schema[n].0 !in Fields(init);
      forall i | 0 <= i < n ensures init[i] == schema[i] { }
    }
  }

  /** Only fields of the form appear among the errors. */
  lemma {:induction false} FormErrorsFields<T>(data: string -> T, schema: seq<(string, seq<T -> Option<string>>)>)
    ensures forall f :: f in FormErrors(data, schema) ==> f in Fields(schema)
  {
    if schema != [] {
      var n := |schema| - 1;
      var init := schema[..n];
      FormErrorsFields(data, init);
      assert Fields(init) == Fields(schema)[..n];
      forall f | f in FormErrors(data, schema) ensures f in Fields(schema) {
        if f != schema[n].0 {
          assert f in FormErrors(data, init) && f in Fields(init);
          var k :| 0 <= k < n && Fields(init)[k] == f;
          assert Fields(schema)[k] == f;
        } else {
          assert Fields(schema)[n] == f;
        }
      }
    }
  }

  /** The form passes exactly when every field passes all its rules. */
  lemma {:induction false} FormErrorsEmpty<T>(data: string -> T, schema: seq<(string, seq<T -> Option<string>>)>)
    ensures FormErrors(data, schema) == map[] <==>
      forall i :: 0 <= i < |schema| ==> FirstError(data(schema[i].0), schema[i].1).None?
  {
    if schema != [] {
      var n := |schema| - 1;
      var init := schema[..n];
      FormErrorsEmpty(data, init);
      forall i | 0 <= i < n ensures init[i] == schema[i] { }
      var m := FormErrors(data, init);
      if FirstError(data(schema[n].0), schema[n].1).Some? {
        assert schema[n].0 in FormErrors(data, schema);
      }
    }
  }

  /** `validateForm`: the loop over the entries, then `null` when no
      field failed. */
  method ValidateForm<T>(data: string -> T, schema: seq<(string, seq<T -> Option<string>>)>) returns (r: Option<map<string, string>>)
    ensures r.None? <==> forall i :: 0 <= i < |schema| ==> FirstError(data(schema[i].0), schema[i].1).None?
    ensures r.Some? ==> r.value == FormErrors(data, schema) && |r.value| > 0
  {
    var errors: map<string, string> := map[];
    var i := 0;
    while i < |schema|
      invariant 0 <= i <= |schema|
      invariant errors == FormErrors(data, schema[..i])
    {
      assert schema[..i + 1][..i] == schema[..i];
      var (field, rules) := schema[i];
      var e := ValidateField(data(field), rules);
      if e.Some? {
        errors := errors[field := e.value];
      }
      i := i + 1;
    }
    assert schema[..i] == schema;
    FormErrorsEmpty(data, schema);
    if |errors| > 0 {
      r := Some(errors);
    } else {
      r := None;
    }
  }
}
