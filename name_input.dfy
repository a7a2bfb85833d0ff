/** The name field: on leaving it, the trimmed value has each word
    capitalised. Upper- and lower-casing are per-character maps given as
    parameters. */
module NameInput {
  import opened Common
  import opened Text

  /** `charAt(0).toUpperCase()` on a word's first character. `charAt`
      takes one UTF-16 code unit: a character of the Basic Multilingual
      Plane is upper-cased, while an astral one yields its lone high
      surrogate, which no case mapping changes, so that character is kept.
      The rest of the word, `slice(1)`, then starts with the low surrogate
      and puts the character back together. */
  function HeadCase(c: char, upper: char -> char): char
  {
    if c as int < 0x1_0000 then upper(c) else c
  }

  /** One word: its head through `HeadCase`, the rest lower-cased; an
      empty word stays empty. */
  function CapitalizeWord(w: string, upper: char -> char, lower: char -> char): string
  {
    if w == "" then w else [HeadCase(w[0], upper)] + MapChars(w[1..], lower)
  }

  /** The `.map` over the words. */
  function CapitalizeAll(ws: seq<string>, upper: char -> char, lower: char -> char): (r: seq<string>)
    ensures |r| == |ws|
  {
    if ws == [] then [] else [CapitalizeWord(ws[0], upper, lower)] + CapitalizeAll(ws[1..], upper, lower)
  }

  /** `capitalizeWords`: split on single spaces, capitalise, join. */
  function CapitalizeWords(s: string, upper: char -> char, lower: char -> char): string
  {
    Join(CapitalizeAll(Split(s, ' '), upper, lower), " ")
  }

  /** The reference reading, one character at a time: a space stays a
      space, a character at the start of a word is upper-cased and any
      other is lower-cased. */
  function Capitalized(s: string, atStart: bool, upper: char -> char, lower: char -> char): (r: string)
    ensures |r| == |s|
  {
    if s == "" then ""
    else if s[0] == ' ' then " " + Capitalized(s[1..], true, upper, lower)
    else [if atStart then HeadCase(s[0], upper) else lower(s[0])] + Capitalized(s[1..], false, upper, lower)
  }

  lemma JoinHead(c: char, w: string, ws: seq<string>, sep: string)
    ensures Join([[c] + w] + ws, sep) == [c] + Join([w] + ws, sep)
  {
    if ws != [] {
      assert ([[c] + w] + ws)[1..] == ws;
      assert ([w] + ws)[1..] == ws;
    }
  }

  /** Split, capitalise and join is the character-wise reading; the
      second half is the same with the first word's head lower-cased. */
  lemma {:induction false} CapitalizeWordsReference(s: string, upper: char -> char, lower: char -> char)
    ensures CapitalizeWords(s, upper, lower) == Capitalized(s, true, upper, lower)
    ensures Join([MapChars(Split(s, ' ')[0], lower)] + CapitalizeAll(Split(s, ' ')[1..], upper, lower), " ")
         == Capitalized(s, false, upper, lower)
    decreases |s|
  {
    if s != "" {
      CapitalizeWordsReference(s[1..], upper, lower);
      var rest := Split(s[1..], ' ');
      if s[0] == ' ' {
        var parts := CapitalizeAll(Split(s, ' '), upper, lower);
        assert Split(s, ' ') == [""] + rest;
        assert parts == [""] + CapitalizeAll(rest, upper, lower);
        assert parts[1..] == CapitalizeAll(rest, upper, lower);
        assert Join(parts, " ") == "" + " " + Join(CapitalizeAll(rest, upper, lower), " ");
        assert Split(s, ' ')[1..] == rest;
        assert MapChars("", lower) == "";
      } else {
        var w := [s[0]] + rest[0];
        var tail := CapitalizeAll(rest[1..], upper, lower);
        assert Split(s, ' ') == [w] + rest[1..];
        assert Split(s, ' ')[1..] == rest[1..];
        assert CapitalizeAll(Split(s, ' '), upper, lower) == [CapitalizeWord(w, upper, lower)] + tail;
        assert w[1..] == rest[0];
        assert CapitalizeWord(w, upper, lower) == [HeadCase(s[0], upper)] + MapChars(rest[0], lower);
        JoinHead(HeadCase(s[0], upper), MapChars(rest[0], lower), tail, " ");
        assert MapChars(w, lower) == [lower(s[0])] + MapChars(rest[0], lower);
        JoinHead(lower(s[0]), MapChars(rest[0], lower), tail, " ");
        assert rest == [rest[0]] + rest[1..];
      }
    } else {
      assert Split(s, ' ') == [""];
      assert MapChars("", lower) == "";
    }
  }

  /** The case maps never turn a non-space into a space. */
  predicate KeepsSpaces(f: char -> char)
  {
    forall c :: c != ' ' ==> f(c) != ' '
  }

  predicate Idempotent(f: char -> char)
  {
    forall c :: f(f(c)) == f(c)
  }

  /** The spaces stay where they were, and so does every word boundary. */
  lemma {:induction false} CapitalizedSpaces(s: string, atStart: bool, upper: char -> char, lower: char -> char, i: int)
    requires KeepsSpaces(upper) && KeepsSpaces(lower) && 0 <= i < |s|
    ensures Capitalized(s, atStart, upper, lower)[i] == ' ' <==> s[i] == ' '
    decreases |s|
  {
    if i > 0 {
      CapitalizedSpaces(s[1..], s[0] == ' ', upper, lower, i - 1);
    }
  }

  /** Each character's image: spaces kept, word heads through `HeadCase`,
      the rest lower-cased. */
  lemma {:induction false} CapitalizedAt(s: string, atStart: bool, upper: char -> char, lower: char -> char, i: int)
    requires 0 <= i < |s|
    ensures s[i] == ' ' ==> Capitalized(s, atStart, upper, lower)[i] == ' '
    ensures s[i] != ' ' && (if i == 0 then atStart else s[i - 1] == ' ') ==> Capitalized(s, atStart, upper, lower)[i] == HeadCase(s[i], upper)
    ensures s[i] != ' ' && !(if i == 0 then atStart else s[i - 1] == ' ') ==> Capitalized(s, atStart, upper, lower)[i] == lower(s[i])
    decreases |s|
  {
    if i > 0 {
      CapitalizedAt(s[1..], s[0] == ' ', upper, lower, i - 1);
    }
  }

  /** `capitalizeWords` keeps the length and every space where it was; a
      character that follows a space or starts the text is upper-cased
      when it lies in the Basic Multilingual Plane and kept as it is when
      astral; any other is lower-cased. */
  lemma CapitalizeWordsShape(s: string, upper: char -> char, lower: char -> char)
    requires KeepsSpaces(upper) && KeepsSpaces(lower)
    ensures |CapitalizeWords(s, upper, lower)| == |s|
    ensures forall i :: 0 <= i < |s| ==> (CapitalizeWords(s, upper, lower)[i] == ' ' <==> s[i] == ' ')
    ensures forall i :: 0 <= i < |s| && s[i] != ' ' && (i == 0 || s[i - 1] == ' ') && s[i] as int < 0x1_0000 ==> CapitalizeWords(s, upper, lower)[i] == upper(s[i])
    ensures forall i :: 0 <= i < |s| && (i == 0 || s[i - 1] == ' ') && s[i] as int >= 0x1_0000 ==> CapitalizeWords(s, upper, lower)[i] == s[i]
    ensures forall i :: 0 < i < |s| && s[i] != ' ' && s[i - 1] != ' ' ==> CapitalizeWords(s, upper, lower)[i] == lower(s[i])
  {
    CapitalizeWordsReference(s, upper, lower);
    forall i | 0 <= i < |s|
      ensures CapitalizeWords(s, upper, lower)[i] == ' ' <==> s[i] == ' '
      ensures s[i] != ' ' && (i == 0 || s[i - 1] == ' ') ==> CapitalizeWords(s, upper, lower)[i] == HeadCase(s[i], upper)
      ensures i > 0 && s[i] != ' ' && s[i - 1] != ' ' ==> CapitalizeWords(s, upper, lower)[i] == lower(s[i])
    {
      CapitalizedSpaces(s, true, upper, lower, i);
      CapitalizedAt(s, true, upper, lower, i);
    }
  }

  /** An astral word head, such as Deseret small letter long I (U+10428),
      keeps its case whatever the case maps do. */
  lemma AstralHeadKept(upper: char -> char, lower: char -> char)
    ensures CapitalizeWords("\U{10428}", upper, lower) == "\U{10428}"
    ensures CapitalizeWords("a \U{10428}", upper, lower) == [upper('a'), ' ', '\U{10428}']
  {
    CapitalizeWordsReference("\U{10428}", upper, lower);
    CapitalizeWordsReference("a \U{10428}", upper, lower);
    var t := "a \U{10428}";
    assert t[1..] == " \U{10428}" && t[1..][1..] == "\U{10428}" && t[1..][1..][1..] == "";
  }

  /** Capitalising twice is capitalising once, for idempotent case maps
      that keep spaces apart. */
  lemma {:induction false} CapitalizedIdempotent(s: string, atStart: bool, upper: char -> char, lower: char -> char)
    requires KeepsSpaces(upper) && KeepsSpaces(lower) && Idempotent(upper) && Idempotent(lower)
    ensures Capitalized(Capitalized(s, atStart, upper, lower), atStart, upper, lower) == Capitalized(s, atStart, upper, lower)
    decreases |s|
  {
    if s != "" {
      var r := Capitalized(s, atStart, upper, lower);
      if s[0] == ' ' {
        CapitalizedIdempotent(s[1..], true, upper, lower);
        assert r[1..] == Capitalized(s[1..], true, upper, lower);
      } else {
        CapitalizedIdempotent(s[1..], false, upper, lower);
        assert r[1..] == Capitalized(s[1..], false, upper, lower);
      }
    }
  }

  lemma CapitalizeWordsIdempotent(s: string, upper: char -> char, lower: char -> char)
    requires KeepsSpaces(upper) && KeepsSpaces(lower) && Idempotent(upper) && Idempotent(lower)
    ensures CapitalizeWords(CapitalizeWords(s, upper, lower), upper, lower) == CapitalizeWords(s, upper, lower)
  {
    CapitalizeWordsReference(s, upper, lower);
    CapitalizeWordsReference(CapitalizeWords(s, upper, lower), upper, lower);
    CapitalizedIdempotent(s, true, upper, lower);
  }

  /** `handleBlur`: a non-empty value is trimmed and capitalised, and the
      change is reported (`Some`) only when the result differs. */
  function Blur(raw: string, upper: char -> char, lower: char -> char): (r: Option<string>)
    ensures r.Some? ==> raw != "" && r.value != raw && r.value == CapitalizeWords(Trim(raw, IsJsSpace), upper, lower)
    ensures r.None? ==> raw == "" || CapitalizeWords(Trim(raw, IsJsSpace), upper, lower) == raw
  {
    if raw != "" then
      var c := CapitalizeWords(Trim(raw, IsJsSpace), upper, lower);
      if c != raw then Some(c) else None
    else None
  }

  /** The case maps turn no visible character into white space. */
  predicate KeepsVisible(f: char -> char)
  {
    forall c :: !IsJsSpace(c) ==> !IsJsSpace(f(c))
  }

  lemma TrimEnds(s: string, ws: char -> bool)
    ensures Trim(s, ws) != [] ==> !ws(Trim(s, ws)[0]) && !ws(Trim(s, ws)[|Trim(s, ws)| - 1])
  {
  }

  lemma TrimNoop(s: string, ws: char -> bool)
    requires s != [] && !ws(s[0]) && !ws(s[|s| - 1])
    ensures Trim(s, ws) == s
  {
  }

  /** A second blur right after the first reports nothing. */
  lemma BlurSettles(raw: string, upper: char -> char, lower: char -> char)
    requires KeepsSpaces(upper) && KeepsSpaces(lower) && Idempotent(upper) && Idempotent(lower)
    requires KeepsVisible(upper) && KeepsVisible(lower)
    requires Blur(raw, upper, lower).Some?
    ensures Blur(Blur(raw, upper, lower).value, upper, lower).None?
  {
    var t := Trim(raw, IsJsSpace);
    var c := CapitalizeWords(t, upper, lower);
    if c != "" {
      TrimEnds(raw, IsJsSpace);
      CapitalizeWordsReference(t, upper, lower);
      var n := |t| - 1;
      CapitalizedAt(t, true, upper, lower, 0);
      CapitalizedAt(t, true, upper, lower, n);
      assert !IsJsSpace(c[0]) && !IsJsSpace(c[n]);
      TrimNoop(c, IsJsSpace);
      CapitalizeWordsIdempotent(t, upper, lower);
    }
  }
}
