/** The e-mail field: it lower-cases what is typed and offers to complete
    the domain from a list of popular ones; Tab or the right arrow takes
    the offer. Lower-casing is a per-character map given as a parameter. */
module EmailInput {
  import opened Common
  import opened Text
  import opened Ordering

  const PopularDomains: seq<string> := ["gmail.com", "yandex.ru", "mail.ru", "outlook.com", "yahoo.com", "icloud.com"]

  /** The value holds one '@' and no second one after it. */
  predicate SingleAt(v: string)
  {
    IndexOf(v, '@') >= 0 && '@' !in v[IndexOf(v, '@') + 1..]
  }

  function LocalPart(v: string): string
    requires SingleAt(v)
  {
    v[..IndexOf(v, '@')]
  }

  function DomainPart(v: string): string
    requires SingleAt(v)
  {
    v[IndexOf(v, '@') + 1..]
  }

  /** The two parts are what `split('@')` gives, around the one '@'. */
  lemma SingleAtParts(v: string)
    requires SingleAt(v)
    ensures v == LocalPart(v) + "@" + DomainPart(v)
    ensures '@' !in LocalPart(v) && '@' !in DomainPart(v)
    ensures Split(v, '@') == [LocalPart(v), DomainPart(v)]
  {
    var i := IndexOf(v, '@');
    assert v == v[..i] + [v[i]] + v[i + 1..];
    assert forall k :: 0 <= k < i ==> v[..i][k] == v[k];
    SplitAround(LocalPart(v), DomainPart(v), '@');
  }

  lemma {:induction false} SplitNone(s: string, c: char)
    requires c !in s
    ensures Split(s, c) == [s]
    decreases |s|
  {
    if s != [] {
      SplitNone(s[1..], c);
      assert [s[0]] + s[1..] == s;
    }
  }

  lemma {:induction false} SplitAround(a: string, b: string, c: char)
    requires c !in a && c !in b
    ensures Split(a + [c] + b, c) == [a, b]
    decreases |a|
  {
    var s := a + [c] + b;
    if a == [] {
      assert s[1..] == b;
      SplitNone(b, c);
    } else {
      assert s[1..] == a[1..] + [c] + b;
      SplitAround(a[1..], b, c);
      assert [a[0]] + a[1..] == a;
    }
  }

  /** `popularDomains.find`: the first domain starting with the
      lower-cased domain part, for a non-empty part. */
  function FindDomain(domains: seq<string>, part: string, lower: char -> char): (r: Option<string>)
    ensures r.None? <==> part == [] || forall k :: 0 <= k < |domains| ==> !(MapChars(part, lower) <= domains[k])
    ensures r.Some? ==> exists k :: (0 <= k < |domains| && domains[k] == r.value && MapChars(part, lower) <= r.value && part != []
      && forall j :: 0 <= j < k ==> !(MapChars(part, lower) <= domains[j]))
  {
    if domains == [] then None
    else if MapChars(part, lower) <= domains[0] && |part| > 0 then Some(domains[0])
    else
      var r := FindDomain(domains[1..], part, lower);
      assert forall k :: 1 <= k < |domains| ==> domains[k] == domains[1..][k - 1];
      r
  }

  /** What the effect on `value` does to the suggestion: `None` leaves it
      as it was, `Some("")` clears it, `Some(s)` offers `s`. */
  function Suggest(v: string, lower: char -> char): Option<string>
  {
    if v != "" && SingleAt(v) then
      if LocalPart(v) != "" then
        match FindDomain(PopularDomains, DomainPart(v), lower)
        case Some(d) => if |DomainPart(v)| < |d| then Some(LocalPart(v) + "@" + d) else Some("")
        case None => Some("")
      else None
    else Some("")
  }

  /** The suggestion after the effect. */
  function Effect(previous: string, v: string, lower: char -> char): string
  {
    match Suggest(v, lower)
    case None => previous
    case Some(s) => s
  }

  /** The effect leaves the suggestion alone exactly for a value with one
      '@' and nothing before it; a non-empty offer is the local part, '@'
      and the first listed domain that extends the lower-cased domain
      part and is longer than it. */
  lemma SuggestSpec(v: string, lower: char -> char)
    ensures Suggest(v, lower).None? <==> SingleAt(v) && LocalPart(v) == ""
    ensures Suggest(v, lower).Some? && Suggest(v, lower).value != "" ==>
      SingleAt(v) && LocalPart(v) != ""
      && exists k :: (0 <= k < |PopularDomains|
        && Suggest(v, lower).value == LocalPart(v) + "@" + PopularDomains[k]
        && MapChars(DomainPart(v), lower) <= PopularDomains[k]
        && 0 < |DomainPart(v)| < |PopularDomains[k]|
        && forall j :: 0 <= j < k ==> !(MapChars(DomainPart(v), lower) <= PopularDomains[j]))
  {
  }

  /** When the typed domain part is already lower-case, the value is a
      proper prefix of the offer, so the grey completion shown after the
      value is exactly the rest of the offer. */
  lemma GhostText(v: string, lower: char -> char)
    requires Suggest(v, lower).Some? && Suggest(v, lower).value != ""
    requires SingleAt(v) && MapChars(DomainPart(v), lower) == DomainPart(v)
    ensures |v| < |Suggest(v, lower).value|
    ensures v + Suggest(v, lower).value[|v|..] == Suggest(v, lower).value
  {
    var l, x := LocalPart(v), DomainPart(v);
    var r := FindDomain(PopularDomains, x, lower);
    assert r.Some? && |x| < |r.value|;
    var d := r.value;
    assert x <= d;
    SingleAtParts(v);
    Extends(l + "@", x, d);
  }

  /** A prefix of `d` extended by the rest of `d` is `d`. */
  lemma Extends(p: string, x: string, d: string)
    requires x <= d && |x| < |d|
    ensures |p + x| < |p + d|
    ensures (p + x) + (p + d)[|p + x|..] == p + d
  {
    assert (p + d)[|p + x|..] == d[|x|..];
    assert x + d[|x|..] == d;
  }

  /** No listed domain is a prefix of another. */
  lemma DomainsPrefixFree(j: int, k: int)
    requires 0 <= j < |PopularDomains| && 0 <= k < |PopularDomains|
    requires PopularDomains[j] <= PopularDomains[k]
    ensures j == k
  {
    var a, b := PopularDomains[j], PopularDomains[k];
    assert a[0] == b[0] && a[1] == b[1] && a[2] == b[2];
  }

  lemma DomainsHaveNoAt(k: int)
    requires 0 <= k < |PopularDomains|
    ensures '@' !in PopularDomains[k]
  {
  }

  /** The value `local@d` with no other '@' splits back into its parts. */
  lemma JoinedParts(local: string, d: string)
    requires '@' !in local && '@' !in d
    ensures SingleAt(local + "@" + d)
    ensures LocalPart(local + "@" + d) == local && DomainPart(local + "@" + d) == d
  {
    var v := local + "@" + d;
    assert v == local + ['@'] + d;
    LastAt(local, d, '@');
    assert v[..|local|] == local;
    assert IndexOf(v, '@') == |local|;
    assert v[|local| + 1..] == d;
  }

  /** Once an offer is taken, the effect on the new value clears the
      suggestion, given that lower-casing keeps the listed domains. */
  lemma AcceptedOfferCleared(local: string, k: int, lower: char -> char)
    requires local != "" && '@' !in local && 0 <= k < |PopularDomains|
    requires MapChars(PopularDomains[k], lower) == PopularDomains[k]
    ensures Effect("", local + "@" + PopularDomains[k], lower) == ""
  {
    var d := PopularDomains[k];
    DomainsHaveNoAt(k);
    JoinedParts(local, d);
    var r := FindDomain(PopularDomains, d, lower);
    assert d <= d;
    if r.Some? {
      var m :| 0 <= m < |PopularDomains| && PopularDomains[m] == r.value && d <= r.value;
      DomainsPrefixFree(k, m);
    }
  }

  /** As written, deleting the local part of "a@gm" leaves the old offer
      standing, and Tab would bring the deleted part back. */
  lemma StaleOfferKept(lower: char -> char)
    ensures Effect("a@gmail.com", "@gm", lower) == "a@gmail.com"
  {
    assert IndexOf("@gm", '@') == 0;
    assert LocalPart("@gm") == "";
  }

  /** The effect with the missing `else`: an empty local part clears the
      offer too. */
  function IntendedEffect(previous: string, v: string, lower: char -> char): string
  {
    match Suggest(v, lower)
    case None => ""
    case Some(s) => s
  }

  /** The intended effect ignores the previous offer, and a non-empty
      offer always starts with the value's own non-empty local part. */
  lemma IntendedEffectSpec(p1: string, p2: string, v: string, lower: char -> char)
    ensures IntendedEffect(p1, v, lower) == IntendedEffect(p2, v, lower)
    ensures IntendedEffect(p1, v, lower) != "" ==>
      SingleAt(v) && LocalPart(v) != "" && LocalPart(v) + "@" <= IntendedEffect(p1, v, lower)
  {
    SuggestSpec(v, lower);
  }

  datatype Key = Tab | ArrowRight | OtherKey

  /** The field's state: the value (held by its owner) and the offer. */
  class EmailField {
    const lower: char -> char
    var value: string
    var suggestion: string

    constructor (lower: char -> char, value: string)
      ensures this.lower == lower && this.value == value
      ensures suggestion == Effect("", value, lower)
    {
      this.lower := lower;
      this.value := value;
      suggestion := Effect("", value, lower);
    }

    /** `handleChange`: the typed text is lower-cased and handed on; the
        new value then runs the effect. */
    method Change(typed: string)
      modifies this
      ensures value == MapChars(typed, lower)
      ensures suggestion == Effect(old(suggestion), value, lower)
    {
      value := MapChars(typed, lower);
      suggestion := Effect(suggestion, value, lower);
    }

    /** `handleKeyDown`: Tab or the right arrow takes a non-empty offer
        that differs from the value; the offer is cleared and the effect
        runs on the new value. */
    method KeyDown(key: Key) returns (accepted: bool)
      modifies this
      ensures accepted <==> (key == Tab || key == ArrowRight) && old(suggestion) != "" && old(suggestion) != old(value)
      ensures accepted ==> value == old(suggestion) && suggestion == Effect("", value, lower)
      ensures !accepted ==> value == old(value) && suggestion == old(suggestion)
    {
      accepted := (key == Tab || key == ArrowRight) && suggestion != "" && suggestion != value;
      if accepted {
        value := suggestion;
        suggestion := "";
        suggestion := Effect(suggestion, value, lower);
      }
    }
  }
}
