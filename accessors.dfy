/** The typed queries against the argument table: GetBoolArg, GetArg for
    strings and GetArg for integers, each with a default for absent keys. */
module Accessors {

  import opened Options
  import opened Normalizer
  import opened Store
  import Numeral

  /** The text of a value: an option given without `=` reads as "". */
  function ValueText(value: Option<string>): string {
    match value
    case Some(v) => v
    case None => ""
  }

  /** Whether a value reads as true: every value except the text "0",
      including an absent one. */
  predicate IsTrue(value: Option<string>) {
    value != Some("0")
  }

  /** The flag's truth: the value of a positive entry, the opposite of the
      value of a negated one, or the default for an absent key. */
  function GetBoolArg(t: Table, key: string, fallback: bool := false): (r: bool)
    ensures key !in t ==> r == fallback
    ensures key in t && t[key].positive ==> (r <==> t[key].value != Some("0"))
    ensures key in t && !t[key].positive ==> (r <==> t[key].value == Some("0"))
  {
    if key !in t then fallback
    else if t[key].positive then IsTrue(t[key].value)
    else !IsTrue(t[key].value)
  }

  /** Whether a key counts as set: it is in the table through a positive
      entry. A key that was only negated does not. */
  predicate HasValue(t: Table, key: string) {
    key in t && t[key].positive
  }

  /** The text of a positively supplied key, or the default. */
  function GetArg(t: Table, key: string, fallback: string := ""): (r: string)
    ensures !HasValue(t, key) ==> r == fallback
    ensures HasValue(t, key) && t[key].value.Some? ==> r == t[key].value.value
    ensures HasValue(t, key) && t[key].value == None ==> r == ""
  {
    if HasValue(t, key) then ValueText(t[key].value) else fallback
  }

  /** What the integer accessor makes of a supplied text: the value of a
      numeral, and 0 for anything else. */
  function NumberOf(v: string): (n: int)
    ensures Numeral.IsNumeral(v) ==> Numeral.ParseInt(v) == Some(n)
    ensures !Numeral.IsNumeral(v) ==> n == 0
  {
    match Numeral.ParseInt(v)
    case Some(n) => n
    case None => 0
  }

  /** The number of a positively supplied key, 0 when its value is missing
      or no numeral, or the default for a key not supplied. */
  function GetIntArg(t: Table, key: string, fallback: int := 0): (r: int)
    ensures !HasValue(t, key) ==> r == fallback
    ensures HasValue(t, key) && t[key].value == None ==> r == 0
    ensures HasValue(t, key) && t[key].value.Some? ==> r == NumberOf(t[key].value.value)
  {
    if HasValue(t, key) then NumberOf(ValueText(t[key].value)) else fallback
  }

  /** GetBoolArg on a loaded table, stated on the entries alone: the last
      positive entry decides if there is one, else the last negated one
      (inverted), else the default. */
  lemma BoolArgOfEntries(es: seq<ParsedEntry>, key: string, fallback: bool)
    ensures GetBoolArg(Load(es), key, fallback) ==
            match Last(es, key, false)
            case Some(p) => IsTrue(p.value)
            case None =>
              match Last(es, key, true)
              case Some(n) => !IsTrue(n.value)
              case None => fallback
  {
    LoadResolves(es, key);
  }

  /** GetArg on a loaded table: the text of the last positive entry, and the
      default when there is none, even if the key was negated. */
  lemma StringArgOfEntries(es: seq<ParsedEntry>, key: string, fallback: string)
    ensures GetArg(Load(es), key, fallback) ==
            match Last(es, key, false)
            case Some(p) => ValueText(p.value)
            case None => fallback
  {
    LoadResolves(es, key);
  }

  /** GetIntArg on a loaded table: the number of the last positive entry's
      text, and the default when there is none, even if the key was
      negated. */
  lemma IntArgOfEntries(es: seq<ParsedEntry>, key: string, fallback: int)
    ensures GetIntArg(Load(es), key, fallback) ==
            match Last(es, key, false)
            case Some(p) => NumberOf(ValueText(p.value))
            case None => fallback
  {
    LoadResolves(es, key);
  }

  /** "Set" and "not set" are told apart by GetArg: a set key ignores the
      default, an unset one returns it. */
  lemma StringDefaultOnlyWhenAbsent(t: Table, key: string, d1: string, d2: string)
    requires d1 != d2
    ensures GetArg(t, key, d1) == GetArg(t, key, d2) <==> HasValue(t, key)
  {
  }
}
