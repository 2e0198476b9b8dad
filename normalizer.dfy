/** Turning one command-line token into an option entry: the leading `-` or
    `--` is dropped, the text after the first `=` is the value, and a name
    beginning with `no` (and longer than it) is the negated form of the rest. */
module Normalizer {

  import opened Options

  /** An option as given on the command line, before it is resolved against
      the other options for the same name. `name` carries no dashes and no
      `no` prefix; `value` is present exactly when the token had an `=`. */
  datatype ParsedEntry = ParsedEntry(name: string, value: Option<string>, negated: bool)

  const NegationPrefix: string := "no"

  /** Removes one leading `--`, or else one leading `-`. */
  function StripDashes(s: string): (r: string)
    ensures s == "--" + r || s == "-" + r || (r == s && (s == [] || s[0] != '-'))
    ensures |s| >= 2 && s[..2] == "--" ==> s == "--" + r
  {
    if |s| >= 2 && s[..2] == "--" then s[2..]
    else if |s| >= 1 && s[0] == '-' then s[1..]
    else s
  }

  /** Splits `s` at its first `=`: the name before it, and the value after
      it if there is one. */
  function SplitValue(s: string): (r: (string, Option<string>))
    ensures '=' !in r.0
    ensures r.1 == None ==> r.0 == s
    ensures r.1.Some? ==> s == r.0 + "=" + r.1.value
  {
    if s == [] then ("", None)
    else if s[0] == '=' then ("", Some(s[1..]))
    else
      var (name, value) := SplitValue(s[1..]);
      ([s[0]] + name, value)
  }

  /** Recognises the negation prefix; it must leave a non-empty name. */
  function Negation(name: string): (r: (string, bool))
    ensures r.1 <==> |name| > 2 && name[..2] == NegationPrefix
    ensures name == (if r.1 then NegationPrefix else "") + r.0
  {
    if |name| > 2 && name[..2] == NegationPrefix then (name[2..], true) else (name, false)
  }

  /** The entry a token stands for; tokens that do not start with `-` are
      not options. */
  function NormalizeToken(token: string): (e: Option<ParsedEntry>)
    ensures e.Some? <==> token != [] && token[0] == '-'
    ensures e.Some? ==> '=' !in e.value.name && (e.value.negated ==> e.value.name != [])
  {
    if token == [] || token[0] != '-' then None
    else
      var (name, value) := SplitValue(StripDashes(token));
      var (key, negated) := Negation(name);
      Some(ParsedEntry(key, value, negated))
  }

  /** The entries of a token sequence, in order, skipping non-options. */
  function Parsed(tokens: seq<string>): seq<ParsedEntry>
    decreases |tokens|
  {
    if tokens == [] then []
    else
      var init := Parsed(tokens[..|tokens| - 1]);
      match NormalizeToken(tokens[|tokens| - 1])
      case Some(e) => init + [e]
      case None => init
  }

  /** The entries of an argument vector; its first element is the program
      name and is never read as an option. */
  function ParseArgv(argv: seq<string>): seq<ParsedEntry> {
    if argv == [] then [] else Parsed(argv[1..])
  }

  /** How a value is written after an option name. */
  function ValueSuffix(value: Option<string>): string {
    match value
    case Some(v) => "=" + v
    case None => ""
  }

  /** The way to write an entry as a single-dash token. */
  function FormatEntry(e: ParsedEntry): string {
    "-" + (if e.negated then NegationPrefix else "") + e.name + ValueSuffix(e.value)
  }

  /** Entries that some token stands for exactly: the name has no `=`, a
      negated name is not empty, and a positive name neither starts with a
      dash nor looks negated itself. */
  predicate WellFormed(e: ParsedEntry) {
    '=' !in e.name
    && (e.negated ==> e.name != [])
    && (!e.negated ==> (e.name == [] || e.name[0] != '-') && !(|e.name| > 2 && e.name[..2] == NegationPrefix))
  }

  lemma SplitValueCons(c: char, rest: string)
    requires c != '='
    ensures SplitValue([c] + rest) == ([c] + SplitValue(rest).0, SplitValue(rest).1)
  {
    assert ([c] + rest)[0] == c && ([c] + rest)[1..] == rest;
  }

  /** Splitting a name without `=` followed by an optional `=value` gives
      back the name and the value. */
  lemma {:induction false} SplitValueAt(name: string, value: Option<string>)
    requires '=' !in name
    ensures SplitValue(name + ValueSuffix(value)) == (name, value)
  {
    if name != [] {
      var suffix := ValueSuffix(value);
      SplitValueAt(name[1..], value);
      assert name + suffix == [name[0]] + (name[1..] + suffix);
      SplitValueCons(name[0], name[1..] + suffix);
      assert [name[0]] + name[1..] == name;
    } else {
      assert name + ValueSuffix(value) == ValueSuffix(value);
    }
  }

  /** The name part of a formatted entry, negation prefix included. */
  function SpelledName(e: ParsedEntry): string {
    (if e.negated then NegationPrefix else "") + e.name
  }

  lemma StripFormat(e: ParsedEntry)
    requires WellFormed(e)
    ensures FormatEntry(e) == "-" + SpelledName(e) + ValueSuffix(e.value)
    ensures StripDashes(FormatEntry(e)) == SpelledName(e) + ValueSuffix(e.value)
  {
    var body := SpelledName(e) + ValueSuffix(e.value);
    assert FormatEntry(e) == "-" + body;
    if body != [] {
      assert ("-" + body)[1] == body[0];
      if e.negated {
        assert body[0] == 'n';
      } else if e.name != [] {
        assert body[0] == e.name[0];
      } else {
        assert body[0] == '=';
      }
    }
  }

  lemma NegationOfSpelled(e: ParsedEntry)
    requires WellFormed(e)
    ensures '=' !in SpelledName(e)
    ensures Negation(SpelledName(e)) == (e.name, e.negated)
  {
    if e.negated {
      assert SpelledName(e)[..2] == NegationPrefix;
      assert SpelledName(e)[2..] == e.name;
    } else {
      assert SpelledName(e) == e.name;
    }
  }

  /** Normalising undoes formatting: every well-formed entry is read back
      from its token unchanged. */
  lemma NormalizeFormat(e: ParsedEntry)
    requires WellFormed(e)
    ensures NormalizeToken(FormatEntry(e)) == Some(e)
  {
    StripFormat(e);
    NegationOfSpelled(e);
    SplitValueAt(SpelledName(e), e.value);
  }

  /** Double dash equals single dash: `--t` and `-t` are the same option,
      unless `t` itself starts with a dash. */
  lemma DoubleDash(t: string)
    requires t == [] || t[0] != '-'
    ensures NormalizeToken("--" + t) == NormalizeToken("-" + t)
  {
    assert ("--" + t)[..2] == "--";
    assert StripDashes("--" + t) == t;
    if t != [] {
      assert ("-" + t)[1] == t[0];
    }
    assert StripDashes("-" + t) == t;
  }

  /** Parsing a token sequence, extended by one token. */
  lemma ParsedSnoc(tokens: seq<string>, t: string)
    ensures NormalizeToken(t).Some? ==> Parsed(tokens + [t]) == Parsed(tokens) + [NormalizeToken(t).value]
    ensures NormalizeToken(t) == None ==> Parsed(tokens + [t]) == Parsed(tokens)
  {
    assert (tokens + [t])[..|tokens|] == tokens;
  }

  /** Splitting off the last element, stated on its own so that the
      induction below takes it as one fact instead of searching for it. */
  lemma LastSplit<T>(s: seq<T>)
    requires s != []
    ensures s[..|s| - 1] + [s[|s| - 1]] == s
  {
  }

  /** Tokens that each stand for an entry parse to exactly those entries, in
      the same order. */
  lemma {:induction false} ParsedEach(tokens: seq<string>, es: seq<ParsedEntry>)
    requires |tokens| == |es|
    requires forall i :: 0 <= i < |tokens| ==> NormalizeToken(tokens[i]) == Some(es[i])
    ensures Parsed(tokens) == es
  {
    if tokens != [] {
      var n := |tokens| - 1;
      assert forall i :: 0 <= i < n ==> tokens[..n][i] == tokens[i] && es[..n][i] == es[i];
      ParsedEach(tokens[..n], es[..n]);
      assert NormalizeToken(tokens[n]) == Some(es[n]);
      LastSplit(tokens);
      ParsedSnoc(tokens[..n], tokens[n]);
      LastSplit(es);
    }
  }
}
