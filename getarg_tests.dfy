/** The test helper ResetArgs and the behaviour the getarg test cases pin
    down, stated for every key and value of the shape the test lines use. */
module GetArgTests {

  import opened Options
  import opened Tokenizer
  import opened Normalizer
  import opened Store
  import opened Accessors
  import Numeral

  /** The table ResetArgs leaves behind for a command line. */
  function ResetTable(strArg: string): Table {
    Load(ParseArgv(Argv(strArg)))
  }

  /** Splits the line, puts the dummy program name in front and reloads the
      store from the resulting argument vector. */
  method ResetArgs(args: ArgStore, strArg: string)
    modifies args
    ensures args.table == ResetTable(strArg)
  {
    var vecArg := Split(strArg);
    vecArg := [ProgramName] + vecArg;
    args.ParseParameters(vecArg);
  }

  /** A line of option tokens, separated by any runs of whitespace, loads
      exactly the entries they stand for. */
  lemma LineLoadsWith(tokens: seq<string>, seps: seq<string>, es: seq<ParsedEntry>)
    requires |tokens| >= 1 && |tokens| == |es| && |seps| == |tokens| - 1 && Separators(seps)
    requires forall i :: 0 <= i < |tokens| ==> NoSpace(tokens[i]) && NormalizeToken(tokens[i]) == Some(es[i])
    ensures ResetTable(JoinWith(tokens, seps)) == Load(es)
  {
    assert forall i :: 0 <= i < |tokens| ==> tokens[i] != [];
    SplitJoinWith(tokens, seps);
    assert Argv(JoinWith(tokens, seps))[1..] == tokens;
    ParsedEach(tokens, es);
  }

  /** The same with single spaces. */
  lemma LineLoads(tokens: seq<string>, es: seq<ParsedEntry>)
    requires |tokens| >= 1 && |tokens| == |es|
    requires forall i :: 0 <= i < |tokens| ==> NoSpace(tokens[i]) && NormalizeToken(tokens[i]) == Some(es[i])
    ensures ResetTable(Join(tokens)) == Load(es)
  {
    JoinSpaced(tokens);
    LineLoadsWith(tokens, Spaces(|tokens| - 1), es);
  }

  /** Runs of whitespace between the options of a line (tabs, newlines,
      several spaces) leave the same table as single spaces. */
  lemma WhitespaceRunsAgree(tokens: seq<string>, seps: seq<string>)
    requires ValidFields(tokens) && |seps| == |tokens| - 1 && Separators(seps)
    ensures ResetTable(JoinWith(tokens, seps)) == ResetTable(Join(tokens))
  {
    SeparatorsAgree(tokens, seps);
  }

  /** A key as the tests write it: not empty, no whitespace, no `=`, no
      leading dash and not itself of the negated form. */
  predicate PlainKey(k: string) {
    k != [] && NoSpace(k) && WellFormed(ParsedEntry(k, None, false))
  }

  /** A key that may follow `-no`: any non-empty name without whitespace or
      `=`, including names such as `node` that begin with `no` themselves. */
  predicate NegatableKey(k: string) {
    k != [] && NoSpace(k) && '=' !in k
  }

  lemma NoSpaceFormat(e: ParsedEntry)
    requires NoSpace(e.name) && (e.value.Some? ==> NoSpace(e.value.value))
    ensures NoSpace(FormatEntry(e))
  {
    var f := FormatEntry(e);
    var p := "-" + (if e.negated then NegationPrefix else "");
    assert f == p + e.name + ValueSuffix(e.value);
    assert NoSpace(p);
    assert NoSpace(ValueSuffix(e.value)) by {
      if e.value.Some? {
        assert ValueSuffix(e.value) == "=" + e.value.value;
      }
    }
    assert forall i :: 0 <= i < |f| ==> !IsSpace(f[i]) by {
      forall i | 0 <= i < |f|
        ensures !IsSpace(f[i])
      {
        if i < |p| {
          assert f[i] == p[i];
        } else if i < |p| + |e.name| {
          assert f[i] == e.name[i - |p|];
        } else {
          assert f[i] == ValueSuffix(e.value)[i - |p| - |e.name|];
        }
      }
    }
  }

  /** Associativity of concatenation, as a separate step so that the string
      lemmas below need not search for it among their other facts. */
  lemma Assoc<T>(a: seq<T>, b: seq<T>, c: seq<T>)
    ensures (a + b) + c == a + (b + c)
  {
  }

  lemma NoSpaceConcat(a: string, b: string)
    requires NoSpace(a) && NoSpace(b)
    ensures NoSpace(a + b)
  {
    assert forall i :: |a| <= i < |a + b| ==> (a + b)[i] == b[i - |a|];
  }

  /** The entry `-K`, `-K=v`, `-noK` or `-noK=v` for a plain key. */
  function Given(k: string, value: Option<string>, negated: bool): (e: ParsedEntry)
    requires PlainKey(k)
    ensures WellFormed(e) && e.name == k
  {
    ParsedEntry(k, value, negated)
  }

  predicate PlainValue(value: Option<string>) {
    value.Some? ==> NoSpace(value.value)
  }

  /** A line holding one option token loads its entry alone. */
  lemma OneToken(t: string, e: ParsedEntry)
    requires NoSpace(t) && NormalizeToken(t) == Some(e)
    ensures ResetTable(t) == Apply(map[], e)
  {
    LineLoads([t], [e]);
    LoadOne(e);
  }

  /** A line holding two option tokens loads their entries in order. */
  lemma TwoTokens(t1: string, t2: string, e1: ParsedEntry, e2: ParsedEntry)
    requires NoSpace(t1) && NormalizeToken(t1) == Some(e1)
    requires NoSpace(t2) && NormalizeToken(t2) == Some(e2)
    ensures ResetTable(t1 + " " + t2) == Apply(Apply(map[], e1), e2)
  {
    var ts := [t1, t2];
    var es := [e1, e2];
    assert forall i :: 0 <= i < 2 ==> NoSpace(ts[i]) && NormalizeToken(ts[i]) == Some(es[i]) by {
      assert ts[0] == t1 && ts[1] == t2 && es[0] == e1 && es[1] == e2;
    }
    LineLoads(ts, es);
    assert Join(ts) == t1 + " " + t2 by {
      assert ts[1..] == [t2];
    }
    LoadTwo(e1, e2);
  }

  /** The token of a well-formed entry without whitespace is read back as
      that entry. */
  lemma Formatted(e: ParsedEntry)
    requires WellFormed(e) && NoSpace(e.name) && PlainValue(e.value)
    ensures NoSpace(FormatEntry(e)) && NormalizeToken(FormatEntry(e)) == Some(e)
  {
    NoSpaceFormat(e);
    NormalizeFormat(e);
  }

  // ---- boolarg -------------------------------------------------------------

  /** `-K` makes the flag true whatever the default. */
  lemma FlagIsTrue(k: string, fallback: bool)
    requires PlainKey(k)
    ensures GetBoolArg(ResetTable("-" + k), "-" + k, fallback)
  {
    var e := Given(k, None, false);
    assert FormatEntry(e) == "-" + k;
    Formatted(e);
    OneToken("-" + k, e);
  }

  /** Lookup is exact: after `-K`, every other key (`-fo`, `-XTNo` after
      `-XTN`) still answers with the default. */
  lemma OtherKeysKeepDefault(k: string, query: string, fallback: bool)
    requires PlainKey(k) && query != "-" + k
    ensures GetBoolArg(ResetTable("-" + k), query, fallback) == fallback
  {
    var e := Given(k, None, false);
    assert FormatEntry(e) == "-" + k;
    Formatted(e);
    OneToken("-" + k, e);
  }

  /** `-K=v` makes the flag true exactly when v is not "0". */
  lemma ValueDecidesFlag(k: string, v: string, fallback: bool)
    requires PlainKey(k) && NoSpace(v)
    ensures GetBoolArg(ResetTable("-" + k + "=" + v), "-" + k, fallback) <==> v != "0"
  {
    var e := Given(k, Some(v), false);
    assert FormatEntry(e) == "-" + k + "=" + v;
    Formatted(e);
    OneToken("-" + k + "=" + v, e);
  }

  /** `-noK` makes the flag false whatever the default. */
  lemma NegatedFlagIsFalse(k: string, fallback: bool)
    requires NegatableKey(k)
    ensures !GetBoolArg(ResetTable("-no" + k), "-" + k, fallback)
  {
    var e := ParsedEntry(k, None, true);
    assert FormatEntry(e) == "-no" + k;
    Formatted(e);
    OneToken("-no" + k, e);
  }

  /** `-noK=v` makes the flag true exactly when v is "0". */
  lemma NegatedValueDecidesFlag(k: string, v: string, fallback: bool)
    requires NegatableKey(k) && NoSpace(v)
    ensures GetBoolArg(ResetTable("-no" + k + "=" + v), "-" + k, fallback) <==> v == "0"
  {
    var e := ParsedEntry(k, Some(v), true);
    assert FormatEntry(e) == "-no" + k + "=" + v;
    Formatted(e);
    OneToken("-no" + k + "=" + v, e);
  }

  /** With both `-K=v` and `-noK=w` on the line, in either order, the
      positive entry's value decides. */
  lemma PositiveValueBeatsNegated(k: string, v: string, w: string, fallback: bool)
    requires PlainKey(k) && NoSpace(v) && NoSpace(w)
    ensures GetBoolArg(ResetTable(("-" + k + "=" + v) + " " + ("-no" + k + "=" + w)), "-" + k, fallback) <==> v != "0"
    ensures GetBoolArg(ResetTable(("-no" + k + "=" + w) + " " + ("-" + k + "=" + v)), "-" + k, fallback) <==> v != "0"
  {
    var p := Given(k, Some(v), false);
    var n := Given(k, Some(w), true);
    var tp, tn := "-" + k + "=" + v, "-no" + k + "=" + w;
    assert FormatEntry(p) == tp && FormatEntry(n) == tn;
    Formatted(p);
    Formatted(n);
    TwoTokens(tp, tn, p, n);
    TwoTokens(tn, tp, n, p);
  }

  /** `-K -noK` and `-noK -K` both leave the flag true. */
  lemma PositiveFlagBeatsNegated(k: string, fallback: bool)
    requires PlainKey(k)
    ensures GetBoolArg(ResetTable(("-" + k) + " " + ("-no" + k)), "-" + k, fallback)
    ensures GetBoolArg(ResetTable(("-no" + k) + " " + ("-" + k)), "-" + k, fallback)
  {
    var p := Given(k, None, false);
    var n := Given(k, None, true);
    var tp, tn := "-" + k, "-no" + k;
    assert FormatEntry(p) == tp && FormatEntry(n) == tn;
    Formatted(p);
    Formatted(n);
    TwoTokens(tp, tn, p, n);
    TwoTokens(tn, tp, n, p);
  }

  /** An entry's token written with two dashes is read as the same entry. */
  lemma DoubleDashToken(e: ParsedEntry)
    requires WellFormed(e) && NoSpace(e.name) && PlainValue(e.value)
    ensures NoSpace("-" + FormatEntry(e)) && NormalizeToken("-" + FormatEntry(e)) == Some(e)
  {
    var body := SpelledName(e) + ValueSuffix(e.value);
    StripFormat(e);
    Formatted(e);
    Assoc("-", SpelledName(e), ValueSuffix(e.value));
    Assoc("-", "-", body);
    assert "-" + FormatEntry(e) == "--" + body;
    DoubleDash(body);
    NoSpaceConcat("-", FormatEntry(e));
  }

  /** `--noK` is read as the negated entry for K. */
  lemma DoubleDashNegatedToken(k: string)
    requires PlainKey(k)
    ensures NoSpace("--no" + k) && NormalizeToken("--no" + k) == Some(Given(k, None, true))
  {
    var n := Given(k, None, true);
    Assoc("-", "no", k);
    Assoc("-", "-no", k);
    assert "-" + FormatEntry(n) == "--no" + k;
    DoubleDashToken(n);
  }

  /** `-K --noK` leaves the flag true as well. */
  lemma PositiveFlagBeatsDoubleDashNegated(k: string, fallback: bool)
    requires PlainKey(k)
    ensures GetBoolArg(ResetTable(("-" + k) + " " + ("--no" + k)), "-" + k, fallback)
  {
    var p := Given(k, None, false);
    assert FormatEntry(p) == "-" + k;
    Formatted(p);
    DoubleDashNegatedToken(k);
    TwoTokens("-" + k, "--no" + k, p, Given(k, None, true));
  }

  // ---- doubledash ------------------------------------------------------------

  /** `--` and `-` are interchangeable on a one-option line, for values and
      for negations alike, and the key is still queried with one dash. */
  lemma DoubleDashLine(rest: string)
    requires NoSpace(rest) && (rest == [] || rest[0] != '-')
    ensures ResetTable("--" + rest) == ResetTable("-" + rest)
  {
    var single, double := "-" + rest, "--" + rest;
    var e := NormalizeToken(single).value;
    assert NoSpace(single) by {
      NoSpaceConcat("-", rest);
    }
    assert NoSpace(double) && NormalizeToken(double) == Some(e) by {
      NoSpaceConcat("--", rest);
      DoubleDash(rest);
    }
    OneToken(single, e);
    OneToken(double, e);
  }

  // ---- stringarg and intarg ------------------------------------------------

  /** The empty line supplies nothing: every accessor returns its default. */
  lemma EmptyLineDefaults(key: string, b: bool, s: string, n: int)
    ensures GetBoolArg(ResetTable(""), key, b) == b
    ensures GetArg(ResetTable(""), key, s) == s
    ensures GetIntArg(ResetTable(""), key, n) == n
  {
    assert Split("") == [""];
    assert Parsed([""]) == [] by {
      assert [""][..0] == [];
    }
  }

  /** A key given without `=` reads as "" and as 0, never as the default. */
  lemma BareKeyIsEmpty(k: string, s: string, n: int)
    requires PlainKey(k)
    ensures GetArg(ResetTable("-" + k), "-" + k, s) == ""
    ensures GetIntArg(ResetTable("-" + k), "-" + k, n) == 0
  {
    var e := Given(k, None, false);
    assert FormatEntry(e) == "-" + k;
    Formatted(e);
    OneToken("-" + k, e);
    assert !Numeral.IsNumeral("");
  }

  /** `-K=v` reads as v, the empty text included. */
  lemma ValueIsText(k: string, v: string, s: string)
    requires PlainKey(k) && NoSpace(v)
    ensures GetArg(ResetTable("-" + k + "=" + v), "-" + k, s) == v
  {
    var e := Given(k, Some(v), false);
    assert FormatEntry(e) == "-" + k + "=" + v;
    Formatted(e);
    OneToken("-" + k + "=" + v, e);
  }

  /** `-K=` followed by a numeral reads as its number; any value that is not
      a numeral (`NaN`, `NotANumber`) reads as 0, not as the default. */
  lemma ValueIsNumber(k: string, v: string, n: int)
    requires PlainKey(k) && NoSpace(v)
    ensures Numeral.IsNumeral(v) ==> GetIntArg(ResetTable("-" + k + "=" + v), "-" + k, n) == Numeral.ParseInt(v).value
    ensures !Numeral.IsNumeral(v) ==> GetIntArg(ResetTable("-" + k + "=" + v), "-" + k, n) == 0
  {
    var e := Given(k, Some(v), false);
    assert FormatEntry(e) == "-" + k + "=" + v;
    Formatted(e);
    OneToken("-" + k + "=" + v, e);
  }

  /** `-K -B` reads as "" and 0 for both keys. */
  lemma TwoBareKeys(k: string, b: string, s: string, n: int)
    requires PlainKey(k) && PlainKey(b)
    ensures GetArg(ResetTable(("-" + k) + " " + ("-" + b)), "-" + k, s) == ""
    ensures GetIntArg(ResetTable(("-" + k) + " " + ("-" + b)), "-" + k, n) == 0
    ensures GetIntArg(ResetTable(("-" + k) + " " + ("-" + b)), "-" + b, n) == 0
  {
    var ek, eb := Given(k, None, false), Given(b, None, false);
    var t := Apply(Apply(map[], ek), eb);
    assert ResetTable(("-" + k) + " " + ("-" + b)) == t by {
      assert FormatEntry(ek) == "-" + k && FormatEntry(eb) == "-" + b;
      Formatted(ek);
      Formatted(eb);
      TwoTokens("-" + k, "-" + b, ek, eb);
    }
    assert "-" + k in t && t["-" + k] == Entry(None, true);
    assert "-" + b in t && t["-" + b] == Entry(None, true);
    assert !Numeral.IsNumeral("");
  }

  /** `-K=v -B=w` with distinct keys reads each key's own value, as text and
      as a number. */
  lemma TwoValues(k: string, v: string, b: string, w: string, s: string, n: int)
    requires PlainKey(k) && PlainKey(b) && k != b && NoSpace(v) && NoSpace(w)
    ensures GetArg(ResetTable(("-" + k + "=" + v) + " " + ("-" + b + "=" + w)), "-" + k, s) == v
    ensures GetArg(ResetTable(("-" + k + "=" + v) + " " + ("-" + b + "=" + w)), "-" + b, s) == w
    ensures GetIntArg(ResetTable(("-" + k + "=" + v) + " " + ("-" + b + "=" + w)), "-" + k, n) == NumberOf(v)
    ensures GetIntArg(ResetTable(("-" + k + "=" + v) + " " + ("-" + b + "=" + w)), "-" + b, n) == NumberOf(w)
  {
    var ek, eb := Given(k, Some(v), false), Given(b, Some(w), false);
    var t := Apply(Apply(map[], ek), eb);
    assert ResetTable(("-" + k + "=" + v) + " " + ("-" + b + "=" + w)) == t by {
      assert FormatEntry(ek) == "-" + k + "=" + v && FormatEntry(eb) == "-" + b + "=" + w;
      Formatted(ek);
      Formatted(eb);
      TwoTokens("-" + k + "=" + v, "-" + b + "=" + w, ek, eb);
    }
    assert OptionKey(k) != OptionKey(b);
    assert "-" + k in t && t["-" + k] == Entry(Some(v), true);
    assert "-" + b in t && t["-" + b] == Entry(Some(w), true);
  }

  /** Writing an integer as the value gives that integer back. */
  lemma NumberRoundTrip(k: string, m: int, n: int)
    requires PlainKey(k)
    ensures GetIntArg(ResetTable("-" + k + "=" + Numeral.FormatInt(m)), "-" + k, n) == m
  {
    var v := Numeral.FormatInt(m);
    assert NoSpace(v) by {
      if m < 0 {
        assert forall i :: 1 <= i < |v| ==> v[i] == Numeral.FormatNat(-m)[i - 1];
      }
    }
    Numeral.ParseFormatInt(m);
    ValueIsNumber(k, v, n);
  }

  /** `--K=v` is read as the entry `-K=v`. */
  lemma DoubleDashValueToken(k: string, v: string)
    requires PlainKey(k) && NoSpace(v)
    ensures NoSpace("--" + k + "=" + v) && NormalizeToken("--" + k + "=" + v) == Some(Given(k, Some(v), false))
  {
    var e := Given(k, Some(v), false);
    Assoc("-", k, "=" + v);
    Assoc("--", k, "=" + v);
    Assoc("--" + k, "=", v);
    Assoc("-", "-", k + ("=" + v));
    assert FormatEntry(e) == "-" + (k + ("=" + v));
    assert "--" + k + "=" + v == "-" + FormatEntry(e);
    DoubleDashToken(e);
  }

  /** `--K=v --B=w` reads like `-K=v -B=w`: each key, queried with one
      dash, gives its own value as text and as a number. */
  lemma DoubleDashValues(k: string, v: string, b: string, w: string, s: string, n: int)
    requires PlainKey(k) && PlainKey(b) && k != b && NoSpace(v) && NoSpace(w)
    ensures GetArg(ResetTable(("--" + k + "=" + v) + " " + ("--" + b + "=" + w)), "-" + k, s) == v
    ensures GetIntArg(ResetTable(("--" + k + "=" + v) + " " + ("--" + b + "=" + w)), "-" + b, n) == NumberOf(w)
  {
    var ek, eb := Given(k, Some(v), false), Given(b, Some(w), false);
    var t := Apply(Apply(map[], ek), eb);
    assert ResetTable(("--" + k + "=" + v) + " " + ("--" + b + "=" + w)) == t by {
      DoubleDashValueToken(k, v);
      DoubleDashValueToken(b, w);
      TwoTokens("--" + k + "=" + v, "--" + b + "=" + w, ek, eb);
    }
    assert OptionKey(k) != OptionKey(b);
    assert "-" + k in t && t["-" + k] == Entry(Some(v), true);
    assert "-" + b in t && t["-" + b] == Entry(Some(w), true);
  }

  /** The program name in front is never read as an option, whatever it
      looks like. */
  lemma ProgramNameIgnored(name: string, tokens: seq<string>)
    ensures Load(ParseArgv([name] + tokens)) == Load(Parsed(tokens))
  {
    assert ([name] + tokens)[1..] == tokens;
  }
}
