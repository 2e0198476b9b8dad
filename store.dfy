/** The argument table ParseParameters fills: one resolved entry per option
    key, where a positive mention of a key always beats a negated one. */
module Store {

  import opened Options
  import opened Normalizer

  /** What the table remembers about a key: the value of the entry that won,
      and whether that entry was positive. */
  datatype Entry = Entry(value: Option<string>, positive: bool)

  type Table = map<string, Entry>

  /** Keys are stored in the single-dash form callers query with. */
  function OptionKey(name: string): (key: string)
    ensures |key| == |name| + 1 && key[0] == '-' && key[1..] == name
  {
    "-" + name
  }

  /** Records one entry: a positive entry always overwrites, a negated one
      only when the key has not been asserted positively. */
  function Apply(t: Table, e: ParsedEntry): (r: Table)
    ensures r.Keys == t.Keys + {OptionKey(e.name)}
    ensures forall k :: k in t && k != OptionKey(e.name) ==> r[k] == t[k]
    ensures !e.negated ==> r[OptionKey(e.name)] == Entry(e.value, true)
    ensures OptionKey(e.name) in t && t[OptionKey(e.name)].positive ==> r[OptionKey(e.name)].positive
    ensures e.negated && OptionKey(e.name) in t && t[OptionKey(e.name)].positive ==> r == t
    ensures e.negated && !(OptionKey(e.name) in t && t[OptionKey(e.name)].positive) ==> r[OptionKey(e.name)] == Entry(e.value, false)
  {
    var key := OptionKey(e.name);
    if !e.negated then t[key := Entry(e.value, true)]
    else if key in t && t[key].positive then t
    else t[key := Entry(e.value, false)]
  }

  /** The table after recording the entries from first to last. */
  function Load(es: seq<ParsedEntry>): Table
    decreases |es|
  {
    if es == [] then map[] else Apply(Load(es[..|es| - 1]), es[|es| - 1])
  }

  predicate Matches(e: ParsedEntry, key: string, negated: bool) {
    OptionKey(e.name) == key && e.negated == negated
  }

  /** The last entry for `key` with the given polarity, if there is one. */
  function Last(es: seq<ParsedEntry>, key: string, negated: bool): (r: Option<ParsedEntry>)
    ensures r.Some? <==> exists i :: 0 <= i < |es| && Matches(es[i], key, negated)
    decreases |es|
  {
    if es == [] then None
    else
      var n := |es| - 1;
      if Matches(es[n], key, negated) then Some(es[n])
      else
        var r := Last(es[..n], key, negated);
        assert forall i :: 0 <= i < n ==> es[..n][i] == es[i];
        r
  }

  /** What Last finds is an entry of `es` for the key with that polarity,
      and no later entry has both. */
  lemma {:induction false} LastIsLast(es: seq<ParsedEntry>, key: string, negated: bool)
    requires Last(es, key, negated).Some?
    ensures exists i :: 0 <= i < |es| && es[i] == Last(es, key, negated).value && Matches(es[i], key, negated)
                          && forall j :: i < j < |es| ==> !Matches(es[j], key, negated)
    decreases |es|
  {
    var n := |es| - 1;
    var r := Last(es, key, negated).value;
    if Matches(es[n], key, negated) {
      assert es[n] == r;
    } else {
      var init := es[..n];
      assert Last(init, key, negated).value == r;
      LastIsLast(init, key, negated);
      var i :| 0 <= i < n && init[i] == r && Matches(init[i], key, negated)
                && forall j :: i < j < n ==> !Matches(init[j], key, negated);
      assert es[i] == r && Matches(es[i], key, negated);
      assert forall j :: i < j < |es| ==> !Matches(es[j], key, negated) by {
        forall j | i < j < |es|
          ensures !Matches(es[j], key, negated)
        {
          if j < n {
            assert es[j] == init[j];
          }
        }
      }
    }
  }

  /** Independent statement of how a key resolves: to the last positive
      entry if there is any, else to the last negated one, else to nothing. */
  function Resolve(es: seq<ParsedEntry>, key: string): Option<Entry> {
    match Last(es, key, false)
    case Some(p) => Some(Entry(p.value, true))
    case None =>
      match Last(es, key, true)
      case Some(n) => Some(Entry(n.value, false))
      case None => None
  }

  lemma LoadSnoc(es: seq<ParsedEntry>, e: ParsedEntry)
    ensures Load(es + [e]) == Apply(Load(es), e)
  {
    assert (es + [e])[..|es|] == es;
  }

  lemma LoadOne(e: ParsedEntry)
    ensures Load([e]) == Apply(map[], e)
  {
    assert [e][..0] == [];
  }

  lemma LoadTwo(e1: ParsedEntry, e2: ParsedEntry)
    ensures Load([e1, e2]) == Apply(Apply(map[], e1), e2)
  {
    LoadOne(e1);
    assert [e1, e2][..1] == [e1];
    assert Load([e1, e2]) == Apply(Load([e1]), e2);
  }

  /** The left-to-right fold with sticky positive entries resolves every key
      as the reference definition says. */
  lemma {:induction false} LoadResolves(es: seq<ParsedEntry>, key: string)
    ensures key in Load(es) <==> Resolve(es, key).Some?
    ensures key in Load(es) ==> Load(es)[key] == Resolve(es, key).value
    decreases |es|
  {
    if es != [] {
      var n := |es| - 1;
      var init := es[..n];
      LoadResolves(init, key);
      assert forall neg :: Last(es, key, neg) == if Matches(es[n], key, neg) then Some(es[n]) else Last(init, key, neg);
    }
  }

  /** A key is asserted true exactly when some entry supplies it positively,
      wherever that entry stands relative to negated ones. */
  lemma PositiveWins(es: seq<ParsedEntry>, key: string)
    ensures (key in Load(es) && Load(es)[key].positive) <==> exists i :: 0 <= i < |es| && Matches(es[i], key, false)
  {
    LoadResolves(es, key);
  }

  /** A key is in the table exactly when some entry names it. */
  lemma KeysOfLoad(es: seq<ParsedEntry>, key: string)
    ensures key in Load(es) <==> exists i :: 0 <= i < |es| && OptionKey(es[i].name) == key
  {
    LoadResolves(es, key);
    if exists i :: 0 <= i < |es| && OptionKey(es[i].name) == key {
      var i :| 0 <= i < |es| && OptionKey(es[i].name) == key;
      assert Matches(es[i], key, es[i].negated);
    }
  }

  /** The last match in `p + q` is the last match in `q`, if any, else
      the last match in `p`. */
  lemma {:induction false} LastAppend(p: seq<ParsedEntry>, q: seq<ParsedEntry>, key: string, negated: bool)
    ensures Last(p + q, key, negated) ==
            if Last(q, key, negated).Some? then Last(q, key, negated) else Last(p, key, negated)
    decreases |q|
  {
    if q == [] {
      assert p + q == p;
    } else {
      var n := |q| - 1;
      assert (p + q)[..|p + q| - 1] == p + q[..n];
      assert (p + q)[|p + q| - 1] == q[n];
      LastAppend(p, q[..n], key, negated);
    }
  }

  lemma LastSwap(xs: seq<ParsedEntry>, a: ParsedEntry, b: ParsedEntry, ys: seq<ParsedEntry>, key: string, negated: bool)
    requires !(Matches(a, key, negated) && Matches(b, key, negated))
    ensures Last(xs + [a, b] + ys, key, negated) == Last(xs + [b, a] + ys, key, negated)
  {
    assert [a, b][..1] == [a] && [b, a][..1] == [b];
    assert [a][..0] == [] && [b][..0] == [];
    assert Last([a, b], key, negated) == Last([b, a], key, negated);
    LastAppend(xs, [a, b], key, negated);
    LastAppend(xs, [b, a], key, negated);
    LastAppend(xs + [a, b], ys, key, negated);
    LastAppend(xs + [b, a], ys, key, negated);
  }

  /** Order independence: two neighbouring entries may trade places unless
      they have the same key and the same polarity. In particular `-K -noK`
      and `-noK -K` load the same table. */
  lemma SwapAdjacent(xs: seq<ParsedEntry>, a: ParsedEntry, b: ParsedEntry, ys: seq<ParsedEntry>)
    requires !(a.negated == b.negated && a.name == b.name)
    ensures Load(xs + [a, b] + ys) == Load(xs + [b, a] + ys)
  {
    var l := Load(xs + [a, b] + ys);
    var r := Load(xs + [b, a] + ys);
    forall key
      ensures key in l <==> key in r
      ensures key in l ==> l[key] == r[key]
    {
      LastSwap(xs, a, b, ys, key, false);
      LastSwap(xs, a, b, ys, key, true);
      LoadResolves(xs + [a, b] + ys, key);
      LoadResolves(xs + [b, a] + ys, key);
    }
  }

  /** The table after reading one more token: its entry recorded on top
      when the token is an option, the same table otherwise. */
  function Step(t: Table, token: string): Table {
    match NormalizeToken(token)
    case Some(e) => Apply(t, e)
    case None => t
  }

  lemma LoadParsedStep(tokens: seq<string>, i: nat)
    requires i < |tokens|
    ensures Load(Parsed(tokens[..i + 1])) == Step(Load(Parsed(tokens[..i])), tokens[i])
  {
    assert tokens[..i + 1] == tokens[..i] + [tokens[i]];
    ParsedSnoc(tokens[..i], tokens[i]);
    if NormalizeToken(tokens[i]).Some? {
      LoadSnoc(Parsed(tokens[..i]), NormalizeToken(tokens[i]).value);
    }
  }

  /** The process-wide argument table, reset and refilled by each
      ParseParameters call. */
  class ArgStore {
    var table: Table

    constructor ()
      ensures table == map[]
    {
      table := map[];
    }

    /** Records one entry in place, as Apply describes. */
    method Record(e: ParsedEntry)
      modifies this
      ensures table == Apply(old(table), e)
    {
      var key := OptionKey(e.name);
      if !e.negated {
        table := table[key := Entry(e.value, true)];
      } else if key !in table || !table[key].positive {
        table := table[key := Entry(e.value, false)];
      }
    }

    /** Reads one token into the table. */
    method LoadToken(token: string)
      modifies this
      ensures table == Step(old(table), token)
    {
      var parsed := NormalizeToken(token);
      if parsed.Some? {
        Record(parsed.value);
      }
    }

    /** Clears the table and loads every option of `argv` after the program
        name, in order. */
    method ParseParameters(argv: seq<string>)
      modifies this
      ensures table == Load(ParseArgv(argv))
    {
      table := map[];
      if argv == [] {
        return;
      }
      var tokens := argv[1..];
      var i := 0;
      while i < |tokens|
        invariant 0 <= i <= |tokens|
        invariant table == Load(Parsed(tokens[..i]))
      {
        LoadParsedStep(tokens, i);
        LoadToken(tokens[i]);
        i := i + 1;
      }
      assert tokens[..i] == tokens;
    }
  }
}
