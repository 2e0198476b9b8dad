/** Splitting a test command line into argv-style tokens, as ResetArgs does
    with whitespace as separator and runs of separators compressed into one. */
module Tokenizer {

  /** The dummy executable name ResetArgs puts in front of the options. */
  const ProgramName: string := "testbitcoin"

  /** Whitespace in the "C" locale: space, tab, newline, vertical tab,
      form feed and carriage return. */
  predicate IsSpace(c: char) {
    c == ' ' || c == '\t' || c == '\n' || c == '\r' || c == '\U{000B}' || c == '\U{000C}'
  }

  predicate NoSpace(s: string) {
    forall i :: 0 <= i < |s| ==> !IsSpace(s[i])
  }

  /** Index of the first whitespace character of `s`, or `|s|` if there is none. */
  function FirstSpace(s: string): (i: nat)
    ensures i <= |s|
    ensures NoSpace(s[..i])
    ensures i < |s| ==> IsSpace(s[i])
  {
    if s == [] || IsSpace(s[0]) then 0
    else
      var j := FirstSpace(s[1..]);
      assert s[..1 + j] == [s[0]] + s[1..][..j];
      1 + j
  }

  /** `s` without its leading whitespace. */
  function SkipSpaces(s: string): (r: string)
    ensures |r| <= |s| && r == s[|s| - |r|..]
    ensures r == [] || !IsSpace(r[0])
    ensures forall i :: 0 <= i < |s| - |r| ==> IsSpace(s[i])
  {
    if s != [] && IsSpace(s[0]) then SkipSpaces(s[1..]) else s
  }

  /** What a split with compressed separators can produce: at least one
      field, no field holding whitespace, and only the first and the last
      field possibly empty (from leading or trailing whitespace). */
  predicate ValidFields(fields: seq<string>) {
    |fields| >= 1
    && (forall i :: 0 <= i < |fields| ==> NoSpace(fields[i]))
    && (forall i :: 0 < i < |fields| - 1 ==> fields[i] != [])
  }

  /** The fields of `s` between maximal runs of whitespace. */
  function Split(s: string): (fields: seq<string>)
    ensures ValidFields(fields)
    ensures s != [] && !IsSpace(s[0]) ==> fields[0] != []
    decreases |s|
  {
    var i := FirstSpace(s);
    if i == |s| then
      assert s[..i] == s;
      [s]
    else
      [s[..i]] + Split(SkipSpaces(s[i + 1..]))
  }

  /** The fields joined with one space between neighbours. */
  function Join(fields: seq<string>): string {
    if fields == [] then ""
    else if |fields| == 1 then fields[0]
    else fields[0] + " " + Join(fields[1..])
  }

  /** The first whitespace character is found where it stands. */
  lemma {:induction false} FirstSpaceAt(s: string, i: nat)
    requires i < |s| && NoSpace(s[..i]) && IsSpace(s[i])
    ensures FirstSpace(s) == i
  {
    if i > 0 {
      assert !IsSpace(s[..i][0]);
      assert s[1..][..i - 1] == s[..i][1..];
      assert s[1..][i - 1] == s[i];
      FirstSpaceAt(s[1..], i - 1);
    }
  }

  /** What stands between two fields: one or more whitespace characters. */
  predicate Separator(ws: string) {
    ws != [] && forall i :: 0 <= i < |ws| ==> IsSpace(ws[i])
  }

  predicate Separators(seps: seq<string>) {
    forall i :: 0 <= i < |seps| ==> Separator(seps[i])
  }

  /** The fields with `seps[i]` between field i and field i + 1. */
  function JoinWith(fields: seq<string>, seps: seq<string>): string
    requires |fields| >= 1 && |seps| == |fields| - 1
    decreases |fields|
  {
    if |fields| == 1 then fields[0] else fields[0] + seps[0] + JoinWith(fields[1..], seps[1..])
  }

  /** `n` single spaces, the separators of Join. */
  function Spaces(n: nat): (seps: seq<string>)
    ensures |seps| == n && Separators(seps)
  {
    seq(n, _ => " ")
  }

  /** Skipping whitespace passes over any whitespace prefix. */
  lemma {:induction false} SkipSpacesOver(ws: string, rest: string)
    requires forall i :: 0 <= i < |ws| ==> IsSpace(ws[i])
    ensures SkipSpaces(ws + rest) == SkipSpaces(rest)
  {
    if ws == [] {
      assert ws + rest == rest;
    } else {
      assert (ws + rest)[0] == ws[0];
      assert (ws + rest)[1..] == ws[1..] + rest;
      SkipSpacesOver(ws[1..], rest);
    }
  }

  /** A field, a run of whitespace and the rest: the split finds the field
      and continues after the whole run, as if the run were one space. With
      an empty field this is a line that starts with whitespace. */
  lemma FieldThenSeparator(f: string, ws: string, rest: string)
    requires NoSpace(f) && Separator(ws)
    ensures Split(f + ws + rest) == [f] + Split(SkipSpaces(rest))
  {
    var s := f + ws + rest;
    assert s[..|f|] == f;
    assert s[|f|] == ws[0];
    FirstSpaceAt(s, |f|);
    assert s[|f| + 1..] == ws[1..] + rest;
    SkipSpacesOver(ws[1..], rest);
  }

  /** A join whose first field is non-empty, or the only one, does not
      start with whitespace. */
  lemma JoinLeading(fields: seq<string>, seps: seq<string>)
    requires |fields| >= 1 && |seps| == |fields| - 1 && NoSpace(fields[0])
    requires |fields| >= 2 ==> fields[0] != []
    ensures SkipSpaces(JoinWith(fields, seps)) == JoinWith(fields, seps)
  {
    if |fields| >= 2 {
      var f := fields[0];
      assert JoinWith(fields, seps) == f + seps[0] + JoinWith(fields[1..], seps[1..]);
      assert JoinWith(fields, seps)[0] == f[0];
    }
  }

  /** Splitting undoes joining with any runs of whitespace: a line made of
      valid fields splits back into exactly those fields, however long and
      of whatever whitespace each separator is. */
  lemma {:induction false} SplitJoinWith(fields: seq<string>, seps: seq<string>)
    requires ValidFields(fields) && |seps| == |fields| - 1 && Separators(seps)
    ensures Split(JoinWith(fields, seps)) == fields
  {
    if |fields| == 1 {
      assert FirstSpace(fields[0]) == |fields[0]|;
      assert fields[0][..|fields[0]|] == fields[0];
    } else {
      var f, tail, rest := fields[0], fields[1..], seps[1..];
      assert JoinWith(fields, seps) == f + seps[0] + JoinWith(tail, rest);
      TailsValid(fields, seps);
      SplitStep(f, seps[0], tail, rest);
      SplitJoinWith(tail, rest);
      assert [f] + tail == fields;
    }
  }

  lemma TailsValid(fields: seq<string>, seps: seq<string>)
    requires ValidFields(fields) && |fields| >= 2 && |seps| == |fields| - 1 && Separators(seps)
    ensures ValidFields(fields[1..]) && Separators(seps[1..])
    ensures NoSpace(fields[0]) && Separator(seps[0]) && (|fields| >= 3 ==> fields[1] != [])
  {
    assert forall i :: 0 <= i < |fields| - 1 ==> fields[1..][i] == fields[i + 1];
    assert forall i :: 0 <= i < |seps| - 1 ==> seps[1..][i] == seps[i + 1];
  }

  lemma SplitStep(f: string, ws: string, tail: seq<string>, rest: seq<string>)
    requires NoSpace(f) && Separator(ws)
    requires |tail| >= 1 && |rest| == |tail| - 1 && NoSpace(tail[0]) && (|tail| >= 2 ==> tail[0] != [])
    ensures Split(f + ws + JoinWith(tail, rest)) == [f] + Split(JoinWith(tail, rest))
  {
    FieldThenSeparator(f, ws, JoinWith(tail, rest));
    JoinLeading(tail, rest);
  }

  /** Join is the join with single spaces. */
  lemma {:induction false} JoinSpaced(fields: seq<string>)
    requires |fields| >= 1
    ensures Join(fields) == JoinWith(fields, Spaces(|fields| - 1))
  {
    if |fields| >= 2 {
      JoinSpaced(fields[1..]);
      assert Spaces(|fields| - 1)[1..] == Spaces(|fields| - 2);
      assert Spaces(|fields| - 1)[0] == " ";
    }
  }

  /** Splitting undoes joining with single spaces. */
  lemma SplitJoin(fields: seq<string>)
    requires ValidFields(fields)
    ensures Split(Join(fields)) == fields
  {
    JoinSpaced(fields);
    SplitJoinWith(fields, Spaces(|fields| - 1));
  }

  /** Runs are compressed: any whitespace runs between the fields split
      the same way single spaces do. */
  lemma SeparatorsAgree(fields: seq<string>, seps: seq<string>)
    requires ValidFields(fields) && |seps| == |fields| - 1 && Separators(seps)
    ensures Split(JoinWith(fields, seps)) == Split(Join(fields))
  {
    SplitJoinWith(fields, seps);
    SplitJoin(fields);
  }

  /** The argument vector ResetArgs hands to the loader: the program name,
      then the fields of the line. */
  function Argv(strArg: string): (argv: seq<string>)
    ensures |argv| >= 2 && argv[0] == ProgramName && argv[1..] == Split(strArg)
  {
    [ProgramName] + Split(strArg)
  }
}
