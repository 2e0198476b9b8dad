# Command-line argument resolver

This project models the option resolver that the `getarg` unit tests pin down. A command line becomes a table of options, and typed queries read that table.

- **Tokenizing.** The test helper `ResetArgs` splits a line on whitespace, with runs of whitespace compressed as Boost's `split` with `token_compress_on` does. It then puts the dummy program name `testbitcoin` in front and hands the vector to `ParseParameters`.
- **Normalizing.** `ParseParameters` throws away the old table and skips the program name. It reads every remaining token that starts with `-` as an option:
  - one leading `--` or `-` is dropped;
  - the text after the first `=` is the value;
  - a name longer than two characters that starts with `no` is the negated form of the rest.
- **Conflicts.** The table keeps one entry per key, stored in the single-dash form that callers query with. A positive mention of a key always beats a negated one, in either order. Among mentions of the same polarity, the last one wins.
- **Queries.**
  - `GetBoolArg` is:
    - true for a positive key unless its value is exactly `"0"`;
    - the opposite for a key that was only negated;
    - the default for an absent key.
  - `GetArg` for strings gives the value of a positive key, `""` when it had no `=`, and the default otherwise.
  - `GetArg` for integers reads that text as a base-10 numeral. It gives 0 when the value is missing or is not a numeral, and the default only when the key is not set.

Modules:

| module | holds |
|---|---|
| `Tokenizer` | the whitespace split, its inverse `Join`, the argument vector |
| `Normalizer` | one token to one `ParsedEntry`, and a token sequence to its entries |
| `Store` | the table, the fold `Load`, the reference definition `Resolve`, the `ArgStore` class with `ParseParameters` |
| `Numeral` | the integer reading of a value and its inverse |
| `Accessors` | `GetBoolArg`, `GetArg`, `GetIntArg`, `HasValue` |
| `GetArgTests` | `ResetArgs` and the test scenarios, stated for every key and value |

Splitting is proved for lines whose fields are separated by any runs of whitespace, not only single spaces.

`ArgStore.ParseParameters` is a loop over the argument vector that updates a map field in place. It is proved to leave exactly `Load(ParseArgv(argv))`. The properties are proved about `Load`:
- `Load` agrees with the reference definition `Resolve`: the last positive entry if there is one, else the last negated one, else nothing.
- Neighbouring entries may be swapped unless they share both key and polarity.

Each test scenario is a lemma quantified over the key (any non-empty key without whitespace, `=`, a leading dash or a `no` prefix), the value and the default.

## Model

| member | source | states |
|---|---|---|
| Tokenizer.IsSpace | src/test/getarg_tests.cpp:13 | the separators are the six whitespace characters of the "C" locale (space, tab, newline, carriage return, vertical tab, form feed), the set `boost::is_space` accepts there |
| Tokenizer.Split | src/test/getarg_tests.cpp:13 | the fields hold no whitespace, only the first and last may be empty, and a line that starts with a non-space character has a non-empty first field |
| Tokenizer.FirstSpaceAt | src/test/getarg_tests.cpp:13 | the first whitespace character is found at its own position |
| Tokenizer.Spaces | src/test/getarg_tests.cpp:13 | the single-space separators are that many valid separators |
| Tokenizer.SkipSpacesOver | src/test/getarg_tests.cpp:13 | skipping whitespace passes over any whitespace prefix |
| Tokenizer.FieldThenSeparator | src/test/getarg_tests.cpp:13 | a field followed by any non-empty run of whitespace (spaces, tabs, newlines) splits off that field and continues after the whole run; with an empty field, a line that starts with whitespace gives an empty first field |
| Tokenizer.JoinLeading | src/test/getarg_tests.cpp:13 | a join whose first field is non-empty, or the only one, has no leading whitespace to skip |
| Tokenizer.TailsValid | src/test/getarg_tests.cpp:13 | dropping the first field and separator keeps the fields and separators valid |
| Tokenizer.SplitStep | src/test/getarg_tests.cpp:13 | a field, a whitespace run and a join of further fields split into that field followed by the split of the join |
| Tokenizer.SplitJoinWith | src/test/getarg_tests.cpp:13 | valid fields joined with arbitrary whitespace runs split back into exactly those fields, so runs are compressed |
| Tokenizer.JoinSpaced | src/test/getarg_tests.cpp:13 | joining with single spaces is the join with `Spaces` as separators |
| Tokenizer.SplitJoin | src/test/getarg_tests.cpp:13 | splitting the single-space join of valid fields gives those fields back |
| Tokenizer.SeparatorsAgree | src/test/getarg_tests.cpp:13 | any whitespace runs between the fields split exactly as single spaces do |
| Tokenizer.Argv | src/test/getarg_tests.cpp:13-16 | the vector is the program name `testbitcoin` followed by the fields of the line |
| GetArgTests.ResetArgs | src/test/getarg_tests.cpp:9-24 | afterwards the store holds the table loaded from the line's fields, with the program name skipped |
| GetArgTests.ProgramNameIgnored | src/test/getarg_tests.cpp:16 | the first element of the vector never contributes an option, whatever it looks like |
| GetArgTests.ResetTable | src/test/getarg_tests.cpp:9-24 | the table a line leaves behind, the load of the entries of its argument vector; `ResetArgs` proves the store holds it |
| GetArgTests.LineLoadsWith | src/test/getarg_tests.cpp:9-24 | a line of option tokens separated by any whitespace runs loads exactly the entries those tokens stand for, in order |
| GetArgTests.LineLoads | src/test/getarg_tests.cpp:9-24 | a line of option tokens separated by single spaces loads exactly the entries those tokens stand for, in order |
| GetArgTests.WhitespaceRunsAgree | src/test/getarg_tests.cpp:13 | a line whose options are separated by tabs, newlines or several spaces leaves the same table as with single spaces |
| Store.ArgStore.Record | src/test/getarg_tests.cpp:62-75 | the entry is recorded in place exactly as `Apply` describes: a positive entry overwrites, a negated one only fills a key not set positively |
| Store.ArgStore.LoadToken | src/test/getarg_tests.cpp:23 | one token is read into the table in place, as `Step` describes |
| Store.LoadParsedStep | src/test/getarg_tests.cpp:23 | the table of one more token is the previous table after `Step` with that token |
| Store.ArgStore.ParseParameters | src/test/getarg_tests.cpp:23 | the old table is discarded and the new one is the fold of the vector's entries after the program name |
| Normalizer.StripDashes | src/test/getarg_tests.cpp:78-86 | exactly one leading `--`, or else one `-`, is removed |
| Normalizer.SplitValue | src/test/getarg_tests.cpp:100-110 | the name holds no `=`; with no value the name is the whole text, otherwise the text is name, `=`, value |
| Normalizer.Negation | src/test/getarg_tests.cpp:51-60 | the negated form is recognised exactly when the name is longer than `no` and starts with it, and the prefix plus the rest gives back the name |
| Normalizer.NormalizeToken | src/test/getarg_tests.cpp:28-31 | a token is an option exactly when it starts with `-`; an option's name holds no `=` and a negated name is not empty |
| Normalizer.NormalizeFormat | src/test/getarg_tests.cpp:28-60 | every well-formed entry is read back unchanged from its single-dash token |
| Normalizer.SplitValueAt | src/test/getarg_tests.cpp:100-110 | a name without `=` followed by `=value` splits back into that name and value |
| Normalizer.DoubleDash | src/test/getarg_tests.cpp:78-86 | `--t` and `-t` are the same option whenever `t` does not start with a dash |
| Normalizer.Parsed | src/test/getarg_tests.cpp:23 | the entries of a token sequence in order, non-options skipped; `ParsedSnoc` and `ParsedEach` state it |
| Normalizer.ParseArgv | src/test/getarg_tests.cpp:23 | the entries of an argument vector after its program name; `ProgramNameIgnored` states it |
| Normalizer.ParsedSnoc | src/test/getarg_tests.cpp:23 | one more token adds its entry at the end when it is an option, and nothing otherwise |
| Normalizer.ParsedEach | src/test/getarg_tests.cpp:62-75 | tokens that each stand for an entry parse to exactly those entries in the same order |
| Store.OptionKey | src/test/getarg_tests.cpp:29 | a key is the name with a single dash in front |
| Store.Apply | src/test/getarg_tests.cpp:62-75 | recording an entry adds its key and changes no other key; a positive entry sets the key positive with its value; a key set positively stays positive, and a negated entry then leaves the table as it was, otherwise it sets the key negated with its value |
| Store.Load | src/test/getarg_tests.cpp:160-164 | the table after recording the entries from first to last; `LoadResolves` proves it equals `Resolve` |
| Store.Resolve | src/test/getarg_tests.cpp:62-75 | the reference resolution of a key: the last positive entry, else the last negated one, else nothing |
| Store.Last | src/test/getarg_tests.cpp:62-75 | a last entry with the given key and polarity is found exactly when some entry has them |
| Store.LastIsLast | src/test/getarg_tests.cpp:62-75 | the entry found is in the sequence, has the key and polarity, and no later entry has both |
| Store.LastAppend | src/test/getarg_tests.cpp:62-75 | the last match in a concatenation is the last match in its second part if there is one, else in its first |
| Store.LastSwap | src/test/getarg_tests.cpp:160-164 | swapping neighbouring entries that do not both match leaves the last match unchanged |
| Store.LoadSnoc | src/test/getarg_tests.cpp:23 | loading one more entry records it on top of the previous table |
| Store.LoadResolves | src/test/getarg_tests.cpp:62-75 | the loaded table holds a key exactly when the reference definition resolves it, and holds the same entry: the last positive one, else the last negated one |
| Store.PositiveWins | src/test/getarg_tests.cpp:160-164 | a key is asserted positively exactly when some entry supplies it positively, wherever the negated entries stand |
| Store.KeysOfLoad | src/test/getarg_tests.cpp:33-39 | a key is in the table exactly when some entry names it |
| Store.SwapAdjacent | src/test/getarg_tests.cpp:160-164 | swapping neighbouring entries that differ in key or polarity loads the same table |
| Accessors.GetBoolArg | src/test/getarg_tests.cpp:26-86 | an absent key gives the default; a positive key is true exactly when its value is not `"0"`; a negated-only key is true exactly when its value is `"0"` |
| Accessors.HasValue | src/test/getarg_tests.cpp:92-102 | a key is set when a positive entry put it in the table; `StringDefaultOnlyWhenAbsent` shows that the string query tells set from unset |
| Accessors.GetArg | src/test/getarg_tests.cpp:90-112 | an unset key gives the default; a set key gives its value, or `""` when it had no `=` |
| Accessors.NumberOf | src/test/getarg_tests.cpp:124-130 | a numeral reads as its value and any other text as 0 |
| Accessors.GetIntArg | src/test/getarg_tests.cpp:114-131 | an unset key gives the default; a set key without a value gives 0, one with a value gives that value's number |
| Accessors.IntArgOfEntries | src/test/getarg_tests.cpp:114-131 | the number on a loaded table is that of the last positive entry's text, else the default, even when the key was negated |
| Accessors.BoolArgOfEntries | src/test/getarg_tests.cpp:26-86 | the flag on a loaded table is the last positive entry's truth, else the inverted truth of the last negated entry, else the default |
| Accessors.StringArgOfEntries | src/test/getarg_tests.cpp:92-110 | the string on a loaded table is the last positive entry's text, else the default, even when the key was negated |
| Accessors.StringDefaultOnlyWhenAbsent | src/test/getarg_tests.cpp:92-102 | two different defaults give the same string exactly when the key is set |
| Numeral.ParseDigits | src/test/getarg_tests.cpp:124-130 | a digit string has a value exactly when it is non-empty and all digits; `ParseDigitsValue` pins that value |
| Numeral.ParseInt | src/test/getarg_tests.cpp:124-130 | a value has an integer reading exactly when it is a numeral; `ParseSigned` pins that reading |
| Numeral.DigitsValueSnoc | src/test/getarg_tests.cpp:124-130 | the positional value of a digit string with one more digit appended is ten times the old value plus that digit |
| Numeral.ParseDigitsValue | src/test/getarg_tests.cpp:124-130 | every non-empty digit string, leading zeros included, reads as its positional value: each digit weighted by ten to the power of the digits after it |
| Numeral.ParseSigned | src/test/getarg_tests.cpp:124-130 | for any non-empty digit string d, `d` and `+d` read as d's positional value and `-d` as its negation, so `007`, `+7` and `-0` read as 7, 7 and 0 |
| Numeral.FormatNat | src/test/getarg_tests.cpp:124-126 | the decimal form of a natural number is a non-empty digit string |
| Numeral.ParseFormatNat | src/test/getarg_tests.cpp:124-126 | reading the decimal form of a natural number gives it back |
| Numeral.ParseFormatInt | src/test/getarg_tests.cpp:124-126 | reading the decimal form of any integer gives it back |
| GetArgTests.FlagIsTrue | src/test/getarg_tests.cpp:28-31 | after `-K`, the flag K is true whatever the default |
| GetArgTests.OtherKeysKeepDefault | src/test/getarg_tests.cpp:33-39 | after `-K`, every other key, including prefixes and extensions of K, answers with the default |
| GetArgTests.ValueDecidesFlag | src/test/getarg_tests.cpp:41-49 | after `-K=v`, the flag is true exactly when v is not `"0"` |
| GetArgTests.NegatedFlagIsFalse | src/test/getarg_tests.cpp:52-55 | after `-noK`, the flag is false whatever the default, for any non-empty key without whitespace or `=`, including keys such as `node` that begin with `no` |
| GetArgTests.NegatedValueDecidesFlag | src/test/getarg_tests.cpp:57-60 | after `-noK=v`, the flag is true exactly when v is `"0"`, for the same keys as `NegatedFlagIsFalse` |
| GetArgTests.PositiveFlagBeatsNegated | src/test/getarg_tests.cpp:62-65 | `-K -noK` and `-noK -K` both leave the flag true |
| GetArgTests.PositiveValueBeatsNegated | src/test/getarg_tests.cpp:67-75 | with `-K=v` and `-noK=w` in either order, the flag is true exactly when v is not `"0"` |
| GetArgTests.DoubleDashToken | src/test/getarg_tests.cpp:78-86 | an entry's token with one more dash in front is read as the same entry |
| GetArgTests.DoubleDashNegatedToken | src/test/getarg_tests.cpp:83-86 | `--noK` is read as the negated entry for K |
| GetArgTests.DoubleDashLine | src/test/getarg_tests.cpp:135-136 | a one-option line written with `--` loads the same table as with `-` |
| GetArgTests.PositiveFlagBeatsDoubleDashNegated | src/test/getarg_tests.cpp:160-161 | `-K --noK` leaves the flag true |
| GetArgTests.EmptyLineDefaults | src/test/getarg_tests.cpp:92-94 | after the empty line, every accessor returns its default for every key |
| GetArgTests.BareKeyIsEmpty | src/test/getarg_tests.cpp:28 | after the one-token line `-K` of line 28, which the tests query only as a flag, the accessors' rule for a key given without `=` makes K read as `""` and as 0, never as the default; the string and number tests on bare keys are the two-token lines of `TwoBareKeys` |
| GetArgTests.TwoBareKeys | src/test/getarg_tests.cpp:96-122 | after `-K -B` (lines 96-98 and 120-122), K reads as `""`, and both K and B read as 0, whatever the default |
| GetArgTests.ValueIsText | src/test/getarg_tests.cpp:100-110 | after `-K=v`, K reads as the text v, the empty text included |
| GetArgTests.ValueIsNumber | src/test/getarg_tests.cpp:128-130 | after `-K=v`, K reads as v's number when v is a numeral and as 0 otherwise |
| GetArgTests.TwoValues | src/test/getarg_tests.cpp:124-126 | after `-K=v -B=w` with distinct keys, each key reads as its own value, as text and as a number |
| GetArgTests.NumberRoundTrip | src/test/getarg_tests.cpp:124-126 | after `-K=` followed by the decimal form of m, K reads as m |
| GetArgTests.DoubleDashValueToken | src/test/getarg_tests.cpp:138 | `--K=v` is read as the entry `-K=v` |
| GetArgTests.DoubleDashValues | src/test/getarg_tests.cpp:138-140 | after `--K=v --B=w`, the single-dash key K reads as the text v and B as w's number |

## Left out

- The Boost test macros are left out. Each `BOOST_CHECK` group is a lemma over all keys, values and defaults.
- The literal lines of the test suite (`-XTN`, `-XTN=0 -noXTN=0`, …) have no lemma of their own. They are the instances of the general lemmas with the key `XTN` or `bar`.
- The copy of each `std::string` into a `const char*` vector is left out. It is plumbing for the C calling convention, and the model passes the sequence of strings as it is.
- The resolver's table is process-wide state in the original. Here it is the one field of an `ArgStore` object that `ResetArgs` is handed.
- Multi-valued options and values read from a configuration file are left out. The getarg tests do not exercise them.
- src/util.cpp, where `ParseParameters`, `GetBoolArg` and `GetArg` are implemented, is not part of this model. Where the tests leave a case open, the model settles these cases as follows:
  - A token that does not start with `-` is skipped, not an end to option processing.
  - A negated-only key reads as its default for the string and integer queries.
  - The value is split at `=` before the `no` prefix is recognised, so `-no=5` is the positive option `no`.
- Accessors.GetBoolArg: the truth of a value is the exact test "is not `"0"`", not a C `atoi` conversion. For example, `-K=00` counts as true here.
- Accessors.GetIntArg: the value is unbounded; no fixed-width range or overflow behaviour is modelled.
- Accessors.GetIntArg: a value is either a whole numeral or reads as 0. A C-style prefix reading, where `12abc` gives 12, is not modelled.
- GetArgTests.ValueIsNumber: the number is unbounded, as for `GetIntArg`.
- Accessors.NumberOf: the number is unbounded, as for `GetIntArg`.
