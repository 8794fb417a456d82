# Pokémon stream proxy: rule compiler, matcher and endpoint metrics in Dafny

This project models the decision core of a small HTTP proxy. The proxy receives Pokémon records and forwards those that match a configured rule. The core has two parts.

**Rules (utils.py).**
- `handle_config_schema` compiles a JSON configuration of rules into two module-level dictionaries:
  - `condition_dict` maps a field to an `[operator, literal]` pair;
  - `reason_dict` maps a rule's reason to that same dictionary.
- `has_special_chars_and_spaces` is the literal check the compiler uses.
- `validate_pokemon_against_the_list_of_rules` checks a record against the compiled tables.
- `validate_operators` evaluates one `==`, `!=`, `<` or `>` condition.

**Metrics (stats.py).**
- `update_metrics` keeps per-endpoint counters and a moving average of response times in the module-level `metrics` dictionary.
- `get_stats` hands that dictionary out.

## How the model is built

| module | file | what it holds |
|---|---|---|
| `Wrappers` | `wrappers.dfy` | Option; `Distinct` and `IsPrefix` on sequences |
| `Text` | `text.dfy` | `\s` and `\w`, `op in condition`, and the first two pieces of `re.split(r"\s*" + re.escape(op) + r"\s*", condition)` |
| `Integers` | `integers.dfy` | `int()` on strings and `str()` on integers |
| `RuleSpec` | `rule_spec.dfy` | Specification functions for compiling and matching (see below) |
| `Utils` | `utils.dfy` | Class `RuleTables`: the two globals as fields, and methods with the source's loops |
| `RuleLemmas` | `rule_lemmas.dfy` | When the compiler accepts, and what it raises |
| `TableLemmas` | `table_lemmas.dfy` | What `condition_dict` holds afterwards, and independence from operator order |
| `MatchLemmas` | `match_lemmas.dfy` | What matching returns |
| `Stats` | `stats.dfy` | The metrics table, its specification functions and lemmas |

**How the specification functions work.**
- Each compile function is a head-first recursive walk over the remaining operators, conditions or rules. It carries the duplicate list and the condition table.
- The walk ends in one of three states:
  - `Going`: the loop finished;
  - `Refused`: the source executed `return False`;
  - `Thrown`: Python raised an exception.
- `HandleConfig` ties these together into the returned value (or raised exception) and both tables.
- Each method of `RuleTables` is proved to end in exactly the state the specification function describes. Its loop invariant says that what the rest of the loop still computes equals the walk over the remaining items.

**Split of the compile loops.**
- `handle_config_schema` nests three loops. The model gives each loop level its own method:
  - `HandleConfigSchema` loops over rules;
  - `CompileConditions` loops over one rule's conditions;
  - `CompileOperators` loops over the operators.
- The statements and their order are those of the source.

**Aliasing of reason_dict.**
- Line 72 stores the global `condition_dict` itself as the value for every reason.
- So the model keeps `reason_dict` as its keys in insertion order (`reasons: seq<string>`), all bound to the one shared table `conditions`.
- `condition_dict` is a `Table` of insertion-ordered keys and entries. Overwriting a key keeps its position, as a Python dict does.

**Operator order.**
- The four operators are a Python set, whose iteration order is not fixed.
- The methods use the order `==`, `!=`, `<`, `>`.
- The specification functions take the order as a parameter. `TableLemmas.HandleConfigOrderFree` proves that the outcome and `reason_dict` do not depend on it.

### Where the code departs from the intended design (the model follows the code)

- **All-or-nothing compilation.**
  - Intended: compilation is all-or-nothing and conditions are grouped per rule.
  - The code: all rules write into one shared `condition_dict`, and a refusal or a raise at any rule keeps the writes made before it (`TableLemmas.RulesWalkStopsAt`, `TableLemmas.HandleConfigStopKeepsEarlierWrites`).
  - Only the last rule's reason is registered, and it is bound to the whole shared table (`RuleLemmas.HandleConfigAccepts`).
- **Which reason is reported.**
  - Intended: the first matching rule wins.
  - The code: the one shared table is checked once per reason, and the reason reported is the last key of `reason_dict` (`MatchLemmas.MatchReasonsCollapse`).
- **Operators in one condition.**
  - Intended: a condition contains exactly one operator.
  - The code: every operator that occurs in the condition is processed. A condition that mentions two operators is accepted only if both splits pass the checks.
- **Allowed literal characters.**
  - Intended: literals may use `[A-Za-z0-9_.-]`.
  - The code: literals may use word characters only, so `.` and `-` are refused (`Text.HasSpecialCharsAndSpaces`). An empty literal, as in `hp<`, is accepted (`TableLemmas.SingleConditionCompiles`).
- **Counter width.**
  - Intended: counters are 64-bit unsigned integers.
  - The code: counters are Python integers, and the model uses unbounded `int`.
- **First sample of the average.**
  - Intended: the first sample sets the average.
  - The code: a stored average of exactly `0.0` is replaced by the new sample on every call, not only the first (`Stats.SentinelResetsAverage`).

## Model

| member | source | states |
|---|---|---|
| `Text.HasSpecialCharsAndSpaces` | utils.py:76-82 | `re.search(r"[\W\s]", s)` finds something iff some character of s is not an ASCII letter, digit or underscore |
| `Text.FindFrom` | utils.py:59-61 | The first occurrence of the token at or after a position, with no earlier one; None iff there is none |
| `Text.Contains` | utils.py:54-59 | `op in condition` holds iff the token occurs somewhere in the string |
| `Text.TrimRight` | utils.py:60-62 | The `\s*` before the operator: a prefix with no trailing whitespace, and only whitespace cut off |
| `Text.SkipSpaces` | utils.py:60-63 | The `\s*` after the operator: skips exactly a run of whitespace |
| `Text.SplitFieldsDiffer` | utils.py:58-62 | Splitting one condition on two different operators gives two different field names |
| `Text.SplitPieces` | utils.py:60-63 | `match[0]` and `match[1]` of `re.split(r"\s*op\s*", condition)`. Its own contract gives bounds only: the field is a prefix ending before the first occurrence of op, with no trailing whitespace, and the literal starts after that occurrence, with no leading whitespace. `Text.SplitPiecesMeaning` pins both pieces |
| `Text.SplitPiecesMeaning` | utils.py:60-63 | The field is exactly the text before the first occurrence of op with its trailing whitespace cut off. The literal starts after the whitespace that follows that occurrence. It runs to the end of the condition when op does not occur again, and otherwise up to the next occurrence, with the whitespace before it cut off |
| `Text.TrimmedUnique` | utils.py:60-63 | At most one piece is a slice with its trailing whitespace cut off, so `Text.SplitPiecesMeaning` determines both pieces |
| `Text.SplitIgnoresLaterPieces` | utils.py:60-63 | Splitting `field ws op ws literal ws op rest` (word-only field and literal, any rest) gives back field and literal: everything from the second occurrence of op on is dropped |
| `Text.SplitRoundTrip` | utils.py:60-63 | Splitting `field ws op ws literal` (word-only field and literal) on `\s*op\s*` gives back field and literal |
| `Integers.ParseInt` | utils.py:116-119 | The model's `int()`: a result comes only from a non-empty string whose characters after the first are digits, and a negative result only from a leading `-`; `ParseIntOfIntToString` and `ParseIntRejects` give its meaning |
| `Integers.IntToString` | utils.py:101 | `str(n)`: a non-empty string that starts with `-` iff n is negative, with digits after the first character; `ParseIntOfIntToString` gives its meaning |
| `Integers.NatToDigits` | utils.py:101 | `str(n)` of a natural number is a non-empty string of decimal digits |
| `Integers.DigitsRoundTrip` | utils.py:101 | Reading back the digits of n gives n |
| `Integers.ParseIntOfIntToString` | utils.py:116-119 | `int(str(n)) == n` for every integer n |
| `Integers.ParseIntRejects` | utils.py:116-119 | The model's `int()` refuses (where Python raises ValueError) the empty string and text that starts with neither a digit nor a sign |
| `Integers.ParseIntLeadingZeros` | utils.py:116-119 | Like Python's `int()`, the model accepts leading zeros after an optional sign: zeros followed by the digits of n give n, with `+` in front n, and with `-` in front -n |
| `Integers.DigitsValueLeadingZeros` | utils.py:116-119 | Zero digits in front of a digit string do not change its value |
| `RuleSpec.Token` | utils.py:50 | Each operator token is non-empty and made of symbol characters only |
| `RuleSpec.Table.Put` | utils.py:70 | `condition_dict[k] = v` keeps the table well formed and its key order a prefix of the new one; k maps to v and every other key is unchanged |
| `RuleSpec.AnyOperator` | utils.py:54 | `any(op in condition for op in allowed_operators)` holds iff some operator's token occurs in the condition |
| `RuleSpec.OpStep` | utils.py:58-70 | One pass over an operator keeps the table well formed, only extends the duplicate list, and never raises |
| `RuleSpec.OpsWalk` | utils.py:58-70 | The operator loop keeps the table well formed, only extends the duplicate list, and never raises |
| `RuleSpec.ConditionStep` | utils.py:52-70 | One condition keeps the table well formed and only extends the duplicate list |
| `RuleSpec.ConditionsWalk` | utils.py:52-70 | The condition loop keeps the table well formed and only extends the duplicate list |
| `RuleSpec.RuleStep` | utils.py:34-47 | One rule: a rule that is not a dict, or lacks a string url, a string reason or a list match, is refused with the table unchanged; the loop goes on only past a well-formed rule; `RuleLemmas.RulesWalkAccepts` gives its meaning |
| `RuleSpec.RulesWalk` | utils.py:34-70 | The rule loop keeps the table well formed, and if it completes, every rule has the required url, reason and match |
| `RuleSpec.Register` | utils.py:72 | `reason_dict[reason] = condition_dict` adds the reason as a key once, keeping the earlier keys in order, and adds no other key |
| `RuleSpec.HandleConfig` | utils.py:23-73 | Both tables stay well formed, and reason_dict is changed only when True is returned |
| `RuleSpec.ValidateOperators` | utils.py:111-121 | `validate_operators`: raises (None) only for `<` or `>` when `int()` refuses an operand; `MatchLemmas.EqNeComplement`, `LtGtMirror`, `ComparisonRaisesIff` and `ComparesRenderedIntegers` give its meaning |
| `RuleSpec.CheckFields` | utils.py:98-107 | The inner loop of one reason: it raises only ValueError, and a field missing from the record never lets it pass; `MatchLemmas.CheckFieldsMeaning` gives its meaning |
| `RuleSpec.MatchReasons` | utils.py:97-108 | The outer loop: a match returns the record itself with a reason from reason_dict (or the one the loop already holds); it raises ValueError, or UnboundLocalError only when no reason was visited; `MatchLemmas.MatchReasonsCollapse` gives its meaning |
| `RuleSpec.MatchRecord` | utils.py:93-108 | A match returns the record unchanged with a reason of reason_dict; it raises ValueError, or UnboundLocalError only when reason_dict is empty; `MatchLemmas.MatchedIff` and `MatchRaises` give its meaning |
| `Utils.RuleTables.constructor` | utils.py:8-9 | Both globals start empty |
| `Utils.RuleTables.HandleConfigSchema` | utils.py:23-73 | The method returns or raises what `HandleConfig` says, and leaves both globals as `HandleConfig` says |
| `Utils.RuleTables.CompileConditions` | utils.py:52-70 | The condition loop of one rule ends as `ConditionsWalk` says, and condition_dict becomes its table |
| `Utils.RuleTables.CompileOperators` | utils.py:58-70 | The operator loop of one condition ends as `OpsWalk` says, with the duplicate list and table it gives |
| `Utils.RuleTables.ValidatePokemonAgainstRules` | utils.py:93-108 | The method returns or raises exactly what `MatchRecord` gives for the current tables |
| `RuleLemmas.FieldsOfDifferentOperatorsDiffer` | utils.py:58-70 | Two operators of one condition never yield the same field name |
| `RuleLemmas.SplitKeepsFirstTwoPieces` | utils.py:60-63 | `hp==5==6` gives field `hp` and literal `5`; pieces after the second are ignored (`Text.SplitIgnoresLaterPieces` is the general statement) |
| `RuleLemmas.ConditionTextRoundTrip` | utils.py:59-63 | `field ws op ws literal` mentions op and splits back into field and literal |
| `RuleLemmas.ConditionTextMentionsOneOperator` | utils.py:54-59 | Such a condition contains the token of op and of no other operator |
| `RuleLemmas.OpStepAccepts` | utils.py:58-70 | One operator passes iff it is absent, or its literal is word-only and its field is a schema field not yet used in the rule |
| `RuleLemmas.OpsWalkAccepts` | utils.py:58-70 | The operator loop completes iff every operator the condition mentions passes the literal, schema and duplicate checks |
| `RuleLemmas.OpsWalkFields` | utils.py:66-70 | After that loop the duplicate list holds the earlier fields plus the condition's fields, and nothing else |
| `RuleLemmas.ConditionStepAccepts` | utils.py:54-70 | A number, boolean or null raises TypeError; a list or object is refused; a string passes iff it mentions an operator and every mention passes |
| `RuleLemmas.ConditionsWalkAccepts` | utils.py:47-70 | A rule's conditions pass iff each is a string with an operator, every literal is word-only, every field is a schema field, and no two conditions name the same field |
| `RuleLemmas.RulesWalkAccepts` | utils.py:34-70 | The rule loop completes iff every rule is well formed and its conditions are accepted |
| `RuleLemmas.HandleConfigAccepts` | utils.py:23-73 | True iff the config is an object with a non-empty list of accepted rules; then the last rule's reason is registered |
| `RuleLemmas.ShapeRejected` | utils.py:24-32 | A non-object config, a missing "rules" key or a non-list rules value returns False and leaves both tables alone |
| `RuleLemmas.EmptyRulesRaise` | utils.py:34-72 | An empty rule list raises UnboundLocalError at line 72 and leaves both tables alone |
| `RuleLemmas.ConditionsWalkThrows` | utils.py:52-56 | The condition loop raises only TypeError, and only if some condition is a number, boolean or null |
| `RuleLemmas.RulesWalkThrows` | utils.py:34-70 | The rule loop raises only TypeError, and only when some well-formed rule has a condition that is a number, boolean or null |
| `RuleLemmas.HandleConfigRaises` | utils.py:23-73 | Only TypeError (when some well-formed rule has a number, boolean or null condition), or UnboundLocalError for an empty rule list, is raised; reason_dict is then unchanged |
| `RuleLemmas.MalformedRuleReturnsFalse` | utils.py:34-45 | A rule that is not a dict, or lacks a string `url`, a string `reason` or a list `match`, makes the function return False with reason_dict unchanged, unless an earlier rule has a number, boolean or null condition |
| `RuleLemmas.RulesWalkSplit` | utils.py:34-70 | The rule loop over a list is the loop over any prefix followed, if that prefix neither refused nor raised, by the loop over the rest from the table the prefix leaves; otherwise it ends as the prefix did |
| `TableLemmas.ConditionStepOrderFree` | utils.py:50-70 | One condition ends the same way for any iteration order of the operator set, with the same fields recorded |
| `TableLemmas.ConditionsWalkOrderFree` | utils.py:50-70 | The condition loop ends the same way for any operator order |
| `TableLemmas.RulesWalkOrderFree` | utils.py:34-70 | The rule loop ends the same way for any operator order |
| `TableLemmas.HandleConfigOrderFree` | utils.py:23-73 | The return value or exception, and reason_dict, do not depend on the set's iteration order |
| `TableLemmas.OpsWalkSound` | utils.py:58-70 | The operator loop writes only schema fields with word-only literals, even when it refuses |
| `TableLemmas.ConditionsWalkSound` | utils.py:52-70 | The same holds for the condition loop |
| `TableLemmas.RulesWalkSound` | utils.py:34-70 | The same holds for the rule loop |
| `TableLemmas.HandleConfigSound` | utils.py:23-73 | Whatever the outcome, condition_dict holds only schema fields with word-only literals |
| `TableLemmas.OpsWalkWrites` | utils.py:58-70 | After an accepted condition, each field it names maps to (op, literal), and other entries are unchanged |
| `TableLemmas.OpsWalkKeeps` | utils.py:58-70 | An entry whose field the condition does not name for any operator is unchanged by the operator loop, however that loop ends |
| `TableLemmas.ConditionsWalkKeeps` | utils.py:52-70 | An entry that no condition of the rule names is unchanged by the condition loop, however that loop ends |
| `TableLemmas.ConditionsWalkWrites` | utils.py:52-70 | After an accepted rule, each field it names maps to that condition's (op, literal) |
| `TableLemmas.RulesWalkKeeps` | utils.py:34-70 | An entry that no well-formed rule names is unchanged by the rule loop, however that loop ends |
| `TableLemmas.RulesWalkLastWrites` | utils.py:34-70 | After the rule loop, the last rule's conditions are the ones in the table |
| `TableLemmas.HandleConfigWrites` | utils.py:23-73 | On True, the last rule's conditions win over earlier rules naming the same field, and entries no rule names are kept |
| `TableLemmas.RulesWalkLaterWriteWins` | utils.py:47-70 | A field named by rule r and by no later rule holds rule r's operator and literal after the rule loop, whatever earlier rules wrote |
| `TableLemmas.HandleConfigLaterWriteWins` | utils.py:23-73 | On True, every field holds the operator and literal of the last rule that names it |
| `TableLemmas.RulesWalkStopsAt` | utils.py:34-70 | When the rule loop stops (refusal or raise) at rule n, it ends as rule n's step from the table the first n rules built, and every field rule n does not name keeps that table's entry |
| `TableLemmas.HandleConfigStopKeepsEarlierWrites` | utils.py:23-73 | When the loop stops at rule n, a field that an earlier rule r names, and no rule after r up to n names, still holds rule r's operator and literal; the function does not return True and reason_dict is unchanged |
| `TableLemmas.RefusalKeepsEarlierWrites` | utils.py:34-70 | An instance: a two-rule config whose second rule's first condition is a list returns False, yet the first rule's conditions stay in condition_dict |
| `TableLemmas.SingleConditionCompiles` | utils.py:23-73 | A one-rule config `field op literal` (a word-only field in the schema, a word-only or empty literal) returns True, stores (op, literal) and registers the reason |
| `MatchLemmas.CheckFieldsMeaning` | utils.py:98-107 | The inner loop passes iff every field is in the record and its condition evaluates to True; it raises only ValueError, from an operand that `int()` refuses |
| `MatchLemmas.MatchReasonsCollapse` | utils.py:97-108 | Since every reason shares one table, the outcome is decided by one check, and a match reports the last reason |
| `MatchLemmas.MatchedIff` | utils.py:93-108 | A record is returned iff reason_dict is non-empty and every condition holds; it is returned unchanged with the last reason |
| `MatchLemmas.MatchRaises` | utils.py:93-108 | An empty reason_dict raises UnboundLocalError; otherwise only ValueError is raised, from a condition whose operands are not integers |
| `MatchLemmas.MissingFieldNeverMatches` | utils.py:100-107 | A record without a constrained field is never returned |
| `MatchLemmas.DecodedRecordMatchedIff` | utils.py:85-108 | For a decoded record (every schema field present), the record is returned iff reason_dict is non-empty and validate_operators gives True for every stored condition |
| `MatchLemmas.EqNeComplement` | utils.py:111-115 | `!=` is always the negation of `==`, and neither raises |
| `MatchLemmas.LtGtMirror` | utils.py:116-119 | `a < v` gives the same as `v > a`, including raising |
| `MatchLemmas.ComparisonRaisesIff` | utils.py:116-119 | `<` and `>` raise ValueError iff `int()` refuses one of the operands |
| `MatchLemmas.ComparesRenderedIntegers` | utils.py:101-119 | On `str()`-rendered integers, `<` and `>` compare the integers |
| `MatchLemmas.MatchedRecordMeetsLastRule` | utils.py:23-108 | After an accepted config, a returned record satisfies every condition of the last rule |
| `MatchLemmas.LevelBelowFiveCompiles` | utils.py:23-73 | `level < 5` compiles to level → (<, "5") under its reason |
| `MatchLemmas.LevelBelowFiveMatches` | utils.py:93-121 | Under level → (<, "5"): a level of 3 matches, and so does the decoded default level "0"; 9 or a map without a level does not; `x` raises ValueError; an empty reason_dict raises UnboundLocalError |
| `Stats.Observe` | stats.py:15-25 | One call adds 1 request, adds 1 error iff error, and adds the bytes; the average becomes the sample if it was 0.0, otherwise 0.2·sample + 0.8·average |
| `Stats.MetricsTable.constructor` | stats.py:3 | The metrics table starts empty |
| `Stats.MetricsTable.UpdateMetrics` | stats.py:6-25 | The new table is the old one with this endpoint's entry (fresh if missing) updated as `Observe` says; the endpoint is present and every other entry is unchanged |
| `Stats.MetricsTable.GetStats` | stats.py:28-29 | Returns the live table itself, not a copy |
| `Stats.Record` | stats.py:6-25 | One `update_metrics` call on the table as a value: the endpoint is present with one more request, and every other endpoint's entry is unchanged; `Stats.MetricsTable.UpdateMetrics` is proved against it |
| `Stats.Replay` | stats.py:6-25 | A series of calls: no endpoint is dropped and every called endpoint is present; `Stats.ReplayCounts` and `ReplayAverageWithin` give its meaning |
| `Stats.ReplayAppend` | stats.py:6-25 | A series of calls followed by one more is the series replayed and then that call recorded |
| `Stats.ObserveConsistent` | stats.py:7-17 | From a fresh or consistent entry, with non-negative bytes, errors stay between 0 and the request count, which is at least 1 |
| `Stats.FirstSampleSetsAverage` | stats.py:7-22 | The first call for an endpoint sets count 1, errors 0 or 1, its bytes, and the average to the sample itself |
| `Stats.TwoSamples` | stats.py:6-25 | Samples 1.0 then 2.0 give an average of 1.2, two requests, one error and the summed bytes |
| `Stats.SentinelResetsAverage` | stats.py:21-25 | Samples 1.0, -4.0 bring the average to 0.0; the next sample 5.0 replaces it instead of being averaged in |
| `Stats.SmoothWithin` | stats.py:21-25 | A moving-average step keeps the average between the smallest and largest sample |
| `Stats.ReplayCounts` | stats.py:6-17 | After any series of calls, an endpoint has an entry iff it had one or was called; its counters grew by its calls, errors and bytes; other endpoints' calls leave it alone |
| `Stats.ErrorsAtMostCalls` | stats.py:15-16 | An endpoint never has more failed calls than calls |
| `Stats.ReplayErrorsBounded` | stats.py:15-16 | From an empty table, every endpoint's error count is between 0 and its request count |
| `Stats.ReplayAverageWithin` | stats.py:19-25 | If all samples lie in [lo, hi], every average stays in [lo, hi] or at the 0.0 sentinel, and a called endpoint's average is in [lo, hi] |

## Left out

- `verify_hmac` (utils.py:13-20): it reads HTTP headers and computes an HMAC. It is I/O and cryptography, not rule logic.
- Protobuf reflection (utils.py:48-49, 85-96):
  - The schema fields (`pokemon.DESCRIPTOR.fields`) are a `set<string>` parameter.
  - The decoded record is a `map<string, string>` whose values are already rendered by `str()`.
  - So the `data` returned on a match is that string map, not the protobuf's typed dictionary.
- The decoded record always holds every schema field: `protobuf_to_dict` (utils.py:85-90) walks all fields, and an unset field reads as its default.
  - So the missing-field exit (utils.py:106-107) never fires in the program.
  - `MatchLemmas.MissingFieldNeverMatches` and the map without a level in `MatchLemmas.LevelBelowFiveMatches` describe maps the decoder never produces.
  - `MatchLemmas.DecodedRecordMatchedIff` states matching for decoded records.
- main.py is not part of this model: the HTTP application, its middleware and the `/stats` handler.
  - The clock readings that give `request_time` are a parameter of `UpdateMetrics`.
  - The handler's in-place division and `round(..., 2)` on the live table are not modelled.
- Floating point: the moving average is computed over `real`. IEEE rounding is not modelled, and `== 0.0` is exact equality on reals.
- JSON numbers are integers in the model (`JNum`). Integers and floats behave alike in handle_config_schema: a number as a condition raises TypeError, and a number in place of the config, `rules`, a rule, `url`, `reason` or `match` makes it return False.
- Regular-expression classes: `\s` and `\w` are the ASCII classes. Python's Unicode `str` patterns also match non-ASCII letters, digits and spaces.
- `int()`: the model accepts an optional sign and ASCII digits only. It does not model surrounding whitespace, `_` digit separators or non-ASCII digits.
  - A literal with `_` separators, as in `level < 1_000`, passes has_special_chars_and_spaces and compiles. Where Python's `int("1_000")` gives 1000, the model's `<` and `>` raise ValueError instead.
  - A record value with surrounding whitespace (a string field such as `" 5"`) is likewise refused by the model's `int()` where Python accepts it.
- `validate_operators` with an operator other than the four: it cannot happen, because only those four are ever stored.
- Concurrency between async request handlers is not modelled. Every operation is atomic.
- The iteration order of the operator set: the methods fix one order.
  - The outcome and `reason_dict` are proved independent of it.
  - The key order of `condition_dict`, and which partial writes a refused condition leaves, can depend on the order. The model does not prove anything about that.
