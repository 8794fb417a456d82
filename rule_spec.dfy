/**
 * Reference definitions for the rule compiler and match engine of
 * utils.py: what `handle_config_schema` does to the module-level tables
 * `condition_dict` and `reason_dict`, and what
 * `validate_pokemon_against_the_list_of_rules` returns for a record.
 *
 * The Python walks its input with nested loops and returns from inside
 * them; here each loop is a recursive function over the remaining input
 * that yields a Walk: whether the walk is still going, has hit
 * `return False`, or has raised, together with the duplicate-field list of
 * the current rule and the condition table as written so far (writes are
 * never rolled back).
 */
module RuleSpec {
  import opened Wrappers
  import opened Text
  import opened Integers

  // ---------------------------------------------------------------------
  // Data
  // ---------------------------------------------------------------------

  /** A value as `json.load` produces it; numbers of either kind are JNum. */
  datatype Json =
    | JNull
    | JBool(b: bool)
    | JNum(n: int)
    | JStr(s: string)
    | JList(items: seq<Json>)
    | JObj(fields: map<string, Json>)

  /** The four comparison operators of `allowed_operators`. */
  datatype Op = Eq | Ne | Lt | Gt

  function Token(op: Op): (t: string)
    ensures t != [] && IsSymbolic(t)
  {
    match op
    case Eq => "=="
    case Ne => "!="
    case Lt => "<"
    case Gt => ">"
  }

  /** The order in which this model iterates the Python set
      `{'==', '!=', '<', '>'}`, whose real order is unspecified. */
  const OperatorOrder: seq<Op> := [Eq, Ne, Lt, Gt]

  /** The value `[op, literal]` stored in condition_dict for a field. */
  datatype Condition = Condition(op: Op, literal: string)

  /** A Python dict from field name to Condition: keys in insertion order
      (an overwrite keeps the key's place) and the entries. */
  datatype Table = Table(order: seq<string>, entries: map<string, Condition>) {

    ghost predicate Valid() {
      Distinct(order) && forall k :: k in entries <==> k in order
    }

    /** `d[k] = v` */
    function Put(k: string, v: Condition): (t: Table)
      ensures Valid() ==> t.Valid()
      ensures IsPrefix(order, t.order)
      ensures k in t.entries && t.entries[k] == v
      ensures forall j :: j != k ==> (j in t.entries <==> j in entries)
      ensures forall j :: j != k && j in entries ==> t.entries[j] == entries[j]
    {
      if k in entries then Table(order, entries[k := v])
      else Table(order + [k], entries[k := v])
    }
  }

  const EmptyTable := Table([], map[])

  /** The exceptions the two functions can raise: `op in 5` (TypeError),
      a loop variable read after a loop that never ran (UnboundLocalError),
      and `int()` on text that is not an integer (ValueError). */
  datatype PyError = TypeError | UnboundLocalError | ValueError

  /** Where a stretch of handle_config_schema's loops leaves off. */
  datatype Status = Going | Refused | Thrown(error: PyError)

  datatype Walk = Walk(status: Status, dup: seq<string>, table: Table)

  /** What handle_config_schema returns (or raises), and the two tables after it. */
  datatype Outcome = Returned(ok: bool) | Raised(error: PyError)

  datatype Compiled = Compiled(outcome: Outcome, table: Table, reasons: seq<string>)

  // ---------------------------------------------------------------------
  // Compiling one condition string
  // ---------------------------------------------------------------------

  /** `any(op in condition for op in allowed_operators)` for a string. */
  predicate AnyOperator(s: string, ops: seq<Op>): (r: bool)
    ensures r <==> exists o :: o in ops && Contains(s, Token(o))
  {
    if ops == [] then false
    else
      var rest := AnyOperator(s, ops[1..]);
      assert forall o :: o in ops <==> o == ops[0] || o in ops[1..];
      Contains(s, Token(ops[0])) || rest
  }

  /** `re.split(...)[0]`: the field name of condition s split on op. */
  function Field(s: string, op: Op): string
    requires Contains(s, Token(op))
  {
    SplitPieces(s, Token(op)).0
  }

  /** `re.split(...)[1]`: the literal of condition s split on op. */
  function Literal(s: string, op: Op): string
    requires Contains(s, Token(op))
  {
    SplitPieces(s, Token(op)).1
  }

  /** One pass of `for op in allowed_operators` (utils.py:59-70). */
  function OpStep(s: string, op: Op, schema: set<string>, dup: seq<string>, table: Table): (w: Walk)
    ensures table.Valid() ==> w.table.Valid()
    ensures w.status == Going || w.status == Refused
    ensures IsPrefix(dup, w.dup)
  {
    if !Contains(s, Token(op)) then Walk(Going, dup, table)
    else
      var field := Field(s, op);
      var literal := Literal(s, op);
      if HasSpecialCharsAndSpaces(literal) then Walk(Refused, dup, table)
      else if field !in schema || field in dup then Walk(Refused, dup, table)
      else Walk(Going, dup + [field], table.Put(field, Condition(op, literal)))
  }

  /** `for op in allowed_operators: ...` over the remaining operators. */
  function OpsWalk(s: string, ops: seq<Op>, schema: set<string>, dup: seq<string>, table: Table): (w: Walk)
    ensures table.Valid() ==> w.table.Valid()
    ensures w.status == Going || w.status == Refused
    ensures IsPrefix(dup, w.dup)
  {
    if ops == [] then Walk(Going, dup, table)
    else
      var w := OpStep(s, ops[0], schema, dup, table);
      if w.status != Going then w else OpsWalk(s, ops[1..], schema, w.dup, w.table)
  }

  /** The body of `for condition in rule['match']` (utils.py:54-70). The
      test `op in condition` runs before the isinstance check, so a list or
      object gives False while a number, boolean or null raises TypeError. */
  function ConditionStep(c: Json, ops: seq<Op>, schema: set<string>, dup: seq<string>, table: Table): (w: Walk)
    ensures table.Valid() ==> w.table.Valid()
    ensures IsPrefix(dup, w.dup)
  {
    match c
    case JStr(s) =>
      if !AnyOperator(s, ops) then Walk(Refused, dup, table)
      else OpsWalk(s, ops, schema, dup, table)
    case JList(_) => Walk(Refused, dup, table)
    case JObj(_) => Walk(Refused, dup, table)
    case _ => Walk(Thrown(TypeError), dup, table)
  }

  /** `for condition in rule['match']: ...` over the remaining conditions. */
  function ConditionsWalk(conds: seq<Json>, ops: seq<Op>, schema: set<string>, dup: seq<string>, table: Table): (w: Walk)
    ensures table.Valid() ==> w.table.Valid()
    ensures IsPrefix(dup, w.dup)
  {
    if conds == [] then Walk(Going, dup, table)
    else
      var w := ConditionStep(conds[0], ops, schema, dup, table);
      if w.status != Going then w else ConditionsWalk(conds[1..], ops, schema, w.dup, w.table)
  }

  // ---------------------------------------------------------------------
  // Compiling rules and the whole configuration
  // ---------------------------------------------------------------------

  /** The structural checks of utils.py:35-45 on one rule. */
  predicate WellFormedRule(rule: Json) {
    && rule.JObj?
    && "url" in rule.fields && rule.fields["url"].JStr?
    && "reason" in rule.fields && rule.fields["reason"].JStr?
    && "match" in rule.fields && rule.fields["match"].JList?
  }

  function Reason(rule: Json): string
    requires WellFormedRule(rule)
  {
    rule.fields["reason"].s
  }

  function Conditions(rule: Json): seq<Json>
    requires WellFormedRule(rule)
  {
    rule.fields["match"].items
  }

  /** The body of `for rule in rules`: the duplicate list starts empty for
      every rule (utils.py:47). */
  function RuleStep(rule: Json, ops: seq<Op>, schema: set<string>, table: Table): (w: Walk)
    ensures table.Valid() ==> w.table.Valid()
    ensures w.status == Going ==> WellFormedRule(rule)
    ensures !WellFormedRule(rule) ==> w.status == Refused && w.table == table
  {
    if !WellFormedRule(rule) then Walk(Refused, [], table)
    else ConditionsWalk(Conditions(rule), ops, schema, [], table)
  }

  /** `for rule in rules: ...` over the remaining rules. */
  function RulesWalk(rules: seq<Json>, ops: seq<Op>, schema: set<string>, table: Table): (w: Walk)
    ensures table.Valid() ==> w.table.Valid()
    ensures w.status == Going ==> forall i :: 0 <= i < |rules| ==> WellFormedRule(rules[i])
  {
    if rules == [] then Walk(Going, [], table)
    else
      var w := RuleStep(rules[0], ops, schema, table);
      if w.status != Going then w
      else
        var rest := RulesWalk(rules[1..], ops, schema, w.table);
        assert rest.status == Going ==> forall i :: 1 <= i < |rules| ==> rules[i] == rules[1..][i - 1];
        rest
  }

  /** `reason_dict[r] = condition_dict`: every key of reason_dict is bound
      to the one shared condition_dict, so the reason table is its key list
      in insertion order. */
  function Register(reasons: seq<string>, r: string): (rs: seq<string>)
    ensures Distinct(reasons) ==> Distinct(rs)
    ensures r in rs && IsPrefix(reasons, rs) && |rs| <= |reasons| + 1
    ensures forall x :: x in rs <==> x in reasons || x == r
  {
    if r in reasons then reasons else reasons + [r]
  }

  /** handle_config_schema(config) with schema fields `schema`, operators
      iterated in the order `ops`, starting from the tables `table`
      (condition_dict) and `reasons` (reason_dict). */
  function HandleConfig(config: Json, ops: seq<Op>, schema: set<string>, table: Table, reasons: seq<string>): (c: Compiled)
    ensures table.Valid() ==> c.table.Valid()
    ensures Distinct(reasons) ==> Distinct(c.reasons)
    ensures c.outcome != Returned(true) ==> c.reasons == reasons
  {
    if !config.JObj? || "rules" !in config.fields || !config.fields["rules"].JList? then
      Compiled(Returned(false), table, reasons)
    else
      var rules := config.fields["rules"].items;
      var w := RulesWalk(rules, ops, schema, table);
      match w.status
      case Refused => Compiled(Returned(false), w.table, reasons)
      case Thrown(e) => Compiled(Raised(e), w.table, reasons)
      case Going =>
        if rules == [] then Compiled(Raised(UnboundLocalError), w.table, reasons)
        else Compiled(Returned(true), w.table, Register(reasons, Reason(rules[|rules| - 1])))
  }

  /** The rest of the computation once a stretch of the walk has ended in
      w: nothing more if it stopped, otherwise the remaining loop. */
  function AfterConditions(w: Walk, conds: seq<Json>, ops: seq<Op>, schema: set<string>): Walk {
    if w.status != Going then w else ConditionsWalk(conds, ops, schema, w.dup, w.table)
  }

  function AfterRules(w: Walk, rules: seq<Json>, ops: seq<Op>, schema: set<string>): Walk {
    if w.status != Going then w else RulesWalk(rules, ops, schema, w.table)
  }

  // ---------------------------------------------------------------------
  // Matching a record
  // ---------------------------------------------------------------------

  /** validate_operators(attr, op, val); None is the ValueError of `int()`. */
  function ValidateOperators(attr: string, op: Op, val: string): (r: Option<bool>)
    ensures r.None? <==> (op == Lt || op == Gt) && (ParseInt(attr).None? || ParseInt(val).None?)
  {
    match op
    case Eq => Some(attr == val)
    case Ne => Some(attr != val)
    case Lt =>
      (match (ParseInt(attr), ParseInt(val))
       case (Some(a), Some(v)) => Some(a < v)
       case _ => None)
    case Gt =>
      (match (ParseInt(attr), ParseInt(val))
       case (Some(a), Some(v)) => Some(a > v)
       case _ => None)
  }

  /** How `for condition in reason_dict.get(reason)` ends for one reason. */
  datatype Verdict = Pass | Fail | Error(error: PyError)

  /** The inner loop of utils.py:98-107 over the remaining fields. */
  function CheckFields(record: map<string, string>, table: Table, fields: seq<string>): (v: Verdict)
    requires forall k :: k in fields ==> k in table.entries
    ensures v.Error? ==> v.error == ValueError
    ensures (exists k :: k in fields && k !in record) ==> v != Pass
  {
    if fields == [] then Pass
    else
      var f := fields[0];
      if f !in record then Fail
      else
        match ValidateOperators(record[f], table.entries[f].op, table.entries[f].literal)
        case None => Error(ValueError)
        case Some(false) => Fail
        case Some(true) => CheckFields(record, table, fields[1..])
  }

  /** What validate_pokemon_against_the_list_of_rules returns. */
  datatype MatchOutcome = NoMatch | Matched(data: map<string, string>, reason: string) | MatchRaised(error: PyError)

  /** The outer loop of utils.py:97-108 over the remaining reasons; `last`
      is the loop variable `reason`, unbound until the first pass. */
  function MatchReasons(record: map<string, string>, table: Table, reasons: seq<string>, last: Option<string>): (m: MatchOutcome)
    requires table.Valid()
    ensures m.Matched? ==> m.data == record && (m.reason in reasons || last == Some(m.reason))
    ensures m.MatchRaised? ==> m.error == ValueError || (m.error == UnboundLocalError && last.None? && reasons == [])
  {
    if reasons == [] then
      match last
      case None => MatchRaised(UnboundLocalError)
      case Some(r) => Matched(record, r)
    else
      match CheckFields(record, table, table.order)
      case Pass => MatchReasons(record, table, reasons[1..], Some(reasons[0]))
      case Fail => NoMatch
      case Error(e) => MatchRaised(e)
  }

  function MatchRecord(record: map<string, string>, table: Table, reasons: seq<string>): (m: MatchOutcome)
    requires table.Valid()
    ensures m.Matched? ==> m.data == record && m.reason in reasons
    ensures m.MatchRaised? ==> m.error == ValueError || (m.error == UnboundLocalError && reasons == [])
  {
    MatchReasons(record, table, reasons, None)
  }
}
