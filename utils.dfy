/**
 * The state and the imperative operations of utils.py: the module-level
 * dicts `condition_dict` and `reason_dict`, `handle_config_schema`, which
 * fills them, and `validate_pokemon_against_the_list_of_rules`, which reads
 * them. Each method is proved to compute what the reference functions of
 * RuleSpec say.
 */
module Utils {
  import opened Wrappers
  import opened Text
  import opened RuleSpec

  /** The module-level rule tables. `reason_dict[r] = condition_dict`
      stores the one shared condition_dict under every reason, so
      reason_dict is its list of keys in insertion order, each bound to
      `conditions`. */
  class RuleTables {
    var conditions: Table
    var reasons: seq<string>

    ghost predicate Valid()
      reads this
    {
      conditions.Valid() && Distinct(reasons)
    }

    /** Both dicts start empty at import time (utils.py:8-9). */
    constructor ()
      ensures Valid() && conditions == EmptyTable && reasons == []
    {
      conditions := EmptyTable;
      reasons := [];
    }

    /** handle_config_schema(config), with the record schema's field names
        given as `schema` and the operator set iterated as OperatorOrder. */
    method HandleConfigSchema(config: Json, schema: set<string>) returns (outcome: Outcome)
      requires Valid()
      modifies this
      ensures Valid()
      ensures var c := HandleConfig(config, OperatorOrder, schema, old(conditions), old(reasons));
              outcome == c.outcome && conditions == c.table && reasons == c.reasons
    {
      if !config.JObj? { return Returned(false); }
      if "rules" !in config.fields { return Returned(false); }
      var rules := config.fields["rules"];
      if !rules.JList? { return Returned(false); }
      var items := rules.items;
      ghost var total := RulesWalk(items, OperatorOrder, schema, conditions);
      // the loop variable `rule`, still bound after the loop, unbound if it never ran
      var last: Option<Json> := None;
      var i := 0;
      while i < |items|
        invariant 0 <= i <= |items|
        invariant conditions.Valid() && reasons == old(reasons)
        invariant total == RulesWalk(items[i..], OperatorOrder, schema, conditions)
        invariant i == 0 ==> last == None
        invariant i > 0 ==> last == Some(items[i - 1]) && WellFormedRule(items[i - 1])
      {
        var rule := items[i];
        ghost var before := conditions;
        last := Some(rule);
        assert items[i..][0] == rule && items[i..][1..] == items[i + 1..];
        assert !WellFormedRule(rule) ==> total == Walk(Refused, [], conditions);
        if !rule.JObj? { return Returned(false); }
        if "url" !in rule.fields || !rule.fields["url"].JStr? { return Returned(false); }
        if "reason" !in rule.fields || !rule.fields["reason"].JStr? { return Returned(false); }
        if "match" !in rule.fields || !rule.fields["match"].JList? { return Returned(false); }
        var status := CompileConditions(rule.fields["match"].items, schema);
        ghost var step := RuleStep(rule, OperatorOrder, schema, before);
        assert step.status == status && step.table == conditions;
        assert status != Going ==> total == step;
        if status == Refused { return Returned(false); }
        if status.Thrown? { return Raised(status.error); }
        assert total == RulesWalk(items[i + 1..], OperatorOrder, schema, conditions);
        i := i + 1;
      }
      match last
      case None =>
        return Raised(UnboundLocalError);
      case Some(rule) =>
        reasons := Register(reasons, Reason(rule));
        return Returned(true);
    }

    /** The loop over one rule's conditions, utils.py:47-70, with a fresh
        duplicate list. Refused is the `return False` of lines 56, 65 and 67;
        Thrown is the TypeError of `op in condition` on a scalar. */
    method CompileConditions(conds: seq<Json>, schema: set<string>) returns (status: Status)
      requires Valid()
      modifies this
      ensures Valid() && reasons == old(reasons)
      ensures var w := ConditionsWalk(conds, OperatorOrder, schema, [], old(conditions));
              status == w.status && conditions == w.table
    {
      var dup: seq<string> := [];
      var j := 0;
      while j < |conds|
        invariant 0 <= j <= |conds|
        invariant conditions.Valid() && reasons == old(reasons)
        invariant ConditionsWalk(conds, OperatorOrder, schema, [], old(conditions))
               == ConditionsWalk(conds[j..], OperatorOrder, schema, dup, conditions)
      {
        var condition := conds[j];
        assert conds[j..][0] == condition && conds[j..][1..] == conds[j + 1..];
        // `op in condition` raises on a value that is not a container
        ghost var step := ConditionStep(condition, OperatorOrder, schema, dup, conditions);
        assert ConditionsWalk(conds[j..], OperatorOrder, schema, dup, conditions)
            == AfterConditions(step, conds[j + 1..], OperatorOrder, schema);
        if condition.JNull? || condition.JBool? || condition.JNum? {
          assert step.status == Thrown(TypeError);
          return Thrown(TypeError);
        }
        if !condition.JStr? || !AnyOperator(condition.s, OperatorOrder) {
          assert step == Walk(Refused, dup, conditions);
          return Refused;
        }
        assert step == OpsWalk(condition.s, OperatorOrder, schema, dup, conditions);
        var refused;
        refused, dup := CompileOperators(condition.s, schema, dup);
        if refused { return Refused; }
        assert step.status == Going && step.dup == dup && step.table == conditions;
        j := j + 1;
      }
      return Going;
    }

    /** The innermost loop of handle_config_schema, utils.py:58-70: split
        condition s on every operator it contains, check field and literal,
        and record the field. `refused` is the `return False` of lines 65
        and 67, taken with the writes made so far left in place. */
    method CompileOperators(s: string, schema: set<string>, dup0: seq<string>) returns (refused: bool, dup: seq<string>)
      requires Valid()
      modifies this
      ensures Valid() && reasons == old(reasons)
      ensures var w := OpsWalk(s, OperatorOrder, schema, dup0, old(conditions));
              refused == (w.status != Going) && conditions == w.table && (!refused ==> dup == w.dup)
    {
      dup := dup0;
      var k := 0;
      while k < |OperatorOrder|
        invariant 0 <= k <= |OperatorOrder|
        invariant conditions.Valid() && reasons == old(reasons)
        invariant OpsWalk(s, OperatorOrder, schema, dup0, old(conditions))
               == OpsWalk(s, OperatorOrder[k..], schema, dup, conditions)
      {
        var op := OperatorOrder[k];
        if Contains(s, Token(op)) {
          var pieces := SplitPieces(s, Token(op));
          var field, literal := pieces.0, pieces.1;
          if HasSpecialCharsAndSpaces(literal) { return true, dup; }
          if field !in schema || field in dup { return true, dup; }
          dup := dup + [field];
          conditions := conditions.Put(field, Condition(op, literal));
        }
        k := k + 1;
      }
      return false, dup;
    }

    /** validate_pokemon_against_the_list_of_rules on a decoded record whose
        values are already rendered with `str`. It only reads the tables. */
    method ValidatePokemonAgainstRules(record: map<string, string>) returns (result: MatchOutcome)
      requires Valid()
      ensures result == MatchRecord(record, conditions, reasons)
    {
      // the loop variable `reason`, unbound if reason_dict is empty
      var last: Option<string> := None;
      var i := 0;
      while i < |reasons|
        invariant 0 <= i <= |reasons|
        invariant MatchRecord(record, conditions, reasons) == MatchReasons(record, conditions, reasons[i..], last)
      {
        var reason := reasons[i];
        var fields := conditions.order;
        var j := 0;
        while j < |fields|
          invariant 0 <= j <= |fields|
          invariant CheckFields(record, conditions, fields) == CheckFields(record, conditions, fields[j..])
        {
          var field := fields[j];
          if field in record {
            var attr := record[field];
            var c := conditions.entries[field];
            var holds := ValidateOperators(attr, c.op, c.literal);
            if holds.None? { return MatchRaised(ValueError); }
            if !holds.value { return NoMatch; }
          } else {
            return NoMatch;
          }
          j := j + 1;
        }
        last := Some(reason);
        i := i + 1;
      }
      match last
      case None =>
        return MatchRaised(UnboundLocalError);
      case Some(r) =>
        return Matched(record, r);
    }
  }
}
