/** What handle_config_schema writes into condition_dict, and why the
    iteration order of the operator set does not change the outcome. */
module TableLemmas {
  import opened Wrappers
  import opened Text
  import opened RuleSpec
  import opened RuleLemmas

  /** Two iteration orders of the same operator set. */
  ghost predicate Reordering(ops1: seq<Op>, ops2: seq<Op>) {
    Distinct(ops1) && Distinct(ops2) && forall o :: o in ops1 <==> o in ops2
  }

  /** Two duplicate lists that hold the same fields. */
  ghost predicate SameFields(d1: seq<string>, d2: seq<string>) {
    forall x :: x in d1 <==> x in d2
  }

  lemma ConditionStepOrderFree(c: Json, ops1: seq<Op>, ops2: seq<Op>, schema: set<string>,
                               dup1: seq<string>, dup2: seq<string>, t1: Table, t2: Table)
    requires Reordering(ops1, ops2) && SameFields(dup1, dup2)
    ensures var w1 := ConditionStep(c, ops1, schema, dup1, t1);
            var w2 := ConditionStep(c, ops2, schema, dup2, t2);
            w1.status == w2.status && (w1.status == Going ==> SameFields(w1.dup, w2.dup))
  {
    ConditionStepAccepts(c, ops1, schema, dup1, t1);
    ConditionStepAccepts(c, ops2, schema, dup2, t2);
    if c.JStr? {
      assert MentionedFields(c.s, ops1) == MentionedFields(c.s, ops2);
      assert AnyOperator(c.s, ops1) == AnyOperator(c.s, ops2);
      assert forall o :: OpAccepted(c.s, o, schema, dup1) == OpAccepted(c.s, o, schema, dup2);
    }
  }

  lemma {:induction false} ConditionsWalkOrderFree(conds: seq<Json>, ops1: seq<Op>, ops2: seq<Op>, schema: set<string>,
                                                    dup1: seq<string>, dup2: seq<string>, t1: Table, t2: Table)
    requires Reordering(ops1, ops2) && SameFields(dup1, dup2)
    ensures ConditionsWalk(conds, ops1, schema, dup1, t1).status == ConditionsWalk(conds, ops2, schema, dup2, t2).status
  {
    if conds != [] {
      var w1 := ConditionStep(conds[0], ops1, schema, dup1, t1);
      var w2 := ConditionStep(conds[0], ops2, schema, dup2, t2);
      ConditionStepOrderFree(conds[0], ops1, ops2, schema, dup1, dup2, t1, t2);
      if w1.status == Going {
        ConditionsWalkOrderFree(conds[1..], ops1, ops2, schema, w1.dup, w2.dup, w1.table, w2.table);
      }
    }
  }

  lemma {:induction false} RulesWalkOrderFree(rules: seq<Json>, ops1: seq<Op>, ops2: seq<Op>, schema: set<string>, t1: Table, t2: Table)
    requires Reordering(ops1, ops2)
    ensures RulesWalk(rules, ops1, schema, t1).status == RulesWalk(rules, ops2, schema, t2).status
  {
    if rules != [] {
      var w1 := RuleStep(rules[0], ops1, schema, t1);
      var w2 := RuleStep(rules[0], ops2, schema, t2);
      if WellFormedRule(rules[0]) {
        ConditionsWalkOrderFree(Conditions(rules[0]), ops1, ops2, schema, [], [], t1, t2);
      }
      if w1.status == Going {
        RulesWalkOrderFree(rules[1..], ops1, ops2, schema, w1.table, w2.table);
      }
    }
  }

  /** The Python set of operators has no fixed iteration order, but what
      handle_config_schema returns or raises, and reason_dict after it, do
      not depend on that order. */
  lemma HandleConfigOrderFree(config: Json, ops1: seq<Op>, ops2: seq<Op>, schema: set<string>, table: Table, reasons: seq<string>)
    requires Reordering(ops1, ops2)
    ensures var c1 := HandleConfig(config, ops1, schema, table, reasons);
            var c2 := HandleConfig(config, ops2, schema, table, reasons);
            c1.outcome == c2.outcome && c1.reasons == c2.reasons
  {
    if config.JObj? && "rules" in config.fields && config.fields["rules"].JList? {
      RulesWalkOrderFree(config.fields["rules"].items, ops1, ops2, schema, table, table);
    }
  }

  // ---------------------------------------------------------------------
  // condition_dict only ever holds checked conditions
  // ---------------------------------------------------------------------

  /** Every key is a schema field and every literal is word-only. */
  ghost predicate TableSound(t: Table, schema: set<string>) {
    forall k :: k in t.entries ==> k in schema && !HasSpecialCharsAndSpaces(t.entries[k].literal)
  }

  lemma {:induction false} OpsWalkSound(s: string, ops: seq<Op>, schema: set<string>, dup: seq<string>, table: Table)
    requires TableSound(table, schema)
    ensures TableSound(OpsWalk(s, ops, schema, dup, table).table, schema)
  {
    if ops != [] {
      var w0 := OpStep(s, ops[0], schema, dup, table);
      assert TableSound(w0.table, schema);
      if w0.status == Going {
        OpsWalkSound(s, ops[1..], schema, w0.dup, w0.table);
      }
    }
  }

  lemma {:induction false} ConditionsWalkSound(conds: seq<Json>, ops: seq<Op>, schema: set<string>, dup: seq<string>, table: Table)
    requires TableSound(table, schema)
    ensures TableSound(ConditionsWalk(conds, ops, schema, dup, table).table, schema)
  {
    if conds != [] {
      var w0 := ConditionStep(conds[0], ops, schema, dup, table);
      if conds[0].JStr? {
        OpsWalkSound(conds[0].s, ops, schema, dup, table);
      }
      if w0.status == Going {
        ConditionsWalkSound(conds[1..], ops, schema, w0.dup, w0.table);
      }
    }
  }

  lemma {:induction false} RulesWalkSound(rules: seq<Json>, ops: seq<Op>, schema: set<string>, table: Table)
    requires TableSound(table, schema)
    ensures TableSound(RulesWalk(rules, ops, schema, table).table, schema)
  {
    if rules != [] {
      var w0 := RuleStep(rules[0], ops, schema, table);
      if WellFormedRule(rules[0]) {
        ConditionsWalkSound(Conditions(rules[0]), ops, schema, [], table);
      }
      if w0.status == Going {
        RulesWalkSound(rules[1..], ops, schema, w0.table);
      }
    }
  }

  /** Whatever handle_config_schema returns or raises, condition_dict
      holds only schema fields with word-only literals, so every literal
      that reaches validate_operators passed has_special_chars_and_spaces. */
  lemma HandleConfigSound(config: Json, ops: seq<Op>, schema: set<string>, table: Table, reasons: seq<string>)
    requires TableSound(table, schema)
    ensures TableSound(HandleConfig(config, ops, schema, table, reasons).table, schema)
  {
    if config.JObj? && "rules" in config.fields && config.fields["rules"].JList? {
      RulesWalkSound(config.fields["rules"].items, ops, schema, table);
    }
  }

  // ---------------------------------------------------------------------
  // What an accepted rule writes
  // ---------------------------------------------------------------------

  /** Entry k of t is the same in u (present in both or absent from both). */
  ghost predicate Kept(t: Table, u: Table, k: string) {
    (k in u.entries <==> k in t.entries) && (k in t.entries ==> u.entries[k] == t.entries[k])
  }

  lemma {:induction false} OpsWalkWrites(s: string, ops: seq<Op>, schema: set<string>, dup: seq<string>, table: Table)
    requires Distinct(ops) && OpsWalk(s, ops, schema, dup, table).status == Going
    ensures var u := OpsWalk(s, ops, schema, dup, table).table;
            && (forall o :: o in ops && Contains(s, Token(o)) ==>
                  Field(s, o) in u.entries && u.entries[Field(s, o)] == Condition(o, Literal(s, o)))
            && (forall k :: k !in MentionedFields(s, ops) ==> Kept(table, u, k))
  {
    if ops != [] {
      var o := ops[0];
      var w0 := OpStep(s, o, schema, dup, table);
      DistinctTail(ops);
      OpsWalkWrites(s, ops[1..], schema, w0.dup, w0.table);
      var u := OpsWalk(s, ops, schema, dup, table).table;
      if Contains(s, Token(o)) {
        forall o' | o' in ops[1..] && Contains(s, Token(o')) ensures Field(s, o') != Field(s, o) {
          FieldsOfDifferentOperatorsDiffer(s, o', o);
        }
        assert Field(s, o) !in MentionedFields(s, ops[1..]);
      }
      MentionedFieldsCons(s, ops);
    }
  }

  /** Some condition of conds names field k. */
  ghost predicate MentionedBy(conds: seq<Json>, ops: seq<Op>, k: string) {
    exists i, o :: o in ops && Mentions(conds, i, o) && Field(conds[i].s, o) == k
  }

  /** The operator loop, however it ends, writes only fields that some
      operator of the condition names. */
  lemma {:induction false} OpsWalkKeeps(s: string, ops: seq<Op>, schema: set<string>, dup: seq<string>, table: Table, k: string)
    requires k !in MentionedFields(s, ops)
    ensures Kept(table, OpsWalk(s, ops, schema, dup, table).table, k)
  {
    if ops != [] {
      var w0 := OpStep(s, ops[0], schema, dup, table);
      MentionedFieldsCons(s, ops);
      assert Kept(table, w0.table, k);
      if w0.status == Going {
        OpsWalkKeeps(s, ops[1..], schema, w0.dup, w0.table, k);
      }
    }
  }

  /** Entries no condition names come through the condition loop
      unchanged, whether it goes on, refuses or raises: a refusal does not
      undo the writes before it, and writes nothing else. */
  lemma {:induction false} ConditionsWalkKeeps(conds: seq<Json>, ops: seq<Op>, schema: set<string>, dup: seq<string>, table: Table, k: string)
    requires !MentionedBy(conds, ops, k)
    ensures Kept(table, ConditionsWalk(conds, ops, schema, dup, table).table, k)
  {
    if conds != [] {
      var c := conds[0];
      var rest := conds[1..];
      var w0 := ConditionStep(c, ops, schema, dup, table);
      if c.JStr? {
        assert k !in MentionedFields(c.s, ops) by {
          forall o | o in ops && Contains(c.s, Token(o)) ensures Field(c.s, o) != k {
            assert Mentions(conds, 0, o);
          }
        }
        OpsWalkKeeps(c.s, ops, schema, dup, table, k);
      }
      assert Kept(table, w0.table, k);
      if w0.status == Going {
        assert !MentionedBy(rest, ops, k) by {
          MentionsShift(conds);
          forall j, o2 | o2 in ops && Mentions(rest, j, o2) ensures Field(rest[j].s, o2) != k {
            assert rest[j] == conds[j + 1] && Mentions(conds, j + 1, o2);
          }
        }
        ConditionsWalkKeeps(rest, ops, schema, w0.dup, w0.table, k);
      }
    }
  }

  /** In an accepted rule, no later condition names a field of the first. */
  lemma HeadFieldNotLater(conds: seq<Json>, ops: seq<Op>, schema: set<string>, o: Op)
    requires conds != [] && ConditionsAccepted(conds, ops, schema) && o in ops && Mentions(conds, 0, o)
    ensures !MentionedBy(conds[1..], ops, Field(conds[0].s, o))
  {
    MentionsShift(conds);
    forall j, o2 | o2 in ops && Mentions(conds[1..], j, o2) ensures Field(conds[1..][j].s, o2) != Field(conds[0].s, o) {
      assert conds[1..][j] == conds[j + 1] && Mentions(conds, j + 1, o2);
    }
  }

  /** After an accepted rule, every field it names holds that condition's
      operator and literal. */
  lemma {:induction false} ConditionsWalkWrites(conds: seq<Json>, ops: seq<Op>, schema: set<string>, dup: seq<string>, table: Table)
    requires Distinct(ops) && ConditionsWalk(conds, ops, schema, dup, table).status == Going
    ensures var u := ConditionsWalk(conds, ops, schema, dup, table).table;
            forall i, o :: o in ops && Mentions(conds, i, o) ==>
              Field(conds[i].s, o) in u.entries && u.entries[Field(conds[i].s, o)] == Condition(o, Literal(conds[i].s, o))
  {
    if conds != [] {
      var c := conds[0];
      var rest := conds[1..];
      var w0 := ConditionStep(c, ops, schema, dup, table);
      var u := ConditionsWalk(conds, ops, schema, dup, table).table;
      assert c.JStr? && w0 == OpsWalk(c.s, ops, schema, dup, table);
      OpsWalkWrites(c.s, ops, schema, dup, table);
      ConditionsWalkWrites(rest, ops, schema, w0.dup, w0.table);
      forall i, o | o in ops && Mentions(conds, i, o)
        ensures Field(conds[i].s, o) in u.entries && u.entries[Field(conds[i].s, o)] == Condition(o, Literal(conds[i].s, o))
      {
        if i == 0 {
          ConditionsWalkAccepts(conds, ops, schema, dup, table);
          HeadFieldNotLater(conds, ops, schema, o);
          ConditionsWalkKeeps(rest, ops, schema, w0.dup, w0.table, Field(c.s, o));
        } else {
          MentionsShift(conds);
          assert rest[i - 1] == conds[i] && Mentions(rest, i - 1, o);
        }
      }
    }
  }

  /** Rule `rule` is well formed and one of its conditions names field k. */
  ghost predicate RuleMentions(rule: Json, ops: seq<Op>, k: string) {
    WellFormedRule(rule) && MentionedBy(Conditions(rule), ops, k)
  }

  /** Entries no rule names come through the rule loop unchanged, however it ends. */
  lemma {:induction false} RulesWalkKeeps(rules: seq<Json>, ops: seq<Op>, schema: set<string>, table: Table, k: string)
    requires forall r :: 0 <= r < |rules| ==> !RuleMentions(rules[r], ops, k)
    ensures Kept(table, RulesWalk(rules, ops, schema, table).table, k)
  {
    if rules != [] {
      var w0 := RuleStep(rules[0], ops, schema, table);
      assert !RuleMentions(rules[0], ops, k);
      if WellFormedRule(rules[0]) {
        ConditionsWalkKeeps(Conditions(rules[0]), ops, schema, [], table, k);
      }
      if w0.status == Going {
        assert forall r :: 0 <= r < |rules| - 1 ==> rules[1..][r] == rules[r + 1];
        RulesWalkKeeps(rules[1..], ops, schema, w0.table, k);
      }
    }
  }

  lemma {:induction false} RulesWalkLastWrites(rules: seq<Json>, ops: seq<Op>, schema: set<string>, table: Table)
    requires Distinct(ops) && rules != [] && RulesWalk(rules, ops, schema, table).status == Going
    ensures var last := Conditions(rules[|rules| - 1]);
            var u := RulesWalk(rules, ops, schema, table).table;
            forall i, o :: o in ops && Mentions(last, i, o) ==>
              Field(last[i].s, o) in u.entries && u.entries[Field(last[i].s, o)] == Condition(o, Literal(last[i].s, o))
  {
    var w0 := RuleStep(rules[0], ops, schema, table);
    assert w0.status == Going && RulesWalk(rules, ops, schema, table) == RulesWalk(rules[1..], ops, schema, w0.table);
    if |rules| == 1 {
      assert RulesWalk(rules, ops, schema, table).table == w0.table;
      ConditionsWalkWrites(Conditions(rules[0]), ops, schema, [], table);
    } else {
      RulesWalkLastWrites(rules[1..], ops, schema, w0.table);
      assert rules[1..][|rules[1..]| - 1] == rules[|rules| - 1];
    }
  }

  /** The later write wins: if rule r names field k in condition i with
      operator o, and no later rule names k, then after the rule loop k
      holds that condition's operator and literal, whatever earlier rules
      wrote to k. */
  lemma RulesWalkLaterWriteWins(rules: seq<Json>, ops: seq<Op>, schema: set<string>, table: Table, r: int, i: int, o: Op)
    requires Distinct(ops) && RulesWalk(rules, ops, schema, table).status == Going
    requires 0 <= r < |rules| && WellFormedRule(rules[r]) && o in ops && Mentions(Conditions(rules[r]), i, o)
    requires forall q :: r < q < |rules| ==> !RuleMentions(rules[q], ops, Field(Conditions(rules[r])[i].s, o))
    ensures var cond := Conditions(rules[r])[i].s;
            var u := RulesWalk(rules, ops, schema, table).table;
            Field(cond, o) in u.entries && u.entries[Field(cond, o)] == Condition(o, Literal(cond, o))
  {
    var k := Field(Conditions(rules[r])[i].s, o);
    var front, back := rules[..r + 1], rules[r + 1..];
    RulesWalkSplit(rules, r + 1, ops, schema, table);
    assert RulesWalk(front, ops, schema, table).status == Going;
    var t1 := RulesWalk(front, ops, schema, table).table;
    assert front[|front| - 1] == rules[r];
    RulesWalkLastWrites(front, ops, schema, table);
    forall q | 0 <= q < |back| ensures !RuleMentions(back[q], ops, k) {
      assert back[q] == rules[r + 1 + q];
    }
    RulesWalkKeeps(back, ops, schema, t1, k);
  }

  /** When the rule loop stops (returns False or raises) at rule n, it
      leaves what rule n's step leaves, starting from the table the first n
      rules built: nothing is rolled back, and every field rule n does not
      name keeps the entry the first n rules gave it. */
  lemma RulesWalkStopsAt(rules: seq<Json>, ops: seq<Op>, schema: set<string>, table: Table, n: int)
    requires 0 <= n < |rules| && RulesWalk(rules[..n], ops, schema, table).status == Going
    requires RuleStep(rules[n], ops, schema, RulesWalk(rules[..n], ops, schema, table).table).status != Going
    ensures var front := RulesWalk(rules[..n], ops, schema, table).table;
            var w := RulesWalk(rules, ops, schema, table);
            && w == RuleStep(rules[n], ops, schema, front)
            && forall k :: !RuleMentions(rules[n], ops, k) ==> Kept(front, w.table, k)
  {
    var front := RulesWalk(rules[..n], ops, schema, table).table;
    RulesWalkSplit(rules, n, ops, schema, table);
    assert rules[n..][0] == rules[n];
    forall k | !RuleMentions(rules[n], ops, k) ensures Kept(front, RuleStep(rules[n], ops, schema, front).table, k) {
      if WellFormedRule(rules[n]) {
        ConditionsWalkKeeps(Conditions(rules[n]), ops, schema, [], front, k);
      }
    }
  }

  /** A refusal or a raise at rule n does not undo earlier writes: a field
      that rule r < n names, and that no rule after r up to n names, still
      holds rule r's operator and literal, while handle_config_schema does
      not return True and reason_dict is unchanged. */
  lemma HandleConfigStopKeepsEarlierWrites(config: Json, ops: seq<Op>, schema: set<string>, table: Table, reasons: seq<string>,
                                           n: int, r: int, i: int, o: Op)
    requires Distinct(ops) && config.JObj? && "rules" in config.fields && config.fields["rules"].JList?
    requires 0 <= r < n < |config.fields["rules"].items|
    requires RulesWalk(config.fields["rules"].items[..n], ops, schema, table).status == Going
    requires RuleStep(config.fields["rules"].items[n], ops, schema,
                      RulesWalk(config.fields["rules"].items[..n], ops, schema, table).table).status != Going
    requires WellFormedRule(config.fields["rules"].items[r]) && o in ops && Mentions(Conditions(config.fields["rules"].items[r]), i, o)
    requires forall q :: r < q <= n ==>
               !RuleMentions(config.fields["rules"].items[q], ops, Field(Conditions(config.fields["rules"].items[r])[i].s, o))
    ensures var c := HandleConfig(config, ops, schema, table, reasons);
            var cond := Conditions(config.fields["rules"].items[r])[i].s;
            && c.outcome != Returned(true) && c.reasons == reasons
            && Field(cond, o) in c.table.entries && c.table.entries[Field(cond, o)] == Condition(o, Literal(cond, o))
  {
    var rules := config.fields["rules"].items;
    var prefix := rules[..n];
    var k := Field(Conditions(rules[r])[i].s, o);
    assert prefix[r] == rules[r];
    forall q | r < q < |prefix| ensures !RuleMentions(prefix[q], ops, k) {
      assert prefix[q] == rules[q];
    }
    RulesWalkLaterWriteWins(prefix, ops, schema, table, r, i, o);
    RulesWalkStopsAt(rules, ops, schema, table, n);
    assert !RuleMentions(rules[n], ops, k);
  }

  /** The same for handle_config_schema: when it returns True, a field
      holds the condition of the last rule that names it. */
  lemma HandleConfigLaterWriteWins(config: Json, ops: seq<Op>, schema: set<string>, table: Table, reasons: seq<string>,
                                   r: int, i: int, o: Op)
    requires Distinct(ops)
    requires HandleConfig(config, ops, schema, table, reasons).outcome == Returned(true)
    requires 0 <= r < |config.fields["rules"].items|
    requires WellFormedRule(config.fields["rules"].items[r]) && o in ops && Mentions(Conditions(config.fields["rules"].items[r]), i, o)
    requires forall q :: r < q < |config.fields["rules"].items| ==>
               !RuleMentions(config.fields["rules"].items[q], ops, Field(Conditions(config.fields["rules"].items[r])[i].s, o))
    ensures var cond := Conditions(config.fields["rules"].items[r])[i].s;
            var u := HandleConfig(config, ops, schema, table, reasons).table;
            Field(cond, o) in u.entries && u.entries[Field(cond, o)] == Condition(o, Literal(cond, o))
  {
    RulesWalkLaterWriteWins(config.fields["rules"].items, ops, schema, table, r, i, o);
  }

  /** When handle_config_schema returns True, condition_dict holds the
      operator and literal of every condition of the LAST rule, whatever
      earlier rules said about the same field, and an entry no rule names
      is left as it was. */
  lemma HandleConfigWrites(config: Json, ops: seq<Op>, schema: set<string>, table: Table, reasons: seq<string>)
    requires Distinct(ops)
    requires HandleConfig(config, ops, schema, table, reasons).outcome == Returned(true)
    ensures var rules := config.fields["rules"].items;
            var last := Conditions(rules[|rules| - 1]);
            var u := HandleConfig(config, ops, schema, table, reasons).table;
            && (forall i, o :: o in ops && Mentions(last, i, o) ==>
                  Field(last[i].s, o) in u.entries && u.entries[Field(last[i].s, o)] == Condition(o, Literal(last[i].s, o)))
            && (forall k :: (forall r :: 0 <= r < |rules| ==> !RuleMentions(rules[r], ops, k)) ==> Kept(table, u, k))
  {
    var rules := config.fields["rules"].items;
    RulesWalkLastWrites(rules, ops, schema, table);
    forall k | forall r :: 0 <= r < |rules| ==> !RuleMentions(rules[r], ops, k)
      ensures Kept(table, HandleConfig(config, ops, schema, table, reasons).table, k)
    {
      RulesWalkKeeps(rules, ops, schema, table, k);
    }
  }

  /** A refusal does not undo writes: if the first rule is accepted and the
      second is refused at its first condition, handle_config_schema
      returns False, yet condition_dict keeps the first rule's conditions
      and reason_dict is unchanged. */
  lemma RefusalKeepsEarlierWrites(r0: Json, r1: Json, ops: seq<Op>, schema: set<string>, table: Table, reasons: seq<string>)
    requires Distinct(ops) && RuleAccepted(r0, ops, schema)
    requires WellFormedRule(r1) && Conditions(r1) != [] && Conditions(r1)[0].JList?
    ensures var c := HandleConfig(JObj(map["rules" := JList([r0, r1])]), ops, schema, table, reasons);
            var first := Conditions(r0);
            && c.outcome == Returned(false) && c.reasons == reasons
            && (forall i, o :: o in ops && Mentions(first, i, o) ==>
                  Field(first[i].s, o) in c.table.entries && c.table.entries[Field(first[i].s, o)] == Condition(o, Literal(first[i].s, o)))
  {
    var rules := [r0, r1];
    var config := JObj(map["rules" := JList(rules)]);
    ConditionsWalkAccepts(Conditions(r0), ops, schema, [], table);
    ConditionsWalkWrites(Conditions(r0), ops, schema, [], table);
    var w0 := RuleStep(r0, ops, schema, table);
    assert w0.status == Going;
    var w1 := RuleStep(r1, ops, schema, w0.table);
    assert ConditionStep(Conditions(r1)[0], ops, schema, [], w0.table) == Walk(Refused, [], w0.table);
    assert w1 == Walk(Refused, [], w0.table);
    assert rules[1..] == [r1];
    assert RulesWalk(rules, ops, schema, table) == w1;
    assert config.fields["rules"].items == rules;
  }

  // ---------------------------------------------------------------------
  // A rule with one well-formed condition
  // ---------------------------------------------------------------------

  lemma OperatorOrderDistinct()
    ensures Distinct(OperatorOrder)
  {
  }

  /** The one-condition list [`field op literal`] is accepted. */
  lemma SingleConditionAccepted(field: string, w1: string, op: Op, w2: string, literal: string, schema: set<string>)
    requires AllWord(field) && AllWord(literal) && AllWhitespace(w1) && AllWhitespace(w2) && field in schema
    ensures var s := field + w1 + Token(op) + w2 + literal;
            ConditionsAccepted([JStr(s)], OperatorOrder, schema) && Mentions([JStr(s)], 0, op)
            && Field(s, op) == field && Literal(s, op) == literal
  {
    var s := field + w1 + Token(op) + w2 + literal;
    var conds := [JStr(s)];
    ConditionTextRoundTrip(field, w1, op, w2, literal);
    ConditionTextMentionsOneOperator(field, w1, op, w2, literal);
    assert |conds| == 1 && conds[0].s == s;
    forall i | 0 <= i < |conds| ensures conds[i].JStr? && AnyOperator(conds[i].s, OperatorOrder) {
      assert i == 0 && op in OperatorOrder;
    }
    forall i, o | o in OperatorOrder && Mentions(conds, i, o)
      ensures !HasSpecialCharsAndSpaces(Literal(conds[i].s, o)) && Field(conds[i].s, o) in schema
    {
      assert i == 0 && o == op;
    }
  }


  /** The walk over the one condition `s` succeeds and writes its field. */
  lemma SingleConditionWalk(s: string, field: string, w1: string, op: Op, w2: string, literal: string,
                            schema: set<string>, table: Table)
    requires s == field + w1 + Token(op) + w2 + literal
    requires AllWord(field) && AllWord(literal) && AllWhitespace(w1) && AllWhitespace(w2) && field in schema
    ensures var w := ConditionsWalk([JStr(s)], OperatorOrder, schema, [], table);
            w.status == Going && field in w.table.entries && w.table.entries[field] == Condition(op, literal)
  {
    var conds := [JStr(s)];
    SingleConditionAccepted(field, w1, op, w2, literal, schema);
    OperatorOrderDistinct();
    ConditionsWalkAccepts(conds, OperatorOrder, schema, [], table);
    ConditionsWalkWrites(conds, OperatorOrder, schema, [], table);
    assert op in OperatorOrder && Mentions(conds, 0, op);
  }

  /** A configuration with one well-formed rule returns what the walk over
      that rule's conditions leaves, once that walk goes on. */
  lemma OneRuleConfig(url: string, reason: string, conds: seq<Json>, schema: set<string>, table: Table, reasons: seq<string>)
    requires ConditionsWalk(conds, OperatorOrder, schema, [], table).status == Going
    ensures var rule := JObj(map["url" := JStr(url), "reason" := JStr(reason), "match" := JList(conds)]);
            HandleConfig(JObj(map["rules" := JList([rule])]), OperatorOrder, schema, table, reasons)
              == Compiled(Returned(true), ConditionsWalk(conds, OperatorOrder, schema, [], table).table, Register(reasons, reason))
  {
    var rule := JObj(map["url" := JStr(url), "reason" := JStr(reason), "match" := JList(conds)]);
    var config := JObj(map["rules" := JList([rule])]);
    var w := ConditionsWalk(conds, OperatorOrder, schema, [], table);
    assert rule.fields["url"] == JStr(url) && rule.fields["reason"] == JStr(reason) && rule.fields["match"] == JList(conds);
    assert WellFormedRule(rule) && Conditions(rule) == conds && Reason(rule) == reason;
    assert RuleStep(rule, OperatorOrder, schema, table) == w;
    assert RulesWalk([rule], OperatorOrder, schema, table) == Walk(Going, [], w.table);
    assert config.fields["rules"] == JList([rule]);
  }

/** A configuration with one rule whose one condition is `field op
      literal` (spaces allowed around op) is accepted, condition_dict maps
      field to (op, literal), and the rule's reason is registered. The
      literal may be empty: `hp<` is accepted with an empty literal. */
  lemma SingleConditionCompiles(s: string, field: string, w1: string, op: Op, w2: string, literal: string,
                                url: string, reason: string, schema: set<string>, table: Table, reasons: seq<string>)
    requires s == field + w1 + Token(op) + w2 + literal
    requires AllWord(field) && AllWord(literal) && AllWhitespace(w1) && AllWhitespace(w2) && field in schema
    ensures var rule := JObj(map["url" := JStr(url), "reason" := JStr(reason), "match" := JList([JStr(s)])]);
            var c := HandleConfig(JObj(map["rules" := JList([rule])]), OperatorOrder, schema, table, reasons);
            && c.outcome == Returned(true)
            && field in c.table.entries && c.table.entries[field] == Condition(op, literal)
            && c.reasons == Register(reasons, reason)
  {
    SingleConditionWalk(s, field, w1, op, w2, literal, schema, table);
    OneRuleConfig(url, reason, [JStr(s)], schema, table, reasons);
  }
}
