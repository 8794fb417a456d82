/**
 * Properties of handle_config_schema and of the match engine, stated
 * about the reference functions of RuleSpec (and so, through the methods'
 * postconditions, about Utils.RuleTables).
 */
module RuleLemmas {
  import opened Wrappers
  import opened Text
  import opened RuleSpec

  // ---------------------------------------------------------------------
  // Operators and splitting
  // ---------------------------------------------------------------------

  /** Different operators begin with different characters. */
  lemma TokensStartApart(o1: Op, o2: Op)
    requires o1 != o2
    ensures Token(o1)[0] != Token(o2)[0]
  {
  }

  /** Within one condition string, two different operators never yield the
      same field name, so a single condition cannot trip the duplicate
      check by itself, whatever the operator order. */
  lemma FieldsOfDifferentOperatorsDiffer(s: string, o1: Op, o2: Op)
    requires o1 != o2 && Contains(s, Token(o1)) && Contains(s, Token(o2))
    ensures Field(s, o1) != Field(s, o2)
  {
    TokensStartApart(o1, o2);
    SplitFieldsDiffer(s, Token(o1), Token(o2));
  }

  /** `hp==5==6` splits into field `hp` and literal `5`; the third piece is
      dropped (utils.py:61-63). */
  lemma SplitKeepsFirstTwoPieces()
    ensures Contains("hp==5==6", "==")
    ensures Field("hp==5==6", Eq) == "hp" && Literal("hp==5==6", Eq) == "5"
  {
    var s := "hp==5==6";
    assert OccursAt(s, "==", 2);
    assert !OccursAt(s, "==", 0) by { assert s[0..2][0] == 'h'; }
    assert !OccursAt(s, "==", 1) by { assert s[1..3][0] == 'p'; }
    assert FindFrom(s, "==", 0) == Some(2);
    assert SkipSpaces(s, 4) == 4;
    assert OccursAt(s, "==", 5);
    assert !OccursAt(s, "==", 4) by { assert s[4..6][0] == '5'; }
    assert FindFrom(s, "==", 4) == Some(5);
    assert s[..2] == "hp" && s[4..5] == "5";
  }

  /** A condition written `field op literal`, with word-only field and
      literal and any whitespace around the operator, splits back into that
      field and literal. */
  lemma ConditionTextRoundTrip(field: string, w1: string, op: Op, w2: string, literal: string)
    requires AllWord(field) && AllWord(literal) && AllWhitespace(w1) && AllWhitespace(w2)
    ensures var s := field + w1 + Token(op) + w2 + literal;
            Contains(s, Token(op)) && Field(s, op) == field && Literal(s, op) == literal
  {
    SplitRoundTrip(field, w1, Token(op), w2, literal);
  }

  /** Such a condition mentions no operator but its own, so the operator
      loop of utils.py:58-70 splits it exactly once. */
  lemma ConditionTextMentionsOneOperator(field: string, w1: string, op: Op, w2: string, literal: string)
    requires AllWord(field) && AllWord(literal) && AllWhitespace(w1) && AllWhitespace(w2)
    ensures var s := field + w1 + Token(op) + w2 + literal;
            forall o :: Contains(s, Token(o)) <==> o == op
  {
    var s := field + w1 + Token(op) + w2 + literal;
    assert Contains(s, Token(op)) by { ConditionTextRoundTrip(field, w1, op, w2, literal); }
    forall o | o != op ensures !Contains(s, Token(o)) {
      PlainConcat(field, w1);
      PlainConcat(w2, literal);
      assert s == (field + w1) + Token(op) + (w2 + literal);
      OnlyOwnToken(field + w1, op, w2 + literal, o);
    }
  }

  lemma PlainConcat(a: string, b: string)
    requires (AllWord(a) && AllWhitespace(b)) || (AllWhitespace(a) && AllWord(b))
    ensures forall i :: 0 <= i < |a + b| ==> Plain((a + b)[i])
  {
    forall i | 0 <= i < |a + b| ensures Plain((a + b)[i]) {
      if i < |a| { assert (a + b)[i] == a[i]; } else { assert (a + b)[i] == b[i - |a|]; }
    }
  }

  /** A word character or whitespace: what field names and literals that
      pass the checks are made of. */
  predicate Plain(c: char) {
    IsWordChar(c) || IsWhitespace(c)
  }

  /** Between plain text, an operator token is the only token that occurs. */
  lemma OnlyOwnToken(before: string, op: Op, after: string, o: Op)
    requires forall i :: 0 <= i < |before| ==> Plain(before[i])
    requires forall i :: 0 <= i < |after| ==> Plain(after[i])
    requires o != op
    ensures !Contains(before + Token(op) + after, Token(o))
  {
    var s := before + Token(op) + after;
    forall k ensures !OccursAt(s, Token(o), k) {
      if OccursAt(s, Token(o), k) {
        SymbolicOccurrenceInside(before, Token(op), after, Token(o), k);
        TokenNotInsideOther(op, o, k - |before|);
      }
    }
  }

  /** A symbolic token can only occur in `before + t + after`, where before
      and after hold plain characters only, inside t. */
  lemma SymbolicOccurrenceInside(before: string, t: string, after: string, u: string, k: int)
    requires forall i :: 0 <= i < |before| ==> Plain(before[i])
    requires forall i :: 0 <= i < |after| ==> Plain(after[i])
    requires u != [] && IsSymbolic(u)
    requires OccursAt(before + t + after, u, k)
    ensures |before| <= k && k + |u| <= |before| + |t|
    ensures t[k - |before|..k - |before| + |u|] == u
  {
    var s := before + t + after;
    OccurrenceStart(s, u, k);
    assert forall i :: 0 <= i < |before| ==> Plain(s[i]) by {
      forall i | 0 <= i < |before| ensures Plain(s[i]) { assert s[i] == before[i]; }
    }
    assert forall i :: |before| + |t| <= i < |s| ==> Plain(s[i]) by {
      forall i | |before| + |t| <= i < |s| ensures Plain(s[i]) { assert s[i] == after[i - |before| - |t|]; }
    }
    var last := k + |u| - 1;
    assert s[last] == s[k..k + |u|][|u| - 1] == u[|u| - 1];
    assert !Plain(s[k]) && !Plain(s[last]);
    assert s[k..k + |u|] == t[k - |before|..k - |before| + |u|];
  }

  /** No operator token occurs inside another one. */
  lemma TokenNotInsideOther(op: Op, o: Op, i: int)
    requires o != op && 0 <= i && i + |Token(o)| <= |Token(op)|
    ensures Token(op)[i..i + |Token(o)|] != Token(o)
  {
    assert Token(op)[i..i + |Token(o)|][0] == Token(op)[i];
    if |Token(o)| == 2 {
      assert Token(op)[i..i + |Token(o)|] == Token(op);
    }
  }

  // ---------------------------------------------------------------------
  // When handle_config_schema accepts
  // ---------------------------------------------------------------------

  /** Operator o, if condition s mentions it, yields a word-only literal
      and a schema field outside `seen` (utils.py:64-67). */
  ghost predicate OpAccepted(s: string, o: Op, schema: set<string>, seen: seq<string>) {
    Contains(s, Token(o)) ==>
      !HasSpecialCharsAndSpaces(Literal(s, o)) && Field(s, o) in schema && Field(s, o) !in seen
  }

  /** The fields that condition s yields, one per operator it mentions. */
  ghost function MentionedFields(s: string, ops: seq<Op>): set<string> {
    set o | o in ops && Contains(s, Token(o)) :: Field(s, o)
  }

  /** The fields of ops are those of its tail plus that of its head. */
  lemma MentionedFieldsCons(s: string, ops: seq<Op>)
    requires ops != []
    ensures forall x :: x in MentionedFields(s, ops) <==>
              x in MentionedFields(s, ops[1..]) || (Contains(s, Token(ops[0])) && x == Field(s, ops[0]))
  {
    forall x ensures x in MentionedFields(s, ops) <==>
                       x in MentionedFields(s, ops[1..]) || (Contains(s, Token(ops[0])) && x == Field(s, ops[0]))
    {
      if x in MentionedFields(s, ops) {
        var o :| o in ops && Contains(s, Token(o)) && x == Field(s, o);
        if o != ops[0] {
          assert o in ops[1..];
        }
      }
      if x in MentionedFields(s, ops[1..]) {
        var o :| o in ops[1..] && Contains(s, Token(o)) && x == Field(s, o);
        assert o in ops;
      }
      if Contains(s, Token(ops[0])) && x == Field(s, ops[0]) {
        assert ops[0] in ops;
      }
    }
  }

  lemma DistinctTail<T>(s: seq<T>)
    requires Distinct(s) && s != []
    ensures Distinct(s[1..]) && s[0] !in s[1..]
  {
  }

  /** The duplicate list after operator o has gone through. */
  ghost function Extend(s: string, o: Op, dup: seq<string>): seq<string> {
    if Contains(s, Token(o)) then dup + [Field(s, o)] else dup
  }

  lemma OpStepAccepts(s: string, o: Op, schema: set<string>, dup: seq<string>, table: Table)
    ensures var w := OpStep(s, o, schema, dup, table);
            (w.status == Going <==> OpAccepted(s, o, schema, dup))
            && (w.status == Going ==> w.dup == Extend(s, o, dup))
  {
  }

  /** Adding the field of one operator does not change whether another
      operator of the same condition is accepted. */
  lemma OpAcceptedAfterExtend(s: string, o: Op, o': Op, schema: set<string>, dup: seq<string>)
    requires o != o'
    ensures OpAccepted(s, o', schema, Extend(s, o, dup)) <==> OpAccepted(s, o', schema, dup)
  {
    if Contains(s, Token(o)) && Contains(s, Token(o')) {
      FieldsOfDifferentOperatorsDiffer(s, o', o);
    }
  }

  /** The operator loop goes on exactly when every operator the condition
      mentions passes the checks. */
  lemma {:induction false} OpsWalkAccepts(s: string, ops: seq<Op>, schema: set<string>, dup: seq<string>, table: Table)
    requires Distinct(ops)
    ensures OpsWalk(s, ops, schema, dup, table).status == Going <==> forall o :: o in ops ==> OpAccepted(s, o, schema, dup)
  {
    if ops != [] {
      var o := ops[0];
      var w0 := OpStep(s, o, schema, dup, table);
      DistinctTail(ops);
      OpStepAccepts(s, o, schema, dup, table);
      if w0.status == Going {
        OpsWalkAccepts(s, ops[1..], schema, w0.dup, w0.table);
        forall o' | o' in ops[1..]
          ensures OpAccepted(s, o', schema, w0.dup) <==> OpAccepted(s, o', schema, dup)
        {
          OpAcceptedAfterExtend(s, o, o', schema, dup);
        }
      }
      assert forall o' :: o' in ops <==> o' == o || o' in ops[1..];
    }
  }

  /** After an accepted operator loop the duplicate list holds the old
      entries and the fields the condition mentions, and nothing else. */
  lemma {:induction false} OpsWalkFields(s: string, ops: seq<Op>, schema: set<string>, dup: seq<string>, table: Table)
    requires OpsWalk(s, ops, schema, dup, table).status == Going
    ensures forall x :: x in OpsWalk(s, ops, schema, dup, table).dup <==> x in dup || x in MentionedFields(s, ops)
  {
    if ops != [] {
      var o := ops[0];
      var w0 := OpStep(s, o, schema, dup, table);
      OpStepAccepts(s, o, schema, dup, table);
      OpsWalkFields(s, ops[1..], schema, w0.dup, w0.table);
      MentionedFieldsCons(s, ops);
    }
  }

  /** Condition c is a string that mentions an operator, and every
      operator it mentions passes the checks against `seen`. */
  ghost predicate ConditionAccepted(c: Json, ops: seq<Op>, schema: set<string>, seen: seq<string>) {
    c.JStr? && AnyOperator(c.s, ops) && forall o :: o in ops ==> OpAccepted(c.s, o, schema, seen)
  }

  /** One condition: a number, boolean or null raises TypeError; any other
      value goes on exactly when it is accepted, adding its fields. */
  lemma ConditionStepAccepts(c: Json, ops: seq<Op>, schema: set<string>, dup: seq<string>, table: Table)
    requires Distinct(ops)
    ensures var w := ConditionStep(c, ops, schema, dup, table);
            && (w.status.Thrown? <==> c.JNull? || c.JBool? || c.JNum?)
            && (w.status.Thrown? ==> w.status.error == TypeError)
            && (w.status == Going <==> ConditionAccepted(c, ops, schema, dup))
            && (w.status == Going ==> forall x :: x in w.dup <==> x in dup || x in MentionedFields(c.s, ops))
  {
    if c.JStr? && AnyOperator(c.s, ops) {
      OpsWalkAccepts(c.s, ops, schema, dup, table);
      if OpsWalk(c.s, ops, schema, dup, table).status == Going {
        OpsWalkFields(c.s, ops, schema, dup, table);
      }
    }
  }

  /** Condition i of conds is a string that mentions operator o. */
  ghost predicate Mentions(conds: seq<Json>, i: int, o: Op) {
    0 <= i < |conds| && conds[i].JStr? && Contains(conds[i].s, Token(o))
  }

  /** What the conditions of one rule must satisfy: each is a string that
      mentions an operator; every literal is word-only and every field is
      in the schema; no two conditions name the same field. */
  ghost predicate ConditionsAccepted(conds: seq<Json>, ops: seq<Op>, schema: set<string>) {
    && (forall i :: 0 <= i < |conds| ==> conds[i].JStr? && AnyOperator(conds[i].s, ops))
    && (forall i, o :: o in ops && Mentions(conds, i, o) ==>
          !HasSpecialCharsAndSpaces(Literal(conds[i].s, o)) && Field(conds[i].s, o) in schema)
    && (forall i, j, o1, o2 :: i < j && o1 in ops && o2 in ops && Mentions(conds, i, o1) && Mentions(conds, j, o2) ==>
          Field(conds[i].s, o1) != Field(conds[j].s, o2))
  }

  /** No field the conditions name is already in `seen`. */
  ghost predicate FreshFields(conds: seq<Json>, ops: seq<Op>, seen: seq<string>) {
    forall i, o :: o in ops && Mentions(conds, i, o) ==> Field(conds[i].s, o) !in seen
  }

  lemma MentionsShift(conds: seq<Json>)
    requires conds != []
    ensures forall j, o :: 0 <= j ==> (Mentions(conds[1..], j, o) <==> Mentions(conds, j + 1, o))
  {
    forall j, o | 0 <= j ensures Mentions(conds[1..], j, o) <==> Mentions(conds, j + 1, o) {
      if 0 <= j < |conds| - 1 {
        assert conds[1..][j] == conds[j + 1];
      }
    }
  }

  lemma HeadAccepted(conds: seq<Json>, ops: seq<Op>, schema: set<string>, dup: seq<string>)
    requires conds != [] && ConditionsAccepted(conds, ops, schema) && FreshFields(conds, ops, dup)
    ensures ConditionAccepted(conds[0], ops, schema, dup)
  {
    assert conds[0].JStr? && AnyOperator(conds[0].s, ops);
    forall o | o in ops ensures OpAccepted(conds[0].s, o, schema, dup) {
      if Contains(conds[0].s, Token(o)) {
        assert Mentions(conds, 0, o);
      }
    }
  }

  lemma TailAccepted(conds: seq<Json>, ops: seq<Op>, schema: set<string>, dup: seq<string>, dup': seq<string>)
    requires conds != [] && conds[0].JStr?
    requires ConditionsAccepted(conds, ops, schema) && FreshFields(conds, ops, dup)
    requires forall x :: x in dup' ==> x in dup || x in MentionedFields(conds[0].s, ops)
    ensures ConditionsAccepted(conds[1..], ops, schema) && FreshFields(conds[1..], ops, dup')
  {
    var rest := conds[1..];
    MentionsShift(conds);
    assert forall j :: 0 <= j < |rest| ==> rest[j] == conds[j + 1];
    forall j, o | o in ops && Mentions(rest, j, o) ensures Field(rest[j].s, o) !in dup' {
      assert Mentions(conds, j + 1, o);
      forall o1 | o1 in ops && Contains(conds[0].s, Token(o1)) ensures Field(conds[0].s, o1) != Field(rest[j].s, o) {
        assert Mentions(conds, 0, o1);
      }
    }
    forall i, j, o1, o2 | i < j && o1 in ops && o2 in ops && Mentions(rest, i, o1) && Mentions(rest, j, o2)
      ensures Field(rest[i].s, o1) != Field(rest[j].s, o2)
    {
      assert Mentions(conds, i + 1, o1) && Mentions(conds, j + 1, o2);
    }
    forall i, o | o in ops && Mentions(rest, i, o)
      ensures !HasSpecialCharsAndSpaces(Literal(rest[i].s, o)) && Field(rest[i].s, o) in schema
    {
      assert Mentions(conds, i + 1, o);
    }
  }

  /** No two conditions of [c] + rest name the same field, when rest has
      that property and c's fields are all in a list that rest avoids. */
  lemma ConsPairwise(conds: seq<Json>, ops: seq<Op>, schema: set<string>, dup': seq<string>)
    requires conds != [] && conds[0].JStr?
    requires ConditionsAccepted(conds[1..], ops, schema) && FreshFields(conds[1..], ops, dup')
    requires forall x :: x in MentionedFields(conds[0].s, ops) ==> x in dup'
    ensures forall i, j, o1, o2 :: i < j && o1 in ops && o2 in ops && Mentions(conds, i, o1) && Mentions(conds, j, o2) ==>
              Field(conds[i].s, o1) != Field(conds[j].s, o2)
  {
    var rest := conds[1..];
    MentionsShift(conds);
    forall i, j, o1, o2 | i < j && o1 in ops && o2 in ops && Mentions(conds, i, o1) && Mentions(conds, j, o2)
      ensures Field(conds[i].s, o1) != Field(conds[j].s, o2)
    {
      assert Mentions(rest, j - 1, o2) && rest[j - 1] == conds[j];
      if i == 0 {
        assert Field(conds[0].s, o1) in MentionedFields(conds[0].s, ops);
      } else {
        assert Mentions(rest, i - 1, o1) && rest[i - 1] == conds[i];
      }
    }
  }

  lemma ConsAccepted(conds: seq<Json>, ops: seq<Op>, schema: set<string>, dup: seq<string>, dup': seq<string>)
    requires conds != [] && ConditionAccepted(conds[0], ops, schema, dup)
    requires ConditionsAccepted(conds[1..], ops, schema) && FreshFields(conds[1..], ops, dup')
    requires forall x :: x in dup || x in MentionedFields(conds[0].s, ops) ==> x in dup'
    ensures ConditionsAccepted(conds, ops, schema) && FreshFields(conds, ops, dup)
  {
    var rest := conds[1..];
    ConsPairwise(conds, ops, schema, dup');
    MentionsShift(conds);
    forall i | 0 <= i < |conds| ensures conds[i].JStr? && AnyOperator(conds[i].s, ops) {
      if i > 0 {
        assert conds[i] == rest[i - 1];
      }
    }
    forall i, o | o in ops && Mentions(conds, i, o)
      ensures !HasSpecialCharsAndSpaces(Literal(conds[i].s, o)) && Field(conds[i].s, o) in schema
      ensures Field(conds[i].s, o) !in dup
    {
      if i == 0 {
        assert OpAccepted(conds[0].s, o, schema, dup);
      } else {
        assert Mentions(rest, i - 1, o) && rest[i - 1] == conds[i];
        assert Field(conds[i].s, o) !in dup';
      }
    }
  }

  /** The condition loop of one rule goes on exactly when its conditions
      are accepted and name no field already in the duplicate list. */
  lemma {:induction false} ConditionsWalkAccepts(conds: seq<Json>, ops: seq<Op>, schema: set<string>, dup: seq<string>, table: Table)
    requires Distinct(ops)
    ensures ConditionsWalk(conds, ops, schema, dup, table).status == Going <==>
            ConditionsAccepted(conds, ops, schema) && FreshFields(conds, ops, dup)
  {
    if conds != [] {
      var w0 := ConditionStep(conds[0], ops, schema, dup, table);
      ConditionStepAccepts(conds[0], ops, schema, dup, table);
      if w0.status == Going {
        ConditionsWalkAccepts(conds[1..], ops, schema, w0.dup, w0.table);
        if ConditionsAccepted(conds, ops, schema) && FreshFields(conds, ops, dup) {
          TailAccepted(conds, ops, schema, dup, w0.dup);
        }
        if ConditionsAccepted(conds[1..], ops, schema) && FreshFields(conds[1..], ops, w0.dup) {
          ConsAccepted(conds, ops, schema, dup, w0.dup);
        }
      } else if ConditionsAccepted(conds, ops, schema) && FreshFields(conds, ops, dup) {
        HeadAccepted(conds, ops, schema, dup);
      }
    }
  }

  /** A rule the compiler takes: url, reason and match of the right types,
      and match conditions that are accepted (utils.py:35-70). */
  ghost predicate RuleAccepted(rule: Json, ops: seq<Op>, schema: set<string>) {
    WellFormedRule(rule) && ConditionsAccepted(Conditions(rule), ops, schema)
  }

  lemma {:induction false} RulesWalkAccepts(rules: seq<Json>, ops: seq<Op>, schema: set<string>, table: Table)
    requires Distinct(ops)
    ensures RulesWalk(rules, ops, schema, table).status == Going <==>
            forall i :: 0 <= i < |rules| ==> RuleAccepted(rules[i], ops, schema)
  {
    if rules != [] {
      var w0 := RuleStep(rules[0], ops, schema, table);
      if WellFormedRule(rules[0]) {
        ConditionsWalkAccepts(Conditions(rules[0]), ops, schema, [], table);
      }
      assert w0.status == Going <==> RuleAccepted(rules[0], ops, schema);
      if w0.status == Going {
        RulesWalkAccepts(rules[1..], ops, schema, w0.table);
        assert RulesWalk(rules, ops, schema, table) == RulesWalk(rules[1..], ops, schema, w0.table);
      }
      assert forall i :: 1 <= i < |rules| ==> rules[i] == rules[1..][i - 1];
    }
  }

  /** A configuration the compiler accepts: an object whose "rules" entry
      is a non-empty list of accepted rules. */
  ghost predicate ConfigAccepted(config: Json, ops: seq<Op>, schema: set<string>) {
    && config.JObj? && "rules" in config.fields && config.fields["rules"].JList?
    && config.fields["rules"].items != []
    && forall i :: 0 <= i < |config.fields["rules"].items| ==> RuleAccepted(config.fields["rules"].items[i], ops, schema)
  }

  /** handle_config_schema returns True exactly for accepted configurations,
      and then it registers the reason of the last rule. */
  lemma HandleConfigAccepts(config: Json, ops: seq<Op>, schema: set<string>, table: Table, reasons: seq<string>)
    requires Distinct(ops)
    ensures var c := HandleConfig(config, ops, schema, table, reasons);
            (c.outcome == Returned(true) <==> ConfigAccepted(config, ops, schema))
            && (c.outcome == Returned(true) ==>
                  var rules := config.fields["rules"].items;
                  c.reasons == Register(reasons, Reason(rules[|rules| - 1])))
  {
    if config.JObj? && "rules" in config.fields && config.fields["rules"].JList? {
      RulesWalkAccepts(config.fields["rules"].items, ops, schema, table);
    }
  }

  /** A configuration that is not an object, has no "rules" key, or whose
      rules are not a list is refused with both tables untouched
      (utils.py:25-31). */
  lemma ShapeRejected(config: Json, ops: seq<Op>, schema: set<string>, table: Table, reasons: seq<string>)
    requires !config.JObj? || "rules" !in config.fields || !config.fields["rules"].JList?
    ensures HandleConfig(config, ops, schema, table, reasons) == Compiled(Returned(false), table, reasons)
  {
  }

  /** An empty rule list reaches `reason` after a loop that never ran
      (utils.py:72). */
  lemma EmptyRulesRaise(config: Json, ops: seq<Op>, schema: set<string>, table: Table, reasons: seq<string>)
    requires config.JObj? && "rules" in config.fields && config.fields["rules"] == JList([])
    ensures HandleConfig(config, ops, schema, table, reasons) == Compiled(Raised(UnboundLocalError), table, reasons)
  {
  }

  lemma {:induction false} ConditionsWalkThrows(conds: seq<Json>, ops: seq<Op>, schema: set<string>, dup: seq<string>, table: Table)
    ensures var w := ConditionsWalk(conds, ops, schema, dup, table);
            w.status.Thrown? ==> w.status.error == TypeError && exists i :: 0 <= i < |conds| && (conds[i].JNull? || conds[i].JBool? || conds[i].JNum?)
  {
    if conds != [] {
      var w0 := ConditionStep(conds[0], ops, schema, dup, table);
      if w0.status == Going {
        ConditionsWalkThrows(conds[1..], ops, schema, w0.dup, w0.table);
        assert ConditionsWalk(conds, ops, schema, dup, table) == ConditionsWalk(conds[1..], ops, schema, w0.dup, w0.table);
        if ConditionsWalk(conds, ops, schema, dup, table).status.Thrown? {
          var i :| 0 <= i < |conds[1..]| && (conds[1..][i].JNull? || conds[1..][i].JBool? || conds[1..][i].JNum?);
          assert conds[i + 1] == conds[1..][i];
        }
      }
    }
  }

  /** Some well-formed rule has a condition that is a number, boolean or null. */
  ghost predicate HasScalarCondition(rules: seq<Json>) {
    exists r, i :: 0 <= r < |rules| && WellFormedRule(rules[r]) && 0 <= i < |Conditions(rules[r])|
                   && (Conditions(rules[r])[i].JNull? || Conditions(rules[r])[i].JBool? || Conditions(rules[r])[i].JNum?)
  }

  lemma {:induction false} RulesWalkThrows(rules: seq<Json>, ops: seq<Op>, schema: set<string>, table: Table)
    ensures var w := RulesWalk(rules, ops, schema, table);
            w.status.Thrown? ==> w.status.error == TypeError && HasScalarCondition(rules)
  {
    if rules != [] {
      var w0 := RuleStep(rules[0], ops, schema, table);
      var w := RulesWalk(rules, ops, schema, table);
      if WellFormedRule(rules[0]) {
        ConditionsWalkThrows(Conditions(rules[0]), ops, schema, [], table);
        if w0.status.Thrown? {
          var i :| 0 <= i < |Conditions(rules[0])| && (Conditions(rules[0])[i].JNull? || Conditions(rules[0])[i].JBool? || Conditions(rules[0])[i].JNum?);
          assert HasScalarCondition(rules);
        }
      }
      if w0.status == Going {
        RulesWalkThrows(rules[1..], ops, schema, w0.table);
        if w.status.Thrown? {
          var r, i :| 0 <= r < |rules[1..]| && WellFormedRule(rules[1..][r]) && 0 <= i < |Conditions(rules[1..][r])|
                      && (Conditions(rules[1..][r])[i].JNull? || Conditions(rules[1..][r])[i].JBool? || Conditions(rules[1..][r])[i].JNum?);
          assert rules[r + 1] == rules[1..][r];
        }
      }
    }
  }

  /** handle_config_schema raises only TypeError, and only when some
      condition of a well-formed rule is a number, boolean or null, or,
      for an empty rule list, UnboundLocalError; and a raise leaves
      reason_dict alone. */
  lemma HandleConfigRaises(config: Json, ops: seq<Op>, schema: set<string>, table: Table, reasons: seq<string>)
    ensures var c := HandleConfig(config, ops, schema, table, reasons);
            c.outcome.Raised? ==>
              && c.reasons == reasons
              && config.JObj? && "rules" in config.fields && config.fields["rules"].JList?
              && ((c.outcome.error == TypeError && HasScalarCondition(config.fields["rules"].items))
                  || (c.outcome.error == UnboundLocalError && config.fields["rules"].items == []))
  {
    if config.JObj? && "rules" in config.fields && config.fields["rules"].JList? {
      RulesWalkThrows(config.fields["rules"].items, ops, schema, table);
    }
  }

  /** The rule loop over `rules` is the loop over its first n rules,
      followed, if that goes on, by the loop over the rest from the table
      the first part leaves. */
  lemma {:induction false} RulesWalkSplit(rules: seq<Json>, n: nat, ops: seq<Op>, schema: set<string>, table: Table)
    requires n <= |rules|
    ensures RulesWalk(rules, ops, schema, table) == AfterRules(RulesWalk(rules[..n], ops, schema, table), rules[n..], ops, schema)
  {
    if n == 0 {
      assert rules[..n] == [] && rules[n..] == rules;
    } else {
      var w0 := RuleStep(rules[0], ops, schema, table);
      assert rules[..n][0] == rules[0];
      if w0.status == Going {
        assert rules[..n][1..] == rules[1..][..n - 1];
        assert rules[1..][n - 1..] == rules[n..];
        RulesWalkSplit(rules[1..], n - 1, ops, schema, w0.table);
      }
    }
  }

  /** A rule that is not a dict, or lacks a string `url`, a string
      `reason` or a list `match`, makes handle_config_schema return False
      (and leave reason_dict alone), unless an earlier rule has a condition
      that is a number, boolean or null, which raises TypeError first. */
  lemma MalformedRuleReturnsFalse(config: Json, ops: seq<Op>, schema: set<string>, table: Table, reasons: seq<string>, r: int)
    requires config.JObj? && "rules" in config.fields && config.fields["rules"].JList?
    requires 0 <= r < |config.fields["rules"].items| && !WellFormedRule(config.fields["rules"].items[r])
    requires !HasScalarCondition(config.fields["rules"].items[..r])
    ensures var c := HandleConfig(config, ops, schema, table, reasons);
            c.outcome == Returned(false) && c.reasons == reasons
  {
    var rules := config.fields["rules"].items;
    RulesWalkSplit(rules, r, ops, schema, table);
    RulesWalkThrows(rules[..r], ops, schema, table);
    var front := RulesWalk(rules[..r], ops, schema, table);
    if front.status == Going {
      assert rules[r..][0] == rules[r];
      assert RuleStep(rules[r], ops, schema, front.table).status == Refused;
    }
    assert RulesWalk(rules, ops, schema, table).status == Refused;
  }
}
