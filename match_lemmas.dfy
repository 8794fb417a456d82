/** Properties of validate_pokemon_against_the_list_of_rules and
    validate_operators (utils.py:93-121). */
module MatchLemmas {
  import opened Wrappers
  import opened Text
  import opened Integers
  import opened RuleSpec
  import opened RuleLemmas
  import opened TableLemmas

  /** Condition k of the table holds for the record: the record has field
      k and validate_operators returns True on it. */
  ghost predicate Holds(record: map<string, string>, table: Table, k: string)
    requires k in table.entries
  {
    k in record && ValidateOperators(record[k], table.entries[k].op, table.entries[k].literal) == Some(true)
  }

  /** Every condition in the table holds for the record. */
  ghost predicate Satisfies(record: map<string, string>, table: Table) {
    forall k :: k in table.entries ==> Holds(record, table, k)
  }

  /** The inner loop passes exactly when every listed condition holds, and
      an error is a ValueError from a condition whose operands int() refuses. */
  lemma {:induction false} CheckFieldsMeaning(record: map<string, string>, table: Table, fields: seq<string>)
    requires forall k :: k in fields ==> k in table.entries
    ensures CheckFields(record, table, fields) == Pass <==> forall k :: k in fields ==> Holds(record, table, k)
    ensures CheckFields(record, table, fields).Error? ==>
              CheckFields(record, table, fields).error == ValueError
              && exists k :: k in fields && k in record &&
                   ValidateOperators(record[k], table.entries[k].op, table.entries[k].literal) == None
  {
    if fields != [] {
      var f := fields[0];
      CheckFieldsMeaning(record, table, fields[1..]);
      assert forall k :: k in fields <==> k == f || k in fields[1..];
      if f in record {
        match ValidateOperators(record[f], table.entries[f].op, table.entries[f].literal)
        case None => assert !Holds(record, table, f);
        case Some(b) => assert Holds(record, table, f) == b;
      } else {
        assert !Holds(record, table, f);
      }
    }
  }

  /** Every key of reason_dict is bound to the same condition_dict, so
      matching checks the one table once per reason with the same verdict:
      the record matches when every condition holds, and the reason
      reported is the last key of reason_dict. */
  lemma {:induction false} MatchReasonsCollapse(record: map<string, string>, table: Table, reasons: seq<string>, last: Option<string>)
    requires table.Valid() && reasons != []
    ensures MatchReasons(record, table, reasons, last) ==
              match CheckFields(record, table, table.order)
              case Pass => Matched(record, reasons[|reasons| - 1])
              case Fail => NoMatch
              case Error(e) => MatchRaised(e)
  {
    if |reasons| > 1 && CheckFields(record, table, table.order) == Pass {
      MatchReasonsCollapse(record, table, reasons[1..], Some(reasons[0]));
    }
  }

  /** A record is returned exactly when reason_dict is not empty and every
      condition of condition_dict holds; it comes back unchanged with the
      most recently registered reason. */
  lemma MatchedIff(record: map<string, string>, table: Table, reasons: seq<string>)
    requires table.Valid()
    ensures MatchRecord(record, table, reasons).Matched? <==> reasons != [] && Satisfies(record, table)
    ensures MatchRecord(record, table, reasons).Matched? ==>
              MatchRecord(record, table, reasons) == Matched(record, reasons[|reasons| - 1])
  {
    if reasons != [] {
      MatchReasonsCollapse(record, table, reasons, None);
      CheckFieldsMeaning(record, table, table.order);
    }
  }

  /** Matching raises UnboundLocalError when reason_dict is empty, a
      ValueError when some condition's operands are not integers, and
      nothing else. */
  lemma MatchRaises(record: map<string, string>, table: Table, reasons: seq<string>)
    requires table.Valid()
    ensures reasons == [] ==> MatchRecord(record, table, reasons) == MatchRaised(UnboundLocalError)
    ensures reasons != [] && MatchRecord(record, table, reasons).MatchRaised? ==>
              MatchRecord(record, table, reasons).error == ValueError
              && exists k :: k in table.entries && k in record &&
                   ValidateOperators(record[k], table.entries[k].op, table.entries[k].literal) == None
  {
    if reasons != [] {
      MatchReasonsCollapse(record, table, reasons, None);
      CheckFieldsMeaning(record, table, table.order);
    }
  }

  /** A record that lacks a field the table constrains is never returned. */
  lemma MissingFieldNeverMatches(record: map<string, string>, table: Table, reasons: seq<string>, k: string)
    requires table.Valid() && k in table.entries && k !in record
    ensures !MatchRecord(record, table, reasons).Matched?
  {
    MatchedIff(record, table, reasons);
  }

  /** The record the program decodes holds every schema field (an unset
      field reads as its default), and condition_dict holds only schema
      fields, so the missing-field exit never fires: the record is returned
      exactly when reason_dict is not empty and validate_operators accepts
      every stored condition. */
  lemma DecodedRecordMatchedIff(record: map<string, string>, table: Table, schema: set<string>, reasons: seq<string>)
    requires table.Valid() && TableSound(table, schema) && schema <= record.Keys
    ensures MatchRecord(record, table, reasons).Matched? <==>
              reasons != [] &&
              forall k :: k in table.entries ==>
                k in record && ValidateOperators(record[k], table.entries[k].op, table.entries[k].literal) == Some(true)
  {
    MatchedIff(record, table, reasons);
    assert forall k :: k in table.entries ==> k in record;
  }

  // ---------------------------------------------------------------------
  // validate_operators
  // ---------------------------------------------------------------------

  /** `!=` is the negation of `==`. */
  lemma EqNeComplement(attr: string, val: string)
    ensures ValidateOperators(attr, Eq, val).Some? && ValidateOperators(attr, Ne, val).Some?
    ensures ValidateOperators(attr, Ne, val).value == !ValidateOperators(attr, Eq, val).value
  {
  }

  /** `a < v` is `v > a`, including when int() fails. */
  lemma LtGtMirror(attr: string, val: string)
    ensures ValidateOperators(attr, Lt, val) == ValidateOperators(val, Gt, attr)
  {
  }

  /** `<` and `>` raise exactly when one of the operands is not an integer. */
  lemma ComparisonRaisesIff(attr: string, op: Op, val: string)
    requires op == Lt || op == Gt
    ensures ValidateOperators(attr, op, val).None? <==> ParseInt(attr).None? || ParseInt(val).None?
  {
  }

  /** On rendered integers, `<` and `>` compare the integers, because
      int(str(n)) == n. */
  lemma ComparesRenderedIntegers(x: int, y: int)
    ensures ValidateOperators(IntToString(x), Lt, IntToString(y)) == Some(x < y)
    ensures ValidateOperators(IntToString(x), Gt, IntToString(y)) == Some(x > y)
  {
    ParseIntOfIntToString(x);
    ParseIntOfIntToString(y);
  }

  // ---------------------------------------------------------------------
  // Compiling, then matching
  // ---------------------------------------------------------------------

  /** After a configuration is accepted, a record that is returned
      satisfies every condition of the configuration's last rule. */
  lemma MatchedRecordMeetsLastRule(config: Json, ops: seq<Op>, schema: set<string>, table: Table, reasons: seq<string>,
                                   record: map<string, string>)
    requires Distinct(ops) && table.Valid()
    requires HandleConfig(config, ops, schema, table, reasons).outcome == Returned(true)
    ensures var c := HandleConfig(config, ops, schema, table, reasons);
            var rules := config.fields["rules"].items;
            var last := Conditions(rules[|rules| - 1]);
            MatchRecord(record, c.table, c.reasons).Matched? ==>
              forall i, o :: o in ops && Mentions(last, i, o) ==>
                Field(last[i].s, o) in record
                && ValidateOperators(record[Field(last[i].s, o)], o, Literal(last[i].s, o)) == Some(true)
  {
    var c := HandleConfig(config, ops, schema, table, reasons);
    HandleConfigWrites(config, ops, schema, table, reasons);
    MatchedIff(record, c.table, c.reasons);
  }

  /** A worked scenario, compiling: the rule `level < 5` is accepted and
      compiles to the entry level -> (<, "5") under the reason "weak". */
  lemma LevelBelowFiveCompiles()
    ensures var rule := JObj(map["url" := JStr("/weak"), "reason" := JStr("weak"), "match" := JList([JStr("level < 5")])]);
            var c := HandleConfig(JObj(map["rules" := JList([rule])]), OperatorOrder, {"level", "hp"}, EmptyTable, []);
            c.outcome == Returned(true) && "level" in c.table.entries && c.table.entries["level"] == Condition(Lt, "5") && c.reasons == ["weak"]
  {
    var s := "level < 5";
    assert s == "level" + " " + Token(Lt) + " " + "5";
    assert AllWord("level") by {
      forall i | 0 <= i < 5 ensures IsWordChar("level"[i]) {
        assert "level"[i] in {'l', 'e', 'v'};
      }
    }
    assert AllWord("5") && AllWhitespace(" ");
    SingleConditionCompiles(s, "level", " ", Lt, " ", "5", "/weak", "weak", {"level", "hp"}, EmptyTable, []);
  }

  /** A worked scenario, matching against level -> (<, "5"): a level-3
      record is returned with the reason; a level-9 record and a map
      without a level are not; the decoded form of a body without a level
      (level "0", the field's default) is returned; a level that int()
      refuses raises ValueError; an empty reason_dict raises
      UnboundLocalError. */
  lemma LevelBelowFiveMatches()
    ensures var t := Table(["level"], map["level" := Condition(Lt, "5")]);
            && MatchRecord(map["level" := "3", "hp" := "40"], t, ["weak"]) == Matched(map["level" := "3", "hp" := "40"], "weak")
            && MatchRecord(map["level" := "9"], t, ["weak"]) == NoMatch
            && MatchRecord(map["hp" := "40"], t, ["weak"]) == NoMatch
            && MatchRecord(map["level" := "0", "hp" := "0"], t, ["weak"]) == Matched(map["level" := "0", "hp" := "0"], "weak")
            && MatchRecord(map["level" := "x"], t, ["weak"]) == MatchRaised(ValueError)
            && MatchRecord(map["level" := "3"], t, []) == MatchRaised(UnboundLocalError)
  {
    ComparesRenderedIntegers(3, 5);
    ComparesRenderedIntegers(9, 5);
    ComparesRenderedIntegers(0, 5);
    assert IntToString(3) == "3" && IntToString(9) == "9" && IntToString(5) == "5" && IntToString(0) == "0";
    ParseIntRejects("x");
  }
}
