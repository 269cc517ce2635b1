/** The validation walk as the validators perform it: every rule of a tree reports into
    one shared `Errors` collector, opening and relabelling path levels as it descends and
    backing out the messages of alternatives that were tried and abandoned. Each method is
    proved to leave exactly the messages `Semantics.Eval` describes, to return its
    verdict, and to hand the path back as it found it. */
module Engine {
  import opened Values
  import opened Rules
  import opened Diagnostics
  import opened Semantics

  /** The collector has one path level open beyond `p`. */
  ghost predicate InLevel(errs: Errors, p: seq<string>)
    reads errs
  {
    errs.Valid() && |errs.path| == |p| + 1 && errs.path[..|p|] == p
  }

  /** `rule.validate(data)`. */
  method Validate(o: Oracle, r: Rule, d: Value, errs: Errors) returns (ok: bool)
    requires errs.Valid()
    modifies errs
    decreases Size(r), 5, 0
    ensures errs.Valid() && errs.path == old(errs.path)
    ensures ok == Eval(o, r, d, old(errs.path)).ok
    ensures errs.messages == old(errs.messages) + Eval(o, r, d, old(errs.path)).msgs
  {
    match r.kind {
      case RootKind(alts) =>
        assert Size(r) == 1 + RulesSize(alts);
        ok := ValidateItem(o, d, alts, errs);
      case ListKind(alts) =>
        ok := ValidateList(o, r, d, errs);
      case DictKind(_, _, _, _, _) =>
        ok := ValidateDict(o, r, d, errs);
      case _ =>
        ok := ValidateLeaf(o, r, d, errs);
    }
  }

  /** The `validate` of the rules without children: one check, at most one message. */
  method ValidateLeaf(o: Oracle, r: Rule, d: Value, errs: Errors) returns (ok: bool)
    requires IsLeaf(r.kind)
    modifies errs
    ensures errs.path == old(errs.path) && errs.pathLevel == old(errs.pathLevel)
    ensures ok == LeafCheck(o, r, d).ok
    ensures errs.messages == old(errs.messages) + LeafVerdict(LeafCheck(o, r, d), old(errs.path)).msgs
  {
    var c := LeafCheck(o, r, d);
    if c.complaint.Some? {
      errs.Add(c.complaint.value);
    }
    ok := c.ok;
  }

  /** `validate_item(item, rules)`: try the applicable candidates in order; if none
      passed, make sure something was logged. */
  method ValidateItem(o: Oracle, item: Value, rules: seq<Rule>, errs: Errors) returns (ok: bool)
    requires errs.Valid()
    modifies errs
    decreases RulesSize(rules), 3, 0
    ensures errs.Valid() && errs.path == old(errs.path)
    ensures ok == SelectItem(o, item, rules, old(errs.path)).ok
    ensures errs.messages == old(errs.messages) + SelectItem(o, item, rules, old(errs.path)).msgs
  {
    var count := errs.Count();
    ok := TryCandidates(o, item, rules, errs);
    var now := errs.Count();
    if !ok && count == now {
      ReportNoMatch(o, item, rules, errs);
    }
  }

  /** The candidate loop of `validate_item`: on the first applicable candidate that
      passes, withdraw what the failed ones logged and stop. */
  method TryCandidates(o: Oracle, item: Value, rules: seq<Rule>, errs: Errors) returns (ok: bool)
    requires errs.Valid()
    modifies errs
    decreases RulesSize(rules), 2, 0
    ensures errs.Valid() && errs.path == old(errs.path)
    ensures ok == TryAll(o, item, rules, old(errs.path), |rules|).ok
    ensures ok ==> errs.messages == old(errs.messages)
    ensures !ok ==> errs.messages == old(errs.messages) + TryAll(o, item, rules, old(errs.path), |rules|).msgs
  {
    var p := errs.path;
    var count := errs.Count();
    for i := 0 to |rules|
      invariant errs.Valid() && errs.path == p
      invariant !TryAll(o, item, rules, p, i).ok
      invariant errs.messages == old(errs.messages) + TryAll(o, item, rules, p, i).msgs
    {
      var passed := TryCandidate(o, item, rules, i, old(errs.messages), errs);
      if passed {
        TryAllStable(o, item, rules, p, i + 1, |rules|);
        var now := errs.Count();
        errs.BackOutErrors(now - count);
        assert errs.messages == old(errs.messages);
        return true;
      }
    }
    ok := false;
  }

  /** One iteration of the candidate loop: a candidate is consulted only when it is
      applicable to the item. */
  method TryCandidate(o: Oracle, item: Value, rules: seq<Rule>, i: nat, ghost base: seq<string>, errs: Errors)
    returns (passed: bool)
    requires i < |rules| && errs.Valid()
    requires !TryAll(o, item, rules, errs.path, i).ok
    requires errs.messages == base + TryAll(o, item, rules, errs.path, i).msgs
    modifies errs
    decreases RulesSize(rules), 1, 0
    ensures errs.Valid() && errs.path == old(errs.path)
    ensures passed == TryAll(o, item, rules, old(errs.path), i + 1).ok
    ensures errs.messages == base + TryAll(o, item, rules, old(errs.path), i + 1).msgs
  {
    passed := false;
    if Validateable(rules[i], item) {
      RulesSizeElem(rules, i);
      passed := Validate(o, rules[i], item, errs);
      AppendAssoc(base, TryAll(o, item, rules, old(errs.path), i).msgs, Eval(o, rules[i], item, old(errs.path)).msgs);
    }
  }

  /** The tail of `validate_item` when no candidate passed or logged anything. */
  method ReportNoMatch(o: Oracle, item: Value, rules: seq<Rule>, errs: Errors)
    modifies errs
    ensures errs.path == old(errs.path) && errs.pathLevel == old(errs.pathLevel)
    ensures errs.messages == old(errs.messages) + Fallback(o, item, rules, old(errs.path))
  {
    var count := errs.Count();
    AddCustomMessages(rules, errs);
    var now := errs.Count();
    if count == now {
      AddMismatch(o, item, rules, errs);
    }
  }

  /** Log the custom message of every candidate that has one. */
  method AddCustomMessages(rules: seq<Rule>, errs: Errors)
    modifies errs
    ensures errs.path == old(errs.path) && errs.pathLevel == old(errs.pathLevel)
    ensures errs.messages == old(errs.messages) + CustomMsgs(rules, old(errs.path), |rules|)
  {
    for j := 0 to |rules|
      invariant errs.path == old(errs.path) && errs.pathLevel == old(errs.pathLevel)
      invariant errs.messages == old(errs.messages) + CustomMsgs(rules, old(errs.path), j)
    {
      if Truthy(rules[j].message) {
        errs.Add(rules[j].message.value);
        AppendAssoc(old(errs.messages), CustomMsgs(rules, old(errs.path), j), [Format(old(errs.path), rules[j].message.value)]);
      }
    }
  }

  /** Log the acceptable kinds as an English list, and what was found instead. */
  method AddMismatch(o: Oracle, item: Value, rules: seq<Rule>, errs: Errors)
    modifies errs
    ensures errs.path == old(errs.path) && errs.pathLevel == old(errs.pathLevel)
    ensures errs.messages == old(errs.messages) + Mismatch(o, item, rules, old(errs.path))
  {
    var acceptable := EnglishList(Names(rules));
    var m := Mismatch(o, item, rules, errs.path);
    errs.Add("must be a `" + acceptable + "` value");
    AppendAssoc(old(errs.messages), [m[0]], [m[1]]);
    if item.VDict? {
      errs.Add("got a dict instead of " + acceptable);
    } else if item.VList? {
      errs.Add("got a list instead of " + acceptable);
    } else {
      errs.Add("value '" + Show(o, item) + "' is not valid " + acceptable);
    }
  }

  /** `ListValidator.validate`. */
  method ValidateList(o: Oracle, r: Rule, d: Value, errs: Errors) returns (ok: bool)
    requires r.kind.ListKind? && errs.Valid()
    modifies errs
    decreases Size(r), 4, 0
    ensures errs.Valid() && errs.path == old(errs.path)
    ensures ok == Eval(o, r, d, old(errs.path)).ok
    ensures errs.messages == old(errs.messages) + Eval(o, r, d, old(errs.path)).msgs
  {
    if !d.VList? {
      errs.Add("value must be a list");
      return false;
    }
    assert Size(r) == 1 + RulesSize(r.kind.alts);
    var count := errs.Count();
    ValidateElements(o, d.items, r.kind.alts, errs);
    var now := errs.Count();
    ok := count == now;
  }

  /** The loop of `ListValidator.validate`, inside a path level of its own. */
  method ValidateElements(o: Oracle, items: seq<Value>, alts: seq<Rule>, errs: Errors)
    requires errs.Valid()
    modifies errs
    decreases RulesSize(alts), 4, 1
    ensures errs.Valid() && errs.path == old(errs.path)
    ensures errs.messages == old(errs.messages) + ListMsgs(o, items, alts, old(errs.path), |items|)
  {
    var p := errs.path;
    errs.PathAddLevel("?");
    for i := 0 to |items|
      invariant InLevel(errs, p)
      invariant errs.messages == old(errs.messages) + ListMsgs(o, items, alts, p, i)
    {
      ValidateElement(o, items, alts, i, p, old(errs.messages), errs);
    }
    var rm := errs.PathRemoveLevel();
    assert rm.Pass?;
  }

  /** One iteration of the loop of `ListValidator.validate`: relabel the open path level
      and validate the element against the alternatives. */
  method ValidateElement(o: Oracle, items: seq<Value>, alts: seq<Rule>, i: nat, p: seq<string>,
                         ghost base: seq<string>, errs: Errors)
    requires i < |items|
    requires InLevel(errs, p)
    requires errs.messages == base + ListMsgs(o, items, alts, p, i)
    modifies errs
    decreases RulesSize(alts), 4, 0
    ensures InLevel(errs, p)
    ensures errs.messages == base + ListMsgs(o, items, alts, p, i + 1)
  {
    var slot := ListLabel(items, i);
    var u := errs.PathUpdateValue(slot);
    assert u.Pass?;
    assert errs.path == p + [slot];
    var _ := ValidateItem(o, items[i], alts, errs);
    AppendAssoc(base, ListMsgs(o, items, alts, p, i), SelectItem(o, items[i], alts, p + [slot]).msgs);
  }

  /** `DictValidator.validate`. */
  method ValidateDict(o: Oracle, r: Rule, d: Value, errs: Errors) returns (ok: bool)
    requires r.kind.DictKind? && errs.Valid()
    modifies errs
    decreases Size(r), 4, 0
    ensures errs.Valid() && errs.path == old(errs.path)
    ensures ok == Eval(o, r, d, old(errs.path)).ok
    ensures errs.messages == old(errs.messages) + Eval(o, r, d, old(errs.path)).msgs
  {
    if !d.VDict? {
      errs.Add("value must be a dictionary");
      return false;
    }
    ok := ValidateMapping(o, r, d.entries, errs);
  }

  /** `DictValidator.validate` once the data is known to be a mapping: check the entries
      inside a path level of their own, then the required keys; pass iff nothing was
      logged. */
  method ValidateMapping(o: Oracle, r: Rule, entries: seq<Entry>, errs: Errors) returns (ok: bool)
    requires r.kind.DictKind? && errs.Valid()
    modifies errs
    decreases Size(r), 3, 3
    ensures errs.Valid() && errs.path == old(errs.path)
    ensures var m := EntriesMsgs(o, r, entries, old(errs.path), |entries|)
                     + RequiredMsgs(r.kind.required, entries, old(errs.path), |r.kind.required|);
            ok == (m == []) && errs.messages == old(errs.messages) + m
  {
    var count := errs.Count();
    ValidateEntries(o, r, entries, errs);
    ReportMissingKeys(r.kind.required, entries, errs);
    AppendAssoc(old(errs.messages), EntriesMsgs(o, r, entries, old(errs.path), |entries|),
                RequiredMsgs(r.kind.required, entries, old(errs.path), |r.kind.required|));
    var now := errs.Count();
    ok := count == now;
  }

  /** The entry loop of `DictValidator.validate`, inside a path level of its own. */
  method ValidateEntries(o: Oracle, r: Rule, entries: seq<Entry>, errs: Errors)
    requires r.kind.DictKind? && errs.Valid()
    modifies errs
    decreases Size(r), 3, 2
    ensures errs.Valid() && errs.path == old(errs.path)
    ensures errs.messages == old(errs.messages) + EntriesMsgs(o, r, entries, old(errs.path), |entries|)
  {
    var p := errs.path;
    errs.PathAddLevel("?");
    for i := 0 to |entries|
      invariant InLevel(errs, p)
      invariant errs.messages == old(errs.messages) + EntriesMsgs(o, r, entries, p, i)
    {
      ValidateEntryAt(o, r, entries, i, p, old(errs.messages), errs);
    }
    var rm := errs.PathRemoveLevel();
    assert rm.Pass?;
  }

  /** One iteration of the entry loop of `DictValidator.validate`: relabel the open path
      level with the key and check the entry. */
  method ValidateEntryAt(o: Oracle, r: Rule, entries: seq<Entry>, i: nat, p: seq<string>, ghost base: seq<string>,
                          errs: Errors)
    requires r.kind.DictKind? && i < |entries|
    requires InLevel(errs, p)
    requires errs.messages == base + EntriesMsgs(o, r, entries, p, i)
    modifies errs
    decreases Size(r), 3, 1
    ensures InLevel(errs, p)
    ensures errs.messages == base + EntriesMsgs(o, r, entries, p, i + 1)
  {
    var slot := DictLabel(entries[i].key);
    var u := errs.PathUpdateValue(slot);
    assert u.Pass?;
    assert errs.path == p + [slot];
    ValidateEntry(o, r, entries[i].key, entries[i].value, errs);
    AppendAssoc(base, EntriesMsgs(o, r, entries, p, i), EntryMsgs(o, r, entries[i].key, entries[i].value, p + [slot]));
  }

  /** The required-key loop that ends `DictValidator.validate`. */
  method ReportMissingKeys(required: seq<string>, entries: seq<Entry>, errs: Errors)
    modifies errs
    ensures errs.path == old(errs.path) && errs.pathLevel == old(errs.pathLevel)
    ensures errs.messages == old(errs.messages) + RequiredMsgs(required, entries, old(errs.path), |required|)
  {
    for j := 0 to |required|
      invariant errs.path == old(errs.path) && errs.pathLevel == old(errs.pathLevel)
      invariant errs.messages == old(errs.messages) + RequiredMsgs(required, entries, old(errs.path), j)
    {
      if required[j] !in EntryKeys(entries) {
        errs.Add("key '" + required[j] + "' required");
        AppendAssoc(old(errs.messages), RequiredMsgs(required, entries, old(errs.path), j),
                    [Format(old(errs.path), "key '" + required[j] + "' required")]);
      }
    }
  }

  /** The body of the entry loop of `DictValidator.validate`, with the path already at the
      key: a rejected key is reported; any other key is checked by the rules chosen for
      it. */
  method ValidateEntry(o: Oracle, r: Rule, key: string, value: Value, errs: Errors)
    requires r.kind.DictKind? && errs.Valid()
    modifies errs
    decreases Size(r), 3, 0
    ensures errs.Valid() && errs.path == old(errs.path)
    ensures errs.messages == old(errs.messages) + EntryMsgs(o, r, key, value, old(errs.path))
  {
    var rejected := IndexOfKey(RejectedKeys(r.kind.rejected), key);
    if rejected.Some? {
      errs.Add(RejectText(r.kind.rejected[rejected.value].message, key));
    } else {
      ValidateAcceptedEntry(o, r, key, value, errs);
    }
  }

  /** The part of the entry loop after the rejection test: choose the rules for the key
      and check the value against them, or report the key as not recognized. */
  method ValidateAcceptedEntry(o: Oracle, r: Rule, key: string, value: Value, errs: Errors)
    requires r.kind.DictKind? && errs.Valid()
    requires IndexOfKey(RejectedKeys(r.kind.rejected), key).None?
    modifies errs
    decreases Size(r), 2, 2
    ensures errs.Valid() && errs.path == old(errs.path)
    ensures errs.messages == old(errs.messages) + EntryMsgs(o, r, key, value, old(errs.path))
  {
    var p := errs.path;
    EntryMsgsChosen(o, r, key, value, p);
    var rules := ChooseKeyRules(o, r, key, errs);
    var leftover := ChooseRules(o, r, key, p).leftover;
    if rules == [] {
      var msg := NotRecognizedText(r.kind.explicit, key);
      errs.Add(msg);
      AppendAssoc(old(errs.messages), leftover, [Format(p, msg)]);
    } else {
      var _ := ValidateItem(o, value, rules, errs);
      AppendAssoc(old(errs.messages), leftover, SelectItem(o, value, rules, p).msgs);
    }
  }

  /** Pick the rules for a key that is not rejected: its explicit rules, else the value
      rule of the first key rule that accepts the key, else the catch-all rules. Messages
      of failed key rules are withdrawn once some rules are found. */
  method ChooseKeyRules(o: Oracle, r: Rule, key: string, errs: Errors) returns (rules: seq<Rule>)
    requires r.kind.DictKind? && errs.Valid()
    modifies errs
    decreases Size(r), 2, 1
    ensures errs.Valid() && errs.path == old(errs.path)
    ensures rules == ChooseRules(o, r, key, old(errs.path)).rules
    ensures errs.messages == old(errs.messages) + ChooseRules(o, r, key, old(errs.path)).leftover
  {
    rules := [];
    var explicit := IndexOfKey(ExplicitKeys(r.kind.explicit), key);
    if explicit.Some? {
      rules := r.kind.explicit[explicit.value].rules;
      return;
    }
    var before := errs.Count();
    var found := SearchKeyRules(o, r, key, errs);
    if found.Some? {
      rules := [r.kind.keyRules[found.value].valueRule];
    } else if r.kind.anyKey != [] {
      rules := r.kind.anyKey;
    }
    if rules != [] {
      var now := errs.Count();
      errs.BackOutErrors(now - before);
      assert errs.messages == old(errs.messages);
    }
  }

  /** The `for ... else` loop over the key rules: stop at the first whose key rule is
      applicable to the key and passes it. */
  method SearchKeyRules(o: Oracle, r: Rule, key: string, errs: Errors) returns (found: Option<nat>)
    requires r.kind.DictKind? && errs.Valid()
    modifies errs
    decreases Size(r), 2, 0
    ensures errs.Valid() && errs.path == old(errs.path)
    ensures found == KeySearch(o, r, key, old(errs.path), |r.kind.keyRules|).index
    ensures errs.messages == old(errs.messages) + KeySearch(o, r, key, old(errs.path), |r.kind.keyRules|).msgs
  {
    var p := errs.path;
    for j := 0 to |r.kind.keyRules|
      invariant errs.Valid() && errs.path == p
      invariant KeySearch(o, r, key, p, j).index.None?
      invariant errs.messages == old(errs.messages) + KeySearch(o, r, key, p, j).msgs
    {
      var passed := TryKeyRule(o, r, key, j, old(errs.messages), errs);
      if passed {
        KeySearchStable(o, r, key, p, j + 1, |r.kind.keyRules|);
        return Some(j);
      }
    }
    found := None;
  }

  /** One iteration of the key-rule loop: the key rule is consulted only when it is
      applicable to the key. */
  method TryKeyRule(o: Oracle, r: Rule, key: string, j: nat, ghost base: seq<string>, errs: Errors)
    returns (passed: bool)
    requires r.kind.DictKind? && j < |r.kind.keyRules| && errs.Valid()
    requires KeySearch(o, r, key, errs.path, j).index.None?
    requires errs.messages == base + KeySearch(o, r, key, errs.path, j).msgs
    modifies errs
    decreases Size(r), 1, 0
    ensures errs.Valid() && errs.path == old(errs.path)
    ensures passed == KeySearch(o, r, key, old(errs.path), j + 1).index.Some?
    ensures errs.messages == base + KeySearch(o, r, key, old(errs.path), j + 1).msgs
  {
    passed := false;
    var kv := r.kind.keyRules[j].keyRule;
    if Validateable(kv, VStr(key)) {
      PairsSizeElem(r.kind.keyRules, j);
      assert Size(r) == 1 + KindSize(r.kind);
      passed := Validate(o, kv, VStr(key), errs);
      AppendAssoc(base, KeySearch(o, r, key, old(errs.path), j).msgs, Eval(o, kv, VStr(key), old(errs.path)).msgs);
    }
  }
}
