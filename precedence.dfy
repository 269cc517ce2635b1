/** Which rules govern a mapping key, most specific first: a rejection, then the rules
    registered for that exact key, then the value rule of the first key rule that accepts
    the key, then the catch-all rules; a key none of these covers is "not recognized".
    Here `p` is the collector's path with the entry's own label already pushed. */
module Precedence {
  import opened Values
  import opened Rules
  import opened Diagnostics
  import opened Semantics
  import opened Properties

  predicate Rejected(r: Rule, key: string)
    requires r.kind.DictKind?
  {
    key in RejectedKeys(r.kind.rejected)
  }

  /** The `i`-th key rule applies to the key and accepts it. */
  predicate KeyRuleAccepts(o: Oracle, r: Rule, key: string, p: seq<string>, i: nat)
    requires r.kind.DictKind? && i < |r.kind.keyRules|
  {
    Accepts(o, r.kind.keyRules[i].keyRule, VStr(key), p)
  }

  /** The key-rule loop stops at the first pair whose key rule accepts the key, and finds
      none only when no pair's key rule accepts it. */
  lemma {:induction false} KeySearchFinds(o: Oracle, r: Rule, key: string, p: seq<string>, k: nat)
    requires r.kind.DictKind? && k <= |r.kind.keyRules|
    ensures KeySearch(o, r, key, p, k).index.Some? ==>
              var j := KeySearch(o, r, key, p, k).index.value;
              KeyRuleAccepts(o, r, key, p, j) && forall i :: 0 <= i < j ==> !KeyRuleAccepts(o, r, key, p, i)
    ensures KeySearch(o, r, key, p, k).index.None? ==> forall i :: 0 <= i < k ==> !KeyRuleAccepts(o, r, key, p, i)
    decreases k
  {
    if k > 0 {
      KeySearchFinds(o, r, key, p, k - 1);
    }
  }

  /** A rejected key gets exactly one message, the same whatever its value: the
      rejection's message with `$key` substituted, or "key '<key>' is forbidden here". */
  lemma RejectedEntry(o: Oracle, r: Rule, key: string, value: Value, other: Value, p: seq<string>)
    requires r.kind.DictKind? && Rejected(r, key)
    ensures EntryMsgs(o, r, key, value, p) == EntryMsgs(o, r, key, other, p)
    ensures var i := IndexOfKey(RejectedKeys(r.kind.rejected), key).value;
            EntryMsgs(o, r, key, value, p) == [Format(p, RejectText(r.kind.rejected[i].message, key))]
  {
  }

  /** A key with rules of its own is judged by them alone: the key rules and catch-all
      rules are never consulted, and no key-rule message is left. */
  lemma ExplicitEntry(o: Oracle, r: Rule, key: string, value: Value, p: seq<string>,
                      keyRules: seq<KeyRule>, anyKey: seq<Rule>)
    requires r.kind.DictKind? && !Rejected(r, key) && RulesFor(r.kind.explicit, key) != []
    ensures EntryMsgs(o, r, key, value, p) == SelectItem(o, value, RulesFor(r.kind.explicit, key), p).msgs
    ensures EntryMsgs(o, r.(kind := r.kind.(keyRules := keyRules, anyKey := anyKey)), key, value, p)
              == EntryMsgs(o, r, key, value, p)
  {
    var r' := r.(kind := r.kind.(keyRules := keyRules, anyKey := anyKey));
    EntryMsgsChosen(o, r, key, value, p);
    EntryMsgsChosen(o, r', key, value, p);
  }

  /** A key without rules of its own, which a key rule accepts, is judged by the value
      rule of the first such key rule; the messages of the key rules that rejected it
      before are backed out, and the catch-all rules are never consulted. */
  lemma KeyRuleEntry(o: Oracle, r: Rule, key: string, value: Value, p: seq<string>, j: nat, anyKey: seq<Rule>)
    requires r.kind.DictKind? && !Rejected(r, key) && key !in ExplicitKeys(r.kind.explicit)
    requires j < |r.kind.keyRules| && KeyRuleAccepts(o, r, key, p, j)
    requires forall i :: 0 <= i < j ==> !KeyRuleAccepts(o, r, key, p, i)
    ensures EntryMsgs(o, r, key, value, p) == SelectItem(o, value, [r.kind.keyRules[j].valueRule], p).msgs
    ensures EntryMsgs(o, r.(kind := r.kind.(anyKey := anyKey)), key, value, p) == EntryMsgs(o, r, key, value, p)
  {
    var n := |r.kind.keyRules|;
    KeySearchFinds(o, r, key, p, n);
    var s := KeySearch(o, r, key, p, n);
    assert s.index == Some(j);
    var r' := r.(kind := r.kind.(anyKey := anyKey));
    KeySearchSameWithoutCatchAll(o, r, r', key, p, n);
    EntryMsgsChosen(o, r, key, value, p);
    EntryMsgsChosen(o, r', key, value, p);
  }

  /** The key-rule loop does not look at the catch-all rules. */
  lemma {:induction false} KeySearchSameWithoutCatchAll(o: Oracle, r: Rule, r': Rule, key: string, p: seq<string>, k: nat)
    requires r.kind.DictKind? && r'.kind.DictKind? && r'.kind.keyRules == r.kind.keyRules
    requires k <= |r.kind.keyRules|
    ensures KeySearch(o, r', key, p, k) == KeySearch(o, r, key, p, k)
    decreases k
  {
    if k > 0 {
      KeySearchSameWithoutCatchAll(o, r, r', key, p, k - 1);
    }
  }

  /** A key that neither has rules of its own nor is accepted by a key rule is judged by
      the catch-all rules, when there are any; the key rules' messages are backed out. */
  lemma CatchAllEntry(o: Oracle, r: Rule, key: string, value: Value, p: seq<string>)
    requires r.kind.DictKind? && !Rejected(r, key) && key !in ExplicitKeys(r.kind.explicit)
    requires forall i :: 0 <= i < |r.kind.keyRules| ==> !KeyRuleAccepts(o, r, key, p, i)
    requires r.kind.anyKey != []
    ensures EntryMsgs(o, r, key, value, p) == SelectItem(o, value, r.kind.anyKey, p).msgs
  {
    var n := |r.kind.keyRules|;
    KeySearchFinds(o, r, key, p, n);
    EntryMsgsChosen(o, r, key, value, p);
  }

  /** A key nothing covers keeps the key rules' messages, followed by "key '<key>' is not
      recognized", which lists the explicitly accepted keys when there are any. */
  lemma UnrecognizedEntry(o: Oracle, r: Rule, key: string, value: Value, p: seq<string>)
    requires r.kind.DictKind? && !Rejected(r, key) && key !in ExplicitKeys(r.kind.explicit)
    requires forall i :: 0 <= i < |r.kind.keyRules| ==> !KeyRuleAccepts(o, r, key, p, i)
    requires r.kind.anyKey == []
    ensures EntryMsgs(o, r, key, value, p)
              == KeySearch(o, r, key, p, |r.kind.keyRules|).msgs + [Format(p, NotRecognizedText(r.kind.explicit, key))]
  {
    var n := |r.kind.keyRules|;
    KeySearchFinds(o, r, key, p, n);
    EntryMsgsChosen(o, r, key, value, p);
  }

  // ---------------------------------------------------------------------------
  // Whole mappings

  /** A mapping holding a rejected key fails. */
  lemma ForbiddenKeyFails(o: Oracle, r: Rule, entries: seq<Entry>, p: seq<string>, i: nat)
    requires r.kind.DictKind? && i < |entries| && Rejected(r, entries[i].key)
    ensures !Eval(o, r, VDict(entries), p).ok
  {
    DictPasses(o, r, VDict(entries), p);
    RejectedEntry(o, r, entries[i].key, entries[i].value, entries[i].value, p + [DictLabel(entries[i].key)]);
    assert !EntryOk(o, r, entries[i], p);
  }

  /** A mapping that lacks a required key fails. */
  lemma MissingRequiredFails(o: Oracle, r: Rule, entries: seq<Entry>, p: seq<string>, key: string)
    requires r.kind.DictKind? && key in r.kind.required && key !in EntryKeys(entries)
    ensures !Eval(o, r, VDict(entries), p).ok
  {
    DictPasses(o, r, VDict(entries), p);
  }

  // ---------------------------------------------------------------------------
  // The operations that configure a dict node, and what they make it do

  /** After `accept(rule, key=key)`, the key's value is judged by the rules registered
      for it so far and `rule`, so a value `rule` accepts leaves no message; with
      `required=True`, a mapping without the key fails. */
  lemma AcceptKeyGoverns(o: Oracle, d: Rule, rule: Rule, key: string, required: bool,
                         value: Value, entries: seq<Entry>, p: seq<string>)
    requires d.kind.DictKind? && key != "" && !Rejected(d, key)
    ensures AcceptKey(d, rule, Some(key), required).Ok?
    ensures var d' := AcceptKey(d, rule, Some(key), required).value;
            EntryMsgs(o, d', key, value, p) == SelectItem(o, value, RulesFor(d.kind.explicit, key) + [rule], p).msgs
              && (Accepts(o, rule, value, p) ==> EntryMsgs(o, d', key, value, p) == [])
              && (required && key !in EntryKeys(entries) ==> !Eval(o, d', VDict(entries), p).ok)
  {
    var d' := AcceptKey(d, rule, Some(key), required).value;
    var rules := RulesFor(d.kind.explicit, key) + [rule];
    ExplicitEntry(o, d', key, value, p, d'.kind.keyRules, d'.kind.anyKey);
    SelectItemPasses(o, value, rules, p);
    if Accepts(o, rule, value, p) {
      assert rules[|rules| - 1] == rule;
    }
    if required && key !in EntryKeys(entries) {
      MissingRequiredFails(o, d', entries, p, key);
    }
  }

  /** After `reject_key(key, message)`, the key gets the one message built from
      `message`, whatever rules it had and whatever its value. */
  lemma RejectKeyForbids(o: Oracle, d: Rule, key: string, message: Option<string>, value: Value, p: seq<string>)
    requires d.kind.DictKind?
    ensures EntryMsgs(o, RejectKey(d, key, message), key, value, p) == [Format(p, RejectText(message, key))]
  {
    var d' := RejectKey(d, key, message);
    assert Rejected(d', key);
    RejectedEntry(o, d', key, value, value, p);
  }

  /** `accept_valid_keys(rule, key_type=names)`: the key predicate is a root holding one
      node `factory(name)` per name, in order, and it passes exactly the keys one of those
      nodes applies to and passes. */
  lemma KeyTypeGoverns(o: Oracle, d: Rule, rule: Rule, keyType: seq<string>, key: string, p: seq<string>)
    requires d.kind.DictKind? && keyType != []
    requires AcceptValidKeys(o, d, rule, keyType, None).Ok?
    ensures var kv := AcceptValidKeys(o, d, rule, keyType, None).value.kind.keyRules[|d.kind.keyRules|].keyRule;
            kv.kind.RootKind? && Names(kv.kind.alts) == keyType
            && (Eval(o, kv, VStr(key), p).ok <==>
                exists i :: 0 <= i < |keyType| && Accepts(o, Factory(o, keyType[i], None).value, VStr(key), p))
  {
    var kv := RootOfNames(o, keyType).value;
    var alts := FactoryAll(o, keyType).value;
    assert kv.kind.alts == alts;
    assert Eval(o, kv, VStr(key), p) == SelectItem(o, VStr(key), alts, p);
    SelectItemPasses(o, VStr(key), alts, p);
    assert forall i :: 0 <= i < |keyType| ==> Factory(o, keyType[i], None).value == alts[i];
  }

  /** After `accept_any_key(rule)`, a key nothing more specific covers is judged by the
      catch-all rules including `rule`. */
  lemma AcceptAnyKeyGoverns(o: Oracle, d: Rule, rule: Rule, key: string, value: Value, p: seq<string>)
    requires d.kind.DictKind? && !Rejected(d, key) && key !in ExplicitKeys(d.kind.explicit)
    requires forall i :: 0 <= i < |d.kind.keyRules| ==> !KeyRuleAccepts(o, d, key, p, i)
    ensures EntryMsgs(o, AcceptAnyKey(d, rule), key, value, p) == SelectItem(o, value, d.kind.anyKey + [rule], p).msgs
  {
    var d' := AcceptAnyKey(d, rule);
    forall i | 0 <= i < |d'.kind.keyRules| ensures !KeyRuleAccepts(o, d', key, p, i) {
      assert !KeyRuleAccepts(o, d, key, p, i);
    }
    CatchAllEntry(o, d', key, value, p);
  }

  /** A rejection message is a template in which `${key}` stands for the key. */
  lemma RejectTemplate(key: string, rest: string)
    requires '$' !in rest
    ensures RejectText(Some("${key}" + rest), key) == key + rest
  {
    SafeSubstituteBraced(rest, key);
    SafeSubstitutePlain(rest, [], key);
    assert rest + [] == rest;
  }
}
