/** What validating a value against a rule produces: whether it passes, and the
    diagnostics it leaves behind, as pure functions of the rule, the value and the path
    at which validation starts. The collector-based engine is proved to compute exactly
    this. */
module Semantics {
  import opened Values
  import opened Rules
  import opened Diagnostics

  /** The result of one `validate` call: its return value, and the messages it appended
      to the collector (net of the ones it backed out). */
  datatype Verdict = Verdict(ok: bool, msgs: seq<string>)

  /** The outcome of a scalar check: pass or fail, and the one complaint it may log. */
  datatype Check = Check(ok: bool, complaint: Option<string>)

  /** The state of the search through a dict's key-predicate rules: the index of the
      first pair whose key rule accepted the key, and the messages the failing key rules
      logged. */
  datatype Search = Search(index: Option<nat>, msgs: seq<string>)

  /** The alternatives chosen for a dict key, and the key-rule messages left standing. */
  datatype Selection = Selection(rules: seq<Rule>, leftover: seq<string>)

  predicate IsLeaf(k: Kind) {
    !(k.RootKind? || k.ListKind? || k.DictKind?)
  }

  /** Whether any of the patterns matches the text. */
  function AnyMatch(o: Oracle, patterns: seq<string>, s: string): (b: bool)
    ensures b <==> exists i :: 0 <= i < |patterns| && o.matches(patterns[i], s)
  {
    if patterns == [] then false
    else if o.matches(patterns[0], s) then true
    else
      assert forall i :: 1 <= i < |patterns| ==> patterns[i] == patterns[1..][i - 1];
      AnyMatch(o, patterns[1..], s)
  }

  const UrlTail: string := "):\\/\\/(\\w+:{0,1}\\w*@)?(\\S+)(:[0-9]+)?(\\/|\\/([\\w#!:.?+=&%@!\\-\\/]))?"

  /** The pattern `UrlValidator.validate` builds from its protocols. */
  function UrlPattern(protocols: seq<string>): string {
    "(" + Join("|", protocols) + UrlTail
  }

  /** The sorted, comma-separated texts of a choice node's values. */
  function Acceptable(o: Oracle, valid: seq<Value>, validIc: seq<string>): string {
    Join(", ", SortStrings(ShowAll(o, valid) + validIc))
  }

  function ChoiceComplaint(o: Oracle, valid: seq<Value>, validIc: seq<string>, d: Value): string {
    "'" + Show(o, d) + "' is not one of acceptable values: " + Acceptable(o, valid, validIc)
  }

  /** The message a `regexp_match` failure on text logs. */
  function MismatchText(r: Rule, s: string): string {
    if Truthy(r.message) then r.message.value else s + " does not match regexp"
  }

  /** The complaint of a failed type check. */
  function NotValid(o: Oracle, d: Value, what: string): string {
    "value " + Show(o, d) + " is not valid " + what
  }

  /** `validate(data)` of the rules that hold no child rules. */
  function LeafCheck(o: Oracle, r: Rule, d: Value): (c: Check)
    requires IsLeaf(r.kind)
    ensures c.ok ==> c.complaint.None?
    ensures !c.ok && !r.kind.EqualsKind? ==> c.complaint.Some?
  {
    match r.kind
    case ChoiceKind(valid, validIc) =>
      if d in valid then Check(true, None)
      else if d.VStr? && Lower(d.s) in validIc then Check(true, None)
      else Check(false, Some(ChoiceComplaint(o, valid, validIc, d)))
    case AnyKind => Check(true, None)
    case EqualsKind(literal) => Check(literal == d, None)
    case NumberKind =>
      if IsNumber(d) then Check(true, None) else Check(false, Some(NotValid(o, d, "number")))
    case IntegerKind =>
      if IsInt(d) then Check(true, None) else Check(false, Some(NotValid(o, d, "integer")))
    case DecimalKind =>
      if d.VFloat? then Check(true, None) else Check(false, Some(NotValid(o, d, "decimal number")))
    case BooleanKind =>
      if d.VBool? then Check(true, None) else Check(false, Some(NotValid(o, d, "boolean")))
    case TextKind =>
      if d.VStr? then Check(true, None) else Check(false, Some(NotValid(o, d, "text")))
    case RegexpKind =>
      if !d.VStr? then Check(false, Some("Value should be text"))
      else if !o.compiles(d.s) then Check(false, Some(d.s + " is not a valid regular expression"))
      else Check(true, None)
    case RegexpMatchKind(patterns, rejects, _) =>
      if !d.VStr? then Check(false, Some("Value should be text"))
      else if AnyMatch(o, rejects, d.s) then Check(false, Some(MismatchText(r, d.s)))
      else if AnyMatch(o, patterns, d.s) then Check(true, None)
      else Check(false, Some(MismatchText(r, d.s)))
    case UrlKind(protocols) =>
      if !d.VStr? then Check(false, Some("expecting text"))
      else if o.matches(UrlPattern(protocols), d.s) then Check(true, None)
      else Check(false, Some("value " + d.s + " is not a valid url"))
  }

  function LeafVerdict(c: Check, p: seq<string>): Verdict {
    Verdict(c.ok, if c.complaint.Some? then [Format(p, c.complaint.value)] else [])
  }

  /** `data.index(data[k])`, searching from position `from`: the first position at or
      after `from` holding an element equal to the `k`-th one. */
  function FirstIndex(items: seq<Value>, k: nat, from: nat): (i: nat)
    requires from <= k < |items|
    ensures from <= i <= k && items[i] == items[k]
    ensures forall j :: from <= j < i ==> items[j] != items[k]
    decreases k - from
  {
    if items[from] == items[k] then from else FirstIndex(items, k, from + 1)
  }

  /** The path label of the `k`-th element of a list: `'list:%i' % data.index(item)`,
      which names the first equal element. */
  function ListLabel(items: seq<Value>, k: nat): string
    requires k < |items|
  {
    "list:" + IntToString(FirstIndex(items, k, 0))
  }

  function DictLabel(key: string): string {
    "dict:" + key
  }

  /** `', '.join(names[:-2] + ['']) + ' or '.join(names[-2:])`. */
  function EnglishList(names: seq<string>): string {
    var cut := if |names| >= 2 then |names| - 2 else 0;
    Join(", ", names[..cut] + [""]) + Join(" or ", names[cut..])
  }

  /** The custom messages of the first `k` candidates, in order. */
  function CustomMsgs(rules: seq<Rule>, p: seq<string>, k: nat): (m: seq<string>)
    requires k <= |rules|
    ensures m == [] <==> forall i :: 0 <= i < k ==> !Truthy(rules[i].message)
  {
    if k == 0 then []
    else CustomMsgs(rules, p, k - 1) + (if Truthy(rules[k - 1].message) then [Format(p, rules[k - 1].message.value)] else [])
  }

  /** The pair of messages naming the acceptable kinds and what was found instead. */
  function Mismatch(o: Oracle, item: Value, rules: seq<Rule>, p: seq<string>): (m: seq<string>)
    ensures |m| == 2
  {
    var acceptable := EnglishList(Names(rules));
    var detail :=
      if item.VDict? then "got a dict instead of " + acceptable
      else if item.VList? then "got a list instead of " + acceptable
      else "value '" + Show(o, item) + "' is not valid " + acceptable;
    [Format(p, "must be a `" + acceptable + "` value"), Format(p, detail)]
  }

  /** What `validate_item` logs when no candidate passed and none logged anything: the
      candidates' custom messages, or else the generic pair. */
  function Fallback(o: Oracle, item: Value, rules: seq<Rule>, p: seq<string>): (m: seq<string>)
    ensures m != []
  {
    var custom := CustomMsgs(rules, p, |rules|);
    if custom != [] then custom else Mismatch(o, item, rules, p)
  }

  function RejectText(message: Option<string>, key: string): string {
    if Truthy(message) then SafeSubstitute(message.value, key) else "key '" + key + "' is forbidden here"
  }

  function NotRecognizedText(explicit: seq<KeyRules>, key: string): string {
    "key '" + key + "' is not recognized"
      + (if explicit != [] then ", valid keys: " + Join(", ", SortStrings(ExplicitKeys(explicit))) else "")
  }

  function EntryKeys(es: seq<Entry>): (ks: seq<string>)
    ensures |ks| == |es|
    ensures forall i :: 0 <= i < |es| ==> ks[i] == es[i].key
  {
    seq(|es|, i requires 0 <= i < |es| => es[i].key)
  }

  /** The missing-key messages for the first `k` required keys. */
  function RequiredMsgs(required: seq<string>, entries: seq<Entry>, p: seq<string>, k: nat): (m: seq<string>)
    requires k <= |required|
    ensures m == [] <==> forall i :: 0 <= i < k ==> required[i] in EntryKeys(entries)
  {
    if k == 0 then []
    else
      RequiredMsgs(required, entries, p, k - 1)
        + (if required[k - 1] in EntryKeys(entries) then [] else [Format(p, "key '" + required[k - 1] + "' required")])
  }

  // ---------------------------------------------------------------------------
  // The validation walk

  /** `rule.validate(d)` with the collector's path at `p`. */
  function Eval(o: Oracle, r: Rule, d: Value, p: seq<string>): (v: Verdict)
    decreases Size(r), 5, 0
    ensures v.ok ==> v.msgs == []
  {
    match r.kind
    case RootKind(alts) =>
      assert Size(r) == 1 + RulesSize(alts);
      SelectItem(o, d, alts, p)
    case ListKind(alts) =>
      assert Size(r) == 1 + RulesSize(alts);
      if !d.VList? then Verdict(false, [Format(p, "value must be a list")])
      else
        var m := ListMsgs(o, d.items, alts, p, |d.items|);
        Verdict(m == [], m)
    case DictKind(_, _, _, _, required) =>
      if !d.VDict? then Verdict(false, [Format(p, "value must be a dictionary")])
      else
        var m := EntriesMsgs(o, r, d.entries, p, |d.entries|) + RequiredMsgs(required, d.entries, p, |required|);
        Verdict(m == [], m)
    case _ => LeafVerdict(LeafCheck(o, r, d), p)
  }

  /** The messages left by the first `k` elements of a list, each validated against the
      alternatives under its own path label. */
  function ListMsgs(o: Oracle, items: seq<Value>, alts: seq<Rule>, p: seq<string>, k: nat): seq<string>
    requires k <= |items|
    decreases RulesSize(alts), 4, k
  {
    if k == 0 then []
    else ListMsgs(o, items, alts, p, k - 1) + SelectItem(o, items[k - 1], alts, p + [ListLabel(items, k - 1)]).msgs
  }

  /** `validate_item(item, rules)`. */
  function SelectItem(o: Oracle, item: Value, rules: seq<Rule>, p: seq<string>): (v: Verdict)
    decreases RulesSize(rules), 3, 0
    ensures v.ok ==> v.msgs == []
    ensures !v.ok ==> v.msgs != []
  {
    var t := TryAll(o, item, rules, p, |rules|);
    if t.ok then Verdict(true, [])
    else if t.msgs != [] then Verdict(false, t.msgs)
    else Verdict(false, Fallback(o, item, rules, p))
  }

  /** The first loop of `validate_item` over the first `k` candidates: whether one of them
      applied and passed, and the messages the failing ones logged before it. */
  function TryAll(o: Oracle, item: Value, rules: seq<Rule>, p: seq<string>, k: nat): Verdict
    requires k <= |rules|
    decreases RulesSize(rules), 2, k
  {
    if k == 0 then Verdict(false, [])
    else
      var prev := TryAll(o, item, rules, p, k - 1);
      if prev.ok || !Validateable(rules[k - 1], item) then prev
      else
        RulesSizeElem(rules, k - 1);
        var v := Eval(o, rules[k - 1], item, p);
        if v.ok then Verdict(true, prev.msgs) else Verdict(false, prev.msgs + v.msgs)
  }

  /** The messages left by the first `k` entries of a mapping. */
  function EntriesMsgs(o: Oracle, r: Rule, entries: seq<Entry>, p: seq<string>, k: nat): seq<string>
    requires r.kind.DictKind? && k <= |entries|
    decreases Size(r), 4, k
  {
    if k == 0 then []
    else
      EntriesMsgs(o, r, entries, p, k - 1)
        + EntryMsgs(o, r, entries[k - 1].key, entries[k - 1].value, p + [DictLabel(entries[k - 1].key)])
  }

  /** The messages one mapping entry leaves, with the path already at its key. */
  function EntryMsgs(o: Oracle, r: Rule, key: string, value: Value, p: seq<string>): seq<string>
    requires r.kind.DictKind?
    decreases Size(r), 3, 0
  {
    match IndexOfKey(RejectedKeys(r.kind.rejected), key)
    case Some(i) => [Format(p, RejectText(r.kind.rejected[i].message, key))]
    case None =>
      var sel := ChooseRules(o, r, key, p);
      if sel.rules == [] then sel.leftover + [Format(p, NotRecognizedText(r.kind.explicit, key))]
      else SelectItem(o, value, sel.rules, p).msgs
  }

  /** The alternatives that govern a key that is not rejected: its explicit rules if it
      has any entry, else the value rule of the first key rule that accepts it, else the
      catch-all rules. */
  function ChooseRules(o: Oracle, r: Rule, key: string, p: seq<string>): (sel: Selection)
    requires r.kind.DictKind?
    decreases Size(r), 2, 0
    ensures RulesSize(sel.rules) < Size(r)
    ensures sel.rules != [] ==> sel.leftover == []
  {
    match IndexOfKey(ExplicitKeys(r.kind.explicit), key)
    case Some(i) =>
      ExplicitSizeElem(r.kind.explicit, i);
      Selection(r.kind.explicit[i].rules, [])
    case None =>
      var s := KeySearch(o, r, key, p, |r.kind.keyRules|);
      if s.index.Some? then
        PairsSizeElem(r.kind.keyRules, s.index.value);
        Selection([r.kind.keyRules[s.index.value].valueRule], [])
      else if r.kind.anyKey != [] then Selection(r.kind.anyKey, [])
      else Selection([], s.msgs)
  }

  /** The key-rule loop over the first `k` pairs. */
  function KeySearch(o: Oracle, r: Rule, key: string, p: seq<string>, k: nat): (s: Search)
    requires r.kind.DictKind? && k <= |r.kind.keyRules|
    decreases Size(r), 1, k
    ensures s.index.Some? ==> s.index.value < k
  {
    if k == 0 then Search(None, [])
    else
      var prev := KeySearch(o, r, key, p, k - 1);
      var kv := r.kind.keyRules[k - 1].keyRule;
      if prev.index.Some? || !Validateable(kv, VStr(key)) then prev
      else
        PairsSizeElem(r.kind.keyRules, k - 1);
        assert Size(r) == 1 + KindSize(r.kind);
        var v := Eval(o, kv, VStr(key), p);
        if v.ok then Search(Some(k - 1), prev.msgs) else Search(None, prev.msgs + v.msgs)
  }

  /** Once a candidate has passed, `validate_item` looks at no further candidate. */
  lemma {:induction false} TryAllStable(o: Oracle, item: Value, rules: seq<Rule>, p: seq<string>, i: nat, k: nat)
    requires i <= k <= |rules|
    requires TryAll(o, item, rules, p, i).ok
    ensures TryAll(o, item, rules, p, k) == TryAll(o, item, rules, p, i)
    decreases k
  {
    if k > i {
      TryAllStable(o, item, rules, p, i, k - 1);
    }
  }

  /** Once a key rule has accepted the key, the later pairs are not consulted. */
  lemma {:induction false} KeySearchStable(o: Oracle, r: Rule, key: string, p: seq<string>, i: nat, k: nat)
    requires r.kind.DictKind? && i <= k <= |r.kind.keyRules|
    requires KeySearch(o, r, key, p, i).index.Some?
    ensures KeySearch(o, r, key, p, k) == KeySearch(o, r, key, p, i)
    decreases k
  {
    if k > i {
      KeySearchStable(o, r, key, p, i, k - 1);
    }
  }

  /** An entry whose key is not rejected is judged by the rules chosen for its key. */
  lemma EntryMsgsChosen(o: Oracle, r: Rule, key: string, value: Value, p: seq<string>)
    requires r.kind.DictKind? && IndexOfKey(RejectedKeys(r.kind.rejected), key).None?
    ensures var sel := ChooseRules(o, r, key, p);
            EntryMsgs(o, r, key, value, p)
              == if sel.rules == [] then sel.leftover + [Format(p, NotRecognizedText(r.kind.explicit, key))]
                 else SelectItem(o, value, sel.rules, p).msgs
  {
  }
}
