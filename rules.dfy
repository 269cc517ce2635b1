/** The rule tree: one node per validator, its kind-specific state, the factory that
    creates nodes by kind name, and the `accept`-style operations that add to a node. */
module Rules {
  import opened Values

  /** A validator node: what kind it is, with the kind's own state, and the optional
      custom `message` every validator carries. */
  datatype Rule = Rule(kind: Kind, message: Option<string>)

  datatype Kind =
    | RootKind(alts: seq<Rule>)
    | ChoiceKind(valid: seq<Value>, validIc: seq<string>)
    | AnyKind
    | EqualsKind(literal: Value)
    | NumberKind
    | IntegerKind
    | DecimalKind
    | BooleanKind
    | TextKind
    | RegexpKind
      /** `regexp_match`, and `interval` when `interval` is set (same behaviour, other name). */
    | RegexpMatchKind(patterns: seq<string>, rejects: seq<string>, interval: bool)
    | UrlKind(protocols: seq<string>)
    | ListKind(alts: seq<Rule>)
    | DictKind(rejected: seq<Rejection>, explicit: seq<KeyRules>, keyRules: seq<KeyRule>,
               anyKey: seq<Rule>, required: seq<string>)

  /** A forbidden key, with its optional message template. */
  datatype Rejection = Rejection(key: string, message: Option<string>)

  /** The alternatives registered for one explicitly accepted key. */
  datatype KeyRules = KeyRules(key: string, rules: seq<Rule>)

  /** A key-predicate rule and the rule for the values of the keys it accepts. */
  datatype KeyRule = KeyRule(keyRule: Rule, valueRule: Rule)

  /** The exceptions raised while a tree is being built. */
  datatype Error = Exception(msg: string) | ValueError(msg: string) | NotModelled(name: string)

  // ---------------------------------------------------------------------------
  // Sizes, for termination of the recursive walks over a tree

  function Size(r: Rule): nat {
    1 + KindSize(r.kind)
  }

  function KindSize(k: Kind): nat {
    match k
    case RootKind(alts) => RulesSize(alts)
    case ListKind(alts) => RulesSize(alts)
    case DictKind(_, explicit, keyRules, anyKey, _) =>
      ExplicitSize(explicit) + PairsSize(keyRules) + RulesSize(anyKey)
    case _ => 0
  }

  function RulesSize(rs: seq<Rule>): (n: nat)
    ensures n >= 1
  {
    if rs == [] then 1 else Size(rs[0]) + RulesSize(rs[1..])
  }

  function KeyRulesSize(e: KeyRules): nat {
    RulesSize(e.rules)
  }

  function ExplicitSize(es: seq<KeyRules>): (n: nat)
    ensures n >= 1
  {
    if es == [] then 1 else KeyRulesSize(es[0]) + ExplicitSize(es[1..])
  }

  function PairSize(p: KeyRule): nat {
    Size(p.keyRule) + Size(p.valueRule)
  }

  function PairsSize(ps: seq<KeyRule>): (n: nat)
    ensures n >= 1
  {
    if ps == [] then 1 else PairSize(ps[0]) + PairsSize(ps[1..])
  }

  lemma {:induction false} RulesSizeElem(rs: seq<Rule>, i: nat)
    requires i < |rs|
    ensures Size(rs[i]) < RulesSize(rs)
  {
    if i > 0 {
      RulesSizeElem(rs[1..], i - 1);
      assert rs[1..][i - 1] == rs[i];
    }
  }

  lemma {:induction false} ExplicitSizeElem(es: seq<KeyRules>, i: nat)
    requires i < |es|
    ensures RulesSize(es[i].rules) < ExplicitSize(es)
  {
    if i > 0 {
      ExplicitSizeElem(es[1..], i - 1);
      assert es[1..][i - 1] == es[i];
    }
  }

  lemma {:induction false} PairsSizeElem(ps: seq<KeyRule>, i: nat)
    requires i < |ps|
    ensures Size(ps[i].keyRule) < PairsSize(ps)
    ensures RulesSize([ps[i].valueRule]) < PairsSize(ps)
  {
    if i > 0 {
      PairsSizeElem(ps[1..], i - 1);
      assert ps[1..][i - 1] == ps[i];
    } else {
      assert [ps[0].valueRule][1..] == [];
    }
  }

  // ---------------------------------------------------------------------------
  // Names and shape tests

  /** The registered `name` of the node's class. */
  function Name(r: Rule): string {
    match r.kind
    case RootKind(_) => "root"
    case ChoiceKind(_, _) => "choice"
    case AnyKind => "any"
    case EqualsKind(_) => "equals"
    case NumberKind => "number"
    case IntegerKind => "integer"
    case DecimalKind => "decimal"
    case BooleanKind => "boolean"
    case TextKind => "text"
    case RegexpKind => "regexp"
    case RegexpMatchKind(_, _, interval) => if interval then "interval" else "regexp_match"
    case UrlKind(_) => "url"
    case ListKind(_) => "list"
    case DictKind(_, _, _, _, _) => "dict"
  }

  function Names(rules: seq<Rule>): (r: seq<string>)
    ensures |r| == |rules|
    ensures forall i :: 0 <= i < |rules| ==> r[i] == Name(rules[i])
  {
    if rules == [] then [] else [Name(rules[0])] + Names(rules[1..])
  }

  /** `validateable(data)`: whether the node applies to data of this shape at all. */
  predicate Validateable(r: Rule, d: Value) {
    match r.kind
    case RootKind(_) => true
    case AnyKind => true
    case ChoiceKind(_, _) => IsScalar(d)
    case EqualsKind(_) => IsScalar(d)
    case NumberKind => IsNumber(d)
    case IntegerKind => IsInt(d)
    case DecimalKind => d.VFloat?
    case BooleanKind => d.VBool?
    case TextKind => d.VStr?
    case RegexpKind => d.VStr?
    case RegexpMatchKind(_, _, _) => d.VStr?
    case UrlKind(_) => d.VStr?
    case ListKind(_) => d.VList?
    case DictKind(_, _, _, _, _) => d.VDict?
  }

  // ---------------------------------------------------------------------------
  // Key lookup in the per-node tables

  /** Position of the first occurrence of `key`, as a Python dict lookup finds it. */
  function IndexOfKey(keys: seq<string>, key: string): (r: Option<nat>)
    ensures r.Some? ==> r.value < |keys| && keys[r.value] == key
    ensures r.Some? ==> forall j :: 0 <= j < r.value ==> keys[j] != key
    ensures r.None? <==> key !in keys
  {
    if keys == [] then None
    else if keys[0] == key then Some(0)
    else match IndexOfKey(keys[1..], key)
      case None => None
      case Some(j) => Some(j + 1)
  }

  /** The first occurrence is unique: any position that holds `key` with no earlier
      occurrence is the one `IndexOfKey` finds. */
  lemma {:induction false} IndexOfKeyIsFirst(keys: seq<string>, key: string, j: nat)
    requires j < |keys| && keys[j] == key
    requires forall i :: 0 <= i < j ==> keys[i] != key
    ensures IndexOfKey(keys, key) == Some(j)
  {
    if j > 0 {
      IndexOfKeyIsFirst(keys[1..], key, j - 1);
    }
  }

  function ExplicitKeys(es: seq<KeyRules>): (ks: seq<string>)
    ensures |ks| == |es|
    ensures forall i :: 0 <= i < |es| ==> ks[i] == es[i].key
  {
    seq(|es|, i requires 0 <= i < |es| => es[i].key)
  }

  function RejectedKeys(rs: seq<Rejection>): (ks: seq<string>)
    ensures |ks| == |rs|
    ensures forall i :: 0 <= i < |rs| ==> ks[i] == rs[i].key
  {
    seq(|rs|, i requires 0 <= i < |rs| => rs[i].key)
  }

  predicate NoDuplicates(ks: seq<string>) {
    forall i, j :: 0 <= i < j < |ks| ==> ks[i] != ks[j]
  }

  /** `self.valid.get(key, [])` on a dict node. */
  function RulesFor(es: seq<KeyRules>, key: string): seq<Rule> {
    match IndexOfKey(ExplicitKeys(es), key)
    case None => []
    case Some(i) => es[i].rules
  }

  // ---------------------------------------------------------------------------
  // Building a tree

  const IntervalPattern: string := "^\\d+ (second|minute|hour|day|week)s?$"
  const IntervalMessage: string := "should be in format 'x (seconds|minutes|hours|days|weeks)'"
  const InvalidRegexp: string := "Invalid regexp given to match_regexp"
  const ChoiceNotScalar: string := "Choice validator only accepts strings and numbers"
  const KeyMissing: string := "dict.accept() must specify key"
  const ExclusiveSelectors: string := "key_type and key_validator are mutually exclusive"
  const MissingSelector: string := "dict.accept_valid_keys() must specify key_type or key_validator"
  const DefaultProtocols: seq<string> := ["ftp", "http", "https", "file"]

  /** Every name the metaclass registers. */
  const Registry: set<string> := {
    "validator", "root", "choice", "any", "equals", "number", "integer", "decimal",
    "boolean", "text", "regexp", "regexp_match", "interval", "file", "path", "url",
    "list", "dict", "quality", "quality_requirements"}

  /** Registered names whose validators are not part of this model. */
  const Unmodelled: set<string> := {"validator", "file", "path", "quality", "quality_requirements"}

  function UnknownValidator(name: string): string {
    "Asked unknown validator '" + name + "'"
  }

  /** A node as its constructor leaves it: nothing accepted, rejected or required yet;
      a url node with the default protocols, an interval node with its one pattern, and
      an equals node still comparing with the base class's initial `[]`. */
  predicate Fresh(r: Rule) {
    match r.kind
    case RootKind(alts) => alts == []
    case ChoiceKind(valid, validIc) => valid == [] && validIc == []
    case EqualsKind(literal) => literal == VList([])
    case RegexpMatchKind(patterns, rejects, interval) =>
      rejects == [] && patterns == if interval then [IntervalPattern] else []
    case UrlKind(protocols) => protocols == DefaultProtocols
    case ListKind(alts) => alts == []
    case DictKind(rejected, explicit, keyRules, anyKey, required) =>
      rejected == [] && explicit == [] && keyRules == [] && anyKey == [] && required == []
    case _ => true
  }

  /** `factory(name, message=message)`: a fresh node of the named kind. */
  function Factory(o: Oracle, name: string, message: Option<string>): (r: Result<Rule, Error>)
    ensures name !in Registry ==> r == Err(Exception(UnknownValidator(name)))
    ensures name in Unmodelled ==> r == Err(NotModelled(name))
    ensures name in Registry - Unmodelled - {"interval"} ==> r.Ok? && r.value.message == message
    ensures name == "interval" ==> (r.Ok? <==> o.compiles(IntervalPattern))
    ensures name == "interval" && r.Ok? ==> r.value.message == Some(IntervalMessage)
    ensures r.Ok? ==> Name(r.value) == name && Fresh(r.value)
  {
    if name == "root" then Ok(Rule(RootKind([]), message))
    else if name == "choice" then Ok(Rule(ChoiceKind([], []), message))
    else if name == "any" then Ok(Rule(AnyKind, message))
    // an equals node nobody called accept on still holds the base class's initial `[]`
    else if name == "equals" then Ok(Rule(EqualsKind(VList([])), message))
    else if name == "number" then Ok(Rule(NumberKind, message))
    else if name == "integer" then Ok(Rule(IntegerKind, message))
    else if name == "decimal" then Ok(Rule(DecimalKind, message))
    else if name == "boolean" then Ok(Rule(BooleanKind, message))
    else if name == "text" then Ok(Rule(TextKind, message))
    else if name == "regexp" then Ok(Rule(RegexpKind, message))
    else if name == "regexp_match" then Ok(Rule(RegexpMatchKind([], [], false), message))
    else if name == "interval" then
      // the constructor accepts the interval pattern, then overwrites any given message
      if o.compiles(IntervalPattern) then Ok(Rule(RegexpMatchKind([IntervalPattern], [], true), Some(IntervalMessage)))
      else Err(ValueError(InvalidRegexp))
    else if name == "url" then Ok(Rule(UrlKind(DefaultProtocols), message))
    else if name == "list" then Ok(Rule(ListKind([]), message))
    else if name == "dict" then Ok(Rule(DictKind([], [], [], [], []), message))
    else if name in Unmodelled then Err(NotModelled(name))
    else Err(Exception(UnknownValidator(name)))
  }

  /** `factory('url', protocols=protocols)`: an empty or missing protocol list means the
      default one. */
  function UrlNode(o: Oracle, protocols: seq<string>, message: Option<string>): (r: Rule)
    ensures r.kind.UrlKind? && r.kind.protocols != [] && r.message == message
    ensures protocols != [] ==> r.kind.protocols == protocols
    ensures protocols == [] ==> Factory(o, "url", message) == Ok(r)
  {
    Rule(UrlKind(if protocols == [] then DefaultProtocols else protocols), message)
  }

  /** `accept(v)` on a root or list node: one more alternative, at the end. */
  function AcceptAlternative(r: Rule, child: Rule): (r': Rule)
    requires r.kind.RootKind? || r.kind.ListKind?
    ensures r'.kind.RootKind? == r.kind.RootKind? && r'.kind.ListKind? == r.kind.ListKind?
    ensures r'.kind.alts == r.kind.alts + [child] && r'.message == r.message
  {
    if r.kind.RootKind? then Rule(RootKind(r.kind.alts + [child]), r.message)
    else Rule(ListKind(r.kind.alts + [child]), r.message)
  }

  /** `ChoiceValidator.accept(value, ignore_case)`. */
  function AcceptChoice(r: Rule, value: Value, ignoreCase: bool): (res: Result<Rule, Error>)
    requires r.kind.ChoiceKind?
    ensures !IsScalar(value) <==> res.Err?
    ensures res.Err? ==> res.error == Exception(ChoiceNotScalar)
    ensures res.Ok? && value.VStr? && ignoreCase ==>
              res.value == Rule(ChoiceKind(r.kind.valid, r.kind.validIc + [Lower(value.s)]), r.message)
    ensures res.Ok? && !(value.VStr? && ignoreCase) ==>
              res.value == Rule(ChoiceKind(r.kind.valid + [value], r.kind.validIc), r.message)
  {
    if !IsScalar(value) then Err(Exception(ChoiceNotScalar))
    else if value.VStr? && ignoreCase then Ok(Rule(ChoiceKind(r.kind.valid, r.kind.validIc + [Lower(value.s)]), r.message))
    else Ok(Rule(ChoiceKind(r.kind.valid + [value], r.kind.validIc), r.message))
  }

  /** The values `accept_choices` stores as they are: all of them, except the texts when
      case is ignored. */
  function StoredAsIs(values: seq<Value>, ignoreCase: bool): (vs: seq<Value>)
    ensures !ignoreCase ==> vs == values
    decreases |values|
  {
    if values == [] then []
    else (if values[0].VStr? && ignoreCase then [] else [values[0]]) + StoredAsIs(values[1..], ignoreCase)
  }

  /** The lower-cased texts `accept_choices` stores when case is ignored. */
  function StoredLowered(values: seq<Value>, ignoreCase: bool): (ss: seq<string>)
    ensures !ignoreCase ==> ss == []
    decreases |values|
  {
    if values == [] then []
    else (if values[0].VStr? && ignoreCase then [Lower(values[0].s)] else []) + StoredLowered(values[1..], ignoreCase)
  }

  /** One accepted value moves the stored lists forward by one step. */
  lemma StoredStep(r: Rule, r1: Rule, values: seq<Value>, ignoreCase: bool)
    requires r.kind.ChoiceKind? && values != [] && AcceptChoice(r, values[0], ignoreCase) == Ok(r1)
    ensures r1.kind.valid + StoredAsIs(values[1..], ignoreCase) == r.kind.valid + StoredAsIs(values, ignoreCase)
    ensures r1.kind.validIc + StoredLowered(values[1..], ignoreCase) == r.kind.validIc + StoredLowered(values, ignoreCase)
  {
    AppendAssoc(r.kind.valid, if values[0].VStr? && ignoreCase then [] else [values[0]], StoredAsIs(values[1..], ignoreCase));
    AppendAssoc(r.kind.validIc, if values[0].VStr? && ignoreCase then [Lower(values[0].s)] else [], StoredLowered(values[1..], ignoreCase));
  }

  /** `accept_choices(values, ignore_case)`: `accept` for each value in turn, stopping at
      the first that raises. */
  function AcceptChoices(r: Rule, values: seq<Value>, ignoreCase: bool): (res: Result<Rule, Error>)
    requires r.kind.ChoiceKind?
    ensures res.Ok? <==> forall i :: 0 <= i < |values| ==> IsScalar(values[i])
    ensures res.Ok? ==> res.value.kind.ChoiceKind? && res.value.message == r.message
    ensures res.Ok? ==> res.value.kind.valid == r.kind.valid + StoredAsIs(values, ignoreCase)
    ensures res.Ok? ==> res.value.kind.validIc == r.kind.validIc + StoredLowered(values, ignoreCase)
    ensures res.Ok? && !ignoreCase ==> res.value.kind.valid == r.kind.valid + values && res.value.kind.validIc == r.kind.validIc
    decreases |values|
  {
    if values == [] then Ok(r)
    else match AcceptChoice(r, values[0], ignoreCase)
      case Err(e) => Err(e)
      case Ok(r1) =>
        var rest := AcceptChoices(r1, values[1..], ignoreCase);
        assert forall i :: 1 <= i < |values| ==> values[i] == values[1..][i - 1];
        StoredStep(r, r1, values, ignoreCase);
        rest
  }

  /** `EqualsValidator.accept(value)`: the literal to compare with. */
  function AcceptEquals(r: Rule, value: Value): (r': Rule)
    requires r.kind.EqualsKind?
    ensures r' == Rule(EqualsKind(value), r.message)
  {
    Rule(EqualsKind(value), r.message)
  }

  /** `RegexpMatchValidator.accept(regexp, message=...)`: compile and append the pattern;
      a non-empty message replaces the node's message. */
  function AcceptPattern(o: Oracle, r: Rule, pattern: string, message: Option<string>): (res: Result<Rule, Error>)
    requires r.kind.RegexpMatchKind?
    ensures res.Err? <==> !o.compiles(pattern)
    ensures res.Err? ==> res.error == ValueError(InvalidRegexp)
    ensures res.Ok? ==> res.value.kind == r.kind.(patterns := r.kind.patterns + [pattern])
    ensures res.Ok? ==> res.value.message == if Truthy(message) then message else r.message
  {
    if !o.compiles(pattern) then Err(ValueError(InvalidRegexp))
    else Ok(Rule(r.kind.(patterns := r.kind.patterns + [pattern]), if Truthy(message) then message else r.message))
  }

  /** `RegexpMatchValidator.reject(regexp)`. */
  function RejectPattern(o: Oracle, r: Rule, pattern: string): (res: Result<Rule, Error>)
    requires r.kind.RegexpMatchKind?
    ensures res.Err? <==> !o.compiles(pattern)
    ensures res.Ok? ==> res.value == r.(kind := r.kind.(rejects := r.kind.rejects + [pattern]))
  {
    if !o.compiles(pattern) then Err(ValueError(InvalidRegexp))
    else Ok(r.(kind := r.kind.(rejects := r.kind.rejects + [pattern])))
  }

  /** `self.valid.setdefault(key, []).append(rule)`. */
  function AddKeyRule(es: seq<KeyRules>, key: string, rule: Rule): (es': seq<KeyRules>)
    ensures NoDuplicates(ExplicitKeys(es)) ==> NoDuplicates(ExplicitKeys(es'))
    ensures key in ExplicitKeys(es')
    ensures forall k :: k in ExplicitKeys(es') <==> k in ExplicitKeys(es) || k == key
    ensures RulesFor(es', key) == RulesFor(es, key) + [rule]
    ensures forall k :: k != key ==> RulesFor(es', k) == RulesFor(es, k)
  {
    match IndexOfKey(ExplicitKeys(es), key)
    case Some(i) =>
      var es' := es[i := KeyRules(key, es[i].rules + [rule])];
      assert ExplicitKeys(es') == ExplicitKeys(es);
      es'
    case None =>
      var es' := es + [KeyRules(key, [rule])];
      assert ExplicitKeys(es') == ExplicitKeys(es) + [key];
      forall k | k != key ensures RulesFor(es', k) == RulesFor(es, k) {
        if k in ExplicitKeys(es) {
          var j := IndexOfKey(ExplicitKeys(es), k).value;
          IndexOfKeyIsFirst(ExplicitKeys(es'), k, j);
        }
      }
      es'
  }

  /** `require_key(key)`: mark a key mandatory, once. */
  function RequireKey(required: seq<string>, key: string): (r: seq<string>)
    ensures NoDuplicates(required) ==> NoDuplicates(r)
    ensures forall k :: k in r <==> k in required || k == key
    ensures key in required ==> r == required
  {
    if key in required then required else required + [key]
  }

  /** `DictValidator.accept(rule, key=key, required=required)`. */
  function AcceptKey(d: Rule, rule: Rule, key: Option<string>, required: bool): (res: Result<Rule, Error>)
    requires d.kind.DictKind?
    ensures res.Err? <==> !Truthy(key)
    ensures res.Err? ==> res.error == ValueError(KeyMissing)
    ensures res.Ok? ==> res.value.kind.DictKind? && res.value.message == d.message
    ensures res.Ok? ==> RulesFor(res.value.kind.explicit, key.value) == RulesFor(d.kind.explicit, key.value) + [rule]
    ensures res.Ok? ==> forall k :: k != key.value ==> RulesFor(res.value.kind.explicit, k) == RulesFor(d.kind.explicit, k)
    ensures res.Ok? ==> forall k :: k in ExplicitKeys(res.value.kind.explicit) <==> k in ExplicitKeys(d.kind.explicit) || k == key.value
    ensures res.Ok? ==> res.value.kind.required == if required then RequireKey(d.kind.required, key.value) else d.kind.required
    ensures res.Ok? ==> res.value.kind.rejected == d.kind.rejected && res.value.kind.keyRules == d.kind.keyRules
                        && res.value.kind.anyKey == d.kind.anyKey
  {
    if !Truthy(key) then Err(ValueError(KeyMissing))
    else
      var req := if required then RequireKey(d.kind.required, key.value) else d.kind.required;
      Ok(Rule(d.kind.(explicit := AddKeyRule(d.kind.explicit, key.value, rule), required := req), d.message))
  }

  /** `self.reject[key] = message`: a later rejection of the same key replaces the message. */
  function SetRejection(rs: seq<Rejection>, key: string, message: Option<string>): (rs': seq<Rejection>)
    ensures forall k :: k in RejectedKeys(rs') <==> k in RejectedKeys(rs) || k == key
    ensures var i := IndexOfKey(RejectedKeys(rs'), key); i.Some? && rs'[i.value].message == message
    ensures forall k :: k != key ==> IndexOfKey(RejectedKeys(rs'), k) == IndexOfKey(RejectedKeys(rs), k)
    ensures forall k :: k != key && k in RejectedKeys(rs) ==>
              rs'[IndexOfKey(RejectedKeys(rs'), k).value] == rs[IndexOfKey(RejectedKeys(rs), k).value]
  {
    match IndexOfKey(RejectedKeys(rs), key)
    case Some(i) =>
      var rs' := rs[i := Rejection(key, message)];
      assert RejectedKeys(rs') == RejectedKeys(rs);
      rs'
    case None =>
      var rs' := rs + [Rejection(key, message)];
      assert RejectedKeys(rs') == RejectedKeys(rs) + [key];
      forall k | k != key ensures IndexOfKey(RejectedKeys(rs'), k) == IndexOfKey(RejectedKeys(rs), k) {
        if k in RejectedKeys(rs) {
          var j := IndexOfKey(RejectedKeys(rs), k).value;
          IndexOfKeyIsFirst(RejectedKeys(rs'), k, j);
        }
      }
      rs'
  }

  /** `reject_key(key, message)`. */
  function RejectKey(d: Rule, key: string, message: Option<string>): (r: Rule)
    requires d.kind.DictKind?
    ensures r.kind.DictKind? && r.message == d.message
    ensures r.kind == d.kind.(rejected := SetRejection(d.kind.rejected, key, message))
  {
    Rule(d.kind.(rejected := SetRejection(d.kind.rejected, key, message)), d.message)
  }

  /** `reject_keys(keys, message)`. */
  function RejectKeys(d: Rule, keys: seq<string>, message: Option<string>): (r: Rule)
    requires d.kind.DictKind?
    ensures r.kind.DictKind? && r.message == d.message
    ensures r.kind.explicit == d.kind.explicit && r.kind.required == d.kind.required
    ensures r.kind.keyRules == d.kind.keyRules && r.kind.anyKey == d.kind.anyKey
    ensures forall k :: k in RejectedKeys(r.kind.rejected) <==> k in RejectedKeys(d.kind.rejected) || k in keys
    ensures forall k :: k in keys ==>
              r.kind.rejected[IndexOfKey(RejectedKeys(r.kind.rejected), k).value].message == message
    ensures forall k :: k !in keys && k in RejectedKeys(d.kind.rejected) ==>
              r.kind.rejected[IndexOfKey(RejectedKeys(r.kind.rejected), k).value]
              == d.kind.rejected[IndexOfKey(RejectedKeys(d.kind.rejected), k).value]
    decreases |keys|
  {
    if keys == [] then d
    else
      var d1 := RejectKey(d, keys[0], message);
      var r := RejectKeys(d1, keys[1..], message);
      assert forall k :: k in keys <==> k == keys[0] || k in keys[1..];
      r
  }

  /** `DictValidator.require_key(key)`. */
  function RequireDictKey(d: Rule, key: string): (r: Rule)
    requires d.kind.DictKind?
    ensures r.kind == d.kind.(required := RequireKey(d.kind.required, key)) && r.message == d.message
  {
    Rule(d.kind.(required := RequireKey(d.kind.required, key)), d.message)
  }

  /** `accept_any_key(rule)`: one more catch-all alternative. */
  function AcceptAnyKey(d: Rule, rule: Rule): (r: Rule)
    requires d.kind.DictKind?
    ensures r.kind == d.kind.(anyKey := d.kind.anyKey + [rule]) && r.message == d.message
  {
    Rule(d.kind.(anyKey := d.kind.anyKey + [rule]), d.message)
  }

  /** `factory(name)` for each name in turn, stopping at the first that raises. */
  function FactoryAll(o: Oracle, names: seq<string>): (res: Result<seq<Rule>, Error>)
    ensures res.Ok? <==> forall i :: 0 <= i < |names| ==> Factory(o, names[i], None).Ok?
    ensures res.Ok? ==> Names(res.value) == names
    ensures res.Ok? ==> |res.value| == |names| && forall i :: 0 <= i < |names| ==> Factory(o, names[i], None) == Ok(res.value[i])
    decreases |names|
  {
    if names == [] then Ok([])
    else match Factory(o, names[0], None)
      case Err(e) => Err(e)
      case Ok(child) =>
        match FactoryAll(o, names[1..])
        case Err(e) => Err(e)
        case Ok(rest) =>
          assert Names([child] + rest) == [Name(child)] + Names(rest);
          assert forall i :: 1 <= i < |names| ==> names[i] == names[1..][i - 1];
          Ok([child] + rest)
  }

  /** The root node `accept_valid_keys` builds from a list of kind names. */
  function RootOfNames(o: Oracle, names: seq<string>): (res: Result<Rule, Error>)
    ensures res.Ok? <==> forall i :: 0 <= i < |names| ==> Factory(o, names[i], None).Ok?
    ensures res.Ok? ==> res.value.kind.RootKind? && Names(res.value.kind.alts) == names
    ensures res.Ok? ==> res.value.message == None && res.value.kind.alts == FactoryAll(o, names).value
  {
    match FactoryAll(o, names)
    case Err(e) => Err(e)
    case Ok(alts) => Ok(Rule(RootKind(alts), None))
  }

  /** `self.key_validators.append(pair)`. */
  function WithKeyRule(d: Rule, pair: KeyRule): (r: Rule)
    requires d.kind.DictKind?
    ensures r.kind.DictKind? && r.message == d.message
    ensures r.kind.explicit == d.kind.explicit && r.kind.anyKey == d.kind.anyKey
            && r.kind.rejected == d.kind.rejected && r.kind.required == d.kind.required
    ensures r.kind.keyRules == d.kind.keyRules + [pair]
    ensures |r.kind.keyRules| == |d.kind.keyRules| + 1 && r.kind.keyRules[..|d.kind.keyRules|] == d.kind.keyRules
    ensures r.kind.keyRules[|d.kind.keyRules|] == pair
  {
    Rule(d.kind.(keyRules := d.kind.keyRules + [pair]), d.message)
  }

  /** `accept_valid_keys(rule, key_type=..., key_validator=...)`: keys the key-predicate
      accepts have their values validated by `rule`. An empty `keyType` stands for "not
      given". */
  function AcceptValidKeys(o: Oracle, d: Rule, rule: Rule, keyType: seq<string>, keyValidator: Option<Rule>): (res: Result<Rule, Error>)
    requires d.kind.DictKind?
    ensures keyType != [] && keyValidator.Some? ==> res == Err(ValueError(ExclusiveSelectors))
    ensures keyType == [] && keyValidator.None? ==> res == Err(ValueError(MissingSelector))
    ensures keyType == [] && keyValidator.Some? ==> res.Ok?
    ensures keyType != [] && keyValidator.None? ==>
              (res.Ok? <==> forall i :: 0 <= i < |keyType| ==> Factory(o, keyType[i], None).Ok?)
    ensures res.Ok? ==> res.value.kind.DictKind? && res.value.message == d.message
    ensures res.Ok? ==> res.value.kind.explicit == d.kind.explicit && res.value.kind.anyKey == d.kind.anyKey
                        && res.value.kind.rejected == d.kind.rejected && res.value.kind.required == d.kind.required
    ensures keyValidator.Some? && res.Ok? ==> res.value.kind.keyRules == d.kind.keyRules + [KeyRule(keyValidator.value, rule)]
    ensures res.Ok? ==> |res.value.kind.keyRules| == |d.kind.keyRules| + 1 && res.value.kind.keyRules[..|d.kind.keyRules|] == d.kind.keyRules
    ensures res.Ok? ==> res.value.kind.keyRules[|d.kind.keyRules|].valueRule == rule
    ensures keyType != [] && res.Ok? ==> res.value.kind.keyRules[|d.kind.keyRules|].keyRule == RootOfNames(o, keyType).value
  {
    if keyType != [] && keyValidator.Some? then Err(ValueError(ExclusiveSelectors))
    else if keyValidator.Some? then Ok(WithKeyRule(d, KeyRule(keyValidator.value, rule)))
    else if keyType != [] then
      var built := RootOfNames(o, keyType);
      if built.Err? then Err(built.error) else Ok(WithKeyRule(d, KeyRule(built.value, rule)))
    else Err(ValueError(MissingSelector))
  }
}
