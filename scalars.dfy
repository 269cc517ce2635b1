/** What the scalar validators accept and what they log, and how the operations that
    configure them change what they accept. */
module Scalars {
  import opened Values
  import opened Rules
  import opened Diagnostics
  import opened Semantics

  // ---------------------------------------------------------------------------
  // Every validator

  /** A node passes iff it logs nothing, so the callers' "no new message since the count
      was taken" test agrees with the return value. The one exception is `equals`, which
      fails without logging. */
  lemma PassIffSilent(o: Oracle, r: Rule, d: Value, p: seq<string>)
    requires !r.kind.EqualsKind?
    ensures Eval(o, r, d, p).ok <==> Eval(o, r, d, p).msgs == []
  {
    if IsLeaf(r.kind) {
      var c := LeafCheck(o, r, d);
      assert Eval(o, r, d, p) == LeafVerdict(c, p);
    }
  }

  /** A failing scalar check other than `equals` logs exactly one message, at the current
      path; `equals` never logs. */
  lemma LeafMessages(o: Oracle, r: Rule, d: Value, p: seq<string>)
    requires IsLeaf(r.kind)
    ensures !Eval(o, r, d, p).ok && !r.kind.EqualsKind? ==>
              |Eval(o, r, d, p).msgs| == 1 && Eval(o, r, d, p).msgs[0] == Format(p, LeafCheck(o, r, d).complaint.value)
    ensures r.kind.EqualsKind? ==> Eval(o, r, d, p).msgs == []
  {
    assert Eval(o, r, d, p) == LeafVerdict(LeafCheck(o, r, d), p);
  }

  /** A scalar check passes only data it declares itself applicable to, provided a choice
      node holds scalar choices only (which `accept` guarantees). `equals` is the
      exception: see `EqualsDefaultPassesInapplicable`. */
  lemma PassImpliesValidateable(o: Oracle, r: Rule, d: Value, p: seq<string>)
    requires IsLeaf(r.kind) && !r.kind.EqualsKind?
    requires r.kind.ChoiceKind? ==> forall i :: 0 <= i < |r.kind.valid| ==> IsScalar(r.kind.valid[i])
    ensures Eval(o, r, d, p).ok ==> Validateable(r, d)
  {
    assert Eval(o, r, d, p) == LeafVerdict(LeafCheck(o, r, d), p);
    if r.kind.ChoiceKind? && d in r.kind.valid {
      var i :| 0 <= i < |r.kind.valid| && r.kind.valid[i] == d;
    }
  }

  /** After `accept(v)` an `equals` node passes exactly the data equal to `v`, and logs
      nothing either way. */
  lemma EqualsPasses(o: Oracle, r: Rule, v: Value, d: Value, p: seq<string>)
    requires r.kind.EqualsKind?
    ensures Eval(o, AcceptEquals(r, v), d, p) == Verdict(d == v, [])
  {
    assert LeafCheck(o, AcceptEquals(r, v), d) == Check(v == d, None);
  }

  /** An `equals` node nobody called `accept` on compares with the empty list it was
      created with, so it passes `[]`; yet it declares itself inapplicable to lists, so
      inside a root it never gets to. */
  lemma EqualsDefaultPassesInapplicable(o: Oracle, p: seq<string>)
    ensures Factory(o, "equals", None).Ok?
    ensures var e := Factory(o, "equals", None).value;
            Eval(o, e, VList([]), p).ok && !Validateable(e, VList([]))
              && !Eval(o, Rule(RootKind([e]), None), VList([]), p).ok
  {
    var e := Factory(o, "equals", None).value;
    assert e == Rule(EqualsKind(VList([])), None);
    assert TryAll(o, VList([]), [e], p, 1) == Verdict(false, []);
  }

  // ---------------------------------------------------------------------------
  // number, integer, decimal, boolean, text, regexp, url

  /** What a type check calls the type it wants. */
  function TypeWord(k: Kind): string
    requires k.NumberKind? || k.IntegerKind? || k.DecimalKind? || k.BooleanKind? || k.TextKind?
  {
    match k
    case NumberKind => "number"
    case IntegerKind => "integer"
    case DecimalKind => "decimal number"
    case BooleanKind => "boolean"
    case TextKind => "text"
  }

  /** A type check passes exactly the data it declares itself applicable to (so booleans
      count as numbers and integers, and integers outside the 64-bit range as numbers
      only), and anything else gets "value <data> is not valid <type>". */
  lemma TypeCheckPasses(o: Oracle, r: Rule, d: Value, p: seq<string>)
    requires r.kind.NumberKind? || r.kind.IntegerKind? || r.kind.DecimalKind? || r.kind.BooleanKind? || r.kind.TextKind?
    ensures Eval(o, r, d, p).ok <==> Validateable(r, d)
    ensures r.kind.NumberKind? ==> (Eval(o, r, d, p).ok <==> d.VBool? || d.VInt? || d.VFloat?)
    ensures r.kind.IntegerKind? ==> (Eval(o, r, d, p).ok <==> d.VBool? || (d.VInt? && -MaxInt - 1 <= d.i <= MaxInt))
    ensures !Eval(o, r, d, p).ok ==>
              Eval(o, r, d, p).msgs == [Format(p, NotValid(o, d, TypeWord(r.kind)))]
  {
    assert Eval(o, r, d, p) == LeafVerdict(LeafCheck(o, r, d), p);
  }

  /** A `regexp` node passes exactly the texts that compile as a regular expression. */
  lemma RegexpPasses(o: Oracle, r: Rule, d: Value, p: seq<string>)
    requires r.kind.RegexpKind?
    ensures Eval(o, r, d, p).ok <==> d.VStr? && o.compiles(d.s)
    ensures !d.VStr? ==> Eval(o, r, d, p).msgs == [Format(p, "Value should be text")]
    ensures d.VStr? && !o.compiles(d.s) ==> Eval(o, r, d, p).msgs == [Format(p, d.s + " is not a valid regular expression")]
  {
    assert Eval(o, r, d, p) == LeafVerdict(LeafCheck(o, r, d), p);
  }

  /** A `url` node passes exactly the texts the URL pattern over its protocols matches. */
  lemma UrlPasses(o: Oracle, r: Rule, d: Value, p: seq<string>)
    requires r.kind.UrlKind?
    ensures Eval(o, r, d, p).ok <==> d.VStr? && o.matches(UrlPattern(r.kind.protocols), d.s)
    ensures !d.VStr? ==> Eval(o, r, d, p).msgs == [Format(p, "expecting text")]
    ensures d.VStr? && !Eval(o, r, d, p).ok ==> Eval(o, r, d, p).msgs == [Format(p, "value " + d.s + " is not a valid url")]
  {
    assert Eval(o, r, d, p) == LeafVerdict(LeafCheck(o, r, d), p);
  }

  // ---------------------------------------------------------------------------
  // choice

  /** A choice node passes exactly its accepted values, and text whose lower-case form
      is among the case-insensitive ones; anything else gets the one complaint listing
      every choice. */
  lemma ChoicePasses(o: Oracle, r: Rule, d: Value, p: seq<string>)
    requires r.kind.ChoiceKind?
    ensures Eval(o, r, d, p).ok <==> d in r.kind.valid || (d.VStr? && Lower(d.s) in r.kind.validIc)
    ensures !Eval(o, r, d, p).ok ==>
              Eval(o, r, d, p).msgs == [Format(p, ChoiceComplaint(o, r.kind.valid, r.kind.validIc, d))]
  {
    assert Eval(o, r, d, p) == LeafVerdict(LeafCheck(o, r, d), p);
  }

  /** A value accepted into a choice node then passes it, and so does, for a text
      accepted case-insensitively, every text equal to it up to letter case; whatever
      passed before still passes. */
  lemma AcceptChoiceThenValidate(o: Oracle, r: Rule, value: Value, ignoreCase: bool, d: Value, p: seq<string>)
    requires r.kind.ChoiceKind? && IsScalar(value)
    ensures AcceptChoice(r, value, ignoreCase).Ok?
    ensures Eval(o, AcceptChoice(r, value, ignoreCase).value, value, p).ok
    ensures ignoreCase && value.VStr? && d.VStr? && Lower(d.s) == Lower(value.s) ==>
              Eval(o, AcceptChoice(r, value, ignoreCase).value, d, p).ok
    ensures Eval(o, r, d, p).ok ==> Eval(o, AcceptChoice(r, value, ignoreCase).value, d, p).ok
  {
    var r' := AcceptChoice(r, value, ignoreCase).value;
    ChoicePasses(o, r, d, p);
    ChoicePasses(o, r', d, p);
    ChoicePasses(o, r', value, p);
    if value.VStr? && ignoreCase {
      assert r'.kind.validIc == r.kind.validIc + [Lower(value.s)];
      LowerIdempotent(value.s);
      assert Lower(value.s) in r'.kind.validIc;
    } else {
      assert r'.kind.valid == r.kind.valid + [value];
      assert value in r'.kind.valid;
    }
  }

  /** Accepting `Foo` ignoring case stores it lower-cased. */
  lemma AcceptFooIgnoringCase()
    ensures AcceptChoice(Rule(ChoiceKind([], []), None), VStr("Foo"), true) == Ok(Rule(ChoiceKind([], ["foo"]), None))
  {
    assert Lower("Foo") == "foo" by {
      assert LowerChar('F') == 'f';
    }
    assert [] + [Lower("Foo")] == ["foo"];
  }

  /** A choice node that accepted `Foo` ignoring case passes `foo` and `FOO`. */
  lemma ChoiceIgnoreCasePasses(o: Oracle)
    ensures AcceptChoice(Rule(ChoiceKind([], []), None), VStr("Foo"), true).Ok?
    ensures var c := AcceptChoice(Rule(ChoiceKind([], []), None), VStr("Foo"), true).value;
            Eval(o, c, VStr("foo"), []).ok && Eval(o, c, VStr("FOO"), []).ok
  {
    AcceptFooIgnoringCase();
    var c := Rule(ChoiceKind([], ["foo"]), None);
    assert Lower("FOO") == "foo" by {
      assert LowerChar('F') == 'f' && LowerChar('O') == 'o';
    }
    assert Lower("foo") == "foo";
    ChoicePasses(o, c, VStr("foo"), []);
    ChoicePasses(o, c, VStr("FOO"), []);
  }

  /** The same node rejects `Foo ` with one complaint, whose list of acceptable values
      shows the choice as it was stored: `foo`. */
  lemma ChoiceIgnoreCaseRejects(o: Oracle)
    ensures AcceptChoice(Rule(ChoiceKind([], []), None), VStr("Foo"), true).Ok?
    ensures var c := AcceptChoice(Rule(ChoiceKind([], []), None), VStr("Foo"), true).value;
            Eval(o, c, VStr("Foo "), []) == Verdict(false, [Format([], ChoiceComplaint(o, c.kind.valid, c.kind.validIc, VStr("Foo ")))])
              && Acceptable(o, c.kind.valid, c.kind.validIc) == "foo"
  {
    AcceptFooIgnoringCase();
    var c := Rule(ChoiceKind([], ["foo"]), None);
    assert Lower("Foo ") == "foo " by {
      assert LowerChar('F') == 'f';
    }
    assert "foo " != "foo";
    assert ShowAll(o, []) + ["foo"] == ["foo"];
    assert SortStrings(["foo"]) == ["foo"];
    ChoicePasses(o, c, VStr("Foo "), []);
  }

  // ---------------------------------------------------------------------------
  // regexp_match and interval

  /** A `regexp_match` node passes exactly the texts that no reject pattern matches and
      some accept pattern matches: a matching reject pattern wins over any accept
      pattern. */
  lemma RegexpMatchPasses(o: Oracle, r: Rule, d: Value, p: seq<string>)
    requires r.kind.RegexpMatchKind?
    ensures Eval(o, r, d, p).ok <==>
              d.VStr? && (forall i :: 0 <= i < |r.kind.rejects| ==> !o.matches(r.kind.rejects[i], d.s))
                      && (exists i :: 0 <= i < |r.kind.patterns| && o.matches(r.kind.patterns[i], d.s))
  {
    assert Eval(o, r, d, p) == LeafVerdict(LeafCheck(o, r, d), p);
  }

  /** A failure logs exactly one message: "Value should be text" for other data, and for
      text the node's own message when it has one, else "<text> does not match regexp". */
  lemma RegexpMatchMessage(o: Oracle, r: Rule, d: Value, p: seq<string>)
    requires r.kind.RegexpMatchKind? && !Eval(o, r, d, p).ok
    ensures !d.VStr? ==> Eval(o, r, d, p).msgs == [Format(p, "Value should be text")]
    ensures d.VStr? && Truthy(r.message) ==> Eval(o, r, d, p).msgs == [Format(p, r.message.value)]
    ensures d.VStr? && !Truthy(r.message) ==> Eval(o, r, d, p).msgs == [Format(p, d.s + " does not match regexp")]
  {
    assert Eval(o, r, d, p) == LeafVerdict(LeafCheck(o, r, d), p);
  }

  /** After `accept(pattern)`, a text the pattern matches passes unless a reject pattern
      matches it; after `reject(pattern)`, a text the pattern matches fails. */
  lemma AcceptRejectPattern(o: Oracle, r: Rule, pattern: string, message: Option<string>, s: string, p: seq<string>)
    requires r.kind.RegexpMatchKind? && o.compiles(pattern) && o.matches(pattern, s)
    ensures AcceptPattern(o, r, pattern, message).Ok? && RejectPattern(o, r, pattern).Ok?
    ensures Eval(o, AcceptPattern(o, r, pattern, message).value, VStr(s), p).ok <==>
              forall i :: 0 <= i < |r.kind.rejects| ==> !o.matches(r.kind.rejects[i], s)
    ensures !Eval(o, RejectPattern(o, r, pattern).value, VStr(s), p).ok
  {
    var a := AcceptPattern(o, r, pattern, message).value;
    var j := RejectPattern(o, r, pattern).value;
    RegexpMatchPasses(o, a, VStr(s), p);
    RegexpMatchPasses(o, j, VStr(s), p);
    assert a.kind.patterns[|r.kind.patterns|] == pattern;
    assert j.kind.rejects[|r.kind.rejects|] == pattern;
  }

  /** An `interval` node passes exactly the texts its one pattern matches, and a text it
      rejects gets its fixed message, whatever message it was created with. */
  lemma IntervalFactory(o: Oracle, message: Option<string>, d: Value, p: seq<string>)
    requires o.compiles(IntervalPattern)
    ensures Factory(o, "interval", message).Ok?
    ensures Eval(o, Factory(o, "interval", message).value, d, p).ok <==> d.VStr? && o.matches(IntervalPattern, d.s)
    ensures d.VStr? && !o.matches(IntervalPattern, d.s) ==>
              Eval(o, Factory(o, "interval", message).value, d, p).msgs == [Format(p, IntervalMessage)]
  {
    var r := Factory(o, "interval", message).value;
    assert r == Rule(RegexpMatchKind([IntervalPattern], [], true), Some(IntervalMessage));
    RegexpMatchPasses(o, r, d, p);
    if !Eval(o, r, d, p).ok {
      RegexpMatchMessage(o, r, d, p);
    }
  }
}
