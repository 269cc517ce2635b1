/** What the validation walk promises: when a node passes, where its diagnostics come
    from, which rules govern a mapping key, and what each scalar check accepts. */
module Properties {
  import opened Values
  import opened Rules
  import opened Diagnostics
  import opened Semantics

  // ---------------------------------------------------------------------------
  // validate_item

  /** A candidate that applies to the item and passes it. */
  predicate Accepts(o: Oracle, r: Rule, item: Value, p: seq<string>) {
    Validateable(r, item) && Eval(o, r, item, p).ok
  }

  /** The candidate loop has succeeded iff one of the candidates looked at accepts. */
  lemma {:induction false} TryAllPasses(o: Oracle, item: Value, rules: seq<Rule>, p: seq<string>, k: nat)
    requires k <= |rules|
    ensures TryAll(o, item, rules, p, k).ok <==> exists i :: 0 <= i < k && Accepts(o, rules[i], item, p)
    decreases k
  {
    if k > 0 {
      TryAllPasses(o, item, rules, p, k - 1);
      if Accepts(o, rules[k - 1], item, p) {
        assert TryAll(o, item, rules, p, k).ok;
      }
    }
  }

  /** `validate_item` returns True iff some candidate is applicable to the item and passes
      it; on True it leaves no message behind, on False at least one. */
  lemma SelectItemPasses(o: Oracle, item: Value, rules: seq<Rule>, p: seq<string>)
    ensures SelectItem(o, item, rules, p).ok <==> exists i :: 0 <= i < |rules| && Accepts(o, rules[i], item, p)
    ensures SelectItem(o, item, rules, p).ok ==> SelectItem(o, item, rules, p).msgs == []
    ensures !SelectItem(o, item, rules, p).ok ==> SelectItem(o, item, rules, p).msgs != []
  {
    TryAllPasses(o, item, rules, p, |rules|);
  }

  /** Candidates that do not apply, or apply but fail without logging anything (an
      `equals` node), leave no trace. */
  lemma {:induction false} TryAllSkips(o: Oracle, item: Value, rules: seq<Rule>, p: seq<string>, k: nat)
    requires k <= |rules|
    requires forall i :: 0 <= i < k ==> !Validateable(rules[i], item) || Eval(o, rules[i], item, p) == Verdict(false, [])
    ensures TryAll(o, item, rules, p, k) == Verdict(false, [])
    decreases k
  {
    if k > 0 {
      TryAllSkips(o, item, rules, p, k - 1);
    }
  }

  /** When no candidate applies, or those that apply fail silently, the failure is
      explained by the candidates' own messages if any candidate has one, and only
      otherwise by the generic pair naming the acceptable kinds and what was found. */
  lemma SelectItemNoneApplicable(o: Oracle, item: Value, rules: seq<Rule>, p: seq<string>)
    requires forall i :: 0 <= i < |rules| ==> !Validateable(rules[i], item) || Eval(o, rules[i], item, p) == Verdict(false, [])
    ensures !SelectItem(o, item, rules, p).ok
    ensures (exists i :: 0 <= i < |rules| && Truthy(rules[i].message)) ==>
              SelectItem(o, item, rules, p).msgs == CustomMsgs(rules, p, |rules|)
    ensures (forall i :: 0 <= i < |rules| ==> !Truthy(rules[i].message)) ==>
              SelectItem(o, item, rules, p).msgs == Mismatch(o, item, rules, p)
  {
    TryAllSkips(o, item, rules, p, |rules|);
  }

  /** The acceptable kinds read as an English list: nothing for no candidate, the one
      name for one, and otherwise the names separated by commas with "or" before the
      last. */
  lemma EnglishListForm(names: seq<string>)
    ensures |names| == 0 ==> EnglishList(names) == ""
    ensures |names| == 1 ==> EnglishList(names) == names[0]
    ensures |names| >= 2 ==>
              EnglishList(names) == Join(", ", names[..|names| - 1]) + " or " + names[|names| - 1]
  {
    var n := |names|;
    if n >= 2 {
      var tail := names[n - 2..];
      assert tail == [names[n - 2], names[n - 1]] && tail[1..] == [names[n - 1]];
      assert Join(" or ", tail) == names[n - 2] + " or " + names[n - 1];
      if n > 2 {
        var front := Join(", ", names[..n - 2]);
        JoinSnoc(", ", names[..n - 2], "");
        JoinSnoc(", ", names[..n - 2], names[n - 2]);
        assert names[..n - 2] + [names[n - 2]] == names[..n - 1];
        assert EnglishList(names) == front + ", " + "" + (names[n - 2] + " or " + names[n - 1]);
        assert Join(", ", names[..n - 1]) == front + ", " + names[n - 2];
      } else {
        assert names[..0] + [""] == [""];
      }
    }
  }

  /** How many of the first `k` candidates carry a non-empty message. */
  function Flagged(rules: seq<Rule>, k: nat): (n: nat)
    requires k <= |rules|
    ensures n <= k
  {
    if k == 0 then 0 else Flagged(rules, k - 1) + (if Truthy(rules[k - 1].message) then 1 else 0)
  }

  /** A candidate with a message comes before every later count of such candidates. */
  lemma {:induction false} FlaggedGrows(rules: seq<Rule>, i: nat, k: nat)
    requires i < k <= |rules| && Truthy(rules[i].message)
    ensures Flagged(rules, i) < Flagged(rules, k)
    decreases k
  {
    if k > i + 1 {
      FlaggedGrows(rules, i, k - 1);
    }
  }

  /** The custom messages are exactly one per candidate with a message, in candidate
      order: the message of the candidate preceded by `Flagged(rules, i)` such candidates
      sits at that position. */
  lemma {:induction false} CustomMsgsExact(rules: seq<Rule>, p: seq<string>, k: nat)
    requires k <= |rules|
    ensures |CustomMsgs(rules, p, k)| == Flagged(rules, k)
    ensures forall i :: 0 <= i < k && Truthy(rules[i].message) ==>
              Flagged(rules, i) < |CustomMsgs(rules, p, k)|
              && CustomMsgs(rules, p, k)[Flagged(rules, i)] == Format(p, rules[i].message.value)
    decreases k
  {
    if k > 0 {
      CustomMsgsExact(rules, p, k - 1);
      forall i | 0 <= i < k - 1 && Truthy(rules[i].message)
        ensures CustomMsgs(rules, p, k)[Flagged(rules, i)] == Format(p, rules[i].message.value)
      {
        FlaggedGrows(rules, i, k - 1);
      }
    }
  }

  /** Every custom message comes from a candidate that has one, anchored at the current
      path, and there is one per such candidate. */
  lemma {:induction false} CustomMsgsFromCandidates(rules: seq<Rule>, p: seq<string>, k: nat)
    requires k <= |rules|
    ensures |CustomMsgs(rules, p, k)| <= k
    ensures forall m :: m in CustomMsgs(rules, p, k) ==>
              exists i :: 0 <= i < k && Truthy(rules[i].message) && m == Format(p, rules[i].message.value)
    decreases k
  {
    if k > 0 {
      CustomMsgsFromCandidates(rules, p, k - 1);
    }
  }

  /** Adding an alternative to a root node never rejects data it accepted before. */
  lemma RootAcceptMonotone(o: Oracle, r: Rule, child: Rule, d: Value, p: seq<string>)
    requires r.kind.RootKind?
    ensures Eval(o, r, d, p).ok ==> Eval(o, AcceptAlternative(r, child), d, p).ok
  {
    var r' := AcceptAlternative(r, child);
    SelectItemPasses(o, d, r.kind.alts, p);
    SelectItemPasses(o, d, r'.kind.alts, p);
    if Eval(o, r, d, p).ok {
      var i :| 0 <= i < |r.kind.alts| && Accepts(o, r.kind.alts[i], d, p);
      assert r'.kind.alts[i] == r.kind.alts[i];
    }
  }

  // ---------------------------------------------------------------------------
  // ListValidator

  /** The `i`-th element passes one of the alternatives, under its own path label. */
  predicate ElementPasses(o: Oracle, items: seq<Value>, alts: seq<Rule>, p: seq<string>, i: nat)
    requires i < |items|
  {
    SelectItem(o, items[i], alts, p + [ListLabel(items, i)]).ok
  }

  /** One more element leaves the log empty iff the log was empty and the element passes. */
  lemma ListMsgsStep(o: Oracle, items: seq<Value>, alts: seq<Rule>, p: seq<string>, k: nat)
    requires 0 < k <= |items|
    ensures ListMsgs(o, items, alts, p, k) == [] <==>
              ListMsgs(o, items, alts, p, k - 1) == [] && ElementPasses(o, items, alts, p, k - 1)
  {
    var before := ListMsgs(o, items, alts, p, k - 1);
    var v := SelectItem(o, items[k - 1], alts, p + [ListLabel(items, k - 1)]);
    assert |before + v.msgs| == |before| + |v.msgs|;
  }

  /** The first `k` elements all pass, element by element. */
  predicate PrefixPasses(o: Oracle, items: seq<Value>, alts: seq<Rule>, p: seq<string>, k: nat)
    requires k <= |items|
  {
    k == 0 || (PrefixPasses(o, items, alts, p, k - 1) && ElementPasses(o, items, alts, p, k - 1))
  }

  lemma {:induction false} PrefixPassesAll(o: Oracle, items: seq<Value>, alts: seq<Rule>, p: seq<string>, k: nat)
    requires k <= |items|
    ensures PrefixPasses(o, items, alts, p, k) <==> forall i :: 0 <= i < k ==> ElementPasses(o, items, alts, p, i)
    decreases k
  {
    if k > 0 {
      PrefixPassesAll(o, items, alts, p, k - 1);
    }
  }

  /** The element loop logs nothing iff every element passes its alternatives. */
  lemma {:induction false} ListMsgsEmpty(o: Oracle, items: seq<Value>, alts: seq<Rule>, p: seq<string>, k: nat)
    requires k <= |items|
    ensures ListMsgs(o, items, alts, p, k) == [] <==> PrefixPasses(o, items, alts, p, k)
    decreases k
  {
    if k > 0 {
      ListMsgsEmpty(o, items, alts, p, k - 1);
      ListMsgsStep(o, items, alts, p, k);
    }
  }

  /** A list node passes exactly the lists whose every element passes one of its
      alternatives. */
  lemma ListPasses(o: Oracle, r: Rule, d: Value, p: seq<string>)
    requires r.kind.ListKind?
    ensures Eval(o, r, d, p).ok <==>
              d.VList? && forall i :: 0 <= i < |d.items| ==> ElementPasses(o, d.items, r.kind.alts, p, i)
  {
    if d.VList? {
      ListMsgsEmpty(o, d.items, r.kind.alts, p, |d.items|);
      PrefixPassesAll(o, d.items, r.kind.alts, p, |d.items|);
    }
  }

  /** Elements are labelled by the position of the first equal element, so equal
      elements share one label. */
  lemma ListLabelSharedByEqualItems(items: seq<Value>, i: nat, j: nat)
    requires i < |items| && j < |items| && items[i] == items[j]
    ensures ListLabel(items, i) == ListLabel(items, j)
  {
  }

  /** An element with no equal element before it is labelled by its own position. */
  lemma ListLabelOfFirstOccurrence(items: seq<Value>, k: nat)
    requires k < |items|
    requires forall j :: 0 <= j < k ==> items[j] != items[k]
    ensures ListLabel(items, k) == "list:" + IntToString(k)
  {
    var f := FirstIndex(items, k, 0);
    assert f == k;
  }

  /** A list of texts given `['a', 2, 'b']` fails with the two messages of the generic
      mismatch for `2`, both at the path segment `list:1`. */
  lemma TextListExample(o: Oracle, p: seq<string>)
    ensures var items := [VStr("a"), VInt(2), VStr("b")];
            var text := [Rule(TextKind, None)];
            !Eval(o, Rule(ListKind(text), None), VList(items), p).ok
              && Eval(o, Rule(ListKind(text), None), VList(items), p).msgs == Mismatch(o, VInt(2), text, p + ["list:1"])
              && |Mismatch(o, VInt(2), text, p + ["list:1"])| == 2
  {
    var items := [VStr("a"), VInt(2), VStr("b")];
    var text := [Rule(TextKind, None)];
    var m := Mismatch(o, VInt(2), text, p + ["list:1"]);
    TextListMessages(o, items, p);
    ListEval(o, Rule(ListKind(text), None), items, p);
    assert m != [];
  }

  lemma TextListMessages(o: Oracle, items: seq<Value>, p: seq<string>)
    requires items == [VStr("a"), VInt(2), VStr("b")]
    ensures ListMsgs(o, items, [Rule(TextKind, None)], p, 3) == Mismatch(o, VInt(2), [Rule(TextKind, None)], p + ["list:1"])
  {
    var text := [Rule(TextKind, None)];
    SecondLabel(items);
    TextPassesText(o, "a", p + [ListLabel(items, 0)]);
    TextPassesText(o, "b", p + [ListLabel(items, 2)]);
    SelectItemNoneApplicable(o, items[1], text, p + ["list:1"]);
    var m := SelectItem(o, items[1], text, p + ["list:1"]).msgs;
    assert ListMsgs(o, items, text, p, 1) == [];
    assert ListMsgs(o, items, text, p, 2) == m;
    assert ListMsgs(o, items, text, p, 3) == m + [];
  }

  /** A list node on a list reports the element loop's messages and passes iff there are none. */
  lemma ListEval(o: Oracle, r: Rule, items: seq<Value>, p: seq<string>)
    requires r.kind.ListKind?
    ensures Eval(o, r, VList(items), p) == Verdict(ListMsgs(o, items, r.kind.alts, p, |items|) == [], ListMsgs(o, items, r.kind.alts, p, |items|))
  {
  }

  lemma SecondLabel(items: seq<Value>)
    requires |items| >= 2 && items[0] != items[1]
    ensures ListLabel(items, 1) == "list:1"
  {
    assert FirstIndex(items, 1, 0) == 1;
    assert IntToString(1) == "1";
  }

  lemma TextPassesText(o: Oracle, s: string, p: seq<string>)
    ensures SelectItem(o, VStr(s), [Rule(TextKind, None)], p) == Verdict(true, [])
  {
    assert Accepts(o, Rule(TextKind, None), VStr(s), p);
    SelectItemPasses(o, VStr(s), [Rule(TextKind, None)], p);
  }

  // ---------------------------------------------------------------------------
  // DictValidator

  /** An entry leaves no message. */
  predicate EntryOk(o: Oracle, r: Rule, e: Entry, p: seq<string>)
    requires r.kind.DictKind?
  {
    EntryMsgs(o, r, e.key, e.value, p + [DictLabel(e.key)]) == []
  }

  lemma {:induction false} EntriesMsgsEmpty(o: Oracle, r: Rule, entries: seq<Entry>, p: seq<string>, k: nat)
    requires r.kind.DictKind? && k <= |entries|
    ensures EntriesMsgs(o, r, entries, p, k) == [] <==> forall i :: 0 <= i < k ==> EntryOk(o, r, entries[i], p)
    decreases k
  {
    if k > 0 {
      EntriesMsgsEmpty(o, r, entries, p, k - 1);
    }
  }

  /** A dict node passes exactly the mappings whose every entry leaves no message and
      which hold every required key. */
  lemma DictPasses(o: Oracle, r: Rule, d: Value, p: seq<string>)
    requires r.kind.DictKind?
    ensures Eval(o, r, d, p).ok <==>
              d.VDict? && (forall i :: 0 <= i < |d.entries| ==> EntryOk(o, r, d.entries[i], p))
                       && (forall i :: 0 <= i < |r.kind.required| ==> r.kind.required[i] in EntryKeys(d.entries))
  {
    if d.VDict? {
      var m1 := EntriesMsgs(o, r, d.entries, p, |d.entries|);
      var m2 := RequiredMsgs(r.kind.required, d.entries, p, |r.kind.required|);
      assert Eval(o, r, d, p).ok == (m1 + m2 == []);
      EntriesMsgsEmpty(o, r, d.entries, p, |d.entries|);
    }
  }

  lemma KeysOfSameEntries(e1: seq<Entry>, e2: seq<Entry>, k: string)
    requires multiset(e1) == multiset(e2)
    ensures k in EntryKeys(e1) ==> k in EntryKeys(e2)
  {
    if k in EntryKeys(e1) {
      var i :| 0 <= i < |e1| && EntryKeys(e1)[i] == k;
      assert e1[i] in multiset(e2);
      var j :| 0 <= j < |e2| && e2[j] == e1[i];
      assert EntryKeys(e2)[j] == k;
    }
  }

  /** Whether a mapping passes does not depend on the order its entries are visited in. */
  lemma DictOrderIrrelevant(o: Oracle, r: Rule, e1: seq<Entry>, e2: seq<Entry>, p: seq<string>)
    requires r.kind.DictKind? && multiset(e1) == multiset(e2)
    ensures Eval(o, r, VDict(e1), p).ok == Eval(o, r, VDict(e2), p).ok
  {
    DictPasses(o, r, VDict(e1), p);
    DictPasses(o, r, VDict(e2), p);
    forall k | k in r.kind.required
      ensures k in EntryKeys(e1) <==> k in EntryKeys(e2)
    {
      KeysOfSameEntries(e1, e2, k);
      KeysOfSameEntries(e2, e1, k);
    }
    if Eval(o, r, VDict(e1), p).ok {
      forall j | 0 <= j < |e2| ensures EntryOk(o, r, e2[j], p) {
        assert e2[j] in multiset(e1);
        var i :| 0 <= i < |e1| && e1[i] == e2[j];
      }
    }
    if Eval(o, r, VDict(e2), p).ok {
      forall i | 0 <= i < |e1| ensures EntryOk(o, r, e1[i], p) {
        assert e1[i] in multiset(e2);
        var j :| 0 <= j < |e2| && e2[j] == e1[i];
      }
    }
  }
}
