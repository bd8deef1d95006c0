/** Build toggles and the features they turn on (`build.rs`), for any tables. */
module Features {

  /** A key and what it brings along: `IMPLIES`, `TOGGLE_TO_FEATURES` and
      `ALIAS_FROM_PACKS` are tables of these. */
  datatype Rule = Rule(key: string, names: seq<string>)

  // ----- implications -----------------------------------------------------------

  ghost predicate Obeys(enabled: set<string>, rule: Rule) {
    rule.key in enabled ==> forall d :: d in rule.names ==> d in enabled
  }

  ghost predicate Closed(rules: seq<Rule>, enabled: set<string>) {
    forall r :: r in rules ==> Obeys(enabled, r)
  }

  /** `out` is the least set that contains `enabled` and obeys all rules. */
  ghost predicate LeastClosed(rules: seq<Rule>, enabled: set<string>, out: set<string>) {
    && enabled <= out
    && Closed(rules, out)
    && forall c: set<string> :: enabled <= c && Closed(rules, c) ==> out <= c
  }

  /** Every name a loop over the rules can ever insert. */
  function AllNames(rules: seq<Rule>): (all: set<string>)
    ensures forall r, d :: r in rules && d in r.names ==> d in all
  {
    if rules == [] then {}
    else (set d | d in rules[0].names) + AllNames(rules[1..])
  }

  method ExpandImplies(rules: seq<Rule>, enabled: set<string>) returns (out: set<string>)
    ensures LeastClosed(rules, enabled, out)
  {
    out := enabled;
    ghost var universe := enabled + AllNames(rules);
    while true
      invariant enabled <= out <= universe
      invariant forall c: set<string> :: enabled <= c && Closed(rules, c) ==> out <= c
      decreases universe - out
    {
      var before := out;
      var changed;
      out, changed := RunRules(rules, enabled, out, universe);
      if !changed {
        break;
      }
      assert universe - out < universe - before;
    }
  }

  /** One pass over all rules. */
  method RunRules(rules: seq<Rule>, ghost enabled: set<string>, start: set<string>, ghost universe: set<string>)
    returns (out: set<string>, changed: bool)
    requires enabled <= start <= universe && AllNames(rules) <= universe
    requires forall c: set<string> :: enabled <= c && Closed(rules, c) ==> start <= c
    ensures start <= out <= universe
    ensures forall c: set<string> :: enabled <= c && Closed(rules, c) ==> out <= c
    ensures changed ==> start < out
    ensures !changed ==> out == start && Closed(rules, out)
  {
    out, changed := start, false;
    for i := 0 to |rules|
      invariant start <= out <= universe
      invariant forall c: set<string> :: enabled <= c && Closed(rules, c) ==> out <= c
      invariant changed ==> start < out
      invariant !changed ==> out == start && forall k :: 0 <= k < i ==> Obeys(out, rules[k])
    {
      if rules[i].key in out {
        var names := rules[i].names;
        assert rules[i] in rules;
        for j := 0 to |names|
          invariant rules[i].key in out
          invariant start <= out <= universe
          invariant forall c: set<string> :: enabled <= c && Closed(rules, c) ==> out <= c
          invariant changed ==> start < out
          invariant !changed ==> out == start && forall k :: 0 <= k < j ==> names[k] in out
          invariant !changed ==> forall k :: 0 <= k < i ==> Obeys(out, rules[k])
        {
          assert names[j] in rules[i].names;
          if names[j] !in out {
            forall c: set<string> | enabled <= c && Closed(rules, c)
              ensures names[j] in c
            {
              assert Obeys(c, rules[i]);
            }
            out := out + {names[j]};
            changed := true;
          }
        }
      }
    }
  }

  /** The result does not depend on the order or the repetition of the rules. */
  lemma LeastClosedUnique(rules: seq<Rule>, rules': seq<Rule>, enabled: set<string>,
                          out: set<string>, out': set<string>)
    requires forall r :: r in rules <==> r in rules'
    requires LeastClosed(rules, enabled, out) && LeastClosed(rules', enabled, out')
    ensures out == out'
  {
    assert Closed(rules, out');
    assert Closed(rules', out);
  }

  /** Expanding twice is expanding once. */
  lemma ExpandIdempotent(rules: seq<Rule>, enabled: set<string>, out: set<string>, again: set<string>)
    requires LeastClosed(rules, enabled, out) && LeastClosed(rules, out, again)
    ensures again == out
  {
  }

  /** At most `n` rules lead from the enabled names to `name`. */
  ghost predicate Reaches(rules: seq<Rule>, enabled: set<string>, name: string, n: nat)
    decreases n
  {
    if n == 0 then name in enabled
    else
      || Reaches(rules, enabled, name, n - 1)
      || exists r :: r in rules && name in r.names && Reaches(rules, enabled, r.key, n - 1)
  }

  ghost predicate Reached(rules: seq<Rule>, enabled: set<string>, name: string) {
    exists n: nat :: Reaches(rules, enabled, name, n)
  }

  lemma {:induction false} ReachedIsIn(rules: seq<Rule>, enabled: set<string>, out: set<string>, name: string, n: nat)
    requires LeastClosed(rules, enabled, out) && Reaches(rules, enabled, name, n)
    ensures name in out
    decreases n
  {
    if n > 0 && !Reaches(rules, enabled, name, n - 1) {
      var r :| r in rules && name in r.names && Reaches(rules, enabled, r.key, n - 1);
      ReachedIsIn(rules, enabled, out, r.key, n - 1);
      assert Obeys(out, r);
    } else if n > 0 {
      ReachedIsIn(rules, enabled, out, name, n - 1);
    }
  }

  /** A name is switched on iff a chain of rules leads to it. */
  lemma ClosedIffReached(rules: seq<Rule>, enabled: set<string>, out: set<string>, name: string)
    requires LeastClosed(rules, enabled, out)
    ensures name in out <==> Reached(rules, enabled, name)
  {
    forall n: nat | Reaches(rules, enabled, name, n)
      ensures name in out
    {
      ReachedIsIn(rules, enabled, out, name, n);
    }
    var c := set x | x in out && Reached(rules, enabled, x);
    forall x | x in enabled
      ensures x in c
    {
      assert Reaches(rules, enabled, x, 0);
      assert Reached(rules, enabled, x);
    }
    forall r | r in rules
      ensures Obeys(c, r)
    {
      if r.key in c {
        var n: nat :| Reaches(rules, enabled, r.key, n);
        assert Obeys(out, r);
        forall d | d in r.names
          ensures d in c
        {
          assert Reaches(rules, enabled, d, n + 1);
        }
      }
    }
    assert enabled <= c && Closed(rules, c);
    assert name in out ==> name in c;
  }

  lemma ExpandMonotone(rules: seq<Rule>, small: set<string>, large: set<string>, out: set<string>, out': set<string>)
    requires small <= large
    requires LeastClosed(rules, small, out) && LeastClosed(rules, large, out')
    ensures out <= out'
  {
  }

  // ----- active features -------------------------------------------------------------

  /** `find` on the toggle table: the first entry for the key. */
  predicate IsEntry(table: seq<Rule>, i: nat, key: string)
    requires i < |table|
  {
    table[i].key == key && forall k :: 0 <= k < i ==> table[k].key != key
  }

  ghost predicate FromToggles(table: seq<Rule>, enabled: set<string>, feature: string) {
    exists i, key :: 0 <= i < |table| && key in enabled && IsEntry(table, i, key) && feature in table[i].names
  }

  ghost predicate FromAliases(aliases: seq<Rule>, n: nat, enabled: set<string>, feature: string)
    requires n <= |aliases|
  {
    exists i, p :: 0 <= i < n && aliases[i].key == feature && p in aliases[i].names && p in enabled
  }

  ghost predicate IsActive(table: seq<Rule>, aliases: seq<Rule>, enabled: set<string>, feature: string) {
    FromToggles(table, enabled, feature) || FromAliases(aliases, |aliases|, enabled, feature)
  }

  method FindEntry(table: seq<Rule>, key: string) returns (found: bool, i: nat)
    ensures found ==> i < |table| && IsEntry(table, i, key)
    ensures !found ==> forall k :: 0 <= k < |table| ==> table[k].key != key
  {
    for k := 0 to |table|
      invariant forall m :: 0 <= m < k ==> table[m].key != key
    {
      if table[k].key == key {
        return true, k;
      }
    }
    return false, 0;
  }

  /** The active features are exactly those of an enabled toggle's entry, and
      the aliases with some enabled pack. */
  method ResolveActiveFeatures(table: seq<Rule>, aliases: seq<Rule>, enabled: set<string>)
    returns (active: set<string>)
    ensures forall f :: f in active <==> IsActive(table, aliases, enabled, f)
  {
    active := {};
    var rest := enabled;
    while rest != {}
      invariant rest <= enabled
      invariant forall f :: f in active <==> FromToggles(table, enabled - rest, f)
      decreases rest
    {
      var key :| key in rest;
      ghost var seen := enabled - rest;
      rest := rest - {key};
      assert enabled - rest == seen + {key};
      var found, i := FindEntry(table, key);
      TogglesStep(table, seen, key, found, i);
      if found {
        active := active + (set f | f in table[i].names);
      }
    }
    assert enabled - rest == enabled;
    for i := 0 to |aliases|
      invariant forall f :: f in active <==> FromToggles(table, enabled, f) || FromAliases(aliases, i, enabled, f)
    {
      AliasStep(aliases, i, enabled);
      if aliases[i].key in active {
        continue;
      }
      if exists p :: p in aliases[i].names && p in enabled {
        active := active + {aliases[i].key};
      }
    }
  }

  lemma TogglesStep(table: seq<Rule>, seen: set<string>, key: string, found: bool, i: nat)
    requires found ==> i < |table| && IsEntry(table, i, key)
    requires !found ==> forall k :: 0 <= k < |table| ==> table[k].key != key
    ensures forall f :: FromToggles(table, seen + {key}, f) <==>
              FromToggles(table, seen, f) || (found && f in table[i].names)
  {
    forall f
      ensures FromToggles(table, seen + {key}, f) <==>
              FromToggles(table, seen, f) || (found && f in table[i].names)
    {
      if FromToggles(table, seen + {key}, f) {
        var j, k :| 0 <= j < |table| && k in seen + {key} && IsEntry(table, j, k) && f in table[j].names;
        if k in seen {
        } else {
          assert j == i;
        }
      }
      if FromToggles(table, seen, f) {
        var j, k :| 0 <= j < |table| && k in seen && IsEntry(table, j, k) && f in table[j].names;
        assert k in seen + {key};
      }
    }
  }

  lemma AliasStep(aliases: seq<Rule>, i: nat, enabled: set<string>)
    requires i < |aliases|
    ensures forall f :: FromAliases(aliases, i + 1, enabled, f) <==>
              || FromAliases(aliases, i, enabled, f)
              || (f == aliases[i].key && exists p :: p in aliases[i].names && p in enabled)
  {
  }

  /** More toggles never switch a feature off, implications included. */
  lemma PipelineMonotone(rules: seq<Rule>, table: seq<Rule>, aliases: seq<Rule>,
                         small: set<string>, large: set<string>,
                         expanded: set<string>, expanded': set<string>, feature: string)
    requires small <= large
    requires LeastClosed(rules, small, expanded) && LeastClosed(rules, large, expanded')
    requires IsActive(table, aliases, expanded, feature)
    ensures IsActive(table, aliases, expanded', feature)
  {
    ExpandMonotone(rules, small, large, expanded, expanded');
    if FromToggles(table, expanded, feature) {
      var i, key :| 0 <= i < |table| && key in expanded && IsEntry(table, i, key) && feature in table[i].names;
      assert key in expanded';
    } else {
      var i, p :| 0 <= i < |aliases| && aliases[i].key == feature && p in aliases[i].names && p in expanded;
      assert p in expanded';
    }
  }
}
