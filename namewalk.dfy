/** The walk that every naming rule performs over one namespace: visit the
    names in key order, and for each name that differs from its conversion
    either report it or move its entry to the converted name. */
module NameWalk {
  import opened Ordering
  import opened ConfigModel

  /** The diagnostic for one name that is not in the expected style. */
  function Message(category: string, name: string, expected: string): string
  {
    "lint failed for " + category + " " + name + ", expected " + expected
  }

  /** Removes the entry under `name` and inserts its payload under `target`,
      replacing whatever `target` held; nothing happens when `name` is absent. */
  function Rename<V>(m: map<string, V>, name: string, target: string): (r: map<string, V>)
    ensures name in m ==> r.Keys == m.Keys - {name} + {target} && r[target] == m[name]
    ensures name !in m ==> r == m
    ensures forall k :: k in m && k != name && k != target ==> k in r && r[k] == m[k]
  {
    if name in m then (m - {name})[target := m[name]] else m
  }

  /** The map after the autofix walk over `keys`: each name whose conversion
      differs is renamed, in the order of `keys`. */
  function RenameAll<V>(m: map<string, V>, keys: seq<string>, conv: Converter, style: Case): map<string, V>
    decreases |keys|
  {
    if keys == [] then m
    else
      var prior := RenameAll(m, keys[..|keys| - 1], conv, style);
      var name := keys[|keys| - 1];
      if conv(name, style) != name then Rename(prior, name, conv(name, style)) else prior
  }

  /** The diagnostics of the report walk over `keys`, in walk order. */
  function Mismatches(category: string, keys: seq<string>, conv: Converter, style: Case): (r: seq<string>)
    ensures |r| <= |keys|
    ensures r == [] <==> forall i :: 0 <= i < |keys| ==> conv(keys[i], style) == keys[i]
    decreases |keys|
  {
    if keys == [] then []
    else
      var name := keys[|keys| - 1];
      Mismatches(category, keys[..|keys| - 1], conv, style)
        + (if conv(name, style) != name then [Message(category, name, conv(name, style))] else [])
  }

  /** The report walk produces one diagnostic per name that differs from its
      conversion: their number is the number of such names. */
  lemma {:induction false} MismatchesCount(category: string, keys: seq<string>, conv: Converter, style: Case)
    ensures |Mismatches(category, keys, conv, style)|
         == |set i | 0 <= i < |keys| && conv(keys[i], style) != keys[i]|
    decreases |keys|
  {
    if keys != [] {
      var n := |keys| - 1;
      var front := keys[..n];
      MismatchesCount(category, front, conv, style);
      var before := set i | 0 <= i < n && conv(front[i], style) != front[i];
      var after := set i | 0 <= i < |keys| && conv(keys[i], style) != keys[i];
      if conv(keys[n], style) != keys[n] {
        assert after == before + {n};
      } else {
        assert after == before;
      }
    }
  }

  /** Every non-conforming name is reported, and every diagnostic reports a
      non-conforming name: none omitted, none invented. */
  lemma {:induction false} MismatchesExactly(category: string, keys: seq<string>, conv: Converter, style: Case)
    ensures forall i :: 0 <= i < |keys| && conv(keys[i], style) != keys[i] ==>
              Message(category, keys[i], conv(keys[i], style)) in Mismatches(category, keys, conv, style)
    ensures forall line :: line in Mismatches(category, keys, conv, style) ==>
              exists i :: 0 <= i < |keys| && conv(keys[i], style) != keys[i]
                       && line == Message(category, keys[i], conv(keys[i], style))
    decreases |keys|
  {
    if keys != [] {
      var n := |keys| - 1;
      var front := keys[..n];
      MismatchesExactly(category, front, conv, style);
      var r := Mismatches(category, keys, conv, style);
      var rf := Mismatches(category, front, conv, style);
      assert r == rf + (if conv(keys[n], style) != keys[n] then [Message(category, keys[n], conv(keys[n], style))] else []);
      forall i | 0 <= i < |keys| && conv(keys[i], style) != keys[i]
        ensures Message(category, keys[i], conv(keys[i], style)) in r
      {
        if i < n {
          assert front[i] == keys[i];
        }
      }
      forall line | line in r
        ensures exists i :: 0 <= i < |keys| && conv(keys[i], style) != keys[i]
                         && line == Message(category, keys[i], conv(keys[i], style))
      {
        if line in rf {
          var i :| 0 <= i < n && conv(front[i], style) != front[i]
                 && line == Message(category, front[i], conv(front[i], style));
          assert keys[i] == front[i];
        } else {
          assert line == Message(category, keys[n], conv(keys[n], style));
        }
      }
    }
  }

  /** The check-or-rename loop shared by the rules: walks a snapshot of the
      keys of `m` in key order and updates a separate live copy. */
  method LintNames<V>(m: map<string, V>, category: string, conv: Converter, style: Case, autofix: bool)
    returns (live: map<string, V>, errors: seq<string>)
    ensures live == if autofix then RenameAll(m, SortedKeys(m.Keys), conv, style) else m
    ensures errors == if autofix then [] else Mismatches(category, SortedKeys(m.Keys), conv, style)
  {
    var names := SortedKeys(m.Keys);
    live, errors := m, [];
    for i := 0 to |names|
      invariant autofix ==> live == RenameAll(m, names[..i], conv, style) && errors == []
      invariant !autofix ==> live == m && errors == Mismatches(category, names[..i], conv, style)
    {
      var name := names[i];
      var expected := conv(name, style);
      WalkStep(m, category, names, i, conv, style);
      if expected != name {
        if autofix {
          if name in live {
            var info := live[name];
            live := (live - {name})[expected := info];
          }
        } else {
          errors := errors + [Message(category, name, expected)];
        }
      }
    }
    assert names[..|names|] == names;
  }

  /** One more name walked: the autofix walk renames it if needed, the
      report walk appends its diagnostic if needed. */
  lemma WalkStep<V>(m: map<string, V>, category: string, keys: seq<string>, i: nat, conv: Converter, style: Case)
    requires i < |keys|
    ensures var name := keys[i];
      RenameAll(m, keys[..i + 1], conv, style)
      == if conv(name, style) != name then Rename(RenameAll(m, keys[..i], conv, style), name, conv(name, style))
         else RenameAll(m, keys[..i], conv, style)
    ensures var name := keys[i];
      Mismatches(category, keys[..i + 1], conv, style)
      == Mismatches(category, keys[..i], conv, style)
         + if conv(name, style) != name then [Message(category, name, conv(name, style))] else []
  {
    assert keys[..i + 1][..i] == keys[..i];
  }

  /** When every walked name already conforms, the autofix walk changes nothing. */
  lemma {:induction false} RenameAllNoop<V>(m: map<string, V>, keys: seq<string>, conv: Converter, style: Case)
    requires forall i :: 0 <= i < |keys| ==> conv(keys[i], style) == keys[i]
    ensures RenameAll(m, keys, conv, style) == m
    decreases |keys|
  {
    if keys != [] {
      RenameAllNoop(m, keys[..|keys| - 1], conv, style);
    }
  }

  ghost predicate Distinct(keys: seq<string>)
  {
    forall i, j :: 0 <= i < j < |keys| ==> keys[i] != keys[j]
  }

  lemma DistinctFront(keys: seq<string>)
    requires Distinct(keys) && keys != []
    ensures Distinct(keys[..|keys| - 1])
    ensures keys[|keys| - 1] !in keys[..|keys| - 1]
  {
  }

  /** The names a walk over `keys` has visited. */
  ghost function Walked(keys: seq<string>): (r: set<string>)
    ensures forall k :: k in r <==> k in keys
    decreases |keys|
  {
    if keys == [] then {} else Walked(keys[..|keys| - 1]) + {keys[|keys| - 1]}
  }

  /** The conversions of the names a walk over `keys` has visited. */
  ghost function Converted(keys: seq<string>, conv: Converter, style: Case): (r: set<string>)
    ensures forall k :: k in keys ==> conv(k, style) in r
    ensures forall t :: t in r ==> exists k :: k in keys && conv(k, style) == t
    decreases |keys|
  {
    if keys == [] then {}
    else Converted(keys[..|keys| - 1], conv, style) + {conv(keys[|keys| - 1], style)}
  }

  /** A walk over all of a key set has visited all of it. */
  lemma WalkedAll(ks: set<string>, keys: seq<string>, conv: Converter, style: Case)
    requires forall k :: k in keys <==> k in ks
    ensures Walked(keys) == ks
    ensures Converted(keys, conv, style) == (set k | k in ks :: conv(k, style))
  {
  }

  /** After walking some keys of `m`, the walked keys sit under their
      conversions and the unwalked keys are still present. */
  lemma {:induction false} RenameAllKeys<V>(m: map<string, V>, keys: seq<string>, conv: Converter, style: Case)
    requires Idempotent(conv, style)
    requires Distinct(keys)
    requires forall i :: 0 <= i < |keys| ==> keys[i] in m
    ensures RenameAll(m, keys, conv, style).Keys == Converted(keys, conv, style) + (m.Keys - Walked(keys))
    decreases |keys|
  {
    if keys != [] {
      var n := |keys| - 1;
      var front, x := keys[..n], keys[n];
      DistinctFront(keys);
      RenameAllKeys(m, front, conv, style);
      var prior := RenameAll(m, front, conv, style);
      if conv(x, style) != x {
        assert x !in Converted(front, conv, style) by {
          forall k | k in front ensures conv(k, style) != x {
            assert conv(conv(k, style), style) == conv(k, style);
          }
        }
        assert x in prior;
      }
    }
  }

  /** An unwalked name that does not conform is neither removed nor overwritten. */
  lemma {:induction false} RenameAllKeepsUnwalked<V>(m: map<string, V>, keys: seq<string>, conv: Converter, style: Case)
    requires Idempotent(conv, style)
    ensures forall k :: k in m && k !in keys && conv(k, style) != k ==>
              k in RenameAll(m, keys, conv, style) && RenameAll(m, keys, conv, style)[k] == m[k]
    decreases |keys|
  {
    if keys != [] {
      var n := |keys| - 1;
      var front, x := keys[..n], keys[n];
      RenameAllKeepsUnwalked(m, front, conv, style);
      assert keys == front + [x];
      forall k | k in m && k !in keys && conv(k, style) != k
        ensures k in RenameAll(m, keys, conv, style) && RenameAll(m, keys, conv, style)[k] == m[k]
      {
        assert k in m && k !in front;
        assert conv(conv(x, style), style) == conv(x, style);
      }
    }
  }

  /** Every entry left by the walk carries the payload of a key of `m` that
      either is its name or converts to it. */
  lemma {:induction false} RenameAllPayload<V>(m: map<string, V>, keys: seq<string>, conv: Converter, style: Case)
    requires Idempotent(conv, style)
    requires Distinct(keys)
    ensures forall t :: t in RenameAll(m, keys, conv, style) ==>
              exists k :: k in m && (k == t || conv(k, style) == t) && RenameAll(m, keys, conv, style)[t] == m[k]
    decreases |keys|
  {
    if keys != [] {
      var n := |keys| - 1;
      var front, x := keys[..n], keys[n];
      DistinctFront(keys);
      RenameAllPayload(m, front, conv, style);
      RenameAllKeepsUnwalked(m, front, conv, style);
      var prior := RenameAll(m, front, conv, style);
      var r := RenameAll(m, keys, conv, style);
      forall t | t in r
        ensures exists k :: k in m && (k == t || conv(k, style) == t) && r[t] == m[k]
      {
        if conv(x, style) != x && x in prior && t == conv(x, style) {
          // x is unwalked before this step, so it still holds its own payload
          var k :| k in m && (k == x || conv(k, style) == x) && prior[x] == m[k];
          if k != x {
            assert conv(conv(k, style), style) == conv(k, style);
          }
          assert r[t] == m[x];
        } else {
          assert t in prior && r[t] == prior[t];
        }
      }
    }
  }

  /** Without collisions (no two keys of `m` convert to the same name) every
      entry survives: walked keys under their conversions, the rest in place. */
  lemma {:induction false} RenameAllInjective<V>(m: map<string, V>, keys: seq<string>, conv: Converter, style: Case)
    requires Idempotent(conv, style)
    requires Distinct(keys)
    requires forall i :: 0 <= i < |keys| ==> keys[i] in m
    requires forall a, b :: a in m && b in m && conv(a, style) == conv(b, style) ==> a == b
    ensures forall k :: k in m && k in keys ==>
              conv(k, style) in RenameAll(m, keys, conv, style) && RenameAll(m, keys, conv, style)[conv(k, style)] == m[k]
    ensures forall k :: k in m && k !in keys ==>
              k in RenameAll(m, keys, conv, style) && RenameAll(m, keys, conv, style)[k] == m[k]
    decreases |keys|
  {
    if keys != [] {
      var n := |keys| - 1;
      var front, x := keys[..n], keys[n];
      DistinctFront(keys);
      RenameAllInjective(m, front, conv, style);
      assert keys == front + [x];
      var prior := RenameAll(m, front, conv, style);
      var r := RenameAll(m, keys, conv, style);
      forall k | k in m && k in keys
        ensures conv(k, style) in r && r[conv(k, style)] == m[k]
      {
        if k != x {
          assert k in front;
          assert conv(conv(k, style), style) == conv(k, style);
          assert conv(k, style) != conv(x, style);
        }
      }
      forall k | k in m && k !in keys
        ensures k in r && r[k] == m[k]
      {
        assert k !in front && k != x;
        if conv(x, style) != x {
          assert conv(conv(x, style), style) == conv(x, style);
        }
      }
    }
  }

  /** Whatever the conversion, the walk only moves entries: every entry it
      leaves holds the payload of some original entry. */
  lemma {:induction false} RenameAllValues<V>(m: map<string, V>, keys: seq<string>, conv: Converter, style: Case)
    ensures forall t :: t in RenameAll(m, keys, conv, style) ==> exists k :: k in m && RenameAll(m, keys, conv, style)[t] == m[k]
    decreases |keys|
  {
    if keys != [] {
      RenameAllValues(m, keys[..|keys| - 1], conv, style);
    }
  }

  /** A collision: `a` converts to `b`, and no key other than `a` and `b`
      converts to `b`. Once the walk has visited `a`, the entry under `b`
      holds `a`'s payload, whatever `b` held before, and `a` is gone. */
  lemma {:induction false} RenameAllCollision<V>(m: map<string, V>, keys: seq<string>, conv: Converter, style: Case, a: string, b: string)
    requires Idempotent(conv, style)
    requires Distinct(keys)
    requires forall i :: 0 <= i < |keys| ==> keys[i] in m
    requires a in m && a in keys && conv(a, style) == b && b != a
    requires forall k :: k in m && conv(k, style) == b ==> k == a || k == b
    ensures b in RenameAll(m, keys, conv, style) && RenameAll(m, keys, conv, style)[b] == m[a]
    ensures a !in RenameAll(m, keys, conv, style)
    decreases |keys|
  {
    var n := |keys| - 1;
    var front, x := keys[..n], keys[n];
    DistinctFront(keys);
    assert keys == front + [x];
    var prior := RenameAll(m, front, conv, style);
    assert conv(b, style) == b by {
      assert conv(conv(a, style), style) == conv(a, style);
    }
    if x == a {
      RenameAllKeepsUnwalked(m, front, conv, style);
      assert a in prior && prior[a] == m[a];
    } else {
      assert a in front;
      RenameAllCollision(m, front, conv, style, a, b);
      if conv(x, style) != x {
        assert x != b;
        assert conv(x, style) != b;
        assert conv(x, style) != a by {
          assert conv(conv(x, style), style) == conv(x, style);
        }
      }
    }
  }

  /** A walk order for `m`: each key of `m` exactly once. */
  ghost predicate Enumerates<V>(keys: seq<string>, m: map<string, V>)
  {
    Distinct(keys) && forall k :: k in keys <==> k in m
  }

  lemma SortedKeysEnumerates<V>(m: map<string, V>)
    ensures Enumerates(SortedKeys(m.Keys), m)
  {
  }

  /** The full autofix walk over a map leaves exactly the conversions of the
      original names. */
  lemma AutofixWalkKeys<V>(m: map<string, V>, keys: seq<string>, conv: Converter, style: Case)
    requires Idempotent(conv, style)
    requires Enumerates(keys, m)
    ensures RenameAll(m, keys, conv, style).Keys == (set k | k in m :: conv(k, style))
  {
    RenameAllKeys(m, keys, conv, style);
    WalkedAll(m.Keys, keys, conv, style);
  }

  /** After the full autofix walk every name conforms to the style. */
  lemma AutofixWalkConforms<V>(m: map<string, V>, keys: seq<string>, conv: Converter, style: Case)
    requires Idempotent(conv, style)
    requires Enumerates(keys, m)
    ensures forall t :: t in RenameAll(m, keys, conv, style) ==> conv(t, style) == t
  {
    AutofixWalkKeys(m, keys, conv, style);
    forall t | t in RenameAll(m, keys, conv, style) ensures conv(t, style) == t {
      var k :| k in m && conv(k, style) == t;
      assert conv(conv(k, style), style) == conv(k, style);
    }
  }

  /** After the full autofix walk each entry carries the payload of an
      original name that converts to it. */
  lemma AutofixWalkPayload<V>(m: map<string, V>, keys: seq<string>, conv: Converter, style: Case)
    requires Idempotent(conv, style)
    requires Enumerates(keys, m)
    ensures var r := RenameAll(m, keys, conv, style);
      forall t :: t in r ==> exists k :: k in m && conv(k, style) == t && r[t] == m[k]
  {
    var r := RenameAll(m, keys, conv, style);
    RenameAllPayload(m, keys, conv, style);
    AutofixWalkConforms(m, keys, conv, style);
    forall t | t in r ensures exists k :: k in m && conv(k, style) == t && r[t] == m[k] {
      var k :| k in m && (k == t || conv(k, style) == t) && r[t] == m[k];
      assert conv(k, style) == t;
    }
  }

  /** The full autofix walk without collisions keeps every payload, moved to
      the converted name. */
  lemma AutofixWalkInjective<V>(m: map<string, V>, keys: seq<string>, conv: Converter, style: Case)
    requires Idempotent(conv, style)
    requires Enumerates(keys, m)
    requires forall a, b :: a in m && b in m && conv(a, style) == conv(b, style) ==> a == b
    ensures forall k :: k in m ==>
              conv(k, style) in RenameAll(m, keys, conv, style)
              && RenameAll(m, keys, conv, style)[conv(k, style)] == m[k]
  {
    RenameAllInjective(m, keys, conv, style);
  }
}
