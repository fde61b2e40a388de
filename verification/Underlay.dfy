/** Laying a configuration over the distribution's defaults. */
module Underlay {
  import opened Text

  /** A configuration value: a table, or anything else. */
  datatype Value = Leaf(text: string) | Table(entries: map<string, Value>)

  /** `top` with every key only `base` defines filled in, descending into tables both define; where either is
      no table, `top`. */
  function Laid(top: Value, base: Value): (out: Value)
    ensures out.Table? <==> top.Table?
    decreases top
  {
    if top.Leaf? || base.Leaf? then top
    else
      Table(map key | key in top.entries.Keys + base.entries.Keys ::
        if key !in top.entries then base.entries[key]
        else if key !in base.entries then top.entries[key]
        else Laid(top.entries[key], base.entries[key]))
  }

  method Underlay(top: Value, base: Value) returns (out: Value)
    requires top.Table? && base.Table?
    ensures out == Laid(top, base)
    decreases top
  {
    var laid: map<string, Value> := map[];
    var keys := base.entries.Keys;
    while keys != {}
      invariant keys <= base.entries.Keys && laid.Keys == base.entries.Keys - keys
      invariant forall key :: key in laid ==> laid[key] == base.entries[key]
    {
      var key :| key in keys;
      laid, keys := laid[key := base.entries[key]], keys - {key};
    }
    keys := top.entries.Keys;
    while keys != {}
      invariant keys <= top.entries.Keys && laid.Keys == base.entries.Keys + (top.entries.Keys - keys)
      invariant forall key :: key in laid && key in keys ==> laid[key] == base.entries[key]
      invariant forall key :: key in laid && key !in keys ==> laid[key] == Laid(top, base).entries[key]
    {
      var key :| key in keys;
      keys := keys - {key};
      var value := top.entries[key];
      if value.Table? && key in base.entries && base.entries[key].Table? {
        value := Underlay(value, base.entries[key]);
      }
      laid := laid[key := value];
    }
    out := Table(laid);
  }

  /** The setting at the end of a path of keys; None when there is none, or a table. */
  function LeafAt(value: Value, path: seq<string>): Option<string>
    decreases path
  {
    if path == [] then (if value.Leaf? then Some(value.text) else None)
    else if value.Leaf? || path[0] !in value.entries then None
    else LeafAt(value.entries[path[0]], path[1..])
  }

  /** The operator's own file says something about the path: a setting or a table there, or a setting above
      it. */
  predicate Decides(value: Value, path: seq<string>)
    decreases path
  {
    path == [] || value.Leaf? || (path[0] in value.entries && Decides(value.entries[path[0]], path[1..]))
  }

  /** Layer by layer: every setting of the file stands, and a default stands exactly where the file decides
      nothing. */
  lemma {:induction false} EveryPath(top: Value, base: Value, path: seq<string>)
    requires top.Table? && base.Table?
    ensures LeafAt(Laid(top, base), path) == if Decides(top, path) then LeafAt(top, path) else LeafAt(base, path)
    decreases path
  {
    if path != [] && path[0] in top.entries && path[0] in base.entries {
      var a, b := top.entries[path[0]], base.entries[path[0]];
      if a.Table? && b.Table? {
        EveryPath(a, b, path[1..]);
      } else if !Decides(a, path[1..]) {
        Undecided(a, path[1..]);
      }
    } else if path != [] && path[0] in top.entries && !Decides(top, path) {
      Undecided(top, path);
    }
  }

  lemma {:induction false} Undecided(value: Value, path: seq<string>)
    requires !Decides(value, path)
    ensures LeafAt(value, path) == None && path != []
    decreases path
  {
    if path[0] in value.entries {
      Undecided(value.entries[path[0]], path[1..]);
    }
  }

  /** Laying the same defaults under twice changes nothing. */
  lemma {:induction false} LaidTwice(top: Value, base: Value)
    ensures Laid(Laid(top, base), base) == Laid(top, base)
    decreases top
  {
    if top.Table? && base.Table? {
      var once := Laid(top, base);
      var twice := Laid(once, base);
      forall key | key in once.entries ensures twice.entries[key] == once.entries[key] {
        if key in base.entries && key in top.entries {
          LaidTwice(top.entries[key], base.entries[key]);
        } else if key in base.entries {
          LaidOnItself(base.entries[key]);
        }
      }
      assert twice.entries.Keys == once.entries.Keys;
      assert twice.entries == once.entries;
    }
  }

  lemma {:induction false} LaidOnItself(base: Value)
    ensures Laid(base, base) == base
    decreases base
  {
    if base.Table? {
      forall key | key in base.entries ensures Laid(base, base).entries[key] == base.entries[key] {
        LaidOnItself(base.entries[key]);
      }
      assert Laid(base, base).entries == base.entries;
    }
  }

  /** The layer has a word of its own for every key of the other, down to where either holds a setting. */
  ghost predicate Covers(a: Value, c: Value)
    decreases c
  {
    a.Leaf? || c.Leaf? || forall key :: key in c.entries ==> key in a.entries && Covers(a.entries[key], c.entries[key])
  }

  /** Laid under a layer that covers them, defaults change nothing; under any other they do. */
  lemma {:induction false} CoversMeansUnchanged(a: Value, c: Value)
    ensures Laid(a, c) == a <==> Covers(a, c)
    decreases c
  {
    if a.Table? && c.Table? {
      var laid := Laid(a, c);
      forall key | key in c.entries && key in a.entries
        ensures laid.entries[key] == a.entries[key] <==> Covers(a.entries[key], c.entries[key])
      {
        CoversMeansUnchanged(a.entries[key], c.entries[key]);
      }
      if Covers(a, c) {
        assert laid.entries.Keys == a.entries.Keys;
        assert laid.entries == a.entries;
      }
      if laid == a {
        assert forall key :: key in c.entries ==> key in laid.entries;
      }
    }
  }

  /** Wherever the middle layer holds a setting between two tables, the top one covers the bottom one. */
  ghost predicate Associates(a: Value, b: Value, c: Value)
    decreases a
  {
    || a.Leaf? || c.Leaf?
    || if b.Leaf? then Covers(a, c)
       else forall key :: key in a.entries && key in b.entries && key in c.entries ==>
              Associates(a.entries[key], b.entries[key], c.entries[key])
  }

  /** Exactly then laying three layers does not depend on which two are laid first. */
  lemma {:induction false} LaidAssociates(a: Value, b: Value, c: Value)
    ensures Laid(Laid(a, b), c) == Laid(a, Laid(b, c)) <==> Associates(a, b, c)
    decreases a
  {
    if a.Table? && c.Table? {
      if b.Leaf? {
        CoversMeansUnchanged(a, c);
      } else {
        forall key | key in a.entries && key in b.entries && key in c.entries
          ensures SameAt(a, b, c, key) <==> Associates(a.entries[key], b.entries[key], c.entries[key])
        {
          LaidAssociates(a.entries[key], b.entries[key], c.entries[key]);
        }
        KeyByKey(a, b, c);
      }
    }
  }

  /** Laid either way the layers have the same word at a key all three hold. */
  ghost predicate SameAt(a: Value, b: Value, c: Value, key: string)
    requires a.Table? && b.Table? && c.Table?
    requires key in a.entries && key in b.entries && key in c.entries
  {
    Laid(Laid(a.entries[key], b.entries[key]), c.entries[key]) == Laid(a.entries[key], Laid(b.entries[key], c.entries[key]))
  }

  lemma OneKey(a: Value, b: Value, c: Value, key: string)
    requires a.Table? && b.Table? && c.Table?
    ensures var left, right := Laid(Laid(a, b), c).entries, Laid(a, Laid(b, c)).entries;
            && (key in left <==> key in right)
            && (key in left ==>
                 (left[key] == right[key] <==>
                  (key in a.entries && key in b.entries && key in c.entries ==> SameAt(a, b, c, key))))
  {
  }

  lemma SameEntries(left: map<string, Value>, right: map<string, Value>)
    requires forall key :: key in left <==> key in right
    ensures left == right <==> forall key :: key in left ==> left[key] == right[key]
  {
    assert left.Keys == right.Keys;
  }

  /** Three tables laid either way have the same keys, and differ at most at those all three hold. */
  lemma KeyByKey(a: Value, b: Value, c: Value)
    requires a.Table? && b.Table? && c.Table?
    ensures Laid(Laid(a, b), c) == Laid(a, Laid(b, c)) <==>
            forall key :: key in a.entries && key in b.entries && key in c.entries ==> SameAt(a, b, c, key)
  {
    var left, right := Laid(Laid(a, b), c).entries, Laid(a, Laid(b, c)).entries;
    forall key
      ensures key in left <==> key in right
      ensures key in left ==>
                (left[key] == right[key] <==>
                 (key in a.entries && key in b.entries && key in c.entries ==> SameAt(a, b, c, key)))
    {
      OneKey(a, b, c, key);
    }
    SameEntries(left, right);
    assert forall key :: key in a.entries ==> key in left;
  }

  /** Two layers hold tables at the same places. */
  ghost predicate Agree(a: Value, b: Value)
    decreases a
  {
    && (a.Table? <==> b.Table?)
    && (a.Table? && b.Table? ==>
          forall key :: key in a.entries && key in b.entries ==> Agree(a.entries[key], b.entries[key]))
  }

  /** So it is where the middle layer agrees with both others on what is a table. */
  lemma {:induction false} AgreeingLayersAssociate(a: Value, b: Value, c: Value)
    requires Agree(a, b) && Agree(b, c)
    ensures Associates(a, b, c)
    decreases a
  {
    if a.Table? {
      forall key | key in a.entries && key in b.entries && key in c.entries
        ensures Associates(a.entries[key], b.entries[key], c.entries[key])
      {
        AgreeingLayersAssociate(a.entries[key], b.entries[key], c.entries[key]);
      }
    }
  }

  /** A setting between two tables, the lowest of which says more, breaks that: laid from the top down, it shows
      through. */
  lemma NotAssociative(key: string, inner: string, text: string)
    ensures var a, b, c := Table(map[key := Table(map[])]), Table(map[key := Leaf(text)]), Table(map[key := Table(map[inner := Leaf(text)])]);
            && LeafAt(Laid(Laid(a, b), c), [key, inner]) == Some(text)
            && LeafAt(Laid(a, Laid(b, c)), [key, inner]) == None
  {
    var a, b, c := Table(map[key := Table(map[])]), Table(map[key := Leaf(text)]), Table(map[key := Table(map[inner := Leaf(text)])]);
    var path := [key, inner];
    assert path[1..] == [inner] && path[1..][1..] == [];
    EveryPath(Laid(a, b), c, path);
    EveryPath(a, Laid(b, c), path);
    EveryPath(b, c, path);
    assert Laid(a, b).entries[key] == Table(map[]);
    assert LeafAt(c.entries[key], path[1..]) == LeafAt(Leaf(text), []);
  }
}
