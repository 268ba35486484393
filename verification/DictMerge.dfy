/**
  Overlaying nested dictionaries (python/vyos/configdict.py, `dict_merge`).
 */
module DictMerge {
  import opened Wrappers

  /** A dictionary value: a scalar or list, or a dictionary again. */
  datatype Value = Leaf(text: string) | Node(children: Dict)

  type Dict = map<string, Value>

  /** Where the source nests a dictionary that is not empty, the destination has none or nests one too. */
  ghost predicate Compatible(source: Value, destination: Value)
    decreases source
  {
    source.Leaf? || source == Node(map[]) || (destination.Node? &&
      forall k :: k in source.children && k in destination.children ==>
        Compatible(source.children[k], destination.children[k]))
  }

  /** The merged dictionary: the destination, completed from the source. */
  ghost function Merged(source: Value, destination: Value): Value
    decreases source
  {
    if source.Leaf? || destination.Leaf? then destination
    else
      Node(map k | k in source.children.Keys + destination.children.Keys ::
             if k !in destination.children then source.children[k]
             else if k in source.children then Merged(source.children[k], destination.children[k])
             else destination.children[k])
  }

  /** `dict_merge`: the copy of the destination is filled key by key. */
  method MergeDicts(source: Dict, destination: Value, ghost whole: Value) returns (tmp: Value)
    requires whole == Node(source) && Compatible(whole, destination)
    ensures tmp == Merged(whole, destination)
    decreases whole
  {
    tmp := destination;
    var keys := source.Keys;
    assert keys == {} ==> source == map[];
    while keys != {}
      invariant keys <= source.Keys && (destination.Leaf? ==> keys == {} && tmp == destination)
      invariant destination.Node? ==> tmp.Node? && Filled(source, destination.children, keys, tmp.children)
    {
      var key :| key in keys;
      var value := source[key];
      assert value == whole.children[key];
      assert key in tmp.children ==> key in destination.children && tmp.children[key] == destination.children[key];
      ghost var filled := tmp.children;
      if key !in tmp.children {
        tmp := Node(tmp.children[key := value]);
      } else if value.Node? {
        assert Compatible(value, destination.children[key]);
        var merged := MergeDicts(value.children, tmp.children[key], value);
        tmp := Node(tmp.children[key := merged]);
      }
      FillNext(source, destination.children, keys, filled, key, tmp.children);
      keys := keys - {key};
    }
    if destination.Node? {
      FilledAll(source, destination.children, tmp.children);
    }
  }

  /** What the merge has at a key of the source. */
  ghost function Entry(source: Dict, destination: Dict, k: string): Value
    requires k in source
  {
    if k in destination then Merged(source[k], destination[k]) else source[k]
  }

  /** The copy after the loop has passed all keys of the source but `keys`. */
  ghost predicate Filled(source: Dict, destination: Dict, keys: set<string>, tmp: Dict) {
    && tmp.Keys == destination.Keys + (source.Keys - keys)
    && (forall k :: k in tmp && (k in keys || k !in source) ==> tmp[k] == destination[k])
    && (forall k :: k in source && k !in keys ==> tmp[k] == Entry(source, destination, k))
  }

  lemma FillNext(source: Dict, destination: Dict, keys: set<string>, tmp: Dict, key: string, tmp': Dict)
    requires Filled(source, destination, keys, tmp) && key in keys && key in source
    requires tmp' == tmp[key := Entry(source, destination, key)]
    ensures Filled(source, destination, keys - {key}, tmp')
  {
  }

  lemma FilledAll(source: Dict, destination: Dict, tmp: Dict)
    requires Filled(source, destination, {}, tmp)
    ensures Node(tmp) == Merged(Node(source), Node(destination))
  {
    var m := Merged(Node(source), Node(destination)).children;
    assert m.Keys == tmp.Keys;
    assert forall k :: k in tmp ==> tmp[k] == m[k];
    assert tmp == m;
  }

  // ---- paths --------------------------------------------------------------------------

  /** What stands at a path, if the path exists. */
  ghost function At(v: Value, path: seq<string>): Option<Value> {
    if path == [] then Some(v)
    else if v.Node? && path[0] in v.children then At(v.children[path[0]], path[1..])
    else None
  }

  /**
    At every path: the destination's scalar if it has one there; the source's
    value if the destination has nothing there; and nothing else exists.
   */
  lemma {:induction false} MergedAt(source: Value, destination: Value, path: seq<string>)
    requires Compatible(source, destination)
    ensures var m := At(Merged(source, destination), path);
            && (m.Some? <==> At(source, path).Some? || At(destination, path).Some?)
            && (At(destination, path).None? ==> m == At(source, path))
            && (At(destination, path).Some? && At(destination, path).value.Leaf? ==> m == At(destination, path))
    decreases |path|
  {
    if path != [] && source.Node? {
      var k := path[0];
      if k in source.children && k in destination.children {
        MergedAt(source.children[k], destination.children[k], path[1..]);
      }
    }
  }

  // ---- laws ------------------------------------------------------------------------------

  lemma {:induction false} MergedSelf(v: Value)
    ensures Compatible(v, v) && Merged(v, v) == v
    decreases v
  {
    if v.Node? {
      forall k | k in v.children ensures Compatible(v.children[k], v.children[k]) && Merged(v.children[k], v.children[k]) == v.children[k] {
        MergedSelf(v.children[k]);
      }
      assert Merged(v, v).children == v.children;
    }
  }

  lemma MergedEmpty(v: Value)
    ensures Merged(Node(map[]), v) == v
  {
    if v.Node? {
      assert Merged(Node(map[]), v).children == v.children;
    }
  }

  /** Merging once more changes nothing. */
  lemma {:induction false} MergedIdempotent(source: Value, destination: Value)
    requires Compatible(source, destination)
    ensures Compatible(source, Merged(source, destination))
    ensures Merged(source, Merged(source, destination)) == Merged(source, destination)
    decreases source
  {
    if source.Node? && destination.Node? {
      var m := Merged(source, destination);
      forall k | k in source.children
        ensures Compatible(source.children[k], m.children[k]) && Merged(source.children[k], m.children[k]) == m.children[k]
      {
        if k in destination.children {
          MergedIdempotent(source.children[k], destination.children[k]);
        } else {
          MergedSelf(source.children[k]);
        }
      }
      assert Merged(source, m).children == m.children;
    }
  }

  /** Overlays can be combined in either grouping. */
  lemma {:induction false} MergedAssociative(a: Value, b: Value, c: Value)
    requires Compatible(a, b) && Compatible(b, c) && Compatible(a, c)
    ensures Compatible(a, Merged(b, c)) && Compatible(Merged(a, b), c)
    ensures Merged(a, Merged(b, c)) == Merged(Merged(a, b), c)
    decreases a
  {
    MergedEmpty(b);
    MergedEmpty(c);
    if a.Node? && b.Node? && c.Node? {
      var ab, bc := Merged(a, b), Merged(b, c);
      forall k | k in a.children && k in b.children && k in c.children
        ensures Compatible(a.children[k], bc.children[k]) && Compatible(ab.children[k], c.children[k])
        ensures Merged(a.children[k], bc.children[k]) == Merged(ab.children[k], c.children[k])
      {
        MergedAssociative(a.children[k], b.children[k], c.children[k]);
      }
      assert Merged(a, bc).children == Merged(ab, c).children;
    }
  }
}
