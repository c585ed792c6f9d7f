/** Validation and defensive copying of runtime-owned configuration: a recursion over a
    finite object heap that may be shared or cyclic. */
module ExtraConfig {

  /** A Python value: a scalar, or a reference to a container. */
  datatype Value =
    | Null
    | Boolean(b: bool)
    | Integer(i: int)
    | Text(s: string)
    | Float(f: real)
    | NonFinite
    | Reference(id: nat)
    | Other

  datatype Key = TextKey(s: string) | OtherKey

  datatype Container =
    | Mapping(keys: seq<Key>, values: seq<Value>)
    | Sequence(items: seq<Value>)
  {
    function Children(): seq<Value> {
      match this
      case Mapping(_, values) => values
      case Sequence(items) => items
    }
  }

  type Heap = map<nat, Container>

  predicate InHeap(heap: Heap, v: Value) {
    v.Reference? ==> v.id in heap
  }

  predicate AllInHeap(heap: Heap, values: seq<Value>) {
    forall k :: 0 <= k < |values| ==> InHeap(heap, values[k])
  }

  /** No dangling references, and one value a key. */
  ghost predicate ClosedHeap(heap: Heap) {
    forall r :: r in heap ==>
      && (heap[r].Mapping? ==> |heap[r].keys| == |heap[r].values|)
      && AllInHeap(heap, heap[r].Children())
  }

  /** Plain JSON, without references. */
  datatype Json =
    | JNull
    | JBool(b: bool)
    | JInt(i: int)
    | JText(s: string)
    | JFloat(f: real)
    | JObject(keys: seq<string>, values: seq<Json>)
    | JArray(items: seq<Json>)

  datatype Rejection = KeyNotText | NotFinite | NotJson | Circular
  datatype Outcome<T> = Normal(value: T) | Rejected(reason: Rejection)

  // ---------------------------------------------------------------------
  // The recursion
  // ---------------------------------------------------------------------

  /** `normalize`, with the containers being visited. It terminates on every finite
      heap: each nested container takes one reference out of those left. */
  function Normalized(heap: Heap, v: Value, active: set<nat>): Outcome<Json>
    requires ClosedHeap(heap) && InHeap(heap, v)
    decreases heap.Keys - active, 0
  {
    match v
    case Null => Normal(JNull)
    case Boolean(b) => Normal(JBool(b))
    case Integer(i) => Normal(JInt(i))
    case Text(s) => Normal(JText(s))
    case Float(f) => Normal(JFloat(f))
    case NonFinite => Rejected(NotFinite)
    case Other => Rejected(NotJson)
    case Reference(r) =>
      if r in active then Rejected(Circular)
      else
        assert r in heap.Keys - active;
        match heap[r]
        case Mapping(keys, values) =>
          (match NormalizedItems(heap, keys, values, active + {r})
           case Rejected(e) => Rejected(e)
           case Normal(vs) => Normal(JObject(KeyTexts(keys), vs)))
        case Sequence(items) =>
          match NormalizedItems(heap, [], items, active + {r})
          case Rejected(e) => Rejected(e)
          case Normal(vs) => Normal(JArray(vs))
  }

  function KeyTexts(keys: seq<Key>): seq<string> {
    seq(|keys|, i requires 0 <= i < |keys| => match keys[i] case TextKey(s) => s case OtherKey => "")
  }

  /** The items in order; for a mapping each key is tested before its value. */
  function NormalizedItems(heap: Heap, keys: seq<Key>, values: seq<Value>, active: set<nat>): (r: Outcome<seq<Json>>)
    requires ClosedHeap(heap) && AllInHeap(heap, values)
    requires keys == [] || |keys| == |values|
    ensures r.Normal? ==> |r.value| == |values|
    decreases heap.Keys - active, 1 + |values|
  {
    if values == [] then Normal([])
    else if keys != [] && keys[0].OtherKey? then Rejected(KeyNotText)
    else
      match Normalized(heap, values[0], active)
      case Rejected(e) => Rejected(e)
      case Normal(first) =>
        match NormalizedItems(heap, if keys == [] then [] else keys[1..], values[1..], active)
        case Rejected(e) => Rejected(e)
        case Normal(rest) => Normal([first] + rest)
  }

  class Normalizer {
    const heap: Heap
    var active: set<nat>

    constructor (heap: Heap)
      ensures this.heap == heap && active == {}
    {
      this.heap := heap;
      active := {};
    }

    /** The visited containers are restored on every way out. */
    method Normalize(v: Value) returns (r: Outcome<Json>)
      requires ClosedHeap(heap) && InHeap(heap, v)
      modifies this
      ensures active == old(active)
      ensures r == Normalized(heap, v, old(active))
      decreases heap.Keys - active, 0
    {
      match v {
        case Null => r := Normal(JNull);
        case Boolean(b) => r := Normal(JBool(b));
        case Integer(i) => r := Normal(JInt(i));
        case Text(s) => r := Normal(JText(s));
        case Float(f) => r := Normal(JFloat(f));
        case NonFinite => r := Rejected(NotFinite);
        case Other => r := Rejected(NotJson);
        case Reference(marker) =>
          if marker in active {
            return Rejected(Circular);
          }
          assert marker in heap.Keys - active;
          ghost var before := active;
          active := active + {marker};
          var container := heap[marker];
          match container {
            case Mapping(keys, values) =>
              var items := NormalizeItems(keys, values);
              r := if items.Normal? then Normal(JObject(KeyTexts(keys), items.value)) else Rejected(items.reason);
            case Sequence(values) =>
              var items := NormalizeItems([], values);
              r := if items.Normal? then Normal(JArray(items.value)) else Rejected(items.reason);
          }
          active := active - {marker};
          assert active == before;
      }
    }

    method NormalizeItems(keys: seq<Key>, values: seq<Value>) returns (r: Outcome<seq<Json>>)
      requires ClosedHeap(heap) && AllInHeap(heap, values)
      requires keys == [] || |keys| == |values|
      modifies this
      ensures active == old(active)
      ensures r == NormalizedItems(heap, keys, values, old(active))
      decreases heap.Keys - active, 1 + |values|
    {
      var result: seq<Json> := [];
      assert values[0..] == values && keys[0..] == keys && forall rest: seq<Json> :: [] + rest == rest;
      for i := 0 to |values|
        invariant active == old(active)
        invariant NormalizedItems(heap, keys, values, active) ==
                  match NormalizedItems(heap, if keys == [] then [] else keys[i..], values[i..], active)
                  case Rejected(e) => Rejected(e)
                  case Normal(rest) => Normal(result + rest)
      {
        ghost var keysLeft := if keys == [] then [] else keys[i..];
        assert values[i..][1..] == values[i + 1..];
        assert keys != [] ==> keysLeft[1..] == keys[i + 1..];
        if keys != [] && keys[i].OtherKey? {
          return Rejected(KeyNotText);
        }
        var item := Normalize(values[i]);
        if item.Rejected? {
          return Rejected(item.reason);
        }
        assert forall rest: seq<Json> :: result + ([item.value] + rest) == result + [item.value] + rest;
        result := result + [item.value];
      }
      assert result + [] == result;
      r := Normal(result);
    }
  }

  // ---------------------------------------------------------------------
  // Meaning: the unfolding of a value into a finite tree
  // ---------------------------------------------------------------------

  /** The tree is what the value looks like with all references followed. A value has
      one exactly when it is JSON throughout and reaches no cycle: see `NormalExactly`. */
  ghost predicate Unfolds(heap: Heap, v: Value, t: Json)
    requires ClosedHeap(heap) && InHeap(heap, v)
    decreases t
  {
    match v
    case Null => t == JNull
    case Boolean(b) => t == JBool(b)
    case Integer(i) => t == JInt(i)
    case Text(s) => t == JText(s)
    case Float(f) => t == JFloat(f)
    case NonFinite => false
    case Other => false
    case Reference(r) =>
      match heap[r]
      case Mapping(keys, values) =>
        && t.JObject? && |t.keys| == |keys| && |t.values| == |values|
        && (forall k :: 0 <= k < |keys| ==> keys[k] == TextKey(t.keys[k]))
        && (forall k :: 0 <= k < |values| ==> Unfolds(heap, values[k], t.values[k]))
      case Sequence(items) =>
        && t.JArray? && |t.items| == |items|
        && forall k :: 0 <= k < |items| ==> Unfolds(heap, items[k], t.items[k])
  }

  /** A value has at most one unfolding. */
  lemma {:induction false} UnfoldsUnique(heap: Heap, v: Value, t: Json, u: Json)
    requires ClosedHeap(heap) && InHeap(heap, v) && Unfolds(heap, v, t) && Unfolds(heap, v, u)
    ensures t == u
    decreases t
  {
    if v.Reference? {
      var children := heap[v.id].Children();
      var ts := if t.JObject? then t.values else t.items;
      var us := if u.JObject? then u.values else u.items;
      forall k | 0 <= k < |children| ensures ts[k] == us[k] {
        UnfoldsUnique(heap, children[k], ts[k], us[k]);
      }
      assert ts == us;
      if t.JObject? {
        forall k | 0 <= k < |t.keys| ensures t.keys[k] == u.keys[k] {
          assert heap[v.id].keys[k] == TextKey(t.keys[k]);
        }
        assert t.keys == u.keys;
      }
    }
  }

  lemma {:induction false} NormalizedUnfolds(heap: Heap, v: Value, active: set<nat>)
    requires ClosedHeap(heap) && InHeap(heap, v) && Normalized(heap, v, active).Normal?
    ensures Unfolds(heap, v, Normalized(heap, v, active).value)
    decreases heap.Keys - active, 0
  {
    if v.Reference? {
      assert v.id in heap.Keys - active;
      match heap[v.id]
      case Mapping(keys, values) => ItemsUnfold(heap, keys, values, active + {v.id});
      case Sequence(items) => ItemsUnfold(heap, [], items, active + {v.id});
    }
  }

  lemma {:induction false} ItemsUnfold(heap: Heap, keys: seq<Key>, values: seq<Value>, active: set<nat>)
    requires ClosedHeap(heap) && AllInHeap(heap, values)
    requires keys == [] || |keys| == |values|
    requires NormalizedItems(heap, keys, values, active).Normal?
    ensures forall k :: 0 <= k < |values| ==> Unfolds(heap, values[k], NormalizedItems(heap, keys, values, active).value[k])
    ensures forall k :: 0 <= k < |keys| ==> keys[k] == TextKey(KeyTexts(keys)[k])
    decreases heap.Keys - active, 1 + |values|
  {
    if values != [] {
      NormalizedUnfolds(heap, values[0], active);
      ItemsUnfold(heap, if keys == [] then [] else keys[1..], values[1..], active);
      var r := NormalizedItems(heap, keys, values, active).value;
      forall k | 0 < k < |values| ensures Unfolds(heap, values[k], r[k]) {
        assert values[k] == values[1..][k - 1];
      }
      forall k | 0 <= k < |keys| ensures keys[k] == TextKey(KeyTexts(keys)[k]) {
        if k > 0 { assert keys[k] == keys[1..][k - 1]; }
      }
    }
  }

  /** The trees of the containers being visited, each larger than the tree at hand. */
  ghost predicate Larger(heap: Heap, active: set<nat>, trees: map<nat, Json>, t: Json)
    requires ClosedHeap(heap)
  {
    forall a :: a in active ==>
      a in heap && a in trees && Unfolds(heap, Reference(a), trees[a]) && t < trees[a]
  }

  lemma {:induction false} UnfoldsNormalized(heap: Heap, v: Value, active: set<nat>, trees: map<nat, Json>, t: Json)
    requires ClosedHeap(heap) && InHeap(heap, v) && Unfolds(heap, v, t) && Larger(heap, active, trees, t)
    ensures Normalized(heap, v, active) == Normal(t)
    decreases t, 1
  {
    if v.Reference? {
      var r := v.id;
      if r in active {
        UnfoldsUnique(heap, v, t, trees[r]);
        assert false;
      } else {
        assert r in heap.Keys - active;
        var inner := trees[r := t];
        match heap[r]
        case Mapping(keys, values) =>
          UnfoldsItems(heap, keys, values, active + {r}, inner, t, t.values);
          assert KeyTexts(keys) == t.keys;
        case Sequence(items) =>
          UnfoldsItems(heap, [], items, active + {r}, inner, t, t.items);
      }
    }
  }

  lemma {:induction false} UnfoldsItems(heap: Heap, keys: seq<Key>, values: seq<Value>, active: set<nat>,
                                        trees: map<nat, Json>, whole: Json, ts: seq<Json>)
    requires ClosedHeap(heap) && AllInHeap(heap, values)
    requires keys == [] || |keys| == |values|
    requires forall k :: 0 <= k < |keys| ==> keys[k].TextKey?
    requires |ts| == |values| && forall k :: 0 <= k < |ts| ==> ts[k] < whole && Unfolds(heap, values[k], ts[k])
    requires forall k :: 0 <= k < |ts| ==> Larger(heap, active, trees, ts[k])
    ensures NormalizedItems(heap, keys, values, active) == Normal(ts)
    decreases whole, 0, |ts|
  {
    if values != [] {
      UnfoldsNormalized(heap, values[0], active, trees, ts[0]);
      UnfoldsItems(heap, if keys == [] then [] else keys[1..], values[1..], active, trees, whole, ts[1..]);
      assert [ts[0]] + ts[1..] == ts;
    }
  }

  /** Normalisation succeeds exactly on the values that unfold into a finite JSON tree,
      and returns that tree. */
  lemma NormalizedExactly(heap: Heap, v: Value, t: Json)
    requires ClosedHeap(heap) && InHeap(heap, v)
    ensures Normalized(heap, v, {}) == Normal(t) <==> Unfolds(heap, v, t)
  {
    if Normalized(heap, v, {}) == Normal(t) {
      NormalizedUnfolds(heap, v, {});
    }
    if Unfolds(heap, v, t) {
      UnfoldsNormalized(heap, v, {}, map[], t);
    }
  }

  // ---------------------------------------------------------------------
  // Cycles
  // ---------------------------------------------------------------------

  /** A chain of containers, each holding a reference to the next. */
  ghost predicate IsChain(heap: Heap, chain: seq<nat>) {
    && chain != []
    && (forall k :: 0 <= k < |chain| ==> chain[k] in heap)
    && forall k :: 0 <= k < |chain| - 1 ==> Reference(chain[k + 1]) in heap[chain[k]].Children()
  }

  /** Along a chain the unfoldings get strictly smaller. */
  lemma {:induction false} ChainShrinks(heap: Heap, chain: seq<nat>, t: Json) returns (u: Json)
    requires ClosedHeap(heap) && IsChain(heap, chain) && Unfolds(heap, Reference(chain[0]), t)
    ensures Unfolds(heap, Reference(chain[|chain| - 1]), u)
    ensures if |chain| == 1 then u == t else u < t
    decreases |chain|
  {
    if |chain| == 1 {
      u := t;
    } else {
      var children := heap[chain[0]].Children();
      assert Reference(chain[1]) in children;
      var k :| 0 <= k < |children| && children[k] == Reference(chain[1]);
      var next := if t.JObject? then t.values[k] else t.items[k];
      u := ChainShrinks(heap, chain[1..], next);
    }
  }

  /** Success means that no cycle can be reached. */
  lemma SuccessMeansAcyclic(heap: Heap, v: Value, chain: seq<nat>, i: nat, j: nat)
    requires ClosedHeap(heap) && InHeap(heap, v) && Normalized(heap, v, {}).Normal?
    requires IsChain(heap, chain) && v == Reference(chain[0]) && i < j < |chain|
    ensures chain[i] != chain[j]
  {
    NormalizedUnfolds(heap, v, {});
    var t := ChainShrinks(heap, chain[..i + 1], Normalized(heap, v, {}).value);
    var u := ChainShrinks(heap, chain[i..j + 1], t);
    if chain[i] == chain[j] {
      UnfoldsUnique(heap, Reference(chain[i]), t, u);
    }
  }

  /** Items are rejected for what one of the values is rejected for, unless a key is at fault. */
  lemma {:induction false} RejectedItem(heap: Heap, keys: seq<Key>, values: seq<Value>, active: set<nat>) returns (k: nat)
    requires ClosedHeap(heap) && AllInHeap(heap, values)
    requires keys == [] || |keys| == |values|
    requires NormalizedItems(heap, keys, values, active).Rejected?
    requires NormalizedItems(heap, keys, values, active).reason == Circular || forall i :: 0 <= i < |keys| ==> keys[i].TextKey?
    ensures k < |values|
    ensures Normalized(heap, values[k], active) == Rejected(NormalizedItems(heap, keys, values, active).reason)
    decreases |values|
  {
    if Normalized(heap, values[0], active).Rejected? {
      k := 0;
    } else {
      k := RejectedItem(heap, if keys == [] then [] else keys[1..], values[1..], active);
      k := k + 1;
    }
  }

  /** And the circular rejection is given only when one can: some chain of references
      below the visited ones comes back to itself. */
  lemma {:induction false} CircularMeansCycle(heap: Heap, v: Value, active: set<nat>, path: seq<nat>) returns (chain: seq<nat>)
    requires ClosedHeap(heap) && InHeap(heap, v)
    requires forall a :: a in active <==> a in path
    requires path != [] ==> IsChain(heap, path) && v in heap[path[|path| - 1]].Children()
    requires Normalized(heap, v, active) == Rejected(Circular)
    ensures IsChain(heap, chain) && chain[|chain| - 1] in chain[..|chain| - 1]
    ensures chain[0] == if path != [] then path[0] else v.id
    decreases heap.Keys - active, 0
  {
    var r := v.id;
    chain := path + [r];
    ChainGrows(heap, path, r);
    assert chain[..|chain| - 1] == path;
    if r !in active {
      assert r in heap.Keys - active;
      var keys := if heap[r].Mapping? then heap[r].keys else [];
      var k := RejectedItem(heap, keys, heap[r].Children(), active + {r});
      chain := CircularMeansCycle(heap, heap[r].Children()[k], active + {r}, chain);
    }
  }

  // ---------------------------------------------------------------------
  // Exactly the JSON values without cycles are normalised
  // ---------------------------------------------------------------------

  /** The value itself is JSON: a finite number, or a container with text keys only. */
  ghost predicate JsonHere(heap: Heap, w: Value)
    requires InHeap(heap, w)
  {
    && !w.NonFinite? && !w.Other?
    && (w.Reference? && heap[w.id].Mapping? ==>
          forall k :: 0 <= k < |heap[w.id].keys| ==> heap[w.id].keys[k].TextKey?)
  }

  /** The value itself, or one held by a container at the end of a chain from it. */
  ghost predicate Reached(heap: Heap, v: Value, w: Value) {
    w == v || exists chain :: HeldBelow(heap, v, chain, w)
  }

  ghost predicate HeldBelow(heap: Heap, v: Value, chain: seq<nat>, w: Value) {
    IsChain(heap, chain) && v == Reference(chain[0]) && w in heap[chain[|chain| - 1]].Children()
  }

  ghost predicate AllJson(heap: Heap, v: Value)
    requires ClosedHeap(heap) && InHeap(heap, v)
  {
    forall w :: Reached(heap, v, w) && InHeap(heap, w) ==> JsonHere(heap, w)
  }

  /** No chain from the value comes back to a container. */
  ghost predicate Acyclic(heap: Heap, v: Value) {
    forall chain :: IsChain(heap, chain) && v == Reference(chain[0]) ==> Distinct(chain)
  }

  ghost predicate Distinct(chain: seq<nat>) {
    forall i, j :: 0 <= i < j < |chain| ==> chain[i] != chain[j]
  }

  /** A rejection for another reason than a cycle is given only for a reachable value
      that is not JSON. */
  lemma {:induction false} RejectionMeansOffender(heap: Heap, v: Value, active: set<nat>, path: seq<nat>)
      returns (chain: seq<nat>, w: Value)
    requires ClosedHeap(heap) && InHeap(heap, v)
    requires forall a :: a in active <==> a in path
    requires path != [] ==> IsChain(heap, path) && v in heap[path[|path| - 1]].Children()
    requires Normalized(heap, v, active).Rejected? && Normalized(heap, v, active).reason != Circular
    ensures InHeap(heap, w) && !JsonHere(heap, w)
    ensures chain == [] ==> path == [] && w == v
    ensures chain != [] ==> HeldBelow(heap, if path != [] then Reference(path[0]) else v, chain, w)
    decreases heap.Keys - active, 0
  {
    if !JsonHere(heap, v) {
      chain, w := path, v;
    } else {
      var r := v.id;
      assert r in heap.Keys - active;
      ChainGrows(heap, path, r);
      var keys := if heap[r].Mapping? then heap[r].keys else [];
      var k := RejectedItem(heap, keys, heap[r].Children(), active + {r});
      chain, w := RejectionMeansOffender(heap, heap[r].Children()[k], active + {r}, path + [r]);
    }
  }

  lemma ChainGrows(heap: Heap, path: seq<nat>, r: nat)
    requires ClosedHeap(heap) && r in heap
    requires path != [] ==> IsChain(heap, path) && Reference(r) in heap[path[|path| - 1]].Children()
    ensures IsChain(heap, path + [r])
  {
    var chain := path + [r];
    forall k | 0 <= k < |chain| - 1 ensures Reference(chain[k + 1]) in heap[chain[k]].Children() {
      if k < |path| - 1 { assert chain[k] == path[k] && chain[k + 1] == path[k + 1]; }
    }
  }

  /** Everything reachable from a value that unfolds is JSON. */
  lemma UnfoldedAllJson(heap: Heap, v: Value, t: Json, w: Value)
    requires ClosedHeap(heap) && InHeap(heap, v) && Unfolds(heap, v, t)
    requires Reached(heap, v, w) && InHeap(heap, w)
    ensures JsonHere(heap, w)
  {
    if w != v {
      var chain :| HeldBelow(heap, v, chain, w);
      var u := ChainShrinks(heap, chain, t);
      var children := heap[chain[|chain| - 1]].Children();
      var k :| 0 <= k < |children| && children[k] == w;
      assert Unfolds(heap, w, if u.JObject? then u.values[k] else u.items[k]);
    }
  }

  /** Normalisation succeeds exactly on the values that are JSON throughout and from
      which no cycle can be reached; sharing does not matter. */
  lemma NormalExactly(heap: Heap, v: Value)
    requires ClosedHeap(heap) && InHeap(heap, v)
    ensures Normalized(heap, v, {}).Normal? <==> Acyclic(heap, v) && AllJson(heap, v)
  {
    var r := Normalized(heap, v, {});
    match r
    case Normal(t) =>
      NormalizedUnfolds(heap, v, {});
      forall chain | IsChain(heap, chain) && v == Reference(chain[0]) ensures Distinct(chain) {
        forall i, j | 0 <= i < j < |chain| ensures chain[i] != chain[j] { SuccessMeansAcyclic(heap, v, chain, i, j); }
      }
      forall w | Reached(heap, v, w) && InHeap(heap, w) ensures JsonHere(heap, w) { UnfoldedAllJson(heap, v, t, w); }
    case Rejected(Circular) =>
      var chain := CircularMeansCycle(heap, v, {}, []);
      var i :| 0 <= i < |chain| - 1 && chain[..|chain| - 1][i] == chain[|chain| - 1];
      assert !Distinct(chain);
    case Rejected(_) =>
      var chain, w := RejectionMeansOffender(heap, v, {}, []);
      assert Reached(heap, v, w);
  }

  // ---------------------------------------------------------------------
  // _normalize_extra_config
  // ---------------------------------------------------------------------

  datatype ConfigOutcome = Config(value: Json) | NotAMapping | Invalid(reason: Rejection)

  /** No configuration is the empty one; otherwise a mapping, normalised from no visited
      containers. The result of a mapping is an object. */
  method NormalizeExtraConfig(heap: Heap, given: bool, config: Value) returns (r: ConfigOutcome)
    requires ClosedHeap(heap) && InHeap(heap, config)
    ensures !given ==> r == Config(JObject([], []))
    ensures given ==> (r.NotAMapping? <==> !(config.Reference? && heap[config.id].Mapping?))
    ensures given && r.Config? ==> r.value.JObject? && Unfolds(heap, config, r.value)
    ensures given && r.Invalid? ==> forall t :: !Unfolds(heap, config, t)
    ensures given && !r.NotAMapping? ==> (r.Config? <==> Acyclic(heap, config) && AllJson(heap, config))
  {
    if !given {
      return Config(JObject([], []));
    }
    if !config.Reference? || !heap[config.id].Mapping? {
      return NotAMapping;
    }
    var normalizer := new Normalizer(heap);
    var outcome := normalizer.Normalize(config);
    forall t ensures Normalized(heap, config, {}) == Normal(t) <==> Unfolds(heap, config, t) {
      NormalizedExactly(heap, config, t);
    }
    NormalExactly(heap, config);
    if outcome.Normal? {
      return Config(outcome.value);
    }
    r := Invalid(outcome.reason);
  }
}
