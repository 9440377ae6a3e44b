/**
 * The result-set algebra over per-font support results: a result maps a
 * script to a map from iso code to language. Intersection keeps what every
 * result has, union keeps what any result has, and the ordered form lists
 * scripts and, within each script, iso codes in ascending order.
 *
 * The source updates its first argument (and, in the union, inner maps of
 * its arguments) in place; here every operation is a pure function.
 */
module ResultSets {
  import opened StringOrder

  /** Script to iso code to language. */
  type Results<V> = map<string, map<string, V>>

  /** The ordered form: scripts ascending, each with its iso codes ascending. */
  type Ordered<V> = seq<(string, seq<(string, V)>)>

  // ---------------------------------------------------------------------
  // Ordering

  /** The keys of a list of pairs, in order. */
  function KeysOf<K, V>(r: seq<(K, V)>): (ks: seq<K>)
    ensures |ks| == |r| && forall j :: 0 <= j < |r| ==> ks[j] == r[j].0
  {
    if |r| == 0 then [] else [r[0].0] + KeysOf(r[1..])
  }

  /** Pairs each key of `keys`, in order, with its value in `m`. */
  function Entries<K, V>(keys: seq<K>, m: map<K, V>): (r: seq<(K, V)>)
    requires forall k :: k in keys ==> k in m
    ensures KeysOf(r) == keys
    ensures forall j :: 0 <= j < |r| ==> r[j].1 == m[keys[j]]
  {
    if |keys| == 0 then [] else [(keys[0], m[keys[0]])] + Entries(keys[1..], m)
  }

  /** The entries of one script's map, iso codes ascending, none added or dropped. */
  function SortedIsos<V>(langs: map<string, V>): (r: seq<(string, V)>)
    ensures |r| == |langs|
    ensures StrictlyAscending(KeysOf(r))
    ensures forall iso :: iso in KeysOf(r) <==> iso in langs
    ensures forall j :: 0 <= j < |r| ==> r[j].0 in langs && r[j].1 == langs[r[j].0]
  {
    Entries(SortedKeys(langs.Keys), langs)
  }

  /** Pairs each script of `scripts`, in order, with its entries in ascending iso order. */
  function ScriptEntries<V>(scripts: seq<string>, obj: Results<V>): (r: Ordered<V>)
    requires forall s :: s in scripts ==> s in obj
    ensures KeysOf(r) == scripts
    ensures forall j :: 0 <= j < |r| ==> r[j].1 == SortedIsos(obj[scripts[j]])
  {
    if |scripts| == 0 then []
    else [(scripts[0], SortedIsos(obj[scripts[0]]))] + ScriptEntries(scripts[1..], obj)
  }

  /**
   * `sorted_script_languages`: every script of the input exactly once,
   * ascending, each with all of its entries in ascending iso order; a script
   * with no iso codes is kept with an empty list. Empty input gives empty
   * output.
   */
  function SortedScriptLanguages<V>(obj: Results<V>): (r: Ordered<V>)
    ensures obj == map[] <==> r == []
    ensures |r| == |obj|
    ensures StrictlyAscending(KeysOf(r))
    ensures forall s :: s in KeysOf(r) <==> s in obj
    ensures forall j :: 0 <= j < |r| ==> r[j].0 in obj && r[j].1 == SortedIsos(obj[r[j].0])
  {
    ScriptEntries(SortedKeys(obj.Keys), obj)
  }

  /** Reads a list of (key, value) pairs back as a map; meant for lists with distinct keys. */
  ghost function PairsToMap<V>(r: seq<(string, V)>): map<string, V>
  {
    map k | k in KeysOf(r) :: var j :| 0 <= j < |r| && r[j].0 == k; r[j].1
  }

  /** Reads the ordered form back as a result. */
  ghost function ToResults<V>(r: Ordered<V>): Results<V>
  {
    ToResultsOf(PairsToMap(r))
  }

  ghost function ToResultsOf<V>(p: map<string, seq<(string, V)>>): Results<V>
  {
    map s | s in p :: PairsToMap(p[s])
  }

  /** Strictly ascending keys are distinct. */
  lemma AscendingDistinct(ks: seq<string>)
    requires StrictlyAscending(ks)
    ensures forall a, b :: 0 <= a < b < |ks| ==> ks[a] != ks[b]
  {
    forall a, b | 0 <= a < b < |ks|
      ensures ks[a] != ks[b]
    {
      LessIrreflexive(ks[a]);
    }
  }

  lemma PairsToMapKeys<V>(r: seq<(string, V)>, m: map<string, V>)
    requires forall k :: k in KeysOf(r) <==> k in m
    ensures PairsToMap(r).Keys == m.Keys
  {
  }

  lemma PairsToMapValues<V>(r: seq<(string, V)>, m: map<string, V>)
    requires forall a, b :: 0 <= a < b < |r| ==> r[a].0 != r[b].0
    requires forall k :: k in KeysOf(r) <==> k in m
    requires forall j :: 0 <= j < |r| ==> r[j].0 in m && r[j].1 == m[r[j].0]
    ensures forall k :: k in m ==> PairsToMap(r)[k] == m[k]
  {
  }

  lemma MapsAgree<V>(p: map<string, V>, m: map<string, V>)
    requires p.Keys == m.Keys
    requires forall k :: k in m ==> p[k] == m[k]
    ensures p == m
  {
  }

  /** Pairs with distinct keys that agree with `m` on exactly its keys read back as `m`. */
  lemma PairsRoundTrip<V>(r: seq<(string, V)>, m: map<string, V>)
    requires forall a, b :: 0 <= a < b < |r| ==> r[a].0 != r[b].0
    requires forall k :: k in KeysOf(r) <==> k in m
    requires forall j :: 0 <= j < |r| ==> r[j].0 in m && r[j].1 == m[r[j].0]
    ensures PairsToMap(r) == m
  {
    PairsToMapKeys(r, m);
    PairsToMapValues(r, m);
    MapsAgree(PairsToMap(r), m);
  }

  /** Reading one script's ordered entries back gives its map. */
  lemma IsosRoundTrip<V>(langs: map<string, V>)
    ensures PairsToMap(SortedIsos(langs)) == langs
  {
    var r := SortedIsos(langs);
    AscendingDistinct(KeysOf(r));
    PairsRoundTrip(r, langs);
  }

  /** Each script's map replaced by its ordered entries. */
  function SortEach<V>(obj: Results<V>): map<string, seq<(string, V)>>
  {
    map s | s in obj :: SortedIsos(obj[s])
  }

  lemma ScriptsDistinct<V>(obj: Results<V>)
    ensures var r := SortedScriptLanguages(obj);
      forall a, b :: 0 <= a < b < |r| ==> r[a].0 != r[b].0
  {
    var r := SortedScriptLanguages(obj);
    var ks := KeysOf(r);
    AscendingDistinct(ks);
    forall a, b | 0 <= a < b < |r|
      ensures r[a].0 != r[b].0
    {
      assert ks[a] == r[a].0 && ks[b] == r[b].0;
    }
  }

  lemma ScriptsAgree<V>(obj: Results<V>)
    ensures var r := SortedScriptLanguages(obj);
      && (forall k :: k in KeysOf(r) <==> k in SortEach(obj))
      && (forall j :: 0 <= j < |r| ==> r[j].0 in SortEach(obj) && r[j].1 == SortEach(obj)[r[j].0])
  {
  }

  lemma ScriptsRoundTrip<V>(obj: Results<V>)
    ensures PairsToMap(SortedScriptLanguages(obj)) == SortEach(obj)
  {
    ScriptsDistinct(obj);
    ScriptsAgree(obj);
    PairsRoundTrip(SortedScriptLanguages(obj), SortEach(obj));
  }

  lemma ReadBackEach<V>(p: map<string, seq<(string, V)>>, obj: Results<V>)
    requires p.Keys == obj.Keys
    requires forall s :: s in obj ==> PairsToMap(p[s]) == obj[s]
    ensures ToResultsOf(p) == obj
  {
    MapsAgree(ToResultsOf(p), obj);
  }

  lemma EachIsosRoundTrip<V>(obj: Results<V>)
    ensures forall s :: s in obj ==> PairsToMap(SortEach(obj)[s]) == obj[s]
  {
    forall s | s in obj
      ensures PairsToMap(SortEach(obj)[s]) == obj[s]
    {
      IsosRoundTrip(obj[s]);
    }
  }

  lemma ReadBackSorted<V>(obj: Results<V>)
    ensures ToResultsOf(SortEach(obj)) == obj
  {
    EachIsosRoundTrip(obj);
    ReadBackEach(SortEach(obj), obj);
  }

  /** Reading the ordered form back gives exactly the input: nothing added, dropped or changed. */
  lemma SortedRoundTrip<V>(obj: Results<V>)
    ensures ToResults(SortedScriptLanguages(obj)) == obj
  {
    ScriptsRoundTrip(obj);
    ReadBackSorted(obj);
  }

  // ---------------------------------------------------------------------
  // Intersection

  /** `script` is a key of every argument. */
  predicate ScriptInAll<V>(args: seq<Results<V>>, script: string)
  {
    forall k :: 0 <= k < |args| ==> script in args[k]
  }

  /** `iso` is listed under `script` in every argument. */
  predicate PairInAll<V>(args: seq<Results<V>>, script: string, iso: string)
  {
    forall k :: 0 <= k < |args| ==> script in args[k] && iso in args[k][script]
  }

  /** One pass of `intersect_results`: drop the scripts, then the iso codes, that `arg` lacks. */
  function Restrict<V>(result: Results<V>, arg: Results<V>): (r: Results<V>)
    ensures r.Keys == result.Keys * arg.Keys
    ensures forall s :: s in r ==> s in result && s in arg && r[s].Keys == result[s].Keys * arg[s].Keys
    ensures forall s, iso :: s in r && iso in r[s] ==> s in result && iso in result[s] && r[s][iso] == result[s][iso]
  {
    map s | s in result && s in arg :: (map iso | iso in result[s] && iso in arg[s] :: result[s][iso])
  }

  /** The unordered intersection, folded over the arguments in order; empty without arguments. */
  function IntersectMaps<V>(args: seq<Results<V>>): (r: Results<V>)
    ensures |args| == 0 ==> r == map[]
    ensures |args| > 0 ==> forall s :: s in r ==> s in args[0] && s in args[|args| - 1]
    ensures |args| > 0 ==> forall s, iso :: s in r && iso in r[s] ==>
      s in args[0] && iso in args[0][s] && r[s][iso] == args[0][s][iso]
  {
    if |args| == 0 then map[]
    else if |args| == 1 then args[0]
    else
      assert args[..|args| - 1][0] == args[0];
      Restrict(IntersectMaps(args[..|args| - 1]), args[|args| - 1])
  }

  /**
   * The scripts of the intersection are those of every argument; a script
   * whose iso codes all went stays with an empty map.
   */
  lemma {:induction false} IntersectScripts<V>(args: seq<Results<V>>)
    requires |args| > 0
    ensures forall s :: s in IntersectMaps(args) <==> ScriptInAll(args, s)
    decreases |args|
  {
    if |args| > 1 {
      var init := args[..|args| - 1];
      IntersectScripts(init);
      forall s
        ensures ScriptInAll(args, s) <==> ScriptInAll(init, s) && s in args[|args| - 1]
      {
        if ScriptInAll(init, s) && s in args[|args| - 1] {
          forall k | 0 <= k < |args|
            ensures s in args[k]
          {
            if k < |args| - 1 {
              assert init[k] == args[k];
            }
          }
        }
      }
    }
  }

  /**
   * Under a script of the intersection, an iso code remains exactly when
   * every argument lists it there, and it keeps the first argument's value.
   */
  lemma {:induction false} IntersectIsos<V>(args: seq<Results<V>>)
    requires |args| > 0
    ensures forall s, iso :: s in IntersectMaps(args) ==>
      (iso in IntersectMaps(args)[s] <==> PairInAll(args, s, iso))
    ensures forall s, iso :: s in IntersectMaps(args) && iso in IntersectMaps(args)[s] ==>
      s in args[0] && iso in args[0][s] && IntersectMaps(args)[s][iso] == args[0][s][iso]
    decreases |args|
  {
    if |args| > 1 {
      var init := args[..|args| - 1];
      var last := args[|args| - 1];
      IntersectIsos(init);
      assert init[0] == args[0];
      forall s, iso
        ensures PairInAll(args, s, iso) <==> PairInAll(init, s, iso) && s in last && iso in last[s]
      {
        if PairInAll(init, s, iso) && s in last && iso in last[s] {
          forall k | 0 <= k < |args|
            ensures s in args[k] && iso in args[k][s]
          {
            if k < |args| - 1 {
              assert init[k] == args[k];
            }
          }
        }
      }
    }
  }

  /**
   * `intersect_results`: the ordered form of the intersection; without
   * arguments, empty. Read back, it is exactly the intersection.
   */
  function IntersectResults<V>(args: seq<Results<V>>): (r: Ordered<V>)
    ensures |args| == 0 ==> r == []
    ensures StrictlyAscending(KeysOf(r))
    ensures forall j :: 0 <= j < |r| ==> StrictlyAscending(KeysOf(r[j].1))
    ensures ToResults(r) == IntersectMaps(args)
  {
    SortedRoundTrip(IntersectMaps(args));
    SortedScriptLanguages(IntersectMaps(args))
  }

  // ---------------------------------------------------------------------
  // Union

  /** `script` is a key of some argument. */
  predicate ScriptInSome<V>(args: seq<Results<V>>, script: string)
  {
    exists k :: 0 <= k < |args| && script in args[k]
  }

  /** `iso` is listed under `script` in some argument. */
  predicate PairInSome<V>(args: seq<Results<V>>, script: string, iso: string)
  {
    exists k :: 0 <= k < |args| && script in args[k] && iso in args[k][script]
  }

  /** One pass of `union_results`: add what `arg` has, keeping every entry already present. */
  function Merge<V>(result: Results<V>, arg: Results<V>): (r: Results<V>)
    ensures r.Keys == result.Keys + arg.Keys
    ensures forall s, iso :: s in result && iso in result[s] ==>
      s in r && iso in r[s] && r[s][iso] == result[s][iso]
    ensures forall s, iso :: s in r ==>
      (iso in r[s] <==> (s in result && iso in result[s]) || (s in arg && iso in arg[s]))
  {
    map s | s in result.Keys + arg.Keys ::
      if s !in result then arg[s]
      else if s !in arg then result[s]
      else (map iso | iso in result[s].Keys + arg[s].Keys ::
              if iso in result[s] then result[s][iso] else arg[s][iso])
  }

  /** The unordered union, folded over the arguments in order. */
  function UnionMaps<V>(args: seq<Results<V>>): (r: Results<V>)
    ensures |args| == 0 ==> r == map[]
    ensures |args| > 0 ==> forall s, iso :: s in args[0] && iso in args[0][s] ==>
      s in r && iso in r[s] && r[s][iso] == args[0][s][iso]
  {
    if |args| == 0 then map[]
    else
      assert |args| > 1 ==> args[..|args| - 1][0] == args[0];
      Merge(UnionMaps(args[..|args| - 1]), args[|args| - 1])
  }

  /** A script is in the union exactly when some argument has it, even with no iso codes. */
  lemma {:induction false} UnionScripts<V>(args: seq<Results<V>>)
    ensures forall s :: s in UnionMaps(args) <==> ScriptInSome(args, s)
    decreases |args|
  {
    if |args| > 0 {
      var init := args[..|args| - 1];
      UnionScripts(init);
      forall s
        ensures ScriptInSome(args, s) <==> ScriptInSome(init, s) || s in args[|args| - 1]
      {
        if ScriptInSome(init, s) {
          var k :| 0 <= k < |init| && s in init[k];
          assert args[k] == init[k];
        }
        if ScriptInSome(args, s) && s !in args[|args| - 1] {
          var k :| 0 <= k < |args| && s in args[k];
          assert init[k] == args[k];
        }
      }
    }
  }

  /** Some argument of `args` lists the pair iff some earlier one does or the last one does. */
  lemma PairInSomeSnoc<V>(args: seq<Results<V>>, s: string, iso: string)
    requires |args| > 0
    ensures PairInSome(args, s, iso) <==>
      PairInSome(args[..|args| - 1], s, iso) || (s in args[|args| - 1] && iso in args[|args| - 1][s])
  {
    var init := args[..|args| - 1];
    if PairInSome(init, s, iso) {
      var k :| 0 <= k < |init| && s in init[k] && iso in init[k][s];
      assert args[k] == init[k];
    }
    if PairInSome(args, s, iso) && !(s in args[|args| - 1] && iso in args[|args| - 1][s]) {
      var k :| 0 <= k < |args| && s in args[k] && iso in args[k][s];
      assert init[k] == args[k];
    }
  }

  /** A (script, iso) pair is in the union exactly when some argument has it. */
  lemma {:induction false} UnionIsos<V>(args: seq<Results<V>>)
    ensures forall s, iso :: s in UnionMaps(args) ==>
      (iso in UnionMaps(args)[s] <==> PairInSome(args, s, iso))
    decreases |args|
  {
    if |args| > 0 {
      var init := args[..|args| - 1];
      UnionIsos(init);
      UnionScripts(init);
      forall s, iso | s in UnionMaps(args)
        ensures iso in UnionMaps(args)[s] <==> PairInSome(args, s, iso)
      {
        PairInSomeSnoc(args, s, iso);
      }
    }
  }

  /**
   * When several arguments list the same iso code under a script, the union
   * keeps the value from the earliest of them.
   */
  lemma {:induction false} UnionEarliestWins<V>(args: seq<Results<V>>, k: nat, s: string, iso: string)
    requires k < |args| && s in args[k] && iso in args[k][s]
    requires forall j :: 0 <= j < k ==> !(s in args[j] && iso in args[j][s])
    ensures s in UnionMaps(args) && iso in UnionMaps(args)[s]
    ensures UnionMaps(args)[s][iso] == args[k][s][iso]
    decreases |args|
  {
    var init := args[..|args| - 1];
    if k == |args| - 1 {
      UnionScripts(init);
      UnionIsos(init);
    } else {
      forall j | 0 <= j < k
        ensures !(s in init[j] && iso in init[j][s])
      {
        assert init[j] == args[j];
      }
      assert init[k] == args[k];
      UnionEarliestWins(init, k, s, iso);
    }
  }

  /** `union_results`: the ordered form of the union. Read back, it is exactly the union. */
  function UnionResults<V>(args: seq<Results<V>>): (r: Ordered<V>)
    ensures |args| == 0 ==> r == []
    ensures StrictlyAscending(KeysOf(r))
    ensures forall j :: 0 <= j < |r| ==> StrictlyAscending(KeysOf(r[j].1))
    ensures ToResults(r) == UnionMaps(args)
  {
    SortedRoundTrip(UnionMaps(args));
    SortedScriptLanguages(UnionMaps(args))
  }
}
