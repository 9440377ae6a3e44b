/**
 * `has_support`: which scripts of a language a character set covers, and
 * which of its orthographies survive pruning.
 *
 * The character-set parser is a parameter of the query: any deterministic
 * function from a character specification and the decomposition flag to a
 * set of characters. The support check returns the pruned record as a new
 * value instead of replacing the orthography list in place.
 */
module Support {
  import opened Wrappers
  import opened LanguageRecord

  /** Turns a textual character specification into characters, optionally decomposed. */
  type Parser = (string, bool) -> set<char>

  /** Script to the iso codes recorded under it, once per qualifying orthography. */
  type SupportMap = map<string, seq<string>>

  /** The arguments of one support check other than the language and the prune flag. */
  datatype Query = Query(chars: set<char>, level: string, decomposed: bool, parse: Parser)

  /** What a check returns: the support map and the record after optional pruning. */
  datatype Report = Report(support: SupportMap, language: Language)

  const BaseLevel: string := "base"
  const AuxLevel: string := "aux"

  /** `spec` parsed under the query's decomposition flag is covered by the character set. */
  predicate Covered(q: Query, spec: string)
  {
    q.parse(spec, q.decomposed) <= q.chars
  }

  /** The orthography has a script and a base whose characters are all covered. */
  predicate BasePasses(q: Query, o: Orthography)
  {
    o.script.Some? && o.base.Some? && Covered(q, o.base.value)
  }

  /**
   * The orthography is marked as supported at the query's level: at "base"
   * when its base passes; at "aux" when its base passes and its auxiliary
   * set is absent or covered; at any other level never. The covered
   * auxiliary case never reaches pruning: it is exactly `Faults`, so a
   * check meeting it only ever ends in the type error.
   */
  predicate Qualifies(q: Query, o: Orthography)
  {
    BasePasses(q, o) &&
      (q.level == BaseLevel ||
       (q.level == AuxLevel && (o.auxiliary.None? || Covered(q, o.auxiliary.value))))
  }

  /**
   * Checking this orthography raises a type error: at "aux" level, a
   * covered auxiliary set makes the check index the script's list of iso
   * codes with the string "auxiliary".
   */
  predicate Faults(q: Query, o: Orthography)
  {
    q.level == AuxLevel && BasePasses(q, o) && o.auxiliary.Some? && Covered(q, o.auxiliary.value)
  }

  predicate AnyFault(q: Query, orths: seq<Orthography>)
  {
    exists i :: 0 <= i < |orths| && Faults(q, orths[i])
  }

  /** Number of orthographies in `script` whose base passes. */
  function BaseCount(q: Query, orths: seq<Orthography>, script: string): nat
  {
    if |orths| == 0 then 0
    else
      BaseCount(q, orths[..|orths| - 1], script)
        + (if BasePasses(q, orths[|orths| - 1]) && InScript(orths[|orths| - 1], script) then 1 else 0)
  }

  /** The qualifying orthographies, in their original order. */
  function Qualifying(q: Query, orths: seq<Orthography>): seq<Orthography>
  {
    if |orths| == 0 then []
    else
      Qualifying(q, orths[..|orths| - 1])
        + (if Qualifies(q, orths[|orths| - 1]) then [orths[|orths| - 1]] else [])
  }

  /** Scripts of the orthographies whose base passes. */
  function SupportedScripts(q: Query, orths: seq<Orthography>): set<string>
  {
    set o | o in orths && BasePasses(q, o) :: o.script.value
  }

  function Repeat(iso: string, n: nat): (r: seq<string>)
    ensures |r| == n && forall k :: 0 <= k < n ==> r[k] == iso
  {
    seq(n, _ => iso)
  }

  /**
   * The support map a successful check returns, described without the loop:
   * every script with a base-passing orthography, holding the iso code once
   * per such orthography.
   */
  function SupportOf(iso: string, q: Query, orths: seq<Orthography>): SupportMap
  {
    map s | s in SupportedScripts(q, orths) :: Repeat(iso, BaseCount(q, orths, s))
  }

  /** Appending one orthography changes the described support map as one loop step does. */
  lemma {:induction false} SupportOfSnoc(iso: string, q: Query, orths: seq<Orthography>, o: Orthography)
    ensures var prev := SupportOf(iso, q, orths);
      SupportOf(iso, q, orths + [o]) ==
        if BasePasses(q, o) then
          prev[o.script.value := (if o.script.value in prev then prev[o.script.value] else []) + [iso]]
        else prev
  {
    var next := orths + [o];
    assert next[..|next| - 1] == orths;
    var prev := SupportOf(iso, q, orths);
    forall s
      ensures BaseCount(q, next, s) == BaseCount(q, orths, s) + (if BasePasses(q, o) && InScript(o, s) then 1 else 0)
    {
    }
    assert SupportedScripts(q, next) ==
      SupportedScripts(q, orths) + (if BasePasses(q, o) then {o.script.value} else {});
    forall s | s in SupportedScripts(q, orths)
      ensures BaseCount(q, orths, s) > 0
    {
      var k :| k in orths && BasePasses(q, k) && k.script.value == s;
      BaseCountPositive(q, orths, k);
    }
    forall s | s !in SupportedScripts(q, orths)
      ensures BaseCount(q, orths, s) == 0
    {
      BaseCountZero(q, orths, s);
    }
    if BasePasses(q, o) {
      var t := o.script.value;
      var expected := (if t in prev then prev[t] else []) + [iso];
      assert Repeat(iso, BaseCount(q, next, t)) == expected;
    }
  }

  /** An orthography in `orths` whose base passes is counted under its script. */
  lemma {:induction false} BaseCountPositive(q: Query, orths: seq<Orthography>, o: Orthography)
    requires o in orths && BasePasses(q, o)
    ensures BaseCount(q, orths, o.script.value) > 0
    decreases |orths|
  {
    if orths[|orths| - 1] != o {
      assert o in orths[..|orths| - 1] by {
        var i :| 0 <= i < |orths| && orths[i] == o;
        assert orths[..|orths| - 1][i] == o;
      }
      BaseCountPositive(q, orths[..|orths| - 1], o);
    }
  }

  /** A script without base-passing orthographies counts zero. */
  lemma {:induction false} BaseCountZero(q: Query, orths: seq<Orthography>, s: string)
    requires s !in SupportedScripts(q, orths)
    ensures BaseCount(q, orths, s) == 0
    decreases |orths|
  {
    if |orths| > 0 {
      var init := orths[..|orths| - 1];
      assert SupportedScripts(q, init) <= SupportedScripts(q, orths) by {
        forall t | t in SupportedScripts(q, init)
          ensures t in SupportedScripts(q, orths)
        {
          var k :| k in init && BasePasses(q, k) && k.script.value == t;
          assert k in orths;
        }
      }
      BaseCountZero(q, init, s);
      var last := orths[|orths| - 1];
      assert last in orths;
    }
  }

  /**
   * `has_support`, following the loop of the source. A record without
   * orthographies gives an empty map and stays as it is. Otherwise the check
   * raises a type error exactly when some orthography faults; when it does
   * not, the support map is the one `SupportOf` describes and, with pruning,
   * the orthography list becomes exactly the qualifying orthographies in
   * their original order. Without pruning the record is returned unchanged.
   */
  method HasSupport(lang: Language, q: Query, prune: bool) returns (r: Result<Report>)
    ensures lang.orthographies.None? ==> r == Ok(Report(map[], lang))
    ensures lang.orthographies.Some? ==> (r.Err? <==> AnyFault(q, lang.orthographies.value))
    ensures r.Err? ==> r.error == TypeError
    ensures r.Ok? && lang.orthographies.Some? ==>
      r.value.support == SupportOf(lang.iso, q, lang.orthographies.value)
    ensures r.Ok? && lang.orthographies.Some? && prune ==>
      r.value.language == lang.(orthographies := Some(Qualifying(q, lang.orthographies.value)))
    ensures r.Ok? && !prune ==> r.value.language == lang
  {
    if lang.orthographies.None? {
      return Ok(Report(map[], lang));
    }
    var orths := lang.orthographies.value;
    var support: SupportMap := map[];
    var pruned: seq<Orthography> := [];
    var i := 0;
    while i < |orths|
      invariant 0 <= i <= |orths|
      invariant support == SupportOf(lang.iso, q, orths[..i])
      invariant pruned == Qualifying(q, orths[..i])
      invariant !AnyFault(q, orths[..i])
    {
      var ort := orths[i];
      assert orths[..i + 1] == orths[..i] + [ort];
      SupportOfSnoc(lang.iso, q, orths[..i], ort);
      var supported := false;
      if ort.script.None? {
        // The source logs a warning and skips the orthography.
        i := i + 1;
        continue;
      }
      // Secondary and deprecated orthographies are only logged, never skipped.
      if ort.base.Some? {
        var script := ort.script.value;
        var base := q.parse(ort.base.value, q.decomposed);
        if base <= q.chars {
          if script !in support {
            support := support[script := []];
          }
          support := support[script := support[script] + [lang.iso]];
          if q.level == BaseLevel {
            supported := true;
          }
          if q.level == AuxLevel {
            if ort.auxiliary.Some? {
              var aux := q.parse(ort.auxiliary.value, q.decomposed);
              if aux <= q.chars {
                assert Faults(q, orths[i]);
                return Err(TypeError);
              }
            } else {
              supported := true;
            }
          }
        }
      }
      if supported {
        pruned := pruned + [ort];
      }
      i := i + 1;
    }
    assert orths[..|orths|] == orths;
    var language := if prune then lang.(orthographies := Some(pruned)) else lang;
    return Ok(Report(support, language));
  }
}
