/**
 * Laws of the support check, stated over the loop-free description that
 * `Support.HasSupport` is proved to agree with.
 */
module SupportLaws {
  import opened Wrappers
  import opened LanguageRecord
  import opened Support

  lemma {:induction false} BaseCountAppend(q: Query, a: seq<Orthography>, b: seq<Orthography>, s: string)
    ensures BaseCount(q, a + b, s) == BaseCount(q, a, s) + BaseCount(q, b, s)
    decreases |b|
  {
    if |b| == 0 {
      assert a + b == a;
    } else {
      var ab := a + b;
      assert ab[..|ab| - 1] == a + b[..|b| - 1];
      assert ab[|ab| - 1] == b[|b| - 1];
      BaseCountAppend(q, a, b[..|b| - 1], s);
    }
  }

  lemma {:induction false} QualifyingAppend(q: Query, a: seq<Orthography>, b: seq<Orthography>)
    ensures Qualifying(q, a + b) == Qualifying(q, a) + Qualifying(q, b)
    decreases |b|
  {
    if |b| == 0 {
      assert a + b == a;
    } else {
      var ab := a + b;
      assert ab[..|ab| - 1] == a + b[..|b| - 1];
      assert ab[|ab| - 1] == b[|b| - 1];
      QualifyingAppend(q, a, b[..|b| - 1]);
    }
  }

  /** A script is in the described support map exactly when it counts a base-passing orthography. */
  lemma ScriptsAreCounted(q: Query, orths: seq<Orthography>)
    ensures forall s :: s in SupportedScripts(q, orths) <==> BaseCount(q, orths, s) > 0
  {
    forall s
      ensures s in SupportedScripts(q, orths) <==> BaseCount(q, orths, s) > 0
    {
      if s in SupportedScripts(q, orths) {
        var k :| k in orths && BasePasses(q, k) && k.script.value == s;
        BaseCountPositive(q, orths, k);
      } else {
        BaseCountZero(q, orths, s);
      }
    }
  }

  /** Two orthography lists with the same base counts describe the same support map. */
  lemma SupportOfFromCounts(iso: string, q: Query, a: seq<Orthography>, b: seq<Orthography>)
    requires forall s :: BaseCount(q, a, s) == BaseCount(q, b, s)
    ensures SupportOf(iso, q, a) == SupportOf(iso, q, b)
  {
    ScriptsAreCounted(q, a);
    ScriptsAreCounted(q, b);
    assert SupportedScripts(q, a) == SupportedScripts(q, b);
  }

  /** The pruned list holds exactly the qualifying orthographies of the original list. */
  lemma {:induction false} QualifyingMembers(q: Query, orths: seq<Orthography>)
    ensures forall o :: o in Qualifying(q, orths) <==> o in orths && Qualifies(q, o)
    ensures |Qualifying(q, orths)| <= |orths|
    decreases |orths|
  {
    if |orths| > 0 {
      var init := orths[..|orths| - 1];
      QualifyingMembers(q, init);
      assert orths == init + [orths[|orths| - 1]];
    }
  }

  /** Pruning a pruned list changes nothing. */
  lemma {:induction false} PruneIdempotent(q: Query, orths: seq<Orthography>)
    ensures Qualifying(q, Qualifying(q, orths)) == Qualifying(q, orths)
    decreases |orths|
  {
    if |orths| > 0 {
      var init := orths[..|orths| - 1];
      var last := orths[|orths| - 1];
      PruneIdempotent(q, init);
      var tail := if Qualifies(q, last) then [last] else [];
      QualifyingAppend(q, Qualifying(q, init), tail);
      if Qualifies(q, last) {
        assert [last][..0] == [];
      }
    }
  }

  /** At a level other than "base" or "aux" nothing qualifies, so pruning empties the list. */
  lemma {:induction false} OtherLevelPrunesAll(q: Query, orths: seq<Orthography>)
    requires q.level != BaseLevel && q.level != AuxLevel
    ensures Qualifying(q, orths) == []
    decreases |orths|
  {
    if |orths| > 0 {
      OtherLevelPrunesAll(q, orths[..|orths| - 1]);
    }
  }

  /** Only an "aux" level check can raise the type error. */
  lemma NoFaultBelowAux(q: Query, orths: seq<Orthography>)
    requires q.level != AuxLevel
    ensures !AnyFault(q, orths)
  {
  }

  /**
   * An orthography without a script or without a base contributes nothing:
   * removing it leaves the support map, the pruned list and the error
   * outcome as they were.
   */
  lemma IncompleteOrthographyIgnored(iso: string, q: Query, pre: seq<Orthography>, o: Orthography, post: seq<Orthography>)
    requires o.script.None? || o.base.None?
    ensures SupportOf(iso, q, pre + [o] + post) == SupportOf(iso, q, pre + post)
    ensures Qualifying(q, pre + [o] + post) == Qualifying(q, pre + post)
    ensures AnyFault(q, pre + [o] + post) <==> AnyFault(q, pre + post)
  {
    forall s
      ensures BaseCount(q, pre + [o] + post, s) == BaseCount(q, pre + post, s)
    {
      BaseCountAppend(q, pre + [o], post, s);
      BaseCountAppend(q, pre, [o], s);
      BaseCountAppend(q, pre, post, s);
      assert [o][..0] == [];
    }
    SupportOfFromCounts(iso, q, pre + [o] + post, pre + post);
    QualifyingAppend(q, pre + [o], post);
    QualifyingAppend(q, pre, [o]);
    QualifyingAppend(q, pre, post);
    assert [o][..0] == [];
    var withO := pre + [o] + post;
    var without := pre + post;
    if AnyFault(q, withO) {
      var i :| 0 <= i < |withO| && Faults(q, withO[i]);
      if i < |pre| {
        assert without[i] == withO[i];
      } else {
        assert without[i - 1] == withO[i];
      }
    }
    if AnyFault(q, without) {
      var i :| 0 <= i < |without| && Faults(q, without[i]);
      if i < |pre| {
        assert withO[i] == without[i];
      } else {
        assert withO[i + 1] == without[i];
      }
    }
  }

  /**
   * A status, secondary and deprecated included, never excludes an
   * orthography: changing the status of one orthography leaves the support
   * map and the error outcome unchanged, and the pruned list differs only
   * in that orthography, which is kept exactly when it was kept before.
   */
  lemma StatusIgnored(iso: string, q: Query, orths: seq<Orthography>, i: nat, status: Option<string>)
    requires i < |orths|
    ensures var changed := orths[i := orths[i].(status := status)];
      SupportOf(iso, q, changed) == SupportOf(iso, q, orths)
      && (AnyFault(q, changed) <==> AnyFault(q, orths))
      && (Qualifies(q, changed[i]) <==> Qualifies(q, orths[i]))
    ensures Qualifying(q, orths) == Qualifying(q, orths[..i])
      + (if Qualifies(q, orths[i]) then [orths[i]] else []) + Qualifying(q, orths[i + 1..])
    ensures Qualifying(q, orths[i := orths[i].(status := status)]) == Qualifying(q, orths[..i])
      + (if Qualifies(q, orths[i]) then [orths[i].(status := status)] else []) + Qualifying(q, orths[i + 1..])
  {
    var o := orths[i];
    var o' := o.(status := status);
    var changed := orths[i := o'];
    var pre := orths[..i];
    var post := orths[i + 1..];
    assert orths == pre + [o] + post;
    assert changed == pre + [o'] + post;
    forall s
      ensures BaseCount(q, changed, s) == BaseCount(q, orths, s)
    {
      BaseCountAppend(q, pre + [o], post, s);
      BaseCountAppend(q, pre, [o], s);
      BaseCountAppend(q, pre + [o'], post, s);
      BaseCountAppend(q, pre, [o'], s);
      assert [o][..0] == [] && [o'][..0] == [];
    }
    SupportOfFromCounts(iso, q, changed, orths);
    QualifyingAppend(q, pre + [o], post);
    QualifyingAppend(q, pre, [o]);
    QualifyingAppend(q, pre + [o'], post);
    QualifyingAppend(q, pre, [o']);
    assert [o][..0] == [] && [o'][..0] == [];
    if AnyFault(q, orths) {
      var k :| 0 <= k < |orths| && Faults(q, orths[k]);
      assert Faults(q, changed[k]);
    }
    if AnyFault(q, changed) {
      var k :| 0 <= k < |changed| && Faults(q, changed[k]);
      assert Faults(q, orths[k]);
    }
  }

  /**
   * An orthography whose base passes puts the iso code under its script,
   * whatever the level and whatever the status of the orthography or language.
   */
  lemma BasePassingRecorded(iso: string, q: Query, orths: seq<Orthography>, i: nat)
    requires i < |orths| && BasePasses(q, orths[i])
    ensures orths[i].script.value in SupportOf(iso, q, orths)
    ensures iso in SupportOf(iso, q, orths)[orths[i].script.value]
  {
    var o := orths[i];
    assert o in orths;
    BaseCountPositive(q, orths, o);
    var r := Repeat(iso, BaseCount(q, orths, o.script.value));
    assert r[0] == iso;
  }

  /**
   * Every orthography that qualifies, at "aux" level as much as at "base",
   * is recorded in the base-level support of its script.
   */
  lemma QualifiedIsRecorded(iso: string, q: Query, orths: seq<Orthography>)
    ensures forall o :: o in Qualifying(q, orths) ==>
      o.script.Some? && o.script.value in SupportOf(iso, q, orths)
      && iso in SupportOf(iso, q, orths)[o.script.value]
  {
    QualifyingMembers(q, orths);
    forall o | o in Qualifying(q, orths)
      ensures o.script.Some? && o.script.value in SupportOf(iso, q, orths)
        && iso in SupportOf(iso, q, orths)[o.script.value]
    {
      var i :| 0 <= i < |orths| && orths[i] == o;
      BasePassingRecorded(iso, q, orths, i);
    }
  }

  /**
   * The three outcomes of an "aux" check for an orthography whose base
   * passes: without an auxiliary set it is kept; with an auxiliary set that
   * is not covered it is dropped but its iso code stays recorded under its
   * script; with a covered auxiliary set the whole check fails.
   */
  lemma AuxLevelOutcomes(iso: string, q: Query, orths: seq<Orthography>, i: nat)
    requires q.level == AuxLevel && i < |orths| && BasePasses(q, orths[i])
    ensures orths[i].auxiliary.None? ==> orths[i] in Qualifying(q, orths)
    ensures orths[i].auxiliary.Some? && !Covered(q, orths[i].auxiliary.value) ==>
      orths[i] !in Qualifying(q, orths) && iso in SupportOf(iso, q, orths)[orths[i].script.value]
    ensures orths[i].auxiliary.Some? && Covered(q, orths[i].auxiliary.value) ==> AnyFault(q, orths)
  {
    QualifyingMembers(q, orths);
    BasePassingRecorded(iso, q, orths, i);
    assert orths[i] in orths;
    if orths[i].auxiliary.Some? && Covered(q, orths[i].auxiliary.value) {
      assert Faults(q, orths[i]);
    }
  }

  /** At "base" level the pruned list keeps exactly the base counts of the original. */
  lemma {:induction false} BaseCountsSurvivePrune(q: Query, orths: seq<Orthography>, s: string)
    requires q.level == BaseLevel
    ensures BaseCount(q, Qualifying(q, orths), s) == BaseCount(q, orths, s)
    decreases |orths|
  {
    if |orths| > 0 {
      var init := orths[..|orths| - 1];
      var last := orths[|orths| - 1];
      BaseCountsSurvivePrune(q, init, s);
      var tail := if Qualifies(q, last) then [last] else [];
      BaseCountAppend(q, Qualifying(q, init), tail, s);
      if Qualifies(q, last) {
        assert [last][..0] == [];
      }
    }
  }

  /**
   * Re-running a "base" check on the pruned record gives the same support
   * map and prunes nothing further.
   */
  lemma BaseRecheckAfterPrune(iso: string, q: Query, orths: seq<Orthography>)
    requires q.level == BaseLevel
    ensures SupportOf(iso, q, Qualifying(q, orths)) == SupportOf(iso, q, orths)
    ensures Qualifying(q, Qualifying(q, orths)) == Qualifying(q, orths)
    ensures !AnyFault(q, Qualifying(q, orths))
  {
    forall s
      ensures BaseCount(q, Qualifying(q, orths), s) == BaseCount(q, orths, s)
    {
      BaseCountsSurvivePrune(q, orths, s);
    }
    SupportOfFromCounts(iso, q, Qualifying(q, orths), orths);
    PruneIdempotent(q, orths);
  }

  lemma {:induction false} BaseCountMonotone(q: Query, bigger: set<char>, orths: seq<Orthography>, s: string)
    requires q.chars <= bigger
    ensures BaseCount(q, orths, s) <= BaseCount(q.(chars := bigger), orths, s)
    decreases |orths|
  {
    if |orths| > 0 {
      BaseCountMonotone(q, bigger, orths[..|orths| - 1], s);
    }
  }

  lemma {:induction false} BaseQualifyingMonotone(q: Query, bigger: set<char>, orths: seq<Orthography>)
    requires q.chars <= bigger && q.level == BaseLevel
    ensures multiset(Qualifying(q, orths)) <= multiset(Qualifying(q.(chars := bigger), orths))
    decreases |orths|
  {
    if |orths| > 0 {
      BaseQualifyingMonotone(q, bigger, orths[..|orths| - 1]);
    }
  }

  /**
   * Enlarging the character set only adds to the described support map:
   * every script stays supported with at least as many entries, and at
   * "base" level every orthography kept by pruning is still kept. This is
   * the map a successful check returns. At "aux" level a larger set can
   * cover an auxiliary set that was uncovered, and the check then fails
   * instead (`AuxGrowthRaises`).
   */
  lemma SupportMonotone(iso: string, q: Query, bigger: set<char>, orths: seq<Orthography>)
    requires q.chars <= bigger
    ensures forall s :: s in SupportOf(iso, q, orths) ==>
      s in SupportOf(iso, q.(chars := bigger), orths)
      && |SupportOf(iso, q, orths)[s]| <= |SupportOf(iso, q.(chars := bigger), orths)[s]|
    ensures q.level == BaseLevel ==>
      multiset(Qualifying(q, orths)) <= multiset(Qualifying(q.(chars := bigger), orths))
  {
    var q' := q.(chars := bigger);
    ScriptsAreCounted(q, orths);
    ScriptsAreCounted(q', orths);
    forall s | s in SupportOf(iso, q, orths)
      ensures s in SupportOf(iso, q', orths)
      ensures |SupportOf(iso, q, orths)[s]| <= |SupportOf(iso, q', orths)[s]|
    {
      BaseCountMonotone(q, bigger, orths, s);
    }
    if q.level == BaseLevel {
      BaseQualifyingMonotone(q, bigger, orths);
    }
  }

  /**
   * At "aux" level, enlarging the character set can turn a successful check
   * into a failing one: an orthography with base "ab" and auxiliary "c" is
   * supported against {a, b}, but against {a, b, c} its covered auxiliary
   * set raises the type error.
   */
  lemma AuxGrowthRaises(iso: string)
    ensures var o := Orthography(Some("Latn"), Some("ab"), Some("c"), None, None, None);
      var small := Query({'a', 'b'}, AuxLevel, false, Literal);
      && !AnyFault(small, [o])
      && SupportOf(iso, small, [o]) == map["Latn" := [iso]]
      && AnyFault(small.(chars := {'a', 'b', 'c'}), [o])
  {
    var o := Orthography(Some("Latn"), Some("ab"), Some("c"), None, None, None);
    var small := Query({'a', 'b'}, AuxLevel, false, Literal);
    assert Literal("ab", false) == {'a', 'b'};
    assert Literal("c", false) == {'c'};
    assert BasePasses(small, o) && !Faults(small, o);
    SingleOrthography(iso, small, o);
    assert Faults(small.(chars := {'a', 'b', 'c'}), [o][0]);
  }

  /** The French base alphabet used by the worked examples below. */
  const FrenchBase: string := "abcdefghijklmnopqrstuvwxyzàâäéèêëïîôöùûüÿç"

  /** A parser that reads a specification as the set of its characters. */
  function Literal(spec: string, decomposed: bool): set<char>
  {
    set c | c in spec
  }

  /** A one-orthography language: supported under its script exactly when its base passes. */
  lemma SingleOrthography(iso: string, q: Query, o: Orthography)
    ensures BasePasses(q, o) ==> SupportOf(iso, q, [o]) == map[o.script.value := [iso]]
    ensures !BasePasses(q, o) ==> SupportOf(iso, q, [o]) == map[]
    ensures Qualifying(q, [o]) == if Qualifies(q, o) then [o] else []
  {
    assert [o][..0] == [];
    if BasePasses(q, o) {
      assert SupportedScripts(q, [o]) == {o.script.value};
      assert BaseCount(q, [o], o.script.value) == 1;
      assert Repeat(iso, 1) == [iso];
    } else {
      assert SupportedScripts(q, [o]) == {};
    }
  }

  /** The one orthography of the worked examples below. */
  const FrenchLatin: Orthography := Orthography(Some("Latn"), Some(FrenchBase), None, None, None, None)

  /**
   * Worked example: a language "fra" with one Latin orthography based on
   * `FrenchBase` and no auxiliary set, checked against exactly its own
   * alphabet. At "base" and at "aux" it is supported under "Latn" and the
   * orthography survives pruning.
   */
  lemma FrenchFullAlphabet()
    ensures var q := Query(Literal(FrenchBase, false), BaseLevel, false, Literal);
      SupportOf("fra", q, [FrenchLatin]) == map["Latn" := ["fra"]]
      && Qualifying(q, [FrenchLatin]) == [FrenchLatin]
    ensures var q := Query(Literal(FrenchBase, false), AuxLevel, false, Literal);
      SupportOf("fra", q, [FrenchLatin]) == map["Latn" := ["fra"]]
      && Qualifying(q, [FrenchLatin]) == [FrenchLatin]
      && !AnyFault(q, [FrenchLatin])
  {
    var q := Query(Literal(FrenchBase, false), BaseLevel, false, Literal);
    assert BasePasses(q, FrenchLatin);
    SingleOrthography("fra", q, FrenchLatin);
    var qa := q.(level := AuxLevel);
    assert BasePasses(qa, FrenchLatin);
    SingleOrthography("fra", qa, FrenchLatin);
  }

  /**
   * Worked example: the same language checked against the unaccented ASCII
   * letters only is not supported, and pruning removes its orthography.
   */
  lemma FrenchAsciiOnly()
    ensures var q := Query(Literal("abcdefghijklmnopqrstuvwxyz", false), BaseLevel, false, Literal);
      SupportOf("fra", q, [FrenchLatin]) == map[] && Qualifying(q, [FrenchLatin]) == []
  {
    var q := Query(Literal("abcdefghijklmnopqrstuvwxyz", false), BaseLevel, false, Literal);
    assert 'à' in Literal(FrenchBase, false);
    assert 'à' !in q.chars;
    assert !BasePasses(q, FrenchLatin);
    SingleOrthography("fra", q, FrenchLatin);
  }
}
