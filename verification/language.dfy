/**
 * One language record of the language database and the queries the
 * `Language` class answers about it: orthography lookup by script, name and
 * autonym resolution, and the four status flags.
 *
 * A record is a bag of optional keys; every key is an `Option`, `None`
 * standing for a key the record does not have. The iso code is kept beside
 * the bag, as the class keeps it in an attribute rather than an item.
 */
module LanguageRecord {
  import opened Wrappers

  /** One writing system of a language; every key may be missing. */
  datatype Orthography = Orthography(
    script: Option<string>,
    base: Option<string>,
    auxiliary: Option<string>,
    name: Option<string>,
    autonym: Option<string>,
    status: Option<string>)

  /**
   * A language: its iso code and the keys of its record. `orthographies` is
   * `None` when the record has no such key, which is different from having
   * an empty list.
   */
  datatype Language = Language(
    iso: string,
    name: Option<string>,
    preferredName: Option<string>,
    autonym: Option<string>,
    status: Option<string>,
    orthographies: Option<seq<Orthography>>)

  /** The status values the four status queries test for. */
  const Historical: string := "historical"
  const Constructed: string := "constructed"
  const Deprecated: string := "deprecated"
  const Secondary: string := "secondary"

  /** `o` is written in `script`; an orthography without a script matches nothing. */
  predicate InScript(o: Orthography, script: string)
  {
    o.script == Some(script)
  }

  /** Index of the first orthography written in `script`, if any. */
  function FirstInScript(orths: seq<Orthography>, script: string): (r: Option<nat>)
    ensures r.Some? ==> r.value < |orths| && InScript(orths[r.value], script)
    ensures r.Some? ==> forall j :: 0 <= j < r.value ==> !InScript(orths[j], script)
    ensures r.None? ==> forall j :: 0 <= j < |orths| ==> !InScript(orths[j], script)
  {
    if |orths| == 0 then None
    else if InScript(orths[0], script) then Some(0)
    else
      match FirstInScript(orths[1..], script)
      case None => None
      case Some(k) => Some(k + 1)
  }

  /**
   * `get_orthography`: `Ok(None)` is the `False` returned for a record
   * without orthographies. With a script, the first orthography in that
   * script; with no script or no match, the first orthography, which raises
   * an index error on an empty list.
   */
  function GetOrthography(lang: Language, script: Option<string>): (r: Result<Option<Orthography>>)
    ensures lang.orthographies.None? ==> r == Ok(None)
    ensures lang.orthographies.Some? ==> r != Ok(None)
    ensures lang.orthographies.Some? && script.Some? ==>
      forall i :: 0 <= i < |lang.orthographies.value|
        && InScript(lang.orthographies.value[i], script.value)
        && (forall j :: 0 <= j < i ==> !InScript(lang.orthographies.value[j], script.value))
        ==> r == Ok(Some(lang.orthographies.value[i]))
    ensures lang.orthographies.Some? &&
      (script.None? || forall i :: 0 <= i < |lang.orthographies.value| ==> !InScript(lang.orthographies.value[i], script.value))
      ==> r == (if lang.orthographies.value == [] then Err(IndexError) else Ok(Some(lang.orthographies.value[0])))
  {
    match lang.orthographies
    case None => Ok(None)
    case Some(orths) =>
      var found := if script.Some? then FirstInScript(orths, script.value) else None;
      if found.Some? then Ok(Some(orths[found.value]))
      else if |orths| == 0 then Err(IndexError)
      else Ok(Some(orths[0]))
  }

  /** The language-level name: `preferred_name` unless strict, then `name`. */
  function LanguageName(lang: Language, strict: bool): Option<string>
  {
    if !strict && lang.preferredName.Some? then lang.preferredName else lang.name
  }

  /**
   * `get_name`: with a script, the name of the orthography the lookup
   * resolves to, when it has one; otherwise the language-level name.
   * `Ok(None)` is the `False` returned when no name exists. Asking for a
   * script on a record without orthographies tests `"name" in False`,
   * which raises a type error.
   */
  function GetName(lang: Language, script: Option<string>, strict: bool): (r: Result<Option<string>>)
    ensures script.None? && !strict && lang.preferredName.Some? ==> r == Ok(lang.preferredName)
    ensures script.None? && (strict || lang.preferredName.None?) ==> r == Ok(lang.name)
    ensures script.Some? ==>
      (r.Err? <==> lang.orthographies.None? || lang.orthographies.value == [])
    ensures script.Some? && lang.orthographies.None? ==> r == Err(TypeError)
    ensures script.Some? && lang.orthographies == Some([]) ==> r == Err(IndexError)
    ensures script.Some? && r.Ok? ==>
      var o := GetOrthography(lang, script).value.value;
      r == (if o.name.Some? then Ok(o.name) else Ok(LanguageName(lang, strict)))
  {
    if script.Some? then
      match GetOrthography(lang, script)
      case Err(e) => Err(e)
      case Ok(None) => Err(TypeError)
      case Ok(Some(o)) => if o.name.Some? then Ok(o.name) else Ok(LanguageName(lang, strict))
    else
      Ok(LanguageName(lang, strict))
  }

  /**
   * `get_autonym`: with a script, the autonym of the orthography the lookup
   * resolves to, when it has one; otherwise the language's own autonym, or
   * `Ok(None)` for `False`. The same errors as `GetName`.
   */
  function GetAutonym(lang: Language, script: Option<string>): (r: Result<Option<string>>)
    ensures script.None? ==> r == Ok(lang.autonym)
    ensures script.Some? ==>
      (r.Err? <==> lang.orthographies.None? || lang.orthographies.value == [])
    ensures script.Some? && lang.orthographies.None? ==> r == Err(TypeError)
    ensures script.Some? && lang.orthographies == Some([]) ==> r == Err(IndexError)
    ensures script.Some? && r.Ok? ==>
      var o := GetOrthography(lang, script).value.value;
      r == (if o.autonym.Some? then Ok(o.autonym) else Ok(lang.autonym))
  {
    if script.Some? then
      match GetOrthography(lang, script)
      case Err(e) => Err(e)
      case Ok(None) => Err(TypeError)
      case Ok(Some(o)) => if o.autonym.Some? then Ok(o.autonym) else Ok(lang.autonym)
    else
      Ok(lang.autonym)
  }

  /**
   * The shared shape of the four status queries: the language's own status,
   * then the status of the orthography passed in, if one is.
   */
  predicate HasStatus(lang: Language, orthography: Option<Orthography>, status: string)
    ensures lang.status == Some(status) ==> HasStatus(lang, orthography, status)
    ensures orthography.None? ==> (HasStatus(lang, orthography, status) <==> lang.status == Some(status))
  {
    lang.status == Some(status) || (orthography.Some? && orthography.value.status == Some(status))
  }

  /** `is_historical`: the language, or the orthography passed in, has status "historical". */
  predicate IsHistorical(lang: Language, orthography: Option<Orthography>)
    ensures IsHistorical(lang, orthography) <==>
      lang.status == Some("historical") || (orthography.Some? && orthography.value.status == Some("historical"))
  {
    HasStatus(lang, orthography, Historical)
  }

  /** `is_constructed`: the language, or the orthography passed in, has status "constructed". */
  predicate IsConstructed(lang: Language, orthography: Option<Orthography>)
    ensures IsConstructed(lang, orthography) <==>
      lang.status == Some("constructed") || (orthography.Some? && orthography.value.status == Some("constructed"))
  {
    HasStatus(lang, orthography, Constructed)
  }

  /** `is_deprecated`: the language, or the orthography passed in, has status "deprecated". */
  predicate IsDeprecated(lang: Language, orthography: Option<Orthography>)
    ensures IsDeprecated(lang, orthography) <==>
      lang.status == Some("deprecated") || (orthography.Some? && orthography.value.status == Some("deprecated"))
  {
    HasStatus(lang, orthography, Deprecated)
  }

  /** `is_secondary`: the language, or the orthography passed in, has status "secondary". */
  predicate IsSecondary(lang: Language, orthography: Option<Orthography>)
    ensures IsSecondary(lang, orthography) <==>
      lang.status == Some("secondary") || (orthography.Some? && orthography.value.status == Some("secondary"))
  {
    HasStatus(lang, orthography, Secondary)
  }

  /**
   * A status the language carries holds of each of its orthographies; an
   * orthography's own status matters only when that orthography is passed.
   */
  lemma StatusInheritance(lang: Language, o: Orthography, status: string)
    ensures lang.status == Some(status) ==> HasStatus(lang, Some(o), status)
    ensures HasStatus(lang, None, status) <==> lang.status == Some(status)
    ensures HasStatus(lang, None, status) ==> HasStatus(lang, Some(o), status)
    ensures HasStatus(lang, Some(o), status) <==> lang.status == Some(status) || o.status == Some(status)
  {
  }

  /** With `strict`, a name comes from the orthography or from `name`, never from `preferred_name`. */
  lemma StrictNameSkipsPreferred(lang: Language, script: Option<string>)
    ensures var r := GetName(lang, script, true);
      r.Ok? ==> r.value == lang.name || (script.Some? && r.value == GetOrthography(lang, script).value.value.name)
    ensures var r := GetName(lang, script, true);
      r.Ok? && r.value.Some? && lang.preferredName != lang.name && r.value == lang.preferredName ==>
        script.Some? && GetOrthography(lang, script).value.value.name == lang.preferredName
  {
  }

  /** `False` ("no name") is returned exactly when no applicable name key exists. */
  lemma NoNameOnlyWhenAbsent(lang: Language, script: Option<string>, strict: bool)
    ensures GetName(lang, script, strict) == Ok(None) <==>
      (script.None? || (lang.orthographies.Some? && lang.orthographies.value != []
                        && GetOrthography(lang, script).value.value.name.None?))
      && (strict || lang.preferredName.None?) && lang.name.None?
  {
  }
}
