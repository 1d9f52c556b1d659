/** `_resolve_font` and `_can_load_font` (main.py:392-430): a font name is
    looked up in the catalog read from fonts.json, then the "default" entry
    is tried, and resolution fails if neither loads. */
module FontResolver {
  import opened Common
  import opened ParamParser

  /** Whether `ImageFont.truetype(path, size)` succeeds; a missing file fails
      too. PIL and the filesystem are outside the model, so this is a
      parameter. */
  type FontLoader = (string, int) -> bool

  /** `_can_load_font`: the file loads at the probe size 48. */
  predicate CanLoadFont(loads: FontLoader, path: string) {
    loads(path, 48)
  }

  /** `data_path / rel`: an absolute `rel` replaces the base. */
  function JoinPath(base: string, rel: string): string {
    if |rel| > 0 && rel[0] == '/' then rel else base + "/" + rel
  }

  /** `fonts.get(name)`: the catalog's keys are strings, so a name that
      `_cast` turned into a number is never found. */
  function Lookup(catalog: map<string, string>, name: Value): Option<string> {
    if name.StrVal? && name.s in catalog then Some(catalog[name.s]) else None
  }

  const DefaultName: Value := StrVal("default")

  /** A catalog entry that is present, non-empty (Python truthiness) and
      loadable. */
  predicate Usable(catalog: map<string, string>, dataPath: string, loads: FontLoader, name: Value) {
    var rel := Lookup(catalog, name);
    rel.Some? && rel.value != "" && CanLoadFont(loads, JoinPath(dataPath, rel.value))
  }

  function CandidatePath(catalog: map<string, string>, dataPath: string, name: Value): string
    requires Lookup(catalog, name).Some?
  {
    JoinPath(dataPath, Lookup(catalog, name).value)
  }

  /** `_resolve_font(name)`: the named font's path when its entry is usable,
      else the default's path when that entry is usable, else an error; no
      other path is ever returned. */
  function ResolveFont(catalog: map<string, string>, dataPath: string, loads: FontLoader, name: Value)
    : (r: Result<string>)
    ensures Usable(catalog, dataPath, loads, name) ==>
      r == Ok(CandidatePath(catalog, dataPath, name))
    ensures !Usable(catalog, dataPath, loads, name) && Usable(catalog, dataPath, loads, DefaultName) ==>
      r == Ok(CandidatePath(catalog, dataPath, DefaultName))
    ensures r.Err? <==>
      !Usable(catalog, dataPath, loads, name) && !Usable(catalog, dataPath, loads, DefaultName)
    ensures r.Err? ==> r.error == FontUnavailable
  {
    var rel := Lookup(catalog, name);
    if rel.Some? && rel.value != "" && CanLoadFont(loads, JoinPath(dataPath, rel.value)) then
      Ok(JoinPath(dataPath, rel.value))
    else
      var defaultRel := Lookup(catalog, DefaultName);
      if defaultRel.Some? && defaultRel.value != ""
         && CanLoadFont(loads, JoinPath(dataPath, defaultRel.value))
      then Ok(JoinPath(dataPath, defaultRel.value))
      else Err(FontUnavailable)
  }

  /** Whatever resolution returns is loadable and is one of the two catalog
      paths it consulted. */
  lemma ResolvedPathIsCandidate(catalog: map<string, string>, dataPath: string, loads: FontLoader, name: Value)
    requires ResolveFont(catalog, dataPath, loads, name).Ok?
    ensures var p := ResolveFont(catalog, dataPath, loads, name).value;
      && CanLoadFont(loads, p)
      && ((Lookup(catalog, name).Some? && p == CandidatePath(catalog, dataPath, name))
          || (Lookup(catalog, DefaultName).Some? && p == CandidatePath(catalog, dataPath, DefaultName)))
  {
  }

  /** A name missing from the catalog, or with an empty entry, resolves to
      the default font without error when the default is usable. */
  lemma UnknownNameFallsBack(catalog: map<string, string>, dataPath: string, loads: FontLoader, name: Value)
    requires Lookup(catalog, name).None? || Lookup(catalog, name) == Some("")
    requires Usable(catalog, dataPath, loads, DefaultName)
    ensures ResolveFont(catalog, dataPath, loads, name) == Ok(CandidatePath(catalog, dataPath, DefaultName))
  {
  }

  /** Resolving "default" gives the same answer as resolving a name that is
      not usable: the second tier. So `_process_and_send`, which skips the
      second resolution when the name is "default", loses nothing. */
  lemma DefaultResolvesLikeFallback(catalog: map<string, string>, dataPath: string, loads: FontLoader, name: Value)
    requires !Usable(catalog, dataPath, loads, name)
    ensures ResolveFont(catalog, dataPath, loads, DefaultName) == ResolveFont(catalog, dataPath, loads, name)
  {
  }
}
