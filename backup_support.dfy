/**
 * The configuration-override merge that `loadOptions` performs in
 * BackupSupport.py. Reading and parsing the options file is not modelled:
 * its outcome is the `newCfg` parameter, `None` when the file is missing or
 * does not parse.
 */
module BackupSupport {
  import opened Util

  /**
   * The configuration `loadOptions` returns: the defaults when nothing was
   * loaded, otherwise, for every default key, the loaded value if there is one.
   */
  function Merged<V>(currentCfg: map<string, V>, newCfg: Option<map<string, V>>): map<string, V>
  {
    match newCfg
    case None => currentCfg
    case Some(overrides) =>
      map k | k in currentCfg :: if k in overrides then overrides[k] else currentCfg[k]
  }

  /**
   * The loop of `loadOptions`, which builds the combined configuration key by
   * key over the keys of the defaults.
   */
  method LoadOptions<V>(currentCfg: map<string, V>, newCfg: Option<map<string, V>>)
    returns (combinedCfg: map<string, V>)
    ensures newCfg.None? ==> combinedCfg == currentCfg
    ensures combinedCfg.Keys == currentCfg.Keys
    ensures forall k | k in currentCfg && newCfg.Some? && k in newCfg.value ::
              combinedCfg[k] == newCfg.value[k]
    ensures forall k | k in currentCfg && (newCfg.None? || k !in newCfg.value) ::
              combinedCfg[k] == currentCfg[k]
    ensures combinedCfg == Merged(currentCfg, newCfg)
  {
    if newCfg.None? {
      return currentCfg;
    }
    var overrides := newCfg.value;
    combinedCfg := map[];
    var pending := currentCfg.Keys;
    while pending != {}
      invariant pending <= currentCfg.Keys
      invariant combinedCfg.Keys == currentCfg.Keys - pending
      invariant forall k | k in combinedCfg ::
                  combinedCfg[k] == if k in overrides then overrides[k] else currentCfg[k]
      decreases pending
    {
      var k :| k in pending;
      if k in overrides {
        combinedCfg := combinedCfg[k := overrides[k]];
      } else {
        combinedCfg := combinedCfg[k := currentCfg[k]];
      }
      pending := pending - {k};
    }
  }

  /** Applying the same overrides a second time changes nothing. */
  lemma MergeIdempotent<V>(currentCfg: map<string, V>, newCfg: Option<map<string, V>>)
    ensures Merged(Merged(currentCfg, newCfg), newCfg) == Merged(currentCfg, newCfg)
  {
  }
}
