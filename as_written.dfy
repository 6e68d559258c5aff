/** citeproc.py as written raises in three places before it can return a value. These
    members model that behaviour; the rest of the model uses the evidently intended one
    (lazy strategy dispatch, absolute paths of the globbed entries, matches starting empty). */
module AsWritten {
  import opened Wrappers
  import opened Seqs
  import opened PathOps
  import opened BibSources
  import opened Suggestions

  /** UnboundLocalError(name), and the TypeError of `os.path.abspath` applied to a list. */
  datatype PythonError = UnboundLocal(name: string) | AbsPathOfList

  /** `find_bibfiles` as written: the dict display calls `b_search()` before the nested `def`
      binds that local name, so the call raises whatever the configuration. */
  function FindBibfilesAsWritten(env: Environment): (r: Result<seq<string>, PythonError>)
    ensures r.Err?
  {
    Err(UnboundLocal("b_search"))
  }

  /** `c_search` as written: `relative_bibfiles` holds one list per extension, and
      `os.path.abspath` of its first element raises. */
  function CSearchAsWritten(env: Environment): (r: Result<seq<string>, PythonError>)
    ensures r.Err? <==> LocalExtensions(env) != []
  {
    var relativeBibfiles := GlobEach("", env.cwdListing, LocalExtensions(env));
    if relativeBibfiles == [] then Ok([]) else Err(AbsPathOfList)
  }

  /** `t_search` as written: the same, over the nine fixed extensions, once the texmf
      directory exists. */
  function TSearchAsWritten(env: Environment): (r: Result<seq<string>, PythonError>)
    ensures r.Err? <==> env.texmfHome.Some? && env.pathExists(env.texmfHome.value)
  {
    match env.texmfHome
    case None => Ok([])
    case Some(texmf) =>
      if env.pathExists(texmf) then
        var relativeBibfiles := GlobEach(texmf + "/", env.texmfListing, BibExtensions);
        if relativeBibfiles == [] then Ok([]) else Err(AbsPathOfList)
      else Ok([])
  }

  /** `get_suggestions` as written: `matches` is assigned in the function, so it is a local,
      and it is read (by `extend` or by `len`) before anything binds it. */
  function GetSuggestionsAsWritten<C>(bufferBibs: seq<string>, env: Environment): (r: Result<seq<C>, PythonError>)
    ensures r.Err?
  {
    if |bufferBibs| < 1 then Err(FindBibfilesAsWritten(env).error) else Err(UnboundLocal("matches"))
  }

  /** Eager dispatch: as written nothing is ever resolved, while the lazy dispatch of the model
      resolves an empty tag list to no paths and the configured list to itself. */
  lemma EagerDispatchDiscrepancy(env: Environment)
    ensures FindBibfilesAsWritten(env).Err?
    ensures Resolve(env, "") == Ok([])
    ensures Resolve(env, "g") == Ok(env.bibs)
  {
    assert "g"[1..] == "";
    assert env.bibs + [] == env.bibs;
  }

  /** abspath of a list: as written, any matching entry of the current directory (indeed any
      non-empty extension list) makes the strategy raise, while the model finds that entry. */
  lemma AbsPathOfListDiscrepancy(env: Environment, i: int, j: int)
    requires 0 <= i < |LocalExtensions(env)| && 0 <= j < |env.cwdListing|
    requires MatchesStarExt(env.cwdListing[j], LocalExtensions(env)[i])
    ensures CSearchAsWritten(env).Err?
    ensures env.absPath(env.cwdListing[j]) in CSearch(env)
  {
    CSearchMember(env, env.absPath(env.cwdListing[j]));
  }

  /** Unbound `matches`: as written every request fails, while the model answers a request
      with its own bibliographies and no suggestion at all when there is nothing to read. */
  lemma UnboundMatchesDiscrepancy(bufferBibs: seq<string>, env: Environment)
    requires |bufferBibs| >= 1
    ensures GetSuggestionsAsWritten<string>(bufferBibs, env) == Err(UnboundLocal("matches"))
    ensures BibsToSearch(bufferBibs, env) == Ok(bufferBibs)
  {
  }
}
