/** `find_bibfiles`: the five search strategies and their concatenation in the order of the
    configured source tags. Everything the source reads from the editor, the environment,
    the file system or `kpsewhich` is a field of `Environment`. */
module BibSources {
  import opened Wrappers
  import opened Seqs
  import opened PathOps

  /** What the strategies read from outside. */
  datatype Environment = Environment(
    bufferName: Option<string>,          // vim.current.buffer.name
    bibExtensions: Option<seq<string>>,  // g:pandoc#biblio#bib_extensions, None when unset
    sources: string,                     // g:pandoc#biblio#sources, one tag per character
    bibs: seq<string>,                   // g:pandoc#biblio#bibs
    cwdListing: seq<string>,             // the entries of the current directory
    texmfHome: Option<string>,           // None when kpsewhich is not executable, else its stripped output
    texmfListing: seq<string>,           // the entries of that directory
    pathExists: string -> bool,          // os.path.exists
    absPath: string -> string,           // os.path.abspath
    expandVars: string -> string)        // os.path.expandvars

  /** The fixed extension list used by the pandoc and texmf strategies. */
  const BibExtensions: seq<string> :=
    ["bib", "bibtex", "ris", "json", "enl", "wos", "medline", "copac", "xml"]

  const PandocHomeDir: string := "$HOME/.pandoc/"
  const PandocAppDataDir: string := "%APPDATA%/pandoc/"

  /** `local_bib_extensions`: the user's list, or [] when reading it fails. */
  function LocalExtensions(env: Environment): (r: seq<string>)
    ensures env.bibExtensions.None? ==> r == []
  {
    match env.bibExtensions
    case None => []
    case Some(exts) => exts
  }

  /** `[prefix + ext for ext in exts]`. */
  function WithExtensions(prefix: string, exts: seq<string>): (r: seq<string>)
    ensures |r| == |exts|
  {
    seq(|exts|, i requires 0 <= i < |exts| => prefix + exts[i])
  }

  /** `[os.path.abspath(f) for f in paths if os.path.exists(f)]`. */
  function KeepExisting(env: Environment, paths: seq<string>): (r: seq<string>)
    ensures |r| <= |paths|
  {
    FilterMap(paths, env.pathExists, env.absPath)
  }

  /** `[os.path.abspath(f) for f in paths]`. */
  function AbsPaths(env: Environment, paths: seq<string>): (r: seq<string>)
    ensures |r| == |paths|
  {
    seq(|paths|, i requires 0 <= i < |paths| => env.absPath(paths[i]))
  }

  /** `[glob(prefix + "*." + ext) for ext in exts]`: one listing per extension. */
  function GlobEach(prefix: string, listing: seq<string>, exts: seq<string>): (r: seq<seq<string>>)
    ensures |r| == |exts|
  {
    seq(|exts|, i requires 0 <= i < |exts| => Glob(prefix, listing, exts[i]))
  }

  /** `b_search`: `<buffer name without extension>.<ext>` for each user extension, kept when
      that file exists. */
  function BSearch(env: Environment): (r: seq<string>)
    ensures env.bufferName == None || env.bufferName == Some("") ==> r == []
    ensures |r| <= |LocalExtensions(env)|
  {
    match env.bufferName
    case None => []
    case Some(name) =>
      if name == "" then []
      else KeepExisting(env, WithExtensions(SplitExt(name).0 + ".", LocalExtensions(env)))
  }

  /** `c_search`: every entry of the current directory matching `*.<ext>` for a user
      extension, grouped by extension, made absolute. */
  function CSearch(env: Environment): (r: seq<string>)
    ensures |r| <= |env.cwdListing| * |LocalExtensions(env)|
  {
    var groups := GlobEach("", env.cwdListing, LocalExtensions(env));
    FlattenLength(groups, |env.cwdListing|);
    AbsPaths(env, Flatten(groups))
  }

  /** The pandoc data directory `l_search` uses: `$HOME/.pandoc/` before
      `%APPDATA%/pandoc/`, or none. */
  function PandocDataDir(env: Environment): (r: Option<string>)
    ensures r.Some? ==> env.pathExists(r.value)
    ensures r.Some? ==> r.value == env.expandVars(PandocHomeDir) || r.value == env.expandVars(PandocAppDataDir)
    ensures r.None? <==> !env.pathExists(env.expandVars(PandocHomeDir)) && !env.pathExists(env.expandVars(PandocAppDataDir))
  {
    if env.pathExists(env.expandVars(PandocHomeDir)) then Some(env.expandVars(PandocHomeDir))
    else if env.pathExists(env.expandVars(PandocAppDataDir)) then Some(env.expandVars(PandocAppDataDir))
    else None
  }

  /** `l_search`: the existing `<dir>default.<ext>` over the full extension list. */
  function LSearch(env: Environment): (r: seq<string>)
    ensures PandocDataDir(env).None? ==> r == []
    ensures |r| <= |BibExtensions|
  {
    match PandocDataDir(env)
    case None => []
    case Some(dir) => KeepExisting(env, WithExtensions(dir + "default.", BibExtensions))
  }

  /** `t_search`: every entry of the texmf home matching `*.<ext>` over the full extension
      list, made absolute; nothing without `kpsewhich` or when its directory does not
      exist. */
  function TSearch(env: Environment): (r: seq<string>)
    ensures env.texmfHome.None? || !env.pathExists(env.texmfHome.value) ==> r == []
    ensures |r| <= |env.texmfListing| * |BibExtensions|
  {
    match env.texmfHome
    case None => []
    case Some(texmf) =>
      if env.pathExists(texmf) then
        var groups := GlobEach(texmf + "/", env.texmfListing, BibExtensions);
        FlattenLength(groups, |env.texmfListing|);
        AbsPaths(env, Flatten(groups))
      else []
  }

  /** `g_search`: the configured list as it is. */
  function GSearch(env: Environment): (r: seq<string>)
    ensures r == env.bibs
  {
    env.bibs
  }

  /** The tags of `search_methods`. */
  predicate KnownTag(tag: char)
  {
    tag == 'b' || tag == 'c' || tag == 'l' || tag == 't' || tag == 'g'
  }

  /** `search_methods.get(tag)`, each strategy run only when its tag is looked up. */
  function Strategy(env: Environment, tag: char): (r: Option<seq<string>>)
    ensures r.Some? <==> KnownTag(tag)
  {
    match tag
    case 'b' => Some(BSearch(env))
    case 'c' => Some(CSearch(env))
    case 'l' => Some(LSearch(env))
    case 't' => Some(TSearch(env))
    case 'g' => Some(GSearch(env))
    case _ => None
  }

  /** An unknown tag: `.get` gives None and `bibfiles.extend(None)` raises a TypeError. */
  datatype SearchError = UnknownSource(tag: char)

  /** The paths `find_bibfiles` returns for the tags `sources`. */
  function Resolve(env: Environment, sources: string): (r: Result<seq<string>, SearchError>)
    ensures sources == [] ==> r == Ok([])
    ensures r.Err? ==> r.error.tag in sources && !KnownTag(r.error.tag)
  {
    if sources == [] then Ok([])
    else match Strategy(env, sources[0])
      case None => Err(UnknownSource(sources[0]))
      case Some(found) =>
        match Resolve(env, sources[1..])
        case Err(e) => Err(e)
        case Ok(rest) => Ok(found + rest)
  }

  /** `find_bibfiles()`: extends `bibfiles` with each strategy's output, in tag order. */
  method FindBibfiles(env: Environment) returns (r: Result<seq<string>, SearchError>)
    ensures r == Resolve(env, env.sources)
  {
    var bibfiles := [];
    var i := 0;
    while i < |env.sources|
      invariant 0 <= i <= |env.sources|
      invariant Resolve(env, env.sources[..i]) == Ok(bibfiles)
    {
      var tag := env.sources[i];
      ResolveConcat(env, env.sources[..i], [tag]);
      assert env.sources[..i + 1] == env.sources[..i] + [tag];
      assert [tag][1..] == [];
      var found := Strategy(env, tag);
      if found.None? {
        ResolveConcat(env, env.sources[..i + 1], env.sources[i + 1..]);
        assert env.sources[..i + 1] + env.sources[i + 1..] == env.sources;
        return Err(UnknownSource(tag));
      }
      assert Resolve(env, [tag]) == Ok(found.value + []);
      assert found.value + [] == found.value;
      bibfiles := bibfiles + found.value;
      i := i + 1;
    }
    assert env.sources[..i] == env.sources;
    return Ok(bibfiles);
  }

  /** Resolving `s + t` resolves `s`, then `t`, and concatenates; the first failure wins. */
  lemma {:induction false} ResolveConcat(env: Environment, s: string, t: string)
    ensures Resolve(env, s + t) ==
      match Resolve(env, s)
      case Err(e) => Err(e)
      case Ok(a) =>
        match Resolve(env, t)
        case Err(e) => Err(e)
        case Ok(b) => Ok(a + b)
  {
    if s == [] {
      assert s + t == t;
      if Resolve(env, t).Ok? {
        assert [] + Resolve(env, t).value == Resolve(env, t).value;
      }
    } else {
      assert (s + t)[0] == s[0];
      assert (s + t)[1..] == s[1..] + t;
      ResolveConcat(env, s[1..], t);
      match Strategy(env, s[0])
      case None =>
      case Some(found) =>
        match Resolve(env, s[1..])
        case Err(e) =>
        case Ok(a) =>
          if Resolve(env, t).Ok? {
            assert found + (a + Resolve(env, t).value) == (found + a) + Resolve(env, t).value;
          }
    }
  }

  /** With no source tags nothing is searched. */
  lemma ResolveNoSources(env: Environment)
    ensures Resolve(env, "") == Ok([])
  {
  }

  /** Resolution fails exactly when some tag is unknown, and then with the first unknown
      tag. */
  lemma {:induction false} ResolveFailsOnFirstUnknownTag(env: Environment, s: string)
    ensures Resolve(env, s).Ok? <==> forall i :: 0 <= i < |s| ==> KnownTag(s[i])
    ensures Resolve(env, s).Err? ==>
      exists i :: 0 <= i < |s| && !KnownTag(s[i]) && (forall j :: 0 <= j < i ==> KnownTag(s[j]))
        && Resolve(env, s).error == UnknownSource(s[i])
  {
    if s != [] {
      ResolveFailsOnFirstUnknownTag(env, s[1..]);
      if KnownTag(s[0]) && Resolve(env, s[1..]).Err? {
        var i :| 0 <= i < |s[1..]| && !KnownTag(s[1..][i]) && (forall j :: 0 <= j < i ==> KnownTag(s[1..][j]))
          && Resolve(env, s[1..]).error == UnknownSource(s[1..][i]);
        assert !KnownTag(s[i + 1]);
        assert forall j :: 0 <= j < i + 1 ==> KnownTag(s[j]) by {
          forall j | 0 < j < i + 1 ensures KnownTag(s[j]) { assert s[j] == s[1..][j - 1]; }
        }
      }
      if !KnownTag(s[0]) {
        assert Resolve(env, s).error == UnknownSource(s[0]);
      }
      assert (forall i :: 0 <= i < |s[1..]| ==> KnownTag(s[1..][i])) <==>
        (forall i :: 1 <= i < |s| ==> KnownTag(s[i]));
    }
  }

  /** No deduplication: a tag listed twice contributes its paths twice. */
  lemma {:induction false} ResolveKeepsDuplicates(env: Environment, s: string)
    requires Resolve(env, s).Ok?
    ensures Resolve(env, s + s) == Ok(Resolve(env, s).value + Resolve(env, s).value)
  {
    ResolveConcat(env, s, s);
  }

  /** Without a buffer name the same-name strategy finds nothing. */
  lemma BSearchNoBuffer(env: Environment)
    requires env.bufferName == None || env.bufferName == Some("")
    ensures BSearch(env) == []
  {
  }

  /** The same-name strategy finds `abspath(<stem>.<ext>)` for exactly the user extensions
      whose file exists. */
  lemma BSearchMember(env: Environment, name: string, p: string)
    requires env.bufferName == Some(name) && name != ""
    ensures var stem := SplitExt(name).0; var exts := LocalExtensions(env);
      p in BSearch(env) <==>
        exists i :: 0 <= i < |exts| && env.pathExists(stem + "." + exts[i]) && p == env.absPath(stem + "." + exts[i])
  {
    var stem := SplitExt(name).0;
    var exts := LocalExtensions(env);
    var candidates := WithExtensions(stem + ".", exts);
    FilterMapMember(candidates, env.pathExists, env.absPath, p);
    assert forall i :: 0 <= i < |exts| ==> candidates[i] == stem + "." + exts[i];
  }

  /** When every candidate exists, the same-name strategy returns all of them, in the order of
      the user's extension list. */
  lemma BSearchOrder(env: Environment, name: string)
    requires env.bufferName == Some(name) && name != ""
    requires forall i :: 0 <= i < |LocalExtensions(env)| ==>
      env.pathExists(SplitExt(name).0 + "." + LocalExtensions(env)[i])
    ensures var stem := SplitExt(name).0; var exts := LocalExtensions(env);
      |BSearch(env)| == |exts| &&
      forall i :: 0 <= i < |exts| ==> BSearch(env)[i] == env.absPath(stem + "." + exts[i])
  {
    var stem := SplitExt(name).0;
    var exts := LocalExtensions(env);
    var candidates := WithExtensions(stem + ".", exts);
    assert forall i :: 0 <= i < |exts| ==> candidates[i] == stem + "." + exts[i];
    FilterMapAll(candidates, env.pathExists, env.absPath);
  }

  /** The current-directory strategy returns the matching entries made absolute. */
  lemma CSearchMember(env: Environment, p: string)
    ensures var exts := LocalExtensions(env);
      p in CSearch(env) <==>
        exists i, j :: 0 <= i < |exts| && 0 <= j < |env.cwdListing|
          && MatchesStarExt(env.cwdListing[j], exts[i]) && p == env.absPath(env.cwdListing[j])
  {
    var exts := LocalExtensions(env);
    var groups := GlobEach("", env.cwdListing, exts);
    var flat := Flatten(groups);
    if p in CSearch(env) {
      var k :| 0 <= k < |flat| && CSearch(env)[k] == p;
      FlattenMember(groups, flat[k]);
      var i :| 0 <= i < |groups| && flat[k] in groups[i];
      GlobMember("", env.cwdListing, exts[i], flat[k]);
      var j :| 0 <= j < |env.cwdListing| && MatchesStarExt(env.cwdListing[j], exts[i]) && flat[k] == "" + env.cwdListing[j];
      assert "" + env.cwdListing[j] == env.cwdListing[j];
    }
    if exists i, j :: 0 <= i < |exts| && 0 <= j < |env.cwdListing|
        && MatchesStarExt(env.cwdListing[j], exts[i]) && p == env.absPath(env.cwdListing[j]) {
      var i, j :| 0 <= i < |exts| && 0 <= j < |env.cwdListing|
        && MatchesStarExt(env.cwdListing[j], exts[i]) && p == env.absPath(env.cwdListing[j]);
      var name := env.cwdListing[j];
      assert "" + name == name;
      GlobMember("", env.cwdListing, exts[i], name);
      assert name in groups[i];
      FlattenMember(groups, name);
      assert name in flat;
      var k :| 0 <= k < |flat| && flat[k] == name;
      assert CSearch(env)[k] == p;
    }
  }

  /** Once `kpsewhich` names an existing directory, the texmf strategy returns exactly the
      absolute paths of its entries that match `*.<ext>` for an extension of the fixed list. */
  lemma TSearchMember(env: Environment, texmf: string, p: string)
    requires env.texmfHome == Some(texmf) && env.pathExists(texmf)
    ensures p in TSearch(env) <==>
      exists i, j :: 0 <= i < |BibExtensions| && 0 <= j < |env.texmfListing|
        && MatchesStarExt(env.texmfListing[j], BibExtensions[i]) && p == env.absPath(texmf + "/" + env.texmfListing[j])
  {
    var prefix := texmf + "/";
    var groups := GlobEach(prefix, env.texmfListing, BibExtensions);
    var flat := Flatten(groups);
    assert TSearch(env) == AbsPaths(env, flat);
    if p in TSearch(env) {
      var k :| 0 <= k < |flat| && TSearch(env)[k] == p;
      FlattenMember(groups, flat[k]);
      var i :| 0 <= i < |groups| && flat[k] in groups[i];
      GlobMember(prefix, env.texmfListing, BibExtensions[i], flat[k]);
    }
    if exists i, j :: 0 <= i < |BibExtensions| && 0 <= j < |env.texmfListing|
        && MatchesStarExt(env.texmfListing[j], BibExtensions[i]) && p == env.absPath(texmf + "/" + env.texmfListing[j]) {
      var i, j :| 0 <= i < |BibExtensions| && 0 <= j < |env.texmfListing|
        && MatchesStarExt(env.texmfListing[j], BibExtensions[i]) && p == env.absPath(texmf + "/" + env.texmfListing[j]);
      var path := prefix + env.texmfListing[j];
      GlobMember(prefix, env.texmfListing, BibExtensions[i], path);
      assert path in groups[i];
      FlattenMember(groups, path);
      assert path in flat;
      var k :| 0 <= k < |flat| && flat[k] == path;
      assert TSearch(env)[k] == p;
    }
  }

  /** `$HOME/.pandoc/` is preferred whenever it exists; without either directory the pandoc
      strategy finds nothing. */
  lemma PandocDataDirPreference(env: Environment)
    ensures env.pathExists(env.expandVars(PandocHomeDir)) ==> PandocDataDir(env) == Some(env.expandVars(PandocHomeDir))
    ensures !env.pathExists(env.expandVars(PandocHomeDir)) && env.pathExists(env.expandVars(PandocAppDataDir))
      ==> PandocDataDir(env) == Some(env.expandVars(PandocAppDataDir))
    ensures !env.pathExists(env.expandVars(PandocHomeDir)) && !env.pathExists(env.expandVars(PandocAppDataDir))
      ==> LSearch(env) == []
  {
  }

  /** The pandoc strategy finds `abspath(<dir>default.<ext>)` for exactly the extensions of
      the fixed list whose file exists, at most nine paths. */
  lemma LSearchMember(env: Environment, dir: string, p: string)
    requires PandocDataDir(env) == Some(dir)
    ensures |LSearch(env)| <= |BibExtensions| == 9
    ensures p in LSearch(env) <==>
      exists i :: 0 <= i < |BibExtensions| && env.pathExists(dir + "default." + BibExtensions[i])
        && p == env.absPath(dir + "default." + BibExtensions[i])
  {
    var candidates := WithExtensions(dir + "default.", BibExtensions);
    FilterMapMember(candidates, env.pathExists, env.absPath, p);
    assert forall i :: 0 <= i < |BibExtensions| ==> candidates[i] == dir + "default." + BibExtensions[i];
  }

  /** The pandoc and texmf strategies never look at the user's extension list. */
  lemma FixedListStrategiesIgnoreUserExtensions(env: Environment, exts: Option<seq<string>>)
    ensures LSearch(env.(bibExtensions := exts)) == LSearch(env)
    ensures TSearch(env.(bibExtensions := exts)) == TSearch(env)
  {
  }

  /** Without `kpsewhich`, or when its directory does not exist, the texmf strategy finds
      nothing. */
  lemma TSearchNeedsTexmf(env: Environment)
    requires env.texmfHome.None? || !env.pathExists(env.texmfHome.value)
    ensures TSearch(env) == []
  {
  }

  /** The configured list comes back whatever the file system says: no existence check, no
      absolutisation. */
  lemma GSearchIgnoresFileSystem(env: Environment, pathExists: string -> bool, absPath: string -> string)
    ensures GSearch(env.(pathExists := pathExists, absPath := absPath)) == env.bibs
  {
  }
}
