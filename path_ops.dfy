/** The two pieces of path handling the strategies rely on: `os.path.splitext` on a POSIX
    path (separator '/', extension separator '.') and the `*.<ext>` pattern of `glob`, applied
    to a directory listing supplied by the caller. */
module PathOps {
  import opened Seqs

  /** `s.rfind(c)`: the position of the last `c` in `s`, or -1. */
  function RFind(s: string, c: char): (i: int)
    ensures -1 <= i < |s|
    ensures i >= 0 ==> s[i] == c
    ensures forall j :: i < j < |s| ==> s[j] != c
  {
    if s == [] then -1
    else if s[|s| - 1] == c then |s| - 1
    else RFind(s[..|s| - 1], c)
  }

  /** Position `k` of `p` starts the extension: a '.' with neither '.' nor '/' after it, and a
      character other than '.' between the last '/' and it, so that a leading dot of a file
      name (".bashrc") does not count as an extension. */
  ghost predicate IsExtensionStart(p: string, k: int)
    requires 0 <= k < |p|
  {
    && p[k] == '.'
    && (forall j :: k < j < |p| ==> p[j] != '.' && p[j] != '/')
    && (exists m :: 0 <= m < k && p[m] != '.' && forall j :: m <= j < k ==> p[j] != '/')
  }

  predicate AllDots(s: string)
  {
    forall i :: 0 <= i < |s| ==> s[i] == '.'
  }

  /** `os.path.splitext(p)`: the root and the extension, which is empty or the last
      '.'-suffix of the file name. */
  function SplitExt(p: string): (r: (string, string))
    ensures r.0 + r.1 == p
  {
    var sepIndex := RFind(p, '/');
    var dotIndex := RFind(p, '.');
    if dotIndex > sepIndex && !AllDots(p[sepIndex + 1..dotIndex]) then
      (p[..dotIndex], p[dotIndex..])
    else
      (p, "")
  }

  /** `rfind` finds an occurrence with none after it, and stops below a stretch without one. */
  lemma RFindLast(s: string, c: char, k: int)
    requires 0 <= k < |s| && s[k] == c
    requires forall j :: k < j < |s| ==> s[j] != c
    ensures RFind(s, c) == k
  {
  }

  lemma RFindBelow(s: string, c: char, m: int)
    requires 0 <= m <= |s|
    requires forall j :: m <= j < |s| ==> s[j] != c
    ensures RFind(s, c) < m
  {
  }

  /** Any extension start is the position the source picks: the last '.', after the last
      '/', with a character other than '.' between the two. */
  lemma ExtensionStartIsPicked(p: string, k: int)
    requires 0 <= k < |p| && IsExtensionStart(p, k)
    ensures k == RFind(p, '.') && k > RFind(p, '/') && !AllDots(p[RFind(p, '/') + 1..k])
  {
    var m :| 0 <= m < k && p[m] != '.' && forall j :: m <= j < k ==> p[j] != '/';
    RFindLast(p, '.', k);
    RFindBelow(p, '/', m);
    var sepIndex := RFind(p, '/');
    var between := p[sepIndex + 1..k];
    assert between[m - sepIndex - 1] == p[m];
  }

  /** Conversely, the position the source picks is an extension start. */
  lemma PickedIsExtensionStart(p: string)
    requires RFind(p, '.') > RFind(p, '/') && !AllDots(p[RFind(p, '/') + 1..RFind(p, '.')])
    ensures IsExtensionStart(p, RFind(p, '.'))
  {
    var sepIndex := RFind(p, '/');
    var k := RFind(p, '.');
    var i :| 0 <= i < |p[sepIndex + 1..k]| && p[sepIndex + 1..k][i] != '.';
    var m := sepIndex + 1 + i;
    assert p[m] != '.';
    assert forall j :: m <= j < k ==> p[j] != '/';
  }

  /** `SplitExt` against the reference definition: it cuts at the extension start when
      there is one, and leaves the path whole otherwise. */
  lemma SplitExtSpec(p: string)
    ensures forall k :: 0 <= k < |p| && IsExtensionStart(p, k) ==> SplitExt(p) == (p[..k], p[k..])
    ensures (forall k :: 0 <= k < |p| ==> !IsExtensionStart(p, k)) ==> SplitExt(p) == (p, "")
  {
    var sepIndex := RFind(p, '/');
    var dotIndex := RFind(p, '.');
    if dotIndex > sepIndex && !AllDots(p[sepIndex + 1..dotIndex]) {
      PickedIsExtensionStart(p);
    }
    forall k | 0 <= k < |p| && IsExtensionStart(p, k)
      ensures SplitExt(p) == (p[..k], p[k..])
    {
      ExtensionStartIsPicked(p, k);
    }
  }

  /** The extension is empty or one '.' followed by neither '.' nor '/'. */
  lemma ExtensionShape(p: string)
    ensures var ext := SplitExt(p).1;
      ext == "" || (ext[0] == '.' && forall j :: 0 < j < |ext| ==> ext[j] != '.' && ext[j] != '/')
  {
    var sepIndex := RFind(p, '/');
    var dotIndex := RFind(p, '.');
    if dotIndex > sepIndex && !AllDots(p[sepIndex + 1..dotIndex]) {
      var ext := p[dotIndex..];
      forall j | 0 < j < |ext| ensures ext[j] != '.' && ext[j] != '/' {
        assert ext[j] == p[dotIndex + j];
      }
    }
  }

  predicate HasSuffix(s: string, suffix: string)
  {
    |suffix| <= |s| && s[|s| - |suffix|..] == suffix
  }

  /** Whether a directory entry matches `*.<ext>`. `glob`'s `*` matches anything, but not a
      name that starts with '.' (hidden entries are not matched by a pattern that does not
      itself start with '.'). The extension is taken literally. */
  predicate MatchesStarExt(name: string, ext: string)
  {
    !(|name| > 0 && name[0] == '.') && HasSuffix(name, "." + ext)
  }

  /** `glob(prefix + "*." + ext)` over the entries `listing` of the globbed directory, which
      returns each matching entry prefixed as the pattern was, in listing order. */
  function Glob(prefix: string, listing: seq<string>, ext: string): (r: seq<string>)
    ensures |r| <= |listing|
  {
    FilterMap(listing, name => MatchesStarExt(name, ext), name => prefix + name)
  }

  lemma GlobMember(prefix: string, listing: seq<string>, ext: string, path: string)
    ensures path in Glob(prefix, listing, ext) <==>
      exists i :: 0 <= i < |listing| && MatchesStarExt(listing[i], ext) && path == prefix + listing[i]
  {
    FilterMapMember(listing, name => MatchesStarExt(name, ext), name => prefix + name, path);
  }
}
