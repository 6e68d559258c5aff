/** `get_bibliography_suggestions` and `get_suggestions`: each bibliography's entries are
    filtered by the match predicate and mapped to completions, the per-bibliography lists are
    concatenated, and the whole is stable-sorted by the completions' "word". The converter,
    `match` and `entry_to_completion` are parameters. */
module Suggestions {
  import opened Wrappers
  import opened Seqs
  import opened StringOrder
  import opened CslVariables
  import opened BibSources

  /** `bibliography_to_json(path)`: the converter's parsed entries, or [] when running or
      parsing it fails. */
  function BibliographyToJson(path: string, convert: string -> Option<seq<Entry>>): (r: seq<Entry>)
    ensures convert(path).None? ==> r == []
  {
    match convert(path)
    case None => []
    case Some(entries) => entries
  }

  /** `get_bibliography_suggestions(path, query)`. */
  function BibliographySuggestions<C>(path: string, query: string, convert: string -> Option<seq<Entry>>,
                                      matches: (Entry, string) -> bool, toCompletion: Entry -> C): (r: seq<C>)
    ensures |r| <= |BibliographyToJson(path, convert)|
  {
    FilterMap(BibliographyToJson(path, convert), entry => matches(entry, query), toCompletion)
  }

  /** A suggestion is the completion of a matching entry of that bibliography, and every
      matching entry gives one. */
  lemma BibliographySuggestionsMember<C>(path: string, query: string, convert: string -> Option<seq<Entry>>,
                                         matches: (Entry, string) -> bool, toCompletion: Entry -> C, c: C)
    ensures var entries := BibliographyToJson(path, convert);
      c in BibliographySuggestions(path, query, convert, matches, toCompletion) <==>
        exists i :: 0 <= i < |entries| && matches(entries[i], query) && c == toCompletion(entries[i])
  {
    FilterMapMember(BibliographyToJson(path, convert), entry => matches(entry, query), toCompletion, c);
  }

  /** An unreadable bibliography, or one with no matching entry, contributes nothing. */
  lemma BibliographySuggestionsEmpty<C>(path: string, query: string, convert: string -> Option<seq<Entry>>,
                                        matches: (Entry, string) -> bool, toCompletion: Entry -> C)
    requires convert(path).None? ||
      forall i :: 0 <= i < |convert(path).value| ==> !matches(convert(path).value[i], query)
    ensures BibliographySuggestions(path, query, convert, matches, toCompletion) == []
  {
    FilterMapNone(BibliographyToJson(path, convert), entry => matches(entry, query), toCompletion);
  }

  /** The suggestions of a query that every entry matches keep the entries' order. */
  lemma BibliographySuggestionsOrder<C>(path: string, query: string, convert: string -> Option<seq<Entry>>,
                                        matches: (Entry, string) -> bool, toCompletion: Entry -> C)
    requires var entries := BibliographyToJson(path, convert);
      forall i :: 0 <= i < |entries| ==> matches(entries[i], query)
    ensures var entries := BibliographyToJson(path, convert);
      var r := BibliographySuggestions(path, query, convert, matches, toCompletion);
      |r| == |entries| && forall i :: 0 <= i < |entries| ==> r[i] == toCompletion(entries[i])
  {
    FilterMapAll(BibliographyToJson(path, convert), entry => matches(entry, query), toCompletion);
  }

  // ---------------------------------------------------------------------------------------
  // Stable sort by key, the `sorted(matches, key=operator.itemgetter("word"))` of the source.

  predicate SortedByKey<C>(s: seq<C>, key: C -> string)
  {
    forall i, j :: 0 <= i < j < |s| ==> LexLe(key(s[i]), key(s[j]))
  }

  /** The elements of `s` whose key is `k`, in order. */
  function WithKey<C>(s: seq<C>, key: C -> string, k: string): seq<C>
  {
    FilterMap(s, x => key(x) == k, x => x)
  }

  /** `r` is what a stable sort of `s` by `key` gives: ordered by key, a permutation of `s`,
      and elements with equal keys in their order in `s`. */
  ghost predicate IsStableSortOf<C>(r: seq<C>, s: seq<C>, key: C -> string)
  {
    && SortedByKey(r, key)
    && multiset(r) == multiset(s)
    && forall k :: WithKey(r, key, k) == WithKey(s, key, k)
  }

  lemma WithKeyOne<C>(x: C, key: C -> string, k: string)
    ensures WithKey([x], key, k) == if key(x) == k then [x] else []
  {
    assert [x][1..] == [];
  }

  lemma WithKeyOfFirst<C>(s: seq<C>, key: C -> string)
    requires s != []
    ensures WithKey(s, key, key(s[0])) == [s[0]] + WithKey(s[1..], key, key(s[0]))
  {
  }

  /** Putting `x` after the elements whose key is at most its own and before those whose key
      is greater keeps the sequence sorted, and adds `x` at the end of its key's group. */
  lemma InsertKeepsOrder<C>(r: seq<C>, j: int, x: C, key: C -> string)
    requires 0 <= j <= |r| && SortedByKey(r, key)
    requires forall m :: 0 <= m < j ==> LexLe(key(r[m]), key(x))
    requires forall m :: j <= m < |r| ==> !LexLe(key(r[m]), key(x))
    ensures SortedByKey(r[..j] + [x] + r[j..], key)
    ensures forall k :: WithKey(r[..j] + [x] + r[j..], key, k) == WithKey(r, key, k) + WithKey([x], key, k)
  {
    var r' := r[..j] + [x] + r[j..];
    forall m | j <= m < |r| ensures LexLe(key(x), key(r[m])) && key(r[m]) != key(x) {
      LexLeTotal(key(r[m]), key(x));
      LexLeReflexive(key(x));
    }
    forall a, b | 0 <= a < b < |r'| ensures LexLe(key(r'[a]), key(r'[b])) {
      if a < j && b == j {
      } else if a == j && b > j {
        assert r'[b] == r[b - 1];
      } else if a < j && b > j {
        assert r'[b] == r[b - 1];
        LexLeTransitive(key(r[a]), key(x), key(r[b - 1]));
      } else if b < j {
      } else {
        assert r'[a] == r[a - 1] && r'[b] == r[b - 1];
      }
    }
    forall k ensures WithKey(r', key, k) == WithKey(r, key, k) + WithKey([x], key, k) {
      var keep := (y: C) => key(y) == k;
      var id := (y: C) => y;
      FilterMapConcat(r[..j] + [x], r[j..], keep, id);
      FilterMapConcat(r[..j], [x], keep, id);
      FilterMapConcat(r[..j], r[j..], keep, id);
      assert r[..j] + r[j..] == r;
      if key(x) == k {
        FilterMapNone(r[j..], keep, id);
      } else {
        WithKeyOne(x, key, k);
      }
    }
  }

  /** The sort of `get_suggestions`, as an insertion sort into a new list (Python's `sorted`
      does not change its argument). */
  method SortByKey<C(==)>(s: seq<C>, key: C -> string) returns (r: seq<C>)
    ensures SortedByKey(r, key)
    ensures multiset(r) == multiset(s)
    ensures forall k :: WithKey(r, key, k) == WithKey(s, key, k)
  {
    r := [];
    var i := 0;
    while i < |s|
      invariant 0 <= i <= |s|
      invariant SortedByKey(r, key)
      invariant multiset(r) == multiset(s[..i])
      invariant forall k :: WithKey(r, key, k) == WithKey(s[..i], key, k)
    {
      var x := s[i];
      var j := |r|;
      while j > 0 && !LexLe(key(r[j - 1]), key(x))
        invariant 0 <= j <= |r|
        invariant forall m :: j <= m < |r| ==> !LexLe(key(r[m]), key(x))
      {
        j := j - 1;
      }
      forall m | 0 <= m < j ensures LexLe(key(r[m]), key(x)) {
        if m < j - 1 {
          LexLeTransitive(key(r[m]), key(r[j - 1]), key(x));
        }
      }
      InsertKeepsOrder(r, j, x, key);
      assert r[..j] + r[j..] == r;
      assert s[..i + 1] == s[..i] + [x];
      forall k ensures WithKey(s[..i + 1], key, k) == WithKey(s[..i], key, k) + WithKey([x], key, k) {
        FilterMapConcat(s[..i], [x], y => key(y) == k, y => y);
      }
      r := r[..j] + [x] + r[j..];
      i := i + 1;
    }
    assert s[..i] == s;
  }

  /** A stable sort has one possible result: two sorted sequences with the same elements per
      key, in the same order, are equal. So `SortByKey` returns what Python's `sorted`
      returns. */
  lemma {:induction false} StableSortUnique<C>(r1: seq<C>, r2: seq<C>, key: C -> string)
    requires SortedByKey(r1, key) && SortedByKey(r2, key)
    requires forall k :: WithKey(r1, key, k) == WithKey(r2, key, k)
    ensures r1 == r2
    decreases |r1| + |r2|
  {
    if r1 == [] || r2 == [] {
      if r1 != [] {
        WithKeyOfFirst(r1, key);
        assert false;
      }
      if r2 != [] {
        WithKeyOfFirst(r2, key);
        assert false;
      }
    } else {
      var k1, k2 := key(r1[0]), key(r2[0]);
      FirstKeyIsLeast(r1, r2, key);
      FirstKeyIsLeast(r2, r1, key);
      LexLeAntisymmetric(k1, k2);
      assert r1[0] == r2[0] by {
        assert WithKey(r1, key, k1)[0] == r1[0];
        assert WithKey(r2, key, k1)[0] == r2[0];
      }
      forall k ensures WithKey(r1[1..], key, k) == WithKey(r2[1..], key, k) {
        var head := if k1 == k then [r1[0]] else [];
        assert WithKey(r1, key, k) == head + WithKey(r1[1..], key, k);
        assert WithKey(r2, key, k) == head + WithKey(r2[1..], key, k);
        assert WithKey(r1[1..], key, k) == WithKey(r1, key, k)[|head|..];
        assert WithKey(r2[1..], key, k) == WithKey(r2, key, k)[|head|..];
      }
      StableSortUnique(r1[1..], r2[1..], key);
      assert r1 == [r1[0]] + r1[1..] && r2 == [r2[0]] + r2[1..];
    }
  }

  /** In a sorted sequence the first key is the least; another sequence with the same
      elements per key has no smaller key first. */
  lemma FirstKeyIsLeast<C>(r1: seq<C>, r2: seq<C>, key: C -> string)
    requires r1 != [] && r2 != [] && SortedByKey(r2, key)
    requires forall k :: WithKey(r1, key, k) == WithKey(r2, key, k)
    ensures LexLe(key(r2[0]), key(r1[0]))
  {
    var k1 := key(r1[0]);
    assert r1[0] in WithKey(r1, key, k1);
    FilterMapMember(r2, x => key(x) == k1, x => x, r1[0]);
    var i :| 0 <= i < |r2| && key(r2[i]) == k1 && r1[0] == r2[i];
    if i == 0 {
      LexLeReflexive(k1);
    }
  }

  lemma WithKeyOfThree<C>(a: C, b: C, c: C, key: C -> string, k: string)
    ensures WithKey([a, b, c], key, k) == WithKey([a], key, k) + WithKey([b], key, k) + WithKey([c], key, k)
  {
    var keep := (e: C) => key(e) == k;
    var id := (e: C) => e;
    FilterMapConcat([a, b], [c], keep, id);
    FilterMapConcat([a], [b], keep, id);
    assert [a, b] + [c] == [a, b, c] && [a] + [b] == [a, b];
  }

  /** Example: completions with words "b", "a" from one bibliography and "c" from the next
      come out with words "a", "b", "c". */
  lemma SortExample<C>(x: C, y: C, z: C, word: C -> string, r: seq<C>)
    requires word(x) == "b" && word(y) == "a" && word(z) == "c"
    requires IsStableSortOf(r, [x, y] + [z], word)
    ensures r == [y, x, z]
  {
    var want := [y, x, z];
    var given := [x, y] + [z];
    assert given == [x, y, z];
    forall k ensures WithKey(want, word, k) == WithKey(given, word, k) {
      WithKeyOfThree(y, x, z, word, k);
      WithKeyOfThree(x, y, z, word, k);
      WithKeyOne(x, word, k);
      WithKeyOne(y, word, k);
      WithKeyOne(z, word, k);
    }
    assert SortedByKey(want, word);
    StableSortUnique(r, want, word);
  }

  // ---------------------------------------------------------------------------------------
  // Aggregation.

  /** The bibliographies `get_suggestions` reads: the buffer's own list when it is non-empty,
      otherwise what `find_bibfiles` resolves. */
  function BibsToSearch(bufferBibs: seq<string>, env: Environment): (r: Result<seq<string>, SearchError>)
    ensures bufferBibs != [] ==> r == Ok(bufferBibs)
    ensures r.Err? ==> bufferBibs == [] && r.error.tag in env.sources && !KnownTag(r.error.tag)
  {
    if |bufferBibs| < 1 then Resolve(env, env.sources) else Ok(bufferBibs)
  }

  /** `[get_bibliography_suggestions(bib, query) for bib in bibs]`. */
  function SuggestionLists<C>(bibs: seq<string>, query: string, convert: string -> Option<seq<Entry>>,
                              matches: (Entry, string) -> bool, toCompletion: Entry -> C): (r: seq<seq<C>>)
    ensures |r| == |bibs|
  {
    seq(|bibs|, i requires 0 <= i < |bibs| => BibliographySuggestions(bibs[i], query, convert, matches, toCompletion))
  }

  /** The per-bibliography suggestion lists, concatenated in bibliography order. */
  function Collected<C>(bibs: seq<string>, query: string, convert: string -> Option<seq<Entry>>,
                        matches: (Entry, string) -> bool, toCompletion: Entry -> C): (r: seq<C>)
    ensures bibs == [] ==> r == []
    ensures |bibs| == 1 ==> r == BibliographySuggestions(bibs[0], query, convert, matches, toCompletion)
  {
    Flatten(SuggestionLists(bibs, query, convert, matches, toCompletion))
  }

  lemma CollectedAppend<C>(bibs: seq<string>, bib: string, query: string, convert: string -> Option<seq<Entry>>,
                           matches: (Entry, string) -> bool, toCompletion: Entry -> C)
    ensures Collected(bibs + [bib], query, convert, matches, toCompletion) ==
      Collected(bibs, query, convert, matches, toCompletion) + BibliographySuggestions(bib, query, convert, matches, toCompletion)
  {
    var last := BibliographySuggestions(bib, query, convert, matches, toCompletion);
    var front := SuggestionLists(bibs, query, convert, matches, toCompletion);
    var all := SuggestionLists(bibs + [bib], query, convert, matches, toCompletion);
    assert all == front + [last] by {
      forall i | 0 <= i < |all| ensures all[i] == (front + [last])[i] {
        if i < |bibs| {
          assert (bibs + [bib])[i] == bibs[i];
        }
      }
    }
    FlattenConcat(front, [last]);
    assert [last][1..] == [];
    assert last + [] == last;
  }

  /** `get_suggestions()`, with the list of matches starting empty. */
  method GetSuggestions<C(==)>(bufferBibs: seq<string>, env: Environment, query: string,
                               convert: string -> Option<seq<Entry>>, matches: (Entry, string) -> bool,
                               toCompletion: Entry -> C, word: C -> string)
    returns (r: Result<seq<C>, SearchError>)
    ensures r.Err? <==> BibsToSearch(bufferBibs, env).Err?
    ensures r.Err? ==> r.error == BibsToSearch(bufferBibs, env).error
    ensures r.Ok? ==>
      IsStableSortOf(r.value, Collected(BibsToSearch(bufferBibs, env).value, query, convert, matches, toCompletion), word)
  {
    var bibs := bufferBibs;
    if |bibs| < 1 {
      var found := FindBibfiles(env);
      if found.Err? {
        return Err(found.error);
      }
      bibs := found.value;
    }
    var collected: seq<C> := [];
    var i := 0;
    while i < |bibs|
      invariant 0 <= i <= |bibs|
      invariant collected == Collected(bibs[..i], query, convert, matches, toCompletion)
    {
      CollectedAppend(bibs[..i], bibs[i], query, convert, matches, toCompletion);
      assert bibs[..i + 1] == bibs[..i] + [bibs[i]];
      collected := collected + BibliographySuggestions(bibs[i], query, convert, matches, toCompletion);
      i := i + 1;
    }
    assert bibs[..i] == bibs;
    if |collected| > 0 {
      collected := SortByKey(collected, word);
    }
    return Ok(collected);
  }

  /** Non-empty buffer bibliographies bypass resolution entirely. */
  lemma BufferBibsBypassResolution(bufferBibs: seq<string>, env: Environment, other: Environment)
    requires |bufferBibs| >= 1
    ensures BibsToSearch(bufferBibs, env) == BibsToSearch(bufferBibs, other) == Ok(bufferBibs)
  {
  }

  /** No bibliography to read means no suggestion. */
  lemma NoBibliographiesNoSuggestions<C>(query: string, convert: string -> Option<seq<Entry>>,
                                         matches: (Entry, string) -> bool, toCompletion: Entry -> C)
    ensures Collected([], query, convert, matches, toCompletion) == []
  {
  }

  /** No deduplication across bibliographies: reading one twice doubles its suggestions. */
  lemma CollectedKeepsDuplicates<C>(bib: string, query: string, convert: string -> Option<seq<Entry>>,
                                    matches: (Entry, string) -> bool, toCompletion: Entry -> C)
    ensures var once := BibliographySuggestions(bib, query, convert, matches, toCompletion);
      Collected([bib, bib], query, convert, matches, toCompletion) == once + once
  {
    CollectedAppend([bib], bib, query, convert, matches, toCompletion);
    CollectedAppend([], bib, query, convert, matches, toCompletion);
    assert [] + [bib] == [bib] && [bib] + [bib] == [bib, bib];
  }
}
