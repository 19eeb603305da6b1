/** The derived view: sort by name, then the language filter, then the
    starred-only filter; plus the sort-mode cycle and the language facets. */
module View {
  import opened Repos
  import opened Seqs

  /** `handleSortByName`: 0 (unsorted) -> 1 (ascending) -> 2 (descending) -> 0. */
  function NextSortMode(m: int): (r: int)
    ensures 0 <= m <= 2 ==> 0 <= r <= 2 && r == (m + 1) % 3
  {
    if m == 2 then 0 else m + 1
  }

  /** Three presses bring the mode back. */
  lemma SortModeCycle(m: int)
    requires 0 <= m <= 2
    ensures NextSortMode(NextSortMode(NextSortMode(m))) == m
    ensures NextSortMode(m) != m
  {
  }

  /** What `localeCompare` is assumed to be: a consistent comparator whose
      sign flips with its arguments and whose "not after" is transitive. */
  ghost predicate Comparator(cmp: (string, string) -> int) {
    && (forall a, b :: cmp(a, b) < 0 <==> cmp(b, a) > 0)
    && (forall a, b, c :: cmp(a, b) <= 0 && cmp(b, c) <= 0 ==> cmp(a, c) <= 0)
  }

  function AscendingByName(cmp: (string, string) -> int): (Repo, Repo) -> bool {
    (a: Repo, b: Repo) => cmp(a.name, b.name) <= 0
  }

  function DescendingByName(cmp: (string, string) -> int): (Repo, Repo) -> bool {
    (a: Repo, b: Repo) => cmp(b.name, a.name) <= 0
  }

  lemma ByNameArePreorders(cmp: (string, string) -> int)
    requires Comparator(cmp)
    ensures TotalPreorder(AscendingByName(cmp))
    ensures TotalPreorder(DescendingByName(cmp))
  {
    var asc, desc := AscendingByName(cmp), DescendingByName(cmp);
    forall x, y ensures asc(x, y) || asc(y, x) {
      assert cmp(x.name, y.name) > 0 ==> cmp(y.name, x.name) < 0;
    }
    forall x, y ensures desc(x, y) || desc(y, x) {
      assert asc(y, x) || asc(x, y);
    }
    forall x, y, z | asc(x, y) && asc(y, z) ensures asc(x, z) {
      assert cmp(x.name, y.name) <= 0 && cmp(y.name, z.name) <= 0;
    }
    forall x, y, z | desc(x, y) && desc(y, z) ensures desc(x, z) {
      assert cmp(z.name, y.name) <= 0 && cmp(y.name, x.name) <= 0;
    }
  }

  /** `sortedRepos`: mode 0 is the list itself; 1 and 2 are a sorted copy,
      ascending and descending by name. */
  function SortByName(repos: seq<Repo>, mode: int, cmp: (string, string) -> int): (r: seq<Repo>)
    requires Comparator(cmp)
    ensures multiset(r) == multiset(repos)
    ensures mode == 0 ==> r == repos
    ensures mode == 1 ==> forall i, j :: 0 <= i < j < |r| ==> cmp(r[i].name, r[j].name) <= 0
    ensures mode != 0 && mode != 1 ==> forall i, j :: 0 <= i < j < |r| ==> cmp(r[j].name, r[i].name) <= 0
  {
    ByNameArePreorders(cmp);
    if mode == 0 then repos
    else if mode == 1 then SortBy(repos, AscendingByName(cmp))
    else SortBy(repos, DescendingByName(cmp))
  }

  /** Records that compare equal by name are the same record. */
  ghost predicate DistinctNames(s: seq<Repo>, cmp: (string, string) -> int) {
    forall i, j :: 0 <= i < |s| && 0 <= j < |s| && cmp(s[i].name, s[j].name) == 0 ==> s[i] == s[j]
  }

  /** An ascending list read backwards is descending. */
  lemma ReversedAscendingIsDescending(asc: seq<Repo>, cmp: (string, string) -> int)
    requires forall i, j :: 0 <= i < j < |asc| ==> cmp(asc[i].name, asc[j].name) <= 0
    ensures SortedBy(Reverse(asc), DescendingByName(cmp))
  {
    var rev, le := Reverse(asc), DescendingByName(cmp);
    forall i, j | 0 <= i < j < |rev|
      ensures le(rev[i], rev[j])
    {
      assert rev[i] == asc[|asc| - 1 - i] && rev[j] == asc[|asc| - 1 - j];
    }
  }

  /** Among records with distinct names, no two different ones are
      equivalent under the descending order. */
  lemma DistinctNamesAntisymmetric(s: seq<Repo>, t: seq<Repo>, cmp: (string, string) -> int)
    requires Comparator(cmp) && DistinctNames(s, cmp) && multiset(t) == multiset(s)
    ensures forall x, y :: x in t && y in t && DescendingByName(cmp)(x, y) && DescendingByName(cmp)(y, x) ==> x == y
  {
    forall x, y | x in t && y in t && DescendingByName(cmp)(x, y) && DescendingByName(cmp)(y, x)
      ensures x == y
    {
      assert x in multiset(s) && y in multiset(s);
      var i :| 0 <= i < |s| && s[i] == x;
      var j :| 0 <= j < |s| && s[j] == y;
      assert cmp(x.name, y.name) == 0;
    }
  }

  /** With distinct names, the descending order is the ascending one reversed. */
  lemma {:induction false} DescendingIsReversedAscending(s: seq<Repo>, cmp: (string, string) -> int)
    requires Comparator(cmp) && DistinctNames(s, cmp)
    ensures SortByName(s, 2, cmp) == Reverse(SortByName(s, 1, cmp))
  {
    var asc, desc := SortByName(s, 1, cmp), SortByName(s, 2, cmp);
    ByNameArePreorders(cmp);
    ReversePermutes(asc);
    ReversedAscendingIsDescending(asc, cmp);
    DistinctNamesAntisymmetric(s, desc, cmp);
    assert SortedBy(desc, DescendingByName(cmp));
    SortedUnique(desc, Reverse(asc), DescendingByName(cmp));
  }

  /** The selection that stands for "no language". */
  const NoLanguage := "null"

  predicate MatchesLanguage(r: Repo, selected: string) {
    if selected == NoLanguage then !HasLanguage(r) else r.language == Some(selected)
  }

  /** `filteredRepos`: "" keeps everything; "null" keeps the records without
      a language (absent or ""); any other value keeps the records whose
      language is exactly that value. */
  function FilterByLanguage(s: seq<Repo>, selected: string): (r: seq<Repo>)
    ensures Subseq(r, s)
    ensures selected == "" ==> r == s
    ensures selected == NoLanguage ==>
      forall x :: multiset(r)[x] == if !HasLanguage(x) then multiset(s)[x] else 0
    ensures selected != "" && selected != NoLanguage ==>
      forall x :: multiset(r)[x] == if x.language == Some(selected) then multiset(s)[x] else 0
  {
    if selected != "" then Filter(s, (x: Repo) => MatchesLanguage(x, selected))
    else
      SubseqRefl(s);
      s
  }

  /** `displayedRepos`: with starred-only on, exactly the starred records. */
  function FilterStarred(s: seq<Repo>, starredOnly: bool): (r: seq<Repo>)
    ensures Subseq(r, s)
    ensures !starredOnly ==> r == s
    ensures starredOnly ==> forall x :: multiset(r)[x] == if x.starred then multiset(s)[x] else 0
  {
    if starredOnly then Filter(s, (x: Repo) => x.starred)
    else
      SubseqRefl(s);
      s
  }

  /** Whether a record survives both filters. */
  predicate Shown(x: Repo, selected: string, starredOnly: bool) {
    (selected == "" || MatchesLanguage(x, selected)) && (!starredOnly || x.starred)
  }

  /** `displayedRepos`, the list the page renders: each record of the raw
      list appears as often as there if it passes both filters and not at
      all otherwise, in the order of the sorted list, so in raw order when
      unsorted and in name order when sorted. */
  function Displayed(repos: seq<Repo>, mode: int, selected: string, starredOnly: bool,
                     cmp: (string, string) -> int): (r: seq<Repo>)
    requires Comparator(cmp)
    ensures forall x :: multiset(r)[x] == if Shown(x, selected, starredOnly) then multiset(repos)[x] else 0
    ensures Subseq(r, SortByName(repos, mode, cmp))
    ensures mode == 0 ==> Subseq(r, repos)
    ensures mode == 1 ==> forall i, j :: 0 <= i < j < |r| ==> cmp(r[i].name, r[j].name) <= 0
    ensures mode != 0 && mode != 1 ==> forall i, j :: 0 <= i < j < |r| ==> cmp(r[j].name, r[i].name) <= 0
  {
    var sorted := SortByName(repos, mode, cmp);
    var shown := FilterStarred(FilterByLanguage(sorted, selected), starredOnly);
    FiltersContents(repos, sorted, selected, starredOnly);
    DisplayedInNameOrder(shown, sorted, mode, cmp);
    shown
  }

  /** The two filters keep, in order, the records passing both, each as
      often as in any permutation of the list they are applied to. */
  lemma FiltersContents(repos: seq<Repo>, sorted: seq<Repo>, selected: string, starredOnly: bool)
    requires multiset(sorted) == multiset(repos)
    ensures var shown := FilterStarred(FilterByLanguage(sorted, selected), starredOnly);
      && Subseq(shown, sorted)
      && forall x :: multiset(shown)[x] == if Shown(x, selected, starredOnly) then multiset(repos)[x] else 0
  {
    var byLanguage := FilterByLanguage(sorted, selected);
    SubseqTrans(FilterStarred(byLanguage, starredOnly), byLanguage, sorted);
  }

  /** A subsequence of the sorted list keeps its name order. */
  lemma DisplayedInNameOrder(r: seq<Repo>, sorted: seq<Repo>, mode: int, cmp: (string, string) -> int)
    requires Subseq(r, sorted)
    requires mode == 1 ==> forall i, j :: 0 <= i < j < |sorted| ==> cmp(sorted[i].name, sorted[j].name) <= 0
    requires mode != 0 && mode != 1 ==>
      forall i, j :: 0 <= i < j < |sorted| ==> cmp(sorted[j].name, sorted[i].name) <= 0
    ensures mode == 1 ==> forall i, j :: 0 <= i < j < |r| ==> cmp(r[i].name, r[j].name) <= 0
    ensures mode != 0 && mode != 1 ==> forall i, j :: 0 <= i < j < |r| ==> cmp(r[j].name, r[i].name) <= 0
  {
    if mode == 1 {
      var le := AscendingByName(cmp);
      assert SortedBy(sorted, le);
      SubseqSorted(r, sorted, le);
      assert forall i, j :: 0 <= i < j < |r| ==> le(r[i], r[j]);
    } else if mode != 0 {
      var le := DescendingByName(cmp);
      assert SortedBy(sorted, le);
      SubseqSorted(r, sorted, le);
      assert forall i, j :: 0 <= i < j < |r| ==> le(r[i], r[j]);
    }
  }

  /** Two repositories, one in Go and one without a language: "Go" keeps
      the first alone and "No Language" the second alone. */
  lemma TwoRepositoriesFilters(s: seq<Repo>)
    requires |s| == 2 && s[0].language == Some("Go") && s[1].language == None
    ensures FilterByLanguage(s, "Go") == [s[0]]
    ensures FilterByLanguage(s, NoLanguage) == [s[1]]
  {
    KeptAlone(s, FilterByLanguage(s, "Go"), (x: Repo) => x.language == Some("Go"), 0);
    KeptAlone(s, FilterByLanguage(s, NoLanguage), (x: Repo) => !HasLanguage(x), 1);
  }

  /** A filter over two elements that keeps only the `k`th. */
  lemma KeptAlone<T>(s: seq<T>, r: seq<T>, p: T -> bool, k: nat)
    requires |s| == 2 && k < 2 && p(s[k]) && !p(s[1 - k])
    requires forall x :: multiset(r)[x] == if p(x) then multiset(s)[x] else 0
    ensures r == [s[k]]
  {
    var a, b := s[k], s[1 - k];
    assert a != b;
    assert multiset(s) == multiset{a, b} by {
      assert s == [s[0]] + [s[1]];
    }
    forall x
      ensures multiset(r)[x] == multiset{a}[x]
    {
      if x == a {
        assert multiset(s)[x] == 1;
      } else if x == b {
        assert !p(x);
      } else {
        assert multiset(s)[x] == 0;
      }
    }
    assert multiset(r) == multiset{a};
    SingletonByCounts(r, a);
  }

  lemma SingletonByCounts<T>(r: seq<T>, a: T)
    requires multiset(r) == multiset{a}
    ensures r == [a]
  {
    assert |r| == |multiset(r)| == 1;
    assert r[0] in multiset(r);
  }

  /** Some record of `s` has language `l`. */
  ghost predicate Occurs(s: seq<Repo>, l: string) {
    exists i :: 0 <= i < |s| && s[i].language == Some(l)
  }

  /** The `reduce` of the sync effect: each non-empty language the first
      time it is seen, walking the list from the front. */
  function Languages(s: seq<Repo>): (r: seq<string>)
    ensures forall i, j :: 0 <= i < j < |r| ==> r[i] != r[j]
    ensures forall l :: l in r <==> l != "" && Occurs(s, l)
    decreases |s|
  {
    if s == [] then []
    else
      var prefix := s[..|s| - 1];
      var last := s[|s| - 1];
      var prev := Languages(prefix);
      assert forall l :: Occurs(s, l) <==> Occurs(prefix, l) || last.language == Some(l) by {
        forall l ensures Occurs(s, l) <==> Occurs(prefix, l) || last.language == Some(l) {
          if Occurs(s, l) && last.language != Some(l) {
            var i :| 0 <= i < |s| && s[i].language == Some(l);
            assert prefix[i] == s[i];
          }
          if Occurs(prefix, l) {
            var i :| 0 <= i < |prefix| && prefix[i].language == Some(l);
            assert s[i] == prefix[i];
          }
        }
      }
      if HasLanguage(last) && last.language.value !in prev then prev + [last.language.value]
      else prev
  }

  /** `l1` shows up in `s` before `l2` does. */
  ghost predicate SeenBefore(s: seq<Repo>, l1: string, l2: string) {
    exists i :: 0 <= i < |s| && s[i].language == Some(l1) &&
      forall j :: 0 <= j <= i ==> s[j].language != Some(l2)
  }

  /** The facets are in order of first appearance. */
  lemma {:induction false} LanguagesInFirstSeenOrder(s: seq<Repo>)
    ensures forall a, b :: 0 <= a < b < |Languages(s)| ==> SeenBefore(s, Languages(s)[a], Languages(s)[b])
    decreases |s|
  {
    if s != [] {
      var prefix := s[..|s| - 1];
      var r, prev := Languages(s), Languages(prefix);
      LanguagesInFirstSeenOrder(prefix);
      forall a, b | 0 <= a < b < |r|
        ensures SeenBefore(s, r[a], r[b])
      {
        assert r[a] == prev[a];
        if b < |prev| {
          assert r[b] == prev[b];
          assert SeenBefore(prefix, prev[a], prev[b]);
          var i :| 0 <= i < |prefix| && prefix[i].language == Some(prev[a]) &&
            forall j :: 0 <= j <= i ==> prefix[j].language != Some(prev[b]);
          assert s[i] == prefix[i];
          assert forall j :: 0 <= j <= i ==> s[j] == prefix[j];
        } else {
          // r[b] is the language of the last record, absent from the prefix.
          assert r[b] !in prev;
          assert !Occurs(prefix, r[b]);
          assert prev[a] in prev;
          var i :| 0 <= i < |prefix| && prefix[i].language == Some(prev[a]);
          assert s[i] == prefix[i];
          assert forall j :: 0 <= j <= i ==> s[j] == prefix[j];
        }
      }
    }
  }

  /** Every record falls under exactly one filter option: "No Language" or
      the facet of its own language (for a facet other than "null"). */
  lemma FacetsCoverRecords(s: seq<Repo>, i: nat)
    requires i < |s|
    ensures !HasLanguage(s[i]) ==> s[i] in FilterByLanguage(s, NoLanguage)
    ensures HasLanguage(s[i]) ==>
      s[i].language.value in Languages(s) &&
      (s[i].language.value != NoLanguage ==>
        s[i] in FilterByLanguage(s, s[i].language.value) && s[i] !in FilterByLanguage(s, NoLanguage))
  {
    assert s[i] in multiset(s);
    if HasLanguage(s[i]) {
      assert Occurs(s, s[i].language.value);
    }
  }

  /** The facet "null" cannot be told apart from the "No Language" option:
      choosing it shows the records without a language, not those whose
      language is "null". */
  lemma NullFacetSelectsNoLanguage()
    ensures var r := Repo("a", None, 1, 0, "u", false, Some("null"));
      && Languages([r]) == ["null"]
      && FilterByLanguage([r], "null") == []
  {
    var r := Repo("a", None, 1, 0, "u", false, Some("null"));
    assert multiset(FilterByLanguage([r], "null"))[r] == 0;
    assert Occurs([r], "null");
    assert Languages([r])[0] == "null";
  }
}
