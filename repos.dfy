/** The records the app works with. */
module Repos {

  datatype Option<+T> = None | Some(value: T)

  /** One item of a repository-search response, restricted to the fields the
      app reads (`stargazers_count` and `html_url` under their own names). */
  datatype Item = Item(
    name: string,
    description: Option<string>,
    id: int,
    stargazersCount: int,
    htmlUrl: string,
    language: Option<string>)

  /** The app's record of one repository. */
  datatype Repo = Repo(
    name: string,
    description: Option<string>,
    id: int,
    stars: int,
    url: string,
    starred: bool,
    language: Option<string>)

  /** What browser storage holds under the starred-repositories key: nothing,
      a JSON array of ids, or text that `JSON.parse` rejects. */
  datatype Storage = Missing | Stored(ids: seq<int>) | Corrupt

  /** JavaScript truthiness of a language value: neither absent nor "". */
  predicate HasLanguage(r: Repo) {
    r.language.Some? && r.language.value != ""
  }

  /** The ids of `s`, position by position. */
  function IdsOf(s: seq<Repo>): (r: seq<int>)
    ensures |r| == |s|
    ensures forall i :: 0 <= i < |s| ==> r[i] == s[i].id
  {
    seq(|s|, i requires 0 <= i < |s| => s[i].id)
  }

  /** No two records share an id (the search API's ids are unique). */
  ghost predicate UniqueIds(s: seq<Repo>) {
    forall i, j :: 0 <= i < |s| && 0 <= j < |s| && s[i].id == s[j].id ==> i == j
  }
}
