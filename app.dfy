/** The `App` component's state and its handlers. React's setters become
    field updates; the sync effect runs right after every replacement of
    `repos`; the browser storage entry is the field `storage`. */
module App {
  import opened Repos
  import opened Seqs
  import Star
  import View

  const FetchFailedMessage := "Failed to get Repositories. Try reloading the page."

  class ViewState {
    var repos: seq<Repo>
    var error: string
    var loading: bool
    var starredOnly: bool
    /** 0 = no sort, 1 = ascending, 2 = descending. */
    var sortByName: int
    var languages: seq<string>
    var selectedLanguage: string
    var storage: Storage

    /** The mode is one of the three, and once there are records the sync
        effect has stored their starred ids and computed their facets. */
    ghost predicate Valid()
      reads this
    {
      && 0 <= sortByName <= 2
      && (repos != [] ==> storage == Stored(Star.StarredIds(repos)) && languages == View.Languages(repos))
    }

    /** The initial state, with whatever storage holds from earlier visits. */
    constructor (stored: Storage)
      ensures Valid()
      ensures repos == [] && error == "" && !loading && !starredOnly && sortByName == 0
      ensures languages == [] && selectedLanguage == "" && storage == stored
    {
      repos := [];
      error := "";
      loading := false;
      starredOnly := false;
      sortByName := 0;
      languages := [];
      selectedLanguage := "";
      storage := stored;
    }

    /** The effect on `repos`: only when there are records, write their
        starred ids to storage and recompute the language facets. */
    method SyncStorage()
      modifies this`storage, this`languages
      ensures repos != [] ==> storage == Stored(Star.StarredIds(repos)) && languages == View.Languages(repos)
      ensures repos == [] ==> storage == old(storage) && languages == old(languages)
    {
      if |repos| != 0 {
        storage := Stored(Star.StarredIds(repos));
        languages := View.Languages(repos);
      }
    }

    /** `init`: load the records; `response` is None when the request, its
        status or its body fails. Any failure, including a corrupt storage
        entry, only sets the error message. */
    method Init(response: Option<seq<Item>>)
      requires Valid()
      modifies this`loading, this`error, this`repos, this`storage, this`languages
      ensures Valid() && !loading
      ensures Star.GetRepos(response, old(storage)).None? ==>
        error == FetchFailedMessage && repos == old(repos) &&
        storage == old(storage) && languages == old(languages)
      ensures Star.GetRepos(response, old(storage)).Some? ==>
        error == old(error) && repos == Star.GetRepos(response, old(storage)).value &&
        (repos == [] ==> storage == old(storage) && languages == old(languages))
    {
      loading := true;
      var loaded := Star.GetRepos(response, storage);
      match loaded {
        case None =>
          error := FetchFailedMessage;
        case Some(items) =>
          repos := items;
          SyncStorage();
      }
      loading := false;
    }

    /** `starRepo`, followed by the sync effect. */
    method StarRepo(id: int)
      requires Valid()
      modifies this`repos, this`storage, this`languages
      ensures Valid()
      ensures repos == Star.ToggleStar(old(repos), id)
      ensures repos == [] ==> storage == old(storage) && languages == old(languages)
    {
      repos := Star.ToggleStar(repos, id);
      SyncStorage();
    }

    /** `toggleStarredOnly`. */
    method ToggleStarredOnly()
      requires Valid()
      modifies this`starredOnly
      ensures Valid() && starredOnly == !old(starredOnly)
    {
      starredOnly := !starredOnly;
    }

    /** `handleSelectLanguage`: the value of the chosen option. */
    method SelectLanguage(value: string)
      requires Valid()
      modifies this`selectedLanguage
      ensures Valid() && selectedLanguage == value
    {
      selectedLanguage := value;
    }

    /** `handleSortByName`. */
    method CycleSort()
      requires Valid()
      modifies this`sortByName
      ensures Valid() && sortByName == View.NextSortMode(old(sortByName))
    {
      sortByName := View.NextSortMode(sortByName);
    }

    /** `displayedRepos` for the current state: the records passing the
        current filters, in raw order when unsorted and in name order when
        sorted. */
    function DisplayedRepos(cmp: (string, string) -> int): (r: seq<Repo>)
      reads this
      requires View.Comparator(cmp)
      ensures forall x ::
        multiset(r)[x] == if View.Shown(x, selectedLanguage, starredOnly) then multiset(repos)[x] else 0
      ensures sortByName == 0 ==> Subseq(r, repos)
      ensures sortByName == 1 ==> forall i, j :: 0 <= i < j < |r| ==> cmp(r[i].name, r[j].name) <= 0
      ensures sortByName != 0 && sortByName != 1 ==>
        forall i, j :: 0 <= i < j < |r| ==> cmp(r[j].name, r[i].name) <= 0
    {
      View.Displayed(repos, sortByName, selectedLanguage, starredOnly, cmp)
    }
  }

  /** Two repositories, one in Go and one without a language, loaded with
      nothing in storage: starring the second one raises its count from 5 to
      6 and stores its id alone. */
  method TwoRepositoriesScenario(go: Item, plain: Item)
    requires go.id == 1 && go.language == Some("Go")
    requires plain.id == 2 && plain.language == None && plain.stargazersCount == 5
  {
    var app := new ViewState(Missing);
    app.Init(Some([go, plain]));
    assert app.repos == [Star.ToRepo(go, false), Star.ToRepo(plain, false)];
    assert "Go" in app.languages by {
      assert app.repos[0].language == Some("Go");
    }
    app.StarRepo(2);
    assert app.repos[1].stars == 6 && app.repos[1].starred;
    assert app.storage.Stored? && 2 in app.storage.ids && 1 !in app.storage.ids;
  }
}
