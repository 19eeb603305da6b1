/** Starring: the toggle handler, the list of starred ids that is written to
    storage, and the starred lookup made when the fetched items are mapped to
    records. */
module Star {
  import opened Repos
  import opened Seqs

  /** The record after a click on its star: the flag flips and the count
      follows it by one. */
  function Flip(r: Repo): Repo {
    r.(starred := !r.starred, stars := r.stars + (if r.starred then -1 else 1))
  }

  /** `starRepo`: every record with the given id is flipped, every other
      record is kept as it is, at its place. */
  function ToggleStar(s: seq<Repo>, id: int): (r: seq<Repo>)
    ensures |r| == |s|
    ensures forall i :: 0 <= i < |s| && s[i].id != id ==> r[i] == s[i]
    ensures forall i :: 0 <= i < |s| && s[i].id == id ==>
      && r[i].starred == !s[i].starred
      && r[i].stars == (if r[i].starred then s[i].stars + 1 else s[i].stars - 1)
      && r[i].(starred := s[i].starred, stars := s[i].stars) == s[i]
  {
    seq(|s|, i requires 0 <= i < |s| => if s[i].id == id then Flip(s[i]) else s[i])
  }

  /** Clicking the same star twice restores the list. */
  lemma ToggleStarTwice(s: seq<Repo>, id: int)
    ensures ToggleStar(ToggleStar(s, id), id) == s
  {
    var t := ToggleStar(ToggleStar(s, id), id);
    assert forall i :: 0 <= i < |s| ==> t[i] == s[i];
  }

  /** An id that is not in the list changes nothing. */
  lemma ToggleStarAbsent(s: seq<Repo>, id: int)
    requires id !in IdsOf(s)
    ensures ToggleStar(s, id) == s
  {
    assert forall i :: 0 <= i < |s| ==> IdsOf(s)[i] != id;
  }

  /** A record is consistent when its count includes the user's own star. */
  predicate CountIncludesStar(r: Repo) {
    r.stars >= (if r.starred then 1 else 0)
  }

  /** Toggling keeps every consistent record consistent; in particular a
      consistent count never becomes negative. */
  lemma ToggleStarKeepsCounts(s: seq<Repo>, id: int)
    requires forall i :: 0 <= i < |s| ==> CountIncludesStar(s[i])
    ensures forall i :: 0 <= i < |ToggleStar(s, id)| ==>
      CountIncludesStar(ToggleStar(s, id)[i]) && ToggleStar(s, id)[i].stars >= 0
  {
  }

  lemma {:induction false} IdsOfSubseq(a: seq<Repo>, b: seq<Repo>)
    requires Subseq(a, b)
    ensures Subseq(IdsOf(a), IdsOf(b))
    decreases |b|
  {
    if a == [] {
    } else if a[0] == b[0] && Subseq(a[1..], b[1..]) {
      IdsOfSubseq(a[1..], b[1..]);
      assert IdsOf(a)[1..] == IdsOf(a[1..]);
      assert IdsOf(b)[1..] == IdsOf(b[1..]);
    } else {
      IdsOfSubseq(a, b[1..]);
      assert IdsOf(b)[1..] == IdsOf(b[1..]);
    }
  }

  /** The `filter(starred).map(id)` of the sync effect: the ids of the
      starred records, in list order. */
  function StarredIds(s: seq<Repo>): (r: seq<int>)
    ensures Subseq(r, IdsOf(s))
    ensures forall x :: x in r <==> exists i :: 0 <= i < |s| && s[i].starred && s[i].id == x
  {
    var starred := Filter(s, (x: Repo) => x.starred);
    IdsOfSubseq(starred, s);
    assert forall x :: x in IdsOf(starred) ==> exists i :: 0 <= i < |s| && s[i].starred && s[i].id == x by {
      forall x | x in IdsOf(starred)
        ensures exists i :: 0 <= i < |s| && s[i].starred && s[i].id == x
      {
        var k :| 0 <= k < |starred| && IdsOf(starred)[k] == x;
        assert starred[k] in starred;
      }
    }
    assert forall i :: 0 <= i < |s| && s[i].starred ==> s[i].id in IdsOf(starred) by {
      forall i | 0 <= i < |s| && s[i].starred
        ensures s[i].id in IdsOf(starred)
      {
        assert s[i] in s;
        var k :| 0 <= k < |starred| && starred[k] == s[i];
        assert IdsOf(starred)[k] == s[i].id;
      }
    }
    IdsOf(starred)
  }

  /** The toggled record's id is persisted iff it was not starred before. */
  lemma ToggledIdPersisted(s: seq<Repo>, k: nat)
    requires UniqueIds(s) && k < |s|
    ensures s[k].id in StarredIds(ToggleStar(s, s[k].id)) <==> !s[k].starred
  {
    var t := ToggleStar(s, s[k].id);
    if !s[k].starred {
      assert t[k].starred && t[k].id == s[k].id;
    }
    if s[k].id in StarredIds(t) {
      var i :| 0 <= i < |t| && t[i].starred && t[i].id == s[k].id;
      assert s[i].id == s[k].id;
    }
  }

  /** An id other than `id` persisted from `s` is persisted from `t` too,
      when `t` keeps every record of `s` whose id is not `id`. */
  lemma StarredIdKept(s: seq<Repo>, t: seq<Repo>, id: int, x: int)
    requires |t| == |s| && x != id && x in StarredIds(s)
    requires forall i :: 0 <= i < |s| && s[i].id != id ==> t[i] == s[i]
    ensures x in StarredIds(t)
  {
    var i :| 0 <= i < |s| && s[i].starred && s[i].id == x;
    assert t[i] == s[i];
  }

  /** Two lists with the same ids that agree on every record without the
      given id persist the same other ids. */
  lemma StarredIdsAgree(s: seq<Repo>, t: seq<Repo>, id: int, x: int)
    requires |t| == |s| && x != id
    requires forall i :: 0 <= i < |s| ==> t[i].id == s[i].id
    requires forall i :: 0 <= i < |s| && s[i].id != id ==> t[i] == s[i]
    ensures x in StarredIds(t) <==> x in StarredIds(s)
  {
    if x in StarredIds(s) {
      StarredIdKept(s, t, id, x);
    }
    if x in StarredIds(t) {
      StarredIdKept(t, s, id, x);
    }
  }

  /** With unique ids, a toggle adds the id to, or removes it from, the
      persisted list and leaves every other id where it was. */
  lemma ToggleStarPersisted(s: seq<Repo>, k: nat)
    requires UniqueIds(s) && k < |s|
    ensures forall x :: x in StarredIds(ToggleStar(s, s[k].id)) <==>
      if x == s[k].id then !s[k].starred else x in StarredIds(s)
  {
    forall x
      ensures x in StarredIds(ToggleStar(s, s[k].id)) <==> if x == s[k].id then !s[k].starred else x in StarredIds(s)
    {
      if x == s[k].id {
        ToggledIdPersisted(s, k);
      } else {
        StarredIdsAgree(s, ToggleStar(s, s[k].id), s[k].id, x);
      }
    }
  }

  /** The first stored id equal to `id`, as `Array.prototype.find` returns it. */
  function Find(ids: seq<int>, id: int): (r: Option<int>)
    ensures r.Some? <==> id in ids
    ensures r.Some? ==> r.value == id
  {
    if ids == [] then None
    else if ids[0] == id then Some(ids[0])
    else
      assert ids == [ids[0]] + ids[1..];
      Find(ids[1..], id)
  }

  /** `isRepoStarred`: `!!find(...)` is the truthiness of the found id, so
      an id of 0 is never reported as starred. */
  function IsRepoStarred(ids: seq<int>, id: int): (b: bool)
    ensures b <==> id in ids && id != 0
  {
    match Find(ids, id)
    case None => false
    case Some(v) => v != 0
  }

  /** `JSON.parse(localStorage.getItem(key) || "[]")`: None when it throws. */
  function ReadStarredIds(st: Storage): Option<seq<int>> {
    match st
    case Missing => Some([])
    case Stored(ids) => Some(ids)
    case Corrupt => None
  }

  function ToRepo(item: Item, starred: bool): Repo {
    Repo(item.name, item.description, item.id, item.stargazersCount, item.htmlUrl, starred, item.language)
  }

  /** `getRepos` after the response: `response` is None when the request,
      its status or its body fails; each item becomes a record starred iff
      storage lists its id. Storage is parsed once per item, so a corrupt
      value fails the whole load unless there are no items. */
  function GetRepos(response: Option<seq<Item>>, st: Storage): (r: Option<seq<Repo>>)
    ensures r.Some? <==> response.Some? && (response.value == [] || !st.Corrupt?)
    ensures r.Some? ==> |r.value| == |response.value|
    ensures r.Some? ==> forall i :: 0 <= i < |r.value| ==>
      var item, rec := response.value[i], r.value[i];
      && rec.name == item.name && rec.description == item.description
      && rec.id == item.id && rec.stars == item.stargazersCount
      && rec.url == item.htmlUrl && rec.language == item.language
      && (rec.starred <==> st.Stored? && item.id in st.ids && item.id != 0)
  {
    match response
    case None => None
    case Some(items) =>
      if items == [] then Some([])
      else
        match ReadStarredIds(st)
        case None => None
        case Some(ids) =>
          Some(seq(|items|, i requires 0 <= i < |items| => ToRepo(items[i], IsRepoStarred(ids, items[i].id))))
  }

  /** Writing the starred ids and reading them back at the next load gives
      every record its flag again, provided ids are unique and non-zero. */
  lemma PersistedStarsRestored(s: seq<Repo>)
    requires UniqueIds(s)
    requires forall i :: 0 <= i < |s| ==> s[i].id != 0
    ensures forall i :: 0 <= i < |s| ==> IsRepoStarred(StarredIds(s), s[i].id) == s[i].starred
  {
    forall i | 0 <= i < |s|
      ensures IsRepoStarred(StarredIds(s), s[i].id) == s[i].starred
    {
      if s[i].id in StarredIds(s) {
        var j :| 0 <= j < |s| && s[j].starred && s[j].id == s[i].id;
        assert i == j;
      }
    }
  }

  /** Star counts can go negative: a record stored as starred is loaded
      with the raw count, here 0, and unstarring it gives -1. */
  lemma StoredStarCanGoNegative()
    ensures var loaded := GetRepos(Some([Item("r", None, 7, 0, "u", None)]), Stored([7]));
      && loaded.Some? && loaded.value[0].starred && loaded.value[0].stars == 0
      && ToggleStar(loaded.value, 7)[0].stars == -1
  {
    var loaded := GetRepos(Some([Item("r", None, 7, 0, "u", None)]), Stored([7]));
    assert 7 in [7];
    assert loaded.value[0].starred;
  }
}
