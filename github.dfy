/** `getGitHubRepos`: the repositories shown on the projects page. The HTTP
    request is an input: the outcome of `fetch` together with the decoded
    body. What the module models is what happens to that outcome. */
module GitHub {
  import opened Wrappers
  import opened Strings
  import opened Seqs
  import Sorting

  /** `GitHubRepo`. The API sends `null` for a missing description, homepage
      or language. */
  datatype GitHubRepo = GitHubRepo(
    id: int,
    name: string,
    fullName: string,
    description: Option<string>,
    htmlUrl: string,
    homepage: Option<string>,
    language: Option<string>,
    stargazersCount: int,
    forksCount: int,
    topics: seq<string>,
    createdAt: string,
    updatedAt: string,
    pushedAt: string)

  /** A response that arrived: its `ok` flag and its body decoded as a list
      of repositories, `None` when `response.json()` throws or the body is
      not such a list. */
  datatype Response = Response(ok: bool, body: Option<seq<GitHubRepo>>)

  /** `fetch` itself threw (network failure, bad URL, aborted request). */
  datatype FetchError = FetchFailed

  /** The most repositories returned (`slice(0, 200)`; the comment beside
      it speaks of the top 12, the code keeps 200). */
  const MaxRepos: nat := 200

  /** `!repo.name.startsWith('.') && repo.description` */
  predicate Listable(repo: GitHubRepo) {
    !StartsWith(repo.name, ".") && Truthy(repo.description)
  }

  /** The order of `(a, b) => b.stargazers_count - a.stargazers_count`:
      `a` may stand before `b` when it has at least as many stars. */
  predicate MoreStarred(a: GitHubRepo, b: GitHubRepo) {
    a.stargazersCount >= b.stargazersCount
  }

  /** Did the request produce a list to work on? Any other outcome is
      caught and turned into the empty list. */
  predicate Delivered(outcome: Result<Response, FetchError>) {
    outcome.Success? && outcome.value.ok && outcome.value.body.Some?
  }

  /** `shown` is the first part of `candidates` by stars: at most
      `MaxRepos` of them, most stars first, with no candidate left out while
      a less starred one is kept. */
  ghost predicate TopOf(candidates: seq<GitHubRepo>, shown: seq<GitHubRepo>) {
    && |shown| == Min(MaxRepos, |candidates|)
    && (forall i, j :: 0 <= i < j < |shown| ==> shown[i].stargazersCount >= shown[j].stargazersCount)
    && multiset(shown) <= multiset(candidates)
    && (forall x, y :: x in shown && y in multiset(candidates) - multiset(shown) ==>
          x.stargazersCount >= y.stargazersCount)
  }

  /** Repositories with equal stars keep the order they have among the
      candidates, and those shown are the first of them:
      `Array.prototype.sort` is stable, and this comparator is consistent. */
  ghost predicate TiesInFetchedOrder(candidates: seq<GitHubRepo>, shown: seq<GitHubRepo>) {
    forall c :: Sorting.Equivalents(shown, MoreStarred, c) <= Sorting.Equivalents(candidates, MoreStarred, c)
  }

  /** What the returned list is, given the decoded body: the top of the
      listable repositories, each of them listable. */
  ghost predicate TopListable(body: seq<GitHubRepo>, shown: seq<GitHubRepo>) {
    && TopOf(Filter(body, Listable), shown)
    && TiesInFetchedOrder(Filter(body, Listable), shown)
    && (forall r :: r in shown ==> Listable(r))
  }

  lemma MoreStarredIsTotalPreorder()
    ensures Sorting.TotalPreorder(MoreStarred)
  {
  }

  /** What is cut from a star-sorted list by keeping its first `n`
      elements has no more stars than anything kept. */
  lemma {:induction false} SortedCut(sorted: seq<GitHubRepo>, n: nat)
    requires n <= |sorted|
    requires Sorting.SortedBy(sorted, MoreStarred)
    ensures multiset(sorted) - multiset(sorted[..n]) == multiset(sorted[n..])
    ensures forall x, y :: x in sorted[..n] && y in multiset(sorted[n..]) ==>
      x.stargazersCount >= y.stargazersCount
  {
    assert sorted == sorted[..n] + sorted[n..];
    assert multiset(sorted) == multiset(sorted[..n]) + multiset(sorted[n..]);
    forall x, y | x in sorted[..n] && y in multiset(sorted[n..])
      ensures x.stargazersCount >= y.stargazersCount
    {
      var i :| 0 <= i < n && sorted[i] == x;
      var j :| n <= j < |sorted| && sorted[j] == y;
    }
  }

  /** Sorting the candidates and keeping the first `MaxRepos` of them
      gives their top. */
  lemma SortedPrefixIsTop(candidates: seq<GitHubRepo>, sorted: seq<GitHubRepo>)
    requires multiset(sorted) == multiset(candidates)
    requires Sorting.SortedBy(sorted, MoreStarred)
    ensures TopOf(candidates, sorted[..Min(MaxRepos, |sorted|)])
  {
    var n := Min(MaxRepos, |sorted|);
    assert |sorted| == |candidates| by {
      assert |multiset(sorted)| == |multiset(candidates)|;
    }
    SortedCut(sorted, n);
    PrefixIsSubMultiset(sorted, n);
    PrefixIsSorted(sorted, n);
  }

  lemma PrefixIsSubMultiset(s: seq<GitHubRepo>, n: nat)
    requires n <= |s|
    ensures multiset(s[..n]) <= multiset(s)
  {
    assert s == s[..n] + s[n..];
  }

  lemma PrefixIsSorted(sorted: seq<GitHubRepo>, n: nat)
    requires n <= |sorted|
    requires Sorting.SortedBy(sorted, MoreStarred)
    ensures forall i, j :: 0 <= i < j < n ==> sorted[..n][i].stargazersCount >= sorted[..n][j].stargazersCount
  {
    forall i, j | 0 <= i < j < n
      ensures sorted[..n][i].stargazersCount >= sorted[..n][j].stargazersCount
    {
      assert MoreStarred(sorted[i], sorted[j]);
    }
  }

  /** A prefix of a stable sort holds, of each class of ties, the first
      members in their original order. */
  lemma PrefixKeepsTies(candidates: seq<GitHubRepo>, sorted: seq<GitHubRepo>, n: nat)
    requires n <= |sorted|
    requires forall c :: Sorting.Equivalents(sorted, MoreStarred, c) == Sorting.Equivalents(candidates, MoreStarred, c)
    ensures TiesInFetchedOrder(candidates, sorted[..n])
  {
    assert sorted == sorted[..n] + sorted[n..];
    forall c ensures Sorting.Equivalents(sorted[..n], MoreStarred, c) <= Sorting.Equivalents(candidates, MoreStarred, c) {
      Sorting.EquivalentsAppend(sorted[..n], sorted[n..], MoreStarred, c);
    }
  }

  /** `getGitHubRepos`: never throws; anything but a delivered list
      yields the empty list. */
  method GetGitHubRepos(outcome: Result<Response, FetchError>) returns (repos: seq<GitHubRepo>)
    ensures !Delivered(outcome) ==> repos == []
    ensures Delivered(outcome) ==> TopListable(outcome.value.body.value, repos)
  {
    if !Delivered(outcome) {
      return [];
    }
    var body := outcome.value.body.value;
    var kept := Filter(body, Listable);
    var a := new GitHubRepo[|kept|](i requires 0 <= i < |kept| => kept[i]);
    assert a[..] == kept;
    MoreStarredIsTotalPreorder();
    Sorting.InsertionSort(a, MoreStarred);
    var sorted := a[..];
    SortedPrefixIsTop(kept, sorted);
    PrefixKeepsTies(kept, sorted, Min(MaxRepos, |sorted|));
    repos := sorted[..Min(MaxRepos, |sorted|)];
    forall r | r in repos ensures Listable(r) {
      assert multiset(repos)[r] > 0;
      assert multiset(kept)[r] > 0;
    }
  }

  /** Every shown repository is one of the fetched ones, and at most
      `MaxRepos` are shown. */
  lemma TopListableIsBoundedSelection(body: seq<GitHubRepo>, shown: seq<GitHubRepo>)
    requires TopListable(body, shown)
    ensures |shown| <= MaxRepos
    ensures forall r :: r in shown ==> r in body
    ensures multiset(shown) <= multiset(body)
  {
    var kept := Filter(body, Listable);
    forall r | r in shown ensures r in body {
      assert multiset(kept)[r] > 0;
    }
    forall r ensures multiset(kept)[r] <= multiset(body)[r] {
    }
  }

  /** Ties are not reordered, and none is skipped: of two equally starred
      listable repositories, the later one in the API's list is shown only
      when the earlier one is, and behind it. The API lists each repository
      once. */
  lemma TiedShownInFetchedOrder(body: seq<GitHubRepo>, shown: seq<GitHubRepo>, i: nat, j: nat)
    requires TopListable(body, shown)
    requires Distinct(body)
    requires i < j < |Filter(body, Listable)|
    requires Filter(body, Listable)[i].stargazersCount == Filter(body, Listable)[j].stargazersCount
    requires Filter(body, Listable)[j] in shown
    ensures exists p, q :: 0 <= p < q < |shown| && shown[p] == Filter(body, Listable)[i] && shown[q] == Filter(body, Listable)[j]
  {
    var kept := Filter(body, Listable);
    FilterDistinct(body, Listable);
    assert TiesInFetchedOrder(kept, shown);
    TiedKeptInOrder(kept, shown, i, j);
  }

  /** `TiedShownInFetchedOrder` for the listable candidates themselves. */
  lemma TiedKeptInOrder(kept: seq<GitHubRepo>, shown: seq<GitHubRepo>, i: nat, j: nat)
    requires Distinct(kept)
    requires TiesInFetchedOrder(kept, shown)
    requires i < j < |kept| && kept[i].stargazersCount == kept[j].stargazersCount
    requires kept[j] in shown
    ensures exists p, q :: 0 <= p < q < |shown| && shown[p] == kept[i] && shown[q] == kept[j]
  {
    var c := kept[i];
    assert Sorting.Equivalent(MoreStarred, c, kept[i]) && Sorting.Equivalent(MoreStarred, c, kept[j]);
    var e := Sorting.Equivalents(kept, MoreStarred, c);
    var sh := Sorting.Equivalents(shown, MoreStarred, c);
    assert sh <= e;
    var mi := Sorting.EquivalentsHas(kept, MoreStarred, c, i);
    var mj := Sorting.EquivalentsHas(kept, MoreStarred, c, j);
    assert mi < mj by {
      if mj < mi {
        var p, q := Sorting.EquivalentsInOrder(kept, MoreStarred, c, mj, mi);
      }
    }
    var q0 :| 0 <= q0 < |shown| && shown[q0] == kept[j];
    var ms := Sorting.EquivalentsHas(shown, MoreStarred, c, q0);
    OnePlaceInClass(kept, c, ms, mj);
    assert sh[mi] == kept[i] && sh[mj] == kept[j];
    var p, q := Sorting.EquivalentsInOrder(shown, MoreStarred, c, mi, mj);
    assert shown[p] == kept[i] && shown[q] == kept[j];
  }

  /** In a list without repeats, an element has one place in its class. */
  lemma OnePlaceInClass(kept: seq<GitHubRepo>, c: GitHubRepo, m1: nat, m2: nat)
    requires Distinct(kept)
    requires m1 < |Sorting.Equivalents(kept, MoreStarred, c)| && m2 < |Sorting.Equivalents(kept, MoreStarred, c)|
    requires Sorting.Equivalents(kept, MoreStarred, c)[m1] == Sorting.Equivalents(kept, MoreStarred, c)[m2]
    ensures m1 == m2
  {
    if m1 < m2 {
      var p, q := Sorting.EquivalentsInOrder(kept, MoreStarred, c, m1, m2);
    } else if m2 < m1 {
      var p, q := Sorting.EquivalentsInOrder(kept, MoreStarred, c, m2, m1);
    }
  }

  /** Ties are not reordered: when the API sends exactly two listable
      repositories with the same number of stars, they are shown in that
      order. */
  lemma TiesKeepFetchedOrder(a: GitHubRepo, b: GitHubRepo, shown: seq<GitHubRepo>)
    requires Listable(a) && Listable(b) && a != b
    requires a.stargazersCount == b.stargazersCount
    requires TopListable([a, b], shown)
    ensures shown == [a, b]
  {
    BothListableKept(a, b);
    TwoTiedKeepOrder(a, b, shown);
  }

  lemma BothListableKept(a: GitHubRepo, b: GitHubRepo)
    requires Listable(a) && Listable(b)
    ensures Filter([a, b], Listable) == [a, b]
  {
    assert [a, b][1..] == [b];
  }

  lemma TwoTiedKeepOrder(a: GitHubRepo, b: GitHubRepo, shown: seq<GitHubRepo>)
    requires a != b && a.stargazersCount == b.stargazersCount
    requires |shown| == 2 && multiset(shown) <= multiset([a, b])
    requires TiesInFetchedOrder([a, b], shown)
    ensures shown == [a, b]
  {
    assert Sorting.Equivalent(MoreStarred, a, a) && Sorting.Equivalent(MoreStarred, a, b);
    Sorting.AllTied([a, b], MoreStarred, a);
    forall k | 0 <= k < 2 ensures Sorting.Equivalent(MoreStarred, a, shown[k]) {
      assert shown[k] in multiset(shown);
      assert shown[k] == a || shown[k] == b;
    }
    Sorting.AllTied(shown, MoreStarred, a);
    assert shown <= [a, b];
  }
}
