/** The blog's post catalog (`BlogManager` in js/posts.js): construction sorts
    the shared post array newest first and flags the first post as featured;
    the queries then select posts and tags from the sorted catalog. */
module Posts {
  import opened Wrappers
  import opened Seqs
  import opened StableSort

  /** A post record. `date` and `timestamp` stand for the instants their
      strings parse to; `timestamp` is absent when the record has none. */
  datatype Post = Post(id: string, title: string, date: int, timestamp: Option<int>,
                       tags: seq<string>, featured: bool)

  /** `new Date(post.timestamp || post.date)`: the sort key. */
  function NewestKey(p: Post): (k: int)
    ensures p.timestamp.Some? ==> k == p.timestamp.value
    ensures p.timestamp.None? ==> k == p.date
  {
    match p.timestamp
    case Some(t) => t
    case None => p.date
  }

  /** A post with its derived flag cleared: all that construction must not change. */
  function Unflagged(p: Post): Post {
    p.(featured := false)
  }

  /** `posts.forEach((post, index) => post.featured = index === 0)`. */
  function MarkFeatured(s: seq<Post>): (r: seq<Post>)
    ensures |r| == |s|
    ensures forall i :: 0 <= i < |s| ==> Unflagged(r[i]) == Unflagged(s[i]) && (r[i].featured <==> i == 0)
  {
    seq(|s|, i requires 0 <= i < |s| => s[i].(featured := i == 0))
  }

  /** The catalog that construction leaves behind. */
  function Catalog(s: seq<Post>): (r: seq<Post>)
    ensures |r| == |s|
  {
    MarkFeatured(Sort(s, NewestKey))
  }

  /** The flagging loop of the constructor, in place. */
  method StampFeatured(a: array<Post>)
    modifies a
    ensures a[..] == MarkFeatured(old(a[..]))
  {
    for i := 0 to a.Length
      invariant forall k :: 0 <= k < i ==> a[k] == old(a[k]).(featured := k == 0)
      invariant forall k :: i <= k < a.Length ==> a[k] == old(a[k])
    {
      a[i] := a[i].(featured := i == 0);
    }
  }

  class BlogManager {
    /** The post array; it is the shared one the constructor was given. */
    var posts: array<Post>

    /** Sorts the shared array in place, newest first, then flags its first post. */
    constructor (shared: array<Post>)
      modifies shared
      ensures posts == shared
      ensures posts[..] == Catalog(old(shared[..]))
    {
      posts := shared;
      new;
      InsertionSort(shared, NewestKey);
      StampFeatured(shared);
    }
  }

  /** Up to the featured flag, the catalog is the stable newest-first sort of
      the input: a permutation of it, newest first, equal keys in input order. */
  lemma CatalogIsStableSort(s: seq<Post>)
    ensures Map(Catalog(s), Unflagged) == Sort(Map(s, Unflagged), NewestKey)
    ensures SortedDesc(Catalog(s), NewestKey)
    ensures multiset(Map(Catalog(s), Unflagged)) == multiset(Map(s, Unflagged))
    ensures forall k :: WithKey(Map(Catalog(s), Unflagged), NewestKey, k)
                     == WithKey(Map(s, Unflagged), NewestKey, k)
  {
    var sorted := Sort(s, NewestKey);
    SortMap(s, NewestKey, Unflagged);
    assert Map(Catalog(s), Unflagged) == Map(sorted, Unflagged);
    SortIsSorted(s, NewestKey);
    SortIsPermutation(Map(s, Unflagged), NewestKey);
    forall k ensures WithKey(Map(Catalog(s), Unflagged), NewestKey, k)
                  == WithKey(Map(s, Unflagged), NewestKey, k)
    {
      SortIsStable(Map(s, Unflagged), NewestKey, k);
    }
  }

  /** Exactly the first post is featured: a non-empty catalog has one
      featured post and an empty catalog has none. */
  lemma CatalogFeatured(s: seq<Post>)
    ensures |Catalog(s)| == |s|
    ensures forall i :: 0 <= i < |s| ==> (Catalog(s)[i].featured <==> i == 0)
    ensures |Filter(Catalog(s), (p: Post) => p.featured)| == if s == [] then 0 else 1
  {
    if s != [] {
      var c := Catalog(s);
      assert c == [c[0]] + c[1..];
      FilterAppend([c[0]], c[1..], (p: Post) => p.featured);
      FilterEmpty(c[1..], (p: Post) => p.featured);
    }
  }

  /** The featured post is the newest of all the input posts. */
  lemma FeaturedIsNewest(s: seq<Post>)
    ensures forall i :: 0 <= i < |s| ==> NewestKey(s[i]) <= NewestKey(Catalog(s)[0])
  {
    var sorted := Sort(s, NewestKey);
    SortIsSorted(s, NewestKey);
    SortIsPermutation(s, NewestKey);
    forall i | 0 <= i < |s| ensures NewestKey(s[i]) <= NewestKey(sorted[0]) {
      assert s[i] in multiset(sorted);
      var j :| 0 <= j < |sorted| && sorted[j] == s[i];
    }
  }

  /** Constructing again over the same shared array changes nothing. */
  lemma CatalogIdempotent(s: seq<Post>)
    ensures Catalog(Catalog(s)) == Catalog(s)
  {
    var c := Catalog(s);
    CatalogIsStableSort(s);
    SortOfSorted(c, NewestKey);
  }

  /** The number of posts in the sidebar's recent list. */
  const RecentCount := 5

  /** `posts.slice(0, 5)`: the first five posts, in catalog order. */
  function RecentPosts(s: seq<Post>): (r: seq<Post>)
    ensures r <= s
    ensures |r| == if |s| < RecentCount then |s| else RecentCount
  {
    SliceTo(s, RecentCount)
  }

  /** `posts.flatMap(post => post.tags)`. */
  function AllTags(s: seq<Post>): (r: seq<string>)
    ensures forall i, t :: 0 <= i < |s| && t in s[i].tags ==> t in r
  {
    if s == [] then [] else s[0].tags + AllTags(s[1..])
  }

  lemma {:induction false} AllTagsMembers(s: seq<Post>)
    ensures forall t :: t in AllTags(s) <==> exists i :: 0 <= i < |s| && t in s[i].tags
  {
    if s != [] {
      AllTagsMembers(s[1..]);
      forall t | t in AllTags(s[1..]) ensures exists i :: 0 <= i < |s| && t in s[i].tags {
        var i :| 0 <= i < |s[1..]| && t in s[1..][i].tags;
        assert t in s[i + 1].tags;
      }
    }
  }

  /** `[...new Set(allTags)]`: the tag cloud. */
  function UniqueTags(s: seq<Post>): (r: seq<string>)
    ensures |r| <= |AllTags(s)|
  {
    Dedup(AllTags(s))
  }

  /** The tag cloud lists each tag of each post once, nothing else, in the
      order the tags first occur going through the posts and their tag lists. */
  lemma UniqueTagsSpec(s: seq<Post>)
    ensures NoDuplicates(UniqueTags(s))
    ensures forall t :: t in UniqueTags(s) <==> t in AllTags(s)
    ensures forall t :: t in UniqueTags(s) <==> exists i :: 0 <= i < |s| && t in s[i].tags
    ensures forall i, j :: 0 <= i < j < |UniqueTags(s)| ==>
              FirstIndex(AllTags(s), UniqueTags(s)[i]) < FirstIndex(AllTags(s), UniqueTags(s)[j])
  {
    DedupSpec(AllTags(s));
    AllTagsMembers(s);
  }

  /** `posts.filter(post => post.tags.includes(tag))`. */
  function ByTag(s: seq<Post>, tag: string): (r: seq<Post>)
    ensures |r| <= |s|
  {
    Filter(s, (p: Post) => tag in p.tags)
  }

  /** The filter keeps exactly the posts carrying `tag`, each as often as in
      the catalog, in catalog order; nothing when no post carries it. */
  lemma ByTagSpec(s: seq<Post>, tag: string)
    ensures forall p :: p in ByTag(s, tag) <==> p in s && tag in p.tags
    ensures forall p :: multiset(ByTag(s, tag))[p] == if tag in p.tags then multiset(s)[p] else 0
    ensures IsSubsequence(ByTag(s, tag), s)
    ensures ByTag(s, tag) == [] <==> forall i :: 0 <= i < |s| ==> tag !in s[i].tags
  {
    var f := (p: Post) => tag in p.tags;
    FilterMembers(s, f);
    FilterMultiset(s, f);
    FilterIsSubsequence(s, f);
    FilterEmpty(s, f);
  }

  /** `posts.find(post => post.id === id)`: the first post with that id. */
  function GetPost(s: seq<Post>, id: string): (r: Option<Post>)
    ensures r.None? <==> forall i :: 0 <= i < |s| ==> s[i].id != id
    ensures r.Some? ==> r.value.id == id && r.value in s
  {
    if s == [] then None
    else if s[0].id == id then Some(s[0])
    else GetPost(s[1..], id)
  }

  /** The post found is the first one with the id. */
  lemma {:induction false} GetPostFirst(s: seq<Post>, id: string, i: nat)
    requires i < |s| && s[i].id == id
    requires forall j :: 0 <= j < i ==> s[j].id != id
    ensures GetPost(s, id) == Some(s[i])
  {
    if s[0].id != id {
      GetPostFirst(s[1..], id, i - 1);
    }
  }

  /** The limit `getRelatedPosts` uses when the caller passes none. */
  const DefaultRelatedLimit := 3

  /** `{...post, relevance}`: a copy of a post with its relevance attached. */
  datatype Related = Related(post: Post, relevance: nat)

  /** How many of `p`'s tags, repeats included, occur among `current`'s tags. */
  function Relevance(p: Post, current: Post): (n: nat)
    ensures n <= |p.tags|
  {
    |Filter(p.tags, (t: string) => t in current.tags)|
  }

  function Score(p: Post, current: Post): Related {
    Related(p, Relevance(p, current))
  }

  function RelevanceKey(r: Related): int {
    r.relevance
  }

  function PostOf(r: Related): Post {
    r.post
  }

  /** The filter, map and filter steps: the other posts, scored against
      `current`, those scoring above zero, in catalog order. */
  function Candidates(s: seq<Post>, current: Post, id: string): (r: seq<Related>)
    ensures |r| <= |s|
  {
    Filter(Map(Filter(s, (p: Post) => p.id != id), (p: Post) => Score(p, current)),
           (r: Related) => r.relevance > 0)
  }

  /** `getRelatedPosts(id, limit)`: the candidates stably sorted by relevance,
      highest first, then `slice(0, limit)`; nothing for an unknown id. */
  function RelatedPosts(s: seq<Post>, id: string, limit: Option<int>): (r: seq<Related>)
    ensures GetPost(s, id).Some? ==> |r| <= |Candidates(s, GetPost(s, id).value, id)|
  {
    match GetPost(s, id)
    case None => []
    case Some(current) =>
      SliceTo(Sort(Candidates(s, current, id), RelevanceKey), limit.GetOr(DefaultRelatedLimit))
  }

  /** A post scores at most its number of tags, and above zero exactly when
      one of its tags is one of `current`'s. */
  lemma RelevanceSpec(p: Post, current: Post)
    ensures Relevance(p, current) <= |p.tags|
    ensures Relevance(p, current) > 0 <==> exists i :: 0 <= i < |p.tags| && p.tags[i] in current.tags
  {
    FilterEmpty(p.tags, (t: string) => t in current.tags);
  }

  /** The candidates are exactly the scored posts other than `id` that share a
      tag with `current`, in catalog order. */
  lemma CandidatesSpec(s: seq<Post>, current: Post, id: string)
    ensures forall r :: r in Candidates(s, current, id) <==>
              r.post in s && r.post.id != id && r.relevance == Relevance(r.post, current) && r.relevance > 0
    ensures IsSubsequence(Map(Candidates(s, current, id), PostOf), s)
  {
    var notSelf := (p: Post) => p.id != id;
    var scoring := (p: Post) => Score(p, current);
    var relevant := (r: Related) => r.relevance > 0;
    var others := Filter(s, notSelf);
    var scored := Map(others, scoring);
    FilterMembers(s, notSelf);
    FilterMembers(scored, relevant);
    forall r ensures r in scored <==> r.post in others && r.relevance == Relevance(r.post, current) {
      if r.post in others && r.relevance == Relevance(r.post, current) {
        var i :| 0 <= i < |others| && others[i] == r.post;
        assert scored[i] == r;
      }
    }
    FilterIsSubsequence(s, notSelf);
    FilterIsSubsequence(scored, relevant);
    SubsequenceMap(Candidates(s, current, id), scored, PostOf);
    assert Map(scored, PostOf) == others;
    SubsequenceTransitive(Map(Candidates(s, current, id), PostOf), others, s);
  }

  /** Each post other than `id` that shares a tag with `current` is a
      candidate as often as it occurs in the catalog; no other post is. */
  lemma CandidatesMultiplicity(s: seq<Post>, current: Post, id: string)
    ensures forall p :: multiset(Map(Candidates(s, current, id), PostOf))[p] ==
              if p.id != id && Relevance(p, current) > 0 then multiset(s)[p] else 0
  {
    var notSelf := (p: Post) => p.id != id;
    FilterMultiset(s, notSelf);
    FilterMapMultiset(Filter(s, notSelf), (p: Post) => Score(p, current), (r: Related) => r.relevance > 0, PostOf);
  }

  /** An unknown id has no related posts, and there are never more than a
      non-negative limit (three when none is passed). */
  lemma RelatedPostsBounds(s: seq<Post>, id: string, limit: Option<int>)
    ensures (forall i :: 0 <= i < |s| ==> s[i].id != id) ==> RelatedPosts(s, id, limit) == []
    ensures limit.GetOr(DefaultRelatedLimit) >= 0 ==>
              |RelatedPosts(s, id, limit)| <= limit.GetOr(DefaultRelatedLimit)
  {
  }

  /** `slice(0, limit)` keeps as many of the ranked candidates as the limit
      allows: all of them when it does not cut, otherwise exactly `limit`
      (a negative limit drops that many from the end). */
  lemma RelatedPostsCount(s: seq<Post>, id: string, limit: Option<int>)
    requires GetPost(s, id).Some?
    ensures var n, c := limit.GetOr(DefaultRelatedLimit), |Candidates(s, GetPost(s, id).value, id)|;
            |RelatedPosts(s, id, limit)| == if 0 <= n then (if n < c then n else c)
                                            else (if c + n < 0 then 0 else c + n)
  {
  }

  /** The limit cuts the least relevant candidates: none left out is more
      relevant than one kept. */
  lemma RelatedPostsMostRelevant(s: seq<Post>, id: string, limit: Option<int>)
    requires GetPost(s, id).Some?
    ensures var c, r := Candidates(s, GetPost(s, id).value, id), RelatedPosts(s, id, limit);
            forall x: Related, y: Related :: x in multiset(c) - multiset(r) && y in r ==> x.relevance <= y.relevance
  {
    var c := Candidates(s, GetPost(s, id).value, id);
    var r := RelatedPosts(s, id, limit);
    SortIsSorted(c, RelevanceKey);
    SortIsPermutation(c, RelevanceKey);
    SortedPrefixHoldsLargest(Sort(c, RelevanceKey), RelevanceKey, |r|);
  }

  /** Every related post is another post of the catalog that shares a tag
      with the current one, carrying its relevance; relevance never rises
      along the result. */
  lemma RelatedPostsMembers(s: seq<Post>, id: string, limit: Option<int>)
    ensures forall i :: 0 <= i < |RelatedPosts(s, id, limit)| ==>
              var r := RelatedPosts(s, id, limit)[i];
              r.post in s && r.post.id != id && r.relevance >= 1 &&
              r.relevance == Relevance(r.post, GetPost(s, id).value)
    ensures forall i, j :: 0 <= i < j < |RelatedPosts(s, id, limit)| ==>
              RelatedPosts(s, id, limit)[i].relevance >= RelatedPosts(s, id, limit)[j].relevance
  {
    if GetPost(s, id).Some? {
      var current := GetPost(s, id).value;
      var r := RelatedPosts(s, id, limit);
      var c := Candidates(s, current, id);
      var sorted := Sort(c, RelevanceKey);
      assert r <= sorted;
      CandidatesSpec(s, current, id);
      SortIsPermutation(c, RelevanceKey);
      SortIsSorted(c, RelevanceKey);
      forall i | 0 <= i < |r| ensures r[i] in c {
        assert r[i] == sorted[i];
        assert sorted[i] in multiset(c);
      }
    }
  }

  /** Related posts of equal relevance come in catalog order, and when the
      limit cuts through them it keeps the earliest candidates. */
  lemma RelatedPostsStable(s: seq<Post>, id: string, limit: Option<int>, k: int)
    ensures IsSubsequence(Map(WithKey(RelatedPosts(s, id, limit), RelevanceKey, k), PostOf), s)
    ensures GetPost(s, id).Some? ==>
              WithKey(RelatedPosts(s, id, limit), RelevanceKey, k)
              <= WithKey(Candidates(s, GetPost(s, id).value, id), RelevanceKey, k)
  {
    var tied := WithKey(RelatedPosts(s, id, limit), RelevanceKey, k);
    if GetPost(s, id).None? {
      assert tied == [];
    } else {
      var c := Candidates(s, GetPost(s, id).value, id);
      SortedPrefixKeepsOrder(c, RelevanceKey, RelatedPosts(s, id, limit), k);
      SubsequenceMap(tied, c, PostOf);
      CandidatesSpec(s, GetPost(s, id).value, id);
      SubsequenceTransitive(Map(tied, PostOf), Map(c, PostOf), s);
    }
  }

  /** When the limit cuts nothing, every candidate is related. */
  lemma RelatedPostsComplete(s: seq<Post>, id: string, limit: Option<int>)
    requires GetPost(s, id).Some?
    requires limit.GetOr(DefaultRelatedLimit) >= |Candidates(s, GetPost(s, id).value, id)|
    ensures multiset(RelatedPosts(s, id, limit)) == multiset(Candidates(s, GetPost(s, id).value, id))
  {
    var c := Candidates(s, GetPost(s, id).value, id);
    var sorted := Sort(c, RelevanceKey);
    assert RelatedPosts(s, id, limit) == SliceTo(sorted, limit.GetOr(DefaultRelatedLimit));
    assert RelatedPosts(s, id, limit) == sorted;
    SortIsPermutation(c, RelevanceKey);
  }

  /** A worked example: of two posts, the newer is featured and first; both
      carry tag Y; the older one's only related post is the newer, scoring 1. */
  lemma TwoPostScenario()
    ensures var a := Post("a", "A", 20240101, None, ["X", "Y"], false);
            var b := Post("b", "B", 20240201, None, ["Y", "Z"], false);
            var c := Catalog([a, b]);
            c == [b.(featured := true), a] &&
            ByTag(c, "Y") == c &&
            RelatedPosts(c, "a", Some(5)) == [Related(b.(featured := true), 1)]
  {
    var a := Post("a", "A", 20240101, None, ["X", "Y"], false);
    var b := Post("b", "B", 20240201, None, ["Y", "Z"], false);
    assert [a, b][..1] == [a];
    assert Sort([a], NewestKey) == [a];
    assert Sort([a, b], NewestKey) == [b, a];
    var c := Catalog([a, b]);
    var fb := b.(featured := true);
    assert c == [fb, a];
    assert c[1..] == [a];
    assert "Y" in fb.tags && "Y" in a.tags by {
      assert fb.tags[0] == "Y" && a.tags[1] == "Y";
    }
    assert [a][1..] == [];
    assert ByTag([a], "Y") == [a];
    assert ByTag(c, "Y") == c;
    assert GetPost(c, "a") == Some(a);
    assert Relevance(fb, a) == 1 by {
      assert fb.tags[1..] == ["Z"];
    }
    var others := Filter(c, (p: Post) => p.id != "a");
    assert Filter([a], (p: Post) => p.id != "a") == [];
    assert others == [fb];
    var cand := Candidates(c, a, "a");
    assert cand == [Related(fb, 1)];
    assert Sort(cand, RelevanceKey) == cand;
  }
}
