/**
 The post listing of the blog's home page: the records it shows, the
 normalisation of a freshly fetched page of posts, the merge of that page into
 the listing with de-duplication by `uid` (first occurrence wins), and the
 component state that a "load more" click replaces.
 */
module Index {

  datatype Option<T> = None | Some(value: T)

  /** The `data` block of a listed post. */
  datatype PostData = PostData(title: string, subtitle: string, author: string)

  /** A post as the listing shows it; `uid` may be absent. */
  datatype Post = Post(uid: Option<string>, firstPublicationDate: Option<string>, data: PostData)

  /** The initial listing handed to the page: its posts and the cursor of the following page. */
  datatype PostPagination = PostPagination(nextPage: Option<string>, results: seq<Post>)

  /** A post as the content service returns it; it carries more than the listing keeps. */
  datatype RawPostData = RawPostData(title: string, subtitle: string, author: string)
  datatype RawPost = RawPost(
    id: string,
    uid: Option<string>,
    firstPublicationDate: Option<string>,
    lastPublicationDate: Option<string>,
    data: Option<RawPostData>)

  /** A decoded page response; `results` is absent when the body has no such field. */
  datatype RawPage = RawPage(nextPage: Option<string>, results: Option<seq<RawPost>>)

  /** How a call of `LoadPosts` ends. */
  datatype LoadOutcome =
    | Skipped      // no next page: returned before fetching
    | FetchFailed  // the request or the JSON decoding rejected
    | Malformed    // the response lacks `results` or a post lacks `data`
    | Loaded

  /** The guard `!nextPage`: the cursor is truthy, i.e. neither `undefined` nor
      the empty string, the two falsy values a `string | undefined` can hold. */
  function HasNextPage(cursor: Option<string>): (r: bool)
    ensures r <==> cursor != None && cursor != Some("")
  {
    cursor.Some? && cursor.value != ""
  }

  // ---------------------------------------------------------------------------
  // Normalisation

  /** Keeps the listing's fields of a raw post; fails where the source's
      `post.data.title` would throw. */
  function Normalise(raw: RawPost): (r: Option<Post>)
    ensures r.Some? <==> raw.data.Some?
    ensures r.Some? ==>
      r.value.uid == raw.uid &&
      r.value.firstPublicationDate == raw.firstPublicationDate &&
      r.value.data.title == raw.data.value.title &&
      r.value.data.subtitle == raw.data.value.subtitle &&
      r.value.data.author == raw.data.value.author
  {
    match raw.data
    case None => None
    case Some(d) => Some(Post(raw.uid, raw.firstPublicationDate, PostData(d.title, d.subtitle, d.author)))
  }

  /** The source's `results.map(...)`: one record per raw post, in order, or
      nothing when any raw post cannot be read. */
  function NormaliseAll(raws: seq<RawPost>): (r: Option<seq<Post>>)
    ensures r.Some? <==> forall i :: 0 <= i < |raws| ==> raws[i].data.Some?
    ensures r.Some? ==> |r.value| == |raws|
    ensures r.Some? ==> forall i :: 0 <= i < |raws| ==> Normalise(raws[i]) == Some(r.value[i])
  {
    if raws == [] then Some([])
    else
      match (Normalise(raws[0]), NormaliseAll(raws[1..]))
      case (Some(p), Some(ps)) => Some([p] + ps)
      case _ => None
  }

  /** A listed post seen as the raw document it came from (service-only fields blank). */
  function AsRaw(p: Post): RawPost
  {
    RawPost("", p.uid, p.firstPublicationDate, None, Some(RawPostData(p.data.title, p.data.subtitle, p.data.author)))
  }

  /** Normalisation loses nothing the listing keeps: it gives back every post it is fed. */
  lemma {:induction false} NormaliseKeepsPosts(ps: seq<Post>)
    ensures NormaliseAll(seq(|ps|, i requires 0 <= i < |ps| => AsRaw(ps[i]))) == Some(ps)
  {
    var raws := seq(|ps|, i requires 0 <= i < |ps| => AsRaw(ps[i]));
    var r := NormaliseAll(raws);
    assert r.Some?;
    assert forall i :: 0 <= i < |ps| ==> Some(r.value[i]) == Normalise(raws[i]) == Some(ps[i]);
    assert r.value == ps;
  }

  /** Normalising a concatenation normalises the parts. */
  lemma {:induction false} NormaliseAllAppend(xs: seq<RawPost>, ys: seq<RawPost>)
    ensures NormaliseAll(xs + ys).Some? <==> NormaliseAll(xs).Some? && NormaliseAll(ys).Some?
    ensures NormaliseAll(xs + ys).Some? ==>
      NormaliseAll(xs + ys).value == NormaliseAll(xs).value + NormaliseAll(ys).value
  {
    if xs == [] {
      assert xs + ys == ys;
    } else {
      assert (xs + ys)[1..] == xs[1..] + ys;
      NormaliseAllAppend(xs[1..], ys);
    }
  }

  // ---------------------------------------------------------------------------
  // De-duplication by uid

  /** `findIndex(elem => elem.uid === u)`: the first index holding `u`, or -1. */
  function FindIndex(s: seq<Post>, u: Option<string>): (r: int)
    ensures -1 <= r < |s|
    ensures r == -1 <==> forall j :: 0 <= j < |s| ==> s[j].uid != u
    ensures 0 <= r ==> s[r].uid == u && forall j :: 0 <= j < r ==> s[j].uid != u
  {
    if s == [] then -1
    else if s[0].uid == u then 0
    else
      var k := FindIndex(s[1..], u);
      if k == -1 then -1 else k + 1
  }

  /** Index `i` holds the first occurrence of its uid in `s`. */
  ghost predicate IsFirst(s: seq<Post>, i: int)
    requires 0 <= i < |s|
  {
    forall j :: 0 <= j < i ==> s[j].uid != s[i].uid
  }

  /** No two elements share a uid; two absent uids count as equal. */
  ghost predicate DistinctUids(s: seq<Post>)
  {
    forall i, j :: 0 <= i < j < |s| ==> s[i].uid != s[j].uid
  }

  /** The source's filter test `findIndex(...) === index` is exactly `IsFirst`. */
  lemma FindIndexIsFirst(s: seq<Post>, i: int)
    requires 0 <= i < |s|
    ensures FindIndex(s, s[i].uid) == i <==> IsFirst(s, i)
  {
  }

  /** The filter of the first `n` elements of `s`, each judged against the whole of `s`. */
  function FilterFirst(s: seq<Post>, n: nat): (r: seq<Post>)
    requires n <= |s|
    ensures |r| <= n
  {
    if n == 0 then []
    else FilterFirst(s, n - 1) + (if FindIndex(s, s[n - 1].uid) == n - 1 then [s[n - 1]] else [])
  }

  /** `s.filter((item, index) => s.findIndex(elem => elem.uid === item.uid) === index)`:
      `s` read at the first occurrences of its uids, in order. */
  function Dedup(s: seq<Post>): (r: seq<Post>)
    ensures |r| == |KeptIndices(s, |s|)|
    ensures forall k :: 0 <= k < |r| ==> r[k] == s[KeptIndices(s, |s|)[k]]
    ensures DistinctUids(r)
    ensures forall q :: q in r ==> q in s
    ensures forall p :: p in s ==> exists q :: q in r && q.uid == p.uid
  {
    FilterFirstSelects(s, |s|);
    FilterDistinct(s);
    FilterWithin(s);
    FilterKeepsEveryUid(s);
    FilterFirst(s, |s|)
  }

  /** `[...posts, ...newPosts]` de-duplicated: distinct uids, and distinct current
      posts stay in front while every new post repeating one of their uids is dropped. */
  function Merge(posts: seq<Post>, newPosts: seq<Post>): (r: seq<Post>)
    ensures DistinctUids(r)
    ensures forall q :: q in r ==> q in posts + newPosts
    ensures forall p :: p in posts + newPosts ==> exists q :: q in r && q.uid == p.uid
    ensures DistinctUids(posts) ==> |posts| <= |r| && r[..|posts|] == posts
    ensures DistinctUids(posts) ==> forall q, p :: q in r[|posts|..] && p in posts ==> q.uid != p.uid
  {
    DedupKeepsDistinctPrefix(posts, newPosts);
    Dedup(posts + newPosts)
  }

  /** The indices below `n` that the filter keeps, in increasing order. */
  ghost function KeptIndices(s: seq<Post>, n: nat): (ks: seq<int>)
    requires n <= |s|
    ensures forall k :: 0 <= k < |ks| ==> 0 <= ks[k] < n
    ensures forall k1, k2 :: 0 <= k1 < k2 < |ks| ==> ks[k1] < ks[k2]
    ensures forall i :: 0 <= i < n ==> (i in ks <==> IsFirst(s, i))
  {
    if n == 0 then []
    else
      var ks := KeptIndices(s, n - 1);
      FindIndexIsFirst(s, n - 1);
      ks + (if FindIndex(s, s[n - 1].uid) == n - 1 then [n - 1] else [])
  }

  /** The filtered prefix is `s` read at the kept indices: an order-preserving
      subsequence that keeps index `i` exactly when `i` is the first index of its uid. */
  lemma {:induction false} FilterFirstSelects(s: seq<Post>, n: nat)
    requires n <= |s|
    ensures |FilterFirst(s, n)| == |KeptIndices(s, n)|
    ensures forall k :: 0 <= k < |FilterFirst(s, n)| ==> FilterFirst(s, n)[k] == s[KeptIndices(s, n)[k]]
  {
    if n > 0 {
      FilterFirstSelects(s, n - 1);
    }
  }

  /** The result of the filter has no two elements with equal uid. */
  lemma FilterDistinct(s: seq<Post>)
    ensures DistinctUids(FilterFirst(s, |s|))
  {
    var r, ks := FilterFirst(s, |s|), KeptIndices(s, |s|);
    FilterFirstSelects(s, |s|);
    forall i, j | 0 <= i < j < |r| ensures r[i].uid != r[j].uid {
      assert ks[j] in ks;
      assert IsFirst(s, ks[j]);
      assert ks[i] < ks[j];
    }
  }

  /** Every uid of the input survives in the result (from its first occurrence). */
  lemma FilterKeepsEveryUid(s: seq<Post>)
    ensures forall i :: 0 <= i < |s| ==> s[FindIndex(s, s[i].uid)] in FilterFirst(s, |s|)
    ensures forall p :: p in s ==> exists q :: q in FilterFirst(s, |s|) && q.uid == p.uid
  {
    var r, ks := FilterFirst(s, |s|), KeptIndices(s, |s|);
    FilterFirstSelects(s, |s|);
    forall i | 0 <= i < |s| ensures s[FindIndex(s, s[i].uid)] in r {
      var f := FindIndex(s, s[i].uid);
      FindIndexIsFirst(s, f);
      assert f in ks;
      var k :| 0 <= k < |ks| && ks[k] == f;
      assert r[k] == s[f];
    }
    forall p | p in s ensures exists q :: q in r && q.uid == p.uid {
      var i :| 0 <= i < |s| && s[i] == p;
      assert s[FindIndex(s, s[i].uid)] in r;
    }
  }

  /** Only elements of the input appear in the result. */
  lemma FilterWithin(s: seq<Post>)
    ensures forall q :: q in FilterFirst(s, |s|) ==> q in s
  {
    FilterFirstSelects(s, |s|);
  }

  /** A prefix whose uids are already distinct passes the filter unchanged. */
  lemma {:induction false} DistinctPrefixKept(s: seq<Post>, n: nat)
    requires n <= |s|
    requires DistinctUids(s[..n])
    ensures FilterFirst(s, n) == s[..n]
  {
    if n > 0 {
      assert s[..n - 1] == s[..n][..n - 1];
      DistinctPrefixKept(s, n - 1);
      FindIndexIsFirst(s, n - 1);
      assert IsFirst(s, n - 1) by {
        forall j | 0 <= j < n - 1 ensures s[j].uid != s[n - 1].uid {
          assert s[..n][j] == s[j] && s[..n][n - 1] == s[n - 1];
        }
      }
      assert s[..n] == s[..n - 1] + [s[n - 1]];
    }
  }

  /** Filtering a longer prefix only appends to the result. */
  lemma {:induction false} FilterFirstExtends(s: seq<Post>, n: nat, m: nat)
    requires n <= m <= |s|
    ensures |FilterFirst(s, n)| <= |FilterFirst(s, m)|
    ensures FilterFirst(s, m)[..|FilterFirst(s, n)|] == FilterFirst(s, n)
  {
    if n < m {
      FilterFirstExtends(s, n, m - 1);
      var a, b := FilterFirst(s, n), FilterFirst(s, m - 1);
      assert FilterFirst(s, m)[..|b|] == b;
      assert b[..|a|] == a;
    }
  }

  /** Input whose uids are distinct is returned unchanged. */
  lemma DedupOfDistinct(s: seq<Post>)
    requires DistinctUids(s)
    ensures Dedup(s) == s
  {
    assert s[..|s|] == s;
    DistinctPrefixKept(s, |s|);
  }

  /** Applying the filter to its own output changes nothing. */
  lemma DedupIdempotent(s: seq<Post>)
    ensures Dedup(Dedup(s)) == Dedup(s)
  {
    DedupOfDistinct(Dedup(s));
  }

  /** Merging an empty page into a merged listing leaves it as it is. */
  lemma MergeEmptyIdempotent(posts: seq<Post>, newPosts: seq<Post>)
    ensures Merge(Merge(posts, newPosts), []) == Merge(posts, newPosts)
  {
    var m := Merge(posts, newPosts);
    assert m + [] == m;
    DedupIdempotent(posts + newPosts);
  }

  /** Distinct current posts stay, unchanged and in front, and no new post whose
      uid they already hold is added (first seen wins). */
  lemma DedupKeepsDistinctPrefix(posts: seq<Post>, newPosts: seq<Post>)
    ensures DistinctUids(posts) ==>
      |posts| <= |FilterFirst(posts + newPosts, |posts + newPosts|)| &&
      FilterFirst(posts + newPosts, |posts + newPosts|)[..|posts|] == posts
    ensures DistinctUids(posts) ==>
      forall q, p :: q in FilterFirst(posts + newPosts, |posts + newPosts|)[|posts|..] && p in posts ==> q.uid != p.uid
  {
    if !DistinctUids(posts) {
      return;
    }
    var s := posts + newPosts;
    var m := FilterFirst(s, |s|);
    assert s[..|posts|] == posts;
    DistinctPrefixKept(s, |posts|);
    FilterFirstExtends(s, |posts|, |s|);
    FilterDistinct(s);
    forall q, p | q in m[|posts|..] && p in posts ensures q.uid != p.uid {
      var k :| 0 <= k < |m| - |posts| && m[|posts|..][k] == q;
      var i :| 0 <= i < |posts| && posts[i] == p;
      assert m[i] == p;
    }
  }

  // ---------------------------------------------------------------------------
  // The home page component

  /** The listing component: the posts on screen and the cursor of the next page. */
  class Home {
    var posts: seq<Post>
    var nextPage: Option<string>

    /** `useState(postsPagination.results)` and `useState(postsPagination.next_page)`. */
    constructor (postsPagination: PostPagination)
      ensures posts == postsPagination.results && nextPage == postsPagination.nextPage
    {
      posts := postsPagination.results;
      nextPage := postsPagination.nextPage;
    }

    /** One "load more": `response` is what the request for the next page delivered
        (`None` when the request or its JSON decoding rejected). */
    method LoadPosts(response: Option<RawPage>) returns (outcome: LoadOutcome)
      modifies this
      ensures !HasNextPage(old(nextPage)) ==>
        outcome == Skipped && posts == old(posts) && nextPage == old(nextPage)
      ensures HasNextPage(old(nextPage)) && response.None? ==>
        outcome == FetchFailed && posts == old(posts) && nextPage == old(nextPage)
      ensures HasNextPage(old(nextPage)) && response.Some? ==>
        nextPage == response.value.nextPage
      ensures outcome == Malformed <==>
        HasNextPage(old(nextPage)) && response.Some? &&
        (response.value.results.None? || NormaliseAll(response.value.results.value).None?)
      ensures outcome == Malformed ==> posts == old(posts)
      ensures outcome == Loaded <==>
        HasNextPage(old(nextPage)) && response.Some? &&
        response.value.results.Some? && NormaliseAll(response.value.results.value).Some?
      ensures outcome == Loaded ==>
        posts == Merge(old(posts), NormaliseAll(response.value.results.value).value)
      ensures outcome == Loaded ==> DistinctUids(posts)
      ensures outcome == Loaded && DistinctUids(old(posts)) ==>
        |old(posts)| <= |posts| && posts[..|old(posts)|] == old(posts)
      ensures DistinctUids(old(posts)) ==> DistinctUids(posts)
    {
      if !HasNextPage(nextPage) {
        return Skipped;
      }
      if response.None? {
        return FetchFailed;
      }
      var page := response.value;
      nextPage := page.nextPage;
      if page.results.None? {
        return Malformed;
      }
      var newPosts := NormaliseAll(page.results.value);
      if newPosts.None? {
        return Malformed;
      }
      posts := Merge(posts, newPosts.value);
      outcome := Loaded;
    }
  }
}
