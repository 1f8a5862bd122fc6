/** The example application's post store: posts indexed by slug and kept
    in a list ordered newest first. */
module Sandbox {
  import opened Wrappers

  /** One loaded YAML document: the four keys a post reads, each possibly
      missing. */
  datatype PostData = PostData(slug: Option<string>, body: Option<string>, title: Option<string>, created: Option<int>)

  datatype Post = Post(slug: string, body: string, title: string, created: int)

  /** Why `add_posts` raised: a KeyError from `Post(data)`, or the
      RuntimeError "slugs must be unique". */
  datatype StoreError = MissingKey(key: string) | SlugsNotUnique

  /** `Post(data)`: reads `slug`, `body`, `title`, `created` in that order;
      the first missing one raises. */
  function MakePost(d: PostData): (r: Result<Post, string>)
    ensures r.Success? <==> d.slug.Some? && d.body.Some? && d.title.Some? && d.created.Some?
    ensures r.Success? ==> r.value == Post(d.slug.value, d.body.value, d.title.value, d.created.value)
    ensures r.Failure? ==>
              r.error == (if d.slug.None? then "slug" else if d.body.None? then "body"
                          else if d.title.None? then "title" else "created")
  {
    if d.slug.None? then Failure("slug")
    else if d.body.None? then Failure("body")
    else if d.title.None? then Failure("title")
    else if d.created.None? then Failure("created")
    else Success(Post(d.slug.value, d.body.value, d.title.value, d.created.value))
  }

  /** `[Post(post) for post in post_data]`: the first document that cannot
      be built raises. */
  function MakePosts(ds: seq<PostData>): (r: Result<seq<Post>, string>)
    ensures r.Success? <==> forall i :: 0 <= i < |ds| ==> MakePost(ds[i]).Success?
    ensures r.Success? ==> |r.value| == |ds| && forall i :: 0 <= i < |ds| ==> r.value[i] == MakePost(ds[i]).value
    ensures r.Failure? ==> exists i :: 0 <= i < |ds| && MakePost(ds[i]).Failure? && r.error == MakePost(ds[i]).error
                                       && forall j :: 0 <= j < i ==> MakePost(ds[j]).Success?
  {
    if ds == [] then Success([])
    else
      match MakePost(ds[0])
      case Failure(e) => Failure(e)
      case Success(p) =>
        match MakePosts(ds[1..])
        case Failure(e) =>
          assert forall j :: 1 <= j < |ds| ==> ds[j] == ds[1..][j - 1];
          Failure(e)
        case Success(ps) =>
          assert forall j :: 1 <= j < |ds| ==> ds[j] == ds[1..][j - 1];
          Success([p] + ps)
  }

  /* ---------- `by_slug`: registering a batch ---------- */

  /** The slug map after storing each post of `ps` in turn. */
  function Register(m: map<string, Post>, ps: seq<Post>): map<string, Post> {
    if ps == [] then m else Register(m, ps[..|ps| - 1])[ps[|ps| - 1].slug := ps[|ps| - 1]]
  }

  /** No post among the first `n` finds its slug already stored. */
  predicate NoClashBelow(m: map<string, Post>, ps: seq<Post>, n: nat) {
    forall i :: 0 <= i < n && i < |ps| ==> ps[i].slug !in Register(m, ps[..i])
  }

  /** The first post at or after `i` whose slug is already stored. */
  function ClashFrom(m: map<string, Post>, ps: seq<Post>, i: nat): (r: Option<nat>)
    ensures r.Some? ==> i <= r.value < |ps|
    decreases |ps| - i
  {
    if i >= |ps| then None
    else if ps[i].slug in Register(m, ps[..i]) then Some(i)
    else ClashFrom(m, ps, i + 1)
  }

  function FirstClash(m: map<string, Post>, ps: seq<Post>): (r: Option<nat>)
    ensures r.Some? ==> r.value < |ps|
  {
    ClashFrom(m, ps, 0)
  }

  /** One more post whose slug is free extends the clash-free prefix. */
  lemma NoClashStep(m: map<string, Post>, ps: seq<Post>, n: nat)
    requires NoClashBelow(m, ps, n) && n < |ps| && ps[n].slug !in Register(m, ps[..n])
    ensures NoClashBelow(m, ps, n + 1)
    ensures ClashFrom(m, ps, n) == ClashFrom(m, ps, n + 1)
  {
  }

  /** FirstClash finds the earliest post whose slug is taken, either in the
      map or earlier in the batch, and None means there is no such post. */
  lemma {:induction false} ClashFromSpec(m: map<string, Post>, ps: seq<Post>, i: nat)
    requires NoClashBelow(m, ps, i)
    ensures ClashFrom(m, ps, i).None? <==> NoClashBelow(m, ps, |ps|)
    ensures ClashFrom(m, ps, i).Some? ==>
              var j := ClashFrom(m, ps, i).value;
              j < |ps| && NoClashBelow(m, ps, j) && ps[j].slug in Register(m, ps[..j])
    decreases |ps| - i
  {
    if i < |ps| && ps[i].slug !in Register(m, ps[..i]) {
      NoClashStep(m, ps, i);
      ClashFromSpec(m, ps, i + 1);
    }
  }

  lemma FirstClashSpec(m: map<string, Post>, ps: seq<Post>)
    ensures FirstClash(m, ps).None? <==> NoClashBelow(m, ps, |ps|)
    ensures FirstClash(m, ps).Some? ==>
              var j := FirstClash(m, ps).value;
              j < |ps| && NoClashBelow(m, ps, j) && ps[j].slug in Register(m, ps[..j])
  {
    ClashFromSpec(m, ps, 0);
  }

  /** While no slug clashes, registering only adds: the old entries stay,
      and every registered post is found under its own slug. */
  lemma {:induction false} RegisterFresh(m: map<string, Post>, ps: seq<Post>, n: nat)
    requires n <= |ps| && NoClashBelow(m, ps, n)
    ensures var r := Register(m, ps[..n]);
      && (forall k :: k in m ==> k in r && r[k] == m[k])
      && (forall j :: 0 <= j < n ==> ps[j].slug in r && r[ps[j].slug] == ps[j])
  {
    if n > 0 {
      var pre, p := ps[..n - 1], ps[n - 1];
      RegisterFresh(m, ps, n - 1);
      var r0 := Register(m, pre);
      assert ps[..n][..n - 1] == pre && ps[..n][n - 1] == p;
      var r := Register(m, ps[..n]);
      assert r == r0[p.slug := p];
      assert p.slug !in r0;
      forall j | 0 <= j < n - 1
        ensures ps[j].slug in r && r[ps[j].slug] == ps[j]
      {
        assert ps[j].slug in r0;
      }
    }
  }

  /** Registering a batch stores exactly the old slugs and the batch's. */
  lemma {:induction false} RegisterKeys(m: map<string, Post>, ps: seq<Post>)
    ensures Register(m, ps).Keys == m.Keys + set j | 0 <= j < |ps| :: ps[j].slug
  {
    if ps != [] {
      var n := |ps|;
      var init := ps[..n - 1];
      RegisterKeys(m, init);
      assert (set j | 0 <= j < n :: ps[j].slug) == (set j | 0 <= j < n - 1 :: init[j].slug) + {ps[n - 1].slug};
    }
  }

  /** With no clash, every post of the batch is reachable under its slug. */
  lemma BatchReachable(m: map<string, Post>, ps: seq<Post>)
    requires FirstClash(m, ps).None?
    ensures forall j :: 0 <= j < |ps| ==> ps[j].slug in Register(m, ps) && Register(m, ps)[ps[j].slug] == ps[j]
    ensures forall k :: k in m ==> k in Register(m, ps) && Register(m, ps)[k] == m[k]
  {
    FirstClashSpec(m, ps);
    RegisterFresh(m, ps, |ps|);
    assert ps[..|ps|] == ps;
  }

  /* ---------- `by_date`: the stable newest-first sort ---------- */

  /** Newest first. */
  predicate SortedDesc(s: seq<Post>) {
    forall i, j :: 0 <= i < j < |s| ==> s[i].created >= s[j].created
  }

  /** Places `p` after every post at least as new, as a stable sort does
      with a post that comes later in the input. */
  function InsertDesc(s: seq<Post>, p: Post): seq<Post> {
    if s == [] then [p]
    else if s[0].created >= p.created then [s[0]] + InsertDesc(s[1..], p)
    else [p] + s
  }

  lemma {:induction false} InsertDescPermutes(s: seq<Post>, p: Post)
    ensures multiset(InsertDesc(s, p)) == multiset(s) + multiset{p}
  {
    if s != [] && s[0].created >= p.created {
      InsertDescPermutes(s[1..], p);
      assert s == [s[0]] + s[1..];
    }
  }

  /** An inserted sequence holds `p` and the posts of `s`, and no other. */
  lemma {:induction false} InsertDescMembers(s: seq<Post>, p: Post, x: Post)
    ensures x in InsertDesc(s, p) <==> x in s || x == p
  {
    if s != [] && s[0].created >= p.created {
      InsertDescMembers(s[1..], p, x);
      assert s == [s[0]] + s[1..];
    }
  }

  lemma {:induction false} InsertDescSorted(s: seq<Post>, p: Post)
    requires SortedDesc(s)
    ensures SortedDesc(InsertDesc(s, p))
  {
    if s != [] && s[0].created >= p.created {
      var rest := InsertDesc(s[1..], p);
      InsertDescSorted(s[1..], p);
      var r := [s[0]] + rest;
      forall j | 0 < j < |r|
        ensures r[0].created >= r[j].created
      {
        var x := rest[j - 1];
        InsertDescMembers(s[1..], p, x);
        if x != p {
          var k :| 0 <= k < |s[1..]| && s[1..][k] == x;
          assert s[k + 1] == x;
        }
      }
      forall i, j | 0 < i < j < |r|
        ensures r[i].created >= r[j].created
      {
        assert r[i] == rest[i - 1] && r[j] == rest[j - 1];
      }
    }
  }

  /** `by_date.sort(key=attrgetter('created'), reverse=True)`: Python's sort
      is stable and `reverse=True` keeps equal keys in their input order. */
  function SortDesc(s: seq<Post>): seq<Post> {
    if s == [] then [] else InsertDesc(SortDesc(s[..|s| - 1]), s[|s| - 1])
  }

  /** The sort orders newest first. */
  lemma {:induction false} SortDescSorted(s: seq<Post>)
    ensures SortedDesc(SortDesc(s))
  {
    if s != [] {
      var init := s[..|s| - 1];
      SortDescSorted(init);
      InsertDescSorted(SortDesc(init), s[|s| - 1]);
    }
  }

  /** The sort is a permutation: same posts, same number of each. */
  lemma {:induction false} SortDescPermutes(s: seq<Post>)
    ensures multiset(SortDesc(s)) == multiset(s)
    ensures |SortDesc(s)| == |s|
  {
    if s != [] {
      var init, p := s[..|s| - 1], s[|s| - 1];
      SortDescPermutes(init);
      InsertDescPermutes(SortDesc(init), p);
      assert s == init + [p];
      assert multiset(s) == multiset(init) + multiset{p};
    }
    assert |multiset(SortDesc(s))| == |SortDesc(s)|;
  }

  lemma {:induction false} SortDescMembers(s: seq<Post>, x: Post)
    ensures x in SortDesc(s) <==> x in s
  {
    if s != [] {
      var init, p := s[..|s| - 1], s[|s| - 1];
      SortDescMembers(init, x);
      InsertDescMembers(SortDesc(init), p, x);
      assert s == init + [p];
    }
  }

  /** The posts created at time `c`, in order. */
  function SameTime(s: seq<Post>, c: int): seq<Post> {
    if s == [] then [] else (if s[0].created == c then [s[0]] else []) + SameTime(s[1..], c)
  }

  lemma {:induction false} SameTimeAppend(a: seq<Post>, b: seq<Post>, c: int)
    ensures SameTime(a + b, c) == SameTime(a, c) + SameTime(b, c)
  {
    if a == [] {
      assert a + b == b;
    } else {
      var ab := a + b;
      var head := if a[0].created == c then [a[0]] else [];
      assert ab[0] == a[0] && ab[1..] == a[1..] + b;
      calc {
        SameTime(ab, c);
        head + SameTime(a[1..] + b, c);
        { SameTimeAppend(a[1..], b, c); }
        head + (SameTime(a[1..], c) + SameTime(b, c));
        (head + SameTime(a[1..], c)) + SameTime(b, c);
        SameTime(a, c) + SameTime(b, c);
      }
    }
  }

  lemma {:induction false} SameTimeOlder(s: seq<Post>, c: int)
    requires SortedDesc(s) && s != [] && s[0].created < c
    ensures SameTime(s, c) == []
  {
    if |s| > 1 {
      SameTimeOlder(s[1..], c);
    }
  }

  lemma {:induction false} InsertDescStable(s: seq<Post>, p: Post, c: int)
    requires SortedDesc(s)
    ensures SameTime(InsertDesc(s, p), c) == SameTime(s, c) + (if p.created == c then [p] else [])
  {
    if s != [] {
      if s[0].created >= p.created {
        InsertDescStable(s[1..], p, c);
        var r := [s[0]] + InsertDesc(s[1..], p);
        assert r[0] == s[0] && r[1..] == InsertDesc(s[1..], p);
      } else {
        var r := [p] + s;
        assert r[0] == p && r[1..] == s;
        if p.created == c {
          SameTimeOlder(s, c);
        }
      }
    }
  }

  /** Stability: posts created at the same time keep their input order. */
  lemma {:induction false} SortDescStable(s: seq<Post>, c: int)
    ensures SameTime(SortDesc(s), c) == SameTime(s, c)
  {
    if s != [] {
      var init, p := s[..|s| - 1], s[|s| - 1];
      var tail := if p.created == c then [p] else [];
      calc {
        SameTime(SortDesc(s), c);
        SameTime(InsertDesc(SortDesc(init), p), c);
        { SortDescSorted(init);
          InsertDescStable(SortDesc(init), p, c); }
        SameTime(SortDesc(init), c) + tail;
        { SortDescStable(init, c); }
        SameTime(init, c) + tail;
        { SameTimeSingle(p, c); }
        SameTime(init, c) + SameTime([p], c);
        { SameTimeAppend(init, [p], c); }
        SameTime(init + [p], c);
        { assert init + [p] == s; }
        SameTime(s, c);
      }
    }
  }

  lemma SameTimeSingle(p: Post, c: int)
    ensures SameTime([p], c) == if p.created == c then [p] else []
  {
    assert [p][1..] == [];
  }

  /** Each post of `date` is the one stored under its slug in `slugs`. */
  predicate Indexed(date: seq<Post>, slugs: map<string, Post>) {
    forall i :: 0 <= i < |date| ==> date[i].slug in slugs && slugs[date[i].slug] == date[i]
  }

  /** A batch that stops at a clash only adds new slugs, so the posts
      already listed stay indexed. */
  lemma PartialBatchKeepsIndex(date: seq<Post>, m: map<string, Post>, ps: seq<Post>, n: nat)
    requires Indexed(date, m) && n <= |ps| && NoClashBelow(m, ps, n)
    ensures Indexed(date, Register(m, ps[..n]))
  {
    RegisterFresh(m, ps, n);
  }

  /** A batch without clashes, appended and re-sorted, is indexed together
      with the posts already listed. */
  lemma WholeBatchKeepsIndex(date: seq<Post>, m: map<string, Post>, ps: seq<Post>)
    requires Indexed(date, m) && FirstClash(m, ps).None?
    ensures Indexed(SortDesc(date + ps), Register(m, ps))
  {
    BatchReachable(m, ps);
    var all := date + ps;
    var sorted := SortDesc(all);
    forall k | 0 <= k < |sorted|
      ensures sorted[k].slug in Register(m, ps) && Register(m, ps)[sorted[k].slug] == sorted[k]
    {
      var q := sorted[k];
      SortDescMembers(all, q);
      var j :| 0 <= j < |all| && all[j] == q;
      if j >= |date| {
        assert q == ps[j - |date|];
      } else {
        assert q == date[j];
      }
    }
  }

  class PostStore {
    var byDate: seq<Post>
    var bySlug: map<string, Post>

    /** `by_date` is newest first, and each of its posts is the one stored
        under its slug. */
    ghost predicate Valid()
      reads this
    {
      SortedDesc(byDate) && Indexed(byDate, bySlug)
    }

    constructor ()
      ensures Valid() && byDate == [] && bySlug == map[]
    {
      byDate := [];
      bySlug := map[];
    }

    /** The loop of `add_posts`: stores each post under its slug, stopping
        with `clash` at the first slug already present. */
    method RegisterBatch(posts: seq<Post>) returns (clash: bool)
      requires Indexed(byDate, bySlug)
      modifies this
      ensures byDate == old(byDate) && Indexed(byDate, bySlug)
      ensures clash <==> FirstClash(old(bySlug), posts).Some?
      ensures bySlug == match FirstClash(old(bySlug), posts)
                        case Some(i) => Register(old(bySlug), posts[..i])
                        case None => Register(old(bySlug), posts)
    {
      ghost var m0 := bySlug;
      var i := 0;
      while i < |posts|
        invariant 0 <= i <= |posts|
        invariant bySlug == Register(m0, posts[..i]) && byDate == old(byDate)
        invariant NoClashBelow(m0, posts, i)
        invariant FirstClash(m0, posts) == ClashFrom(m0, posts, i)
      {
        var p := posts[i];
        if p.slug in bySlug {
          PartialBatchKeepsIndex(byDate, m0, posts, i);
          return true;
        }
        assert posts[..i + 1][..i] == posts[..i];
        NoClashStep(m0, posts, i);
        bySlug := bySlug[p.slug := p];
        i := i + 1;
      }
      assert posts[..i] == posts;
      PartialBatchKeepsIndex(byDate, m0, posts, i);
      return false;
    }

    /** `add_posts(post_data)`: builds every post first; then stores each
        under its slug, raising at the first slug already present; only a
        batch without clashes is appended to `by_date`, which is re-sorted. */
    method AddPosts(data: seq<PostData>) returns (err: Option<StoreError>)
      requires Valid()
      modifies this
      ensures Valid()
      ensures MakePosts(data).Failure? ==>
                err == Some(MissingKey(MakePosts(data).error)) && byDate == old(byDate) && bySlug == old(bySlug)
      ensures MakePosts(data).Success? ==>
                var posts := MakePosts(data).value;
                match FirstClash(old(bySlug), posts)
                case Some(i) =>
                  err == Some(SlugsNotUnique) && byDate == old(byDate) && bySlug == Register(old(bySlug), posts[..i])
                case None =>
                  err == None && byDate == SortDesc(old(byDate) + posts) && bySlug == Register(old(bySlug), posts)
    {
      var made := MakePosts(data);
      if made.Failure? {
        return Some(MissingKey(made.error));
      }
      var posts := made.value;
      var clash := RegisterBatch(posts);
      if clash {
        return Some(SlugsNotUnique);
      }
      WholeBatchKeepsIndex(byDate, old(bySlug), posts);
      SortDescSorted(byDate + posts);
      byDate := SortDesc(byDate + posts);
      return None;
    }
  }
}
