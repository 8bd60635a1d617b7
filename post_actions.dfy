/**
 * The `createPost` server action of `app/actions/post.ts`: insert the post,
 * then, for each tag name in order, find or create the tag and link it to
 * the post.
 *
 * The database is an in-memory store: the `tags` table is a map from name to
 * id (names are unique), `posts_tags` a sequence of links in insertion order.
 * Which post inserts and which tag inserts fail is not visible to the code,
 * so it is fixed when the store is built: `postInsertFails`, and the set
 * `rejectedTagNames` of names whose insert comes back with an error.
 */
module PostActions {
  import opened Wrappers
  import opened Text
  import opened Model

  datatype PostRow = PostRow(id: nat, title: string, content: string, isPublished: bool, description: string)

  /** A row of `posts_tags`. */
  datatype Link = Link(postId: nat, tagId: nat)

  /** `{ success: true }`, or the error thrown when the post insert fails. */
  datatype Outcome = Success | Failure(message: string)

  const CreatePostFailed: string := "글 작성에 실패했습니다."

  /** Number of content characters kept in the automatic description. */
  const DescriptionLength: nat := 150

  /**
   * `content.slice(0, 150) + '...'`: the first 150 characters with an
   * ellipsis, which is appended even when nothing was cut.
   */
  function AutoDescription(content: string): (d: string)
    ensures |content| <= DescriptionLength ==> d == content + "..."
    ensures |content| > DescriptionLength ==> d == content[..DescriptionLength] + "..."
    ensures |d| <= DescriptionLength + 3
  {
    Slice(content, 0, DescriptionLength) + "..."
  }

  // ---------------------------------------------------------------------
  // The tag loop as a function of the tables
  // ---------------------------------------------------------------------

  /** The part of the store the tag loop changes. */
  datatype TagTables = TagTables(tags: map<string, nat>, links: seq<Link>, nextTagId: nat)

  /** Ids below the next id, distinct names with distinct ids, every link naming a tag. */
  predicate TablesValid(t: TagTables) {
    && (forall n :: n in t.tags ==> t.tags[n] < t.nextTagId)
    && (forall n, m :: n in t.tags && m in t.tags && n != m ==> t.tags[n] != t.tags[m])
    && (forall i :: 0 <= i < |t.links| ==> IsTagId(t.tags, t.links[i].tagId))
  }

  /** Some tag has this id. */
  predicate IsTagId(tags: map<string, nat>, id: nat) {
    exists n :: n in tags && tags[n] == id
  }

  /** Every tag of t is still in u with the same id. */
  predicate Grows(t: TagTables, u: TagTables) {
    && (forall n :: n in t.tags ==> n in u.tags && u.tags[n] == t.tags[n])
    && t.nextTagId <= u.nextTagId
  }

  /** One iteration of the loop body (lines 69-94) for one name: trim it, then resolve it. */
  function Step(t: TagTables, rejected: set<string>, postId: nat, tagName: string): TagTables {
    Resolve(t, rejected, postId, Trim(tagName))
  }

  /**
   * What the loop body does with the trimmed name: skip it when empty, link
   * the existing tag, skip it when the insert fails, or create the tag with
   * the next id and link it.
   */
  function Resolve(t: TagTables, rejected: set<string>, postId: nat, trimmedName: string): TagTables {
    if trimmedName == [] then t
    else if trimmedName in t.tags then
      t.(links := t.links + [Link(postId, t.tags[trimmedName])])
    else if trimmedName in rejected then t
    else
      TagTables(t.tags[trimmedName := t.nextTagId], t.links + [Link(postId, t.nextTagId)], t.nextTagId + 1)
  }

  /** The loop over the names, in input order. */
  function Reconcile(t: TagTables, rejected: set<string>, postId: nat, names: seq<string>): TagTables
    decreases |names|
  {
    if names == [] then t
    else Step(Reconcile(t, rejected, postId, names[..|names| - 1]), rejected, postId, names[|names| - 1])
  }

  /** The names that end up with a tag although they had none: non-empty once trimmed, and not rejected. */
  function NewNames(rejected: set<string>, names: seq<string>): set<string> {
    set i | 0 <= i < |names| && Creates(rejected, names[i]) :: Trim(names[i])
  }

  /** A name that gets a tag if it has none yet. */
  predicate Creates(rejected: set<string>, name: string) {
    Trim(name) != [] && Trim(name) !in rejected
  }

  /** The links for the names that resolve to a tag of `tags`, one per occurrence, in input order. */
  function LinksFor(postId: nat, tags: map<string, nat>, names: seq<string>): (links: seq<Link>)
    ensures |links| <= |names|
  {
    if names == [] then []
    else
      var n := Trim(names[|names| - 1]);
      LinksFor(postId, tags, names[..|names| - 1]) +
        (if n != [] && n in tags then [Link(postId, tags[n])] else [])
  }

  lemma ResolveKeeps(t: TagTables, rejected: set<string>, postId: nat, n: string)
    requires TablesValid(t)
    ensures TablesValid(Resolve(t, rejected, postId, n))
    ensures Grows(t, Resolve(t, rejected, postId, n))
    ensures Resolve(t, rejected, postId, n).tags.Keys ==
      t.tags.Keys + (if n != [] && n !in rejected then {n} else {})
  {
    var u := Resolve(t, rejected, postId, n);
    if n != [] && n in t.tags {
      assert IsTagId(u.tags, u.links[|t.links|].tagId);
    } else if n != [] && n !in rejected {
      assert IsTagId(u.tags, u.tags[n]);
      forall i | 0 <= i < |u.links| ensures IsTagId(u.tags, u.links[i].tagId) {
        if i < |t.links| {
          assert IsTagId(t.tags, t.links[i].tagId);
          var m :| m in t.tags && t.tags[m] == t.links[i].tagId;
          assert u.tags[m] == t.tags[m];
        }
      }
    }
  }

  lemma StepKeeps(t: TagTables, rejected: set<string>, postId: nat, tagName: string)
    requires TablesValid(t)
    ensures TablesValid(Step(t, rejected, postId, tagName))
    ensures Grows(t, Step(t, rejected, postId, tagName))
    ensures Step(t, rejected, postId, tagName).tags.Keys ==
      t.tags.Keys + (if Creates(rejected, tagName) then {Trim(tagName)} else {})
  {
    ResolveKeeps(t, rejected, postId, Trim(tagName));
  }

  /** After the loop every name that is not blank once trimmed is a tag or was rejected. */
  lemma {:induction false} ReconcileCovers(t: TagTables, rejected: set<string>, postId: nat, names: seq<string>)
    ensures forall i :: 0 <= i < |names| && Trim(names[i]) != [] ==>
      Trim(names[i]) in Reconcile(t, rejected, postId, names).tags || Trim(names[i]) in rejected
    decreases |names|
  {
    if names != [] {
      var init := names[..|names| - 1];
      var r0 := Reconcile(t, rejected, postId, init);
      ReconcileCovers(t, rejected, postId, init);
      var n := Trim(names[|names| - 1]);
      var r := Resolve(r0, rejected, postId, n);
      assert r == Reconcile(t, rejected, postId, names);
      assert r0.tags.Keys <= r.tags.Keys;
      forall i | 0 <= i < |names| && Trim(names[i]) != []
        ensures Trim(names[i]) in r.tags || Trim(names[i]) in rejected
      {
        if i < |init| {
          assert names[i] == init[i];
        }
      }
    }
  }

  /** The loop keeps the tables valid and never changes or drops a tag; every resolved name is a tag or rejected. */
  lemma {:induction false} ReconcileKeeps(t: TagTables, rejected: set<string>, postId: nat, names: seq<string>)
    requires TablesValid(t)
    ensures TablesValid(Reconcile(t, rejected, postId, names))
    ensures Grows(t, Reconcile(t, rejected, postId, names))
    ensures forall i :: 0 <= i < |names| && Trim(names[i]) != [] ==>
      Trim(names[i]) in Reconcile(t, rejected, postId, names).tags || Trim(names[i]) in rejected
    decreases |names|
  {
    if names != [] {
      var init := names[..|names| - 1];
      var r := Reconcile(t, rejected, postId, init);
      ReconcileKeeps(t, rejected, postId, init);
      StepKeeps(r, rejected, postId, names[|names| - 1]);
      ReconcileCovers(t, rejected, postId, names);
    }
  }

  /**
   * The tags after the loop are the tags before it and the trimmed,
   * non-empty, not rejected names: exactly one tag per such name, however
   * often it occurs.
   */
  lemma {:induction false} ReconcileTagNames(t: TagTables, rejected: set<string>, postId: nat, names: seq<string>)
    requires TablesValid(t)
    ensures Reconcile(t, rejected, postId, names).tags.Keys == t.tags.Keys + NewNames(rejected, names)
    decreases |names|
  {
    if names != [] {
      var init := names[..|names| - 1];
      var last := names[|names| - 1];
      ReconcileTagNames(t, rejected, postId, init);
      ReconcileKeeps(t, rejected, postId, init);
      StepKeeps(Reconcile(t, rejected, postId, init), rejected, postId, last);
      NewNamesSnoc(rejected, names);
    }
  }

  lemma NewNamesOfInit(rejected: set<string>, names: seq<string>)
    requires names != []
    ensures NewNames(rejected, names[..|names| - 1]) <= NewNames(rejected, names)
  {
    var init := names[..|names| - 1];
    forall n | n in NewNames(rejected, init) ensures n in NewNames(rejected, names) {
      var i :| 0 <= i < |init| && Creates(rejected, init[i]) && n == Trim(init[i]);
      assert names[i] == init[i];
    }
  }

  lemma NewNamesCovered(rejected: set<string>, names: seq<string>, n: string)
    requires names != [] && n in NewNames(rejected, names)
    ensures n in NewNames(rejected, names[..|names| - 1]) ||
      (Creates(rejected, names[|names| - 1]) && n == Trim(names[|names| - 1]))
  {
    var init := names[..|names| - 1];
    var i :| 0 <= i < |names| && Creates(rejected, names[i]) && n == Trim(names[i]);
    if i < |init| {
      assert names[i] == init[i];
      assert Creates(rejected, init[i]) && n == Trim(init[i]);
      assert n in NewNames(rejected, init);
    } else {
      assert i == |names| - 1;
    }
  }

  lemma NewNamesSnoc(rejected: set<string>, names: seq<string>)
    requires names != []
    ensures var last := names[|names| - 1];
      NewNames(rejected, names) ==
        NewNames(rejected, names[..|names| - 1]) + (if Creates(rejected, last) then {Trim(last)} else {})
  {
    var last := names[|names| - 1];
    NewNamesOfInit(rejected, names);
    forall n | n in NewNames(rejected, names)
      ensures n in NewNames(rejected, names[..|names| - 1]) + (if Creates(rejected, last) then {Trim(last)} else {})
    {
      NewNamesCovered(rejected, names, n);
    }
    if Creates(rejected, last) {
      assert Trim(names[|names| - 1]) in NewNames(rejected, names);
    }
  }

  /** Links computed against two maps that agree on every name of the list are the same. */
  lemma {:induction false} LinksForAgree(postId: nat, f: map<string, nat>, g: map<string, nat>, names: seq<string>)
    requires forall i :: 0 <= i < |names| && Trim(names[i]) != [] ==>
      (Trim(names[i]) in f <==> Trim(names[i]) in g) &&
      (Trim(names[i]) in f ==> f[Trim(names[i])] == g[Trim(names[i])])
    ensures LinksFor(postId, f, names) == LinksFor(postId, g, names)
    decreases |names|
  {
    if names != [] {
      var init := names[..|names| - 1];
      forall i | 0 <= i < |init| ensures init[i] == names[i] { }
      LinksForAgree(postId, f, g, init);
    }
  }

  /** One step appends a link exactly when the name resolves to a tag afterwards, to that tag. */
  lemma ResolveLinks(t: TagTables, rejected: set<string>, postId: nat, n: string)
    ensures var u := Resolve(t, rejected, postId, n);
      u.links == t.links + (if n != [] && n in u.tags then [Link(postId, u.tags[n])] else [])
  {
  }

  /** A name that already is a tag or is rejected resolves the same way after one more step. */
  lemma ResolveAgrees(t: TagTables, rejected: set<string>, postId: nat, m: string, n: string)
    requires n in t.tags || n in rejected
    ensures var u := Resolve(t, rejected, postId, m);
      (n in t.tags <==> n in u.tags) && (n in t.tags ==> t.tags[n] == u.tags[n])
  {
  }

  /** Names that are already tags or rejected resolve the same way after one more step. */
  lemma StepKeepsLinksFor(r0: TagTables, rejected: set<string>, postId: nat, last: string, init: seq<string>)
    requires forall i :: 0 <= i < |init| && Trim(init[i]) != [] ==> Trim(init[i]) in r0.tags || Trim(init[i]) in rejected
    ensures LinksFor(postId, r0.tags, init) == LinksFor(postId, Step(r0, rejected, postId, last).tags, init)
  {
    var r := Step(r0, rejected, postId, last);
    forall i | 0 <= i < |init| && Trim(init[i]) != []
      ensures (Trim(init[i]) in r0.tags <==> Trim(init[i]) in r.tags)
      ensures Trim(init[i]) in r0.tags ==> r0.tags[Trim(init[i])] == r.tags[Trim(init[i])]
    {
      ResolveAgrees(r0, rejected, postId, Trim(last), Trim(init[i]));
    }
    LinksForAgree(postId, r0.tags, r.tags, init);
  }

  /**
   * The loop appends one link per name that resolves to a tag, in input
   * order and with no de-duplication, each to the tag the name ends up with.
   */
  lemma {:induction false} ReconcileLinks(t: TagTables, rejected: set<string>, postId: nat, names: seq<string>)
    requires TablesValid(t)
    ensures var r := Reconcile(t, rejected, postId, names);
      r.links == t.links + LinksFor(postId, r.tags, names)
    decreases |names|
  {
    if names != [] {
      var init := names[..|names| - 1];
      var last := names[|names| - 1];
      var r0 := Reconcile(t, rejected, postId, init);
      ReconcileLinks(t, rejected, postId, init);
      ReconcileCovers(t, rejected, postId, init);
      StepKeepsLinksFor(r0, rejected, postId, last, init);
      var n := Trim(last);
      var r := Resolve(r0, rejected, postId, n);
      assert r == Reconcile(t, rejected, postId, names);
      ResolveLinks(r0, rejected, postId, n);
      var extra := if n != [] && n in r.tags then [Link(postId, r.tags[n])] else [];
      assert LinksFor(postId, r.tags, names) == LinksFor(postId, r.tags, init) + extra;
      assert r.links == t.links + LinksFor(postId, r.tags, init) + extra;
    }
  }

  lemma ReconcileSnoc(t: TagTables, rejected: set<string>, postId: nat, names: seq<string>, tagName: string)
    ensures Reconcile(t, rejected, postId, names + [tagName]) ==
      Step(Reconcile(t, rejected, postId, names), rejected, postId, tagName)
  {
    assert (names + [tagName])[..|names|] == names;
  }

  /** A name that `trim` leaves as it is. */
  predicate IsTrimmedName(n: string) {
    n != [] && !IsSpace(n[0]) && !IsSpace(n[|n| - 1])
  }

  lemma PaddedName(n: string, w: string)
    requires IsTrimmedName(n) && AllSpace(w)
    ensures Trim(n) == n && Trim(w + n + w) == n
  {
    TrimUntrimmed(n);
    var s := w + n + w;
    assert s[..|w|] == w && s[|w| + |n|..] == w && s[|w|..|w| + |n|] == n;
    TrimBetween(s, |w|, |w| + |n|);
  }

  /**
   * Names in the pattern of ["React", " React ", "", "TypeScript"] on empty
   * tables: two names with the same trimmed form share one new tag and give
   * two links, the blank name is skipped, and another name gets the next id.
   */
  lemma ReconcileSample(postId: nat, a: string, b: string, c: string, d: string)
    requires Trim(a) != [] && Trim(b) == Trim(a) && Trim(c) == [] && Trim(d) != [] && Trim(d) != Trim(a)
    ensures var r := Reconcile(TagTables(map[], [], 0), {}, postId, [a, b, c, d]);
      && r.tags == map[Trim(a) := 0, Trim(d) := 1]
      && r.links == [Link(postId, 0), Link(postId, 0), Link(postId, 1)]
      && r.nextTagId == 2
  {
    ReconcileFour(TagTables(map[], [], 0), {}, postId, a, b, c, d);
    ResolveSample(postId, Trim(a), Trim(d));
  }

  /** The sample on its trimmed names. */
  lemma ResolveSample(postId: nat, x: string, y: string)
    requires x != [] && y != [] && y != x
    ensures var t0 := TagTables(map[], [], 0);
      Resolve(Resolve(Resolve(Resolve(t0, {}, postId, x), {}, postId, x), {}, postId, []), {}, postId, y) ==
        TagTables(map[x := 0, y := 1], [Link(postId, 0), Link(postId, 0), Link(postId, 1)], 2)
  {
  }

  lemma ReconcileFour(t: TagTables, rejected: set<string>, postId: nat, a: string, b: string, c: string, d: string)
    ensures Reconcile(t, rejected, postId, [a, b, c, d]) ==
      Step(Step(Step(Step(t, rejected, postId, a), rejected, postId, b), rejected, postId, c), rejected, postId, d)
  {
    ReconcileSnoc(t, rejected, postId, [], a);
    ReconcileSnoc(t, rejected, postId, [a], b);
    ReconcileSnoc(t, rejected, postId, [a, b], c);
    ReconcileSnoc(t, rejected, postId, [a, b, c], d);
    assert [] + [a] == [a];
    assert [a] + [b] == [a, b];
    assert [a, b] + [c] == [a, b, c];
    assert [a, b, c] + [d] == [a, b, c, d];
  }

  /** A rejected name gets neither a tag nor a link, and the loop goes on with the next name. */
  lemma ReconcileRejectedSample(postId: nat, a: string, b: string)
    requires Trim(a) != [] && Trim(b) != [] && Trim(b) != Trim(a)
    ensures var r := Reconcile(TagTables(map[], [], 0), {Trim(a)}, postId, [a, b]);
      r.tags == map[Trim(b) := 0] && r.links == [Link(postId, 0)]
  {
    ReconcileTwo(TagTables(map[], [], 0), {Trim(a)}, postId, a, b);
    ResolveRejected(postId, Trim(a), Trim(b));
  }

  lemma ReconcileTwo(t: TagTables, rejected: set<string>, postId: nat, a: string, b: string)
    ensures Reconcile(t, rejected, postId, [a, b]) == Step(Step(t, rejected, postId, a), rejected, postId, b)
  {
    ReconcileSnoc(t, rejected, postId, [], a);
    ReconcileSnoc(t, rejected, postId, [a], b);
    assert [] + [a] == [a] && [a] + [b] == [a, b];
  }

  /** The rejected sample on its trimmed names. */
  lemma ResolveRejected(postId: nat, x: string, y: string)
    requires x != [] && y != [] && y != x
    ensures Resolve(Resolve(TagTables(map[], [], 0), {x}, postId, x), {x}, postId, y) ==
      TagTables(map[y := 0], [Link(postId, 0)], 1)
  {
  }

  // ---------------------------------------------------------------------
  // The store
  // ---------------------------------------------------------------------

  class BlogStore {
    var posts: seq<PostRow>
    var tags: map<string, nat>
    var links: seq<Link>
    var nextPostId: nat
    var nextTagId: nat
    /** Names whose tag insert comes back with an error. */
    const rejectedTagNames: set<string>
    /** Whether the post insert comes back with an error. */
    const postInsertFails: bool

    function Tables(): TagTables
      reads this
    {
      TagTables(tags, links, nextTagId)
    }

    predicate Valid()
      reads this
    {
      && TablesValid(Tables())
      && (forall i :: 0 <= i < |posts| ==> posts[i].id < nextPostId)
    }

    constructor (rejected: set<string>, postFails: bool)
      ensures Valid()
      ensures posts == [] && tags == map[] && links == [] && nextPostId == 0 && nextTagId == 0
      ensures rejectedTagNames == rejected && postInsertFails == postFails
    {
      posts := [];
      tags := map[];
      links := [];
      nextPostId := 0;
      nextTagId := 0;
      rejectedTagNames := rejected;
      postInsertFails := postFails;
    }

    /** `insert(...).select().single()` on `posts`. */
    method InsertPost(title: string, content: string, isPublished: bool, description: string)
      returns (post: Option<PostRow>)
      requires Valid()
      modifies this
      ensures Valid()
      ensures postInsertFails ==> post.None? && posts == old(posts) && nextPostId == old(nextPostId)
      ensures !postInsertFails ==>
        && post == Some(PostRow(old(nextPostId), title, content, isPublished, description))
        && posts == old(posts) + [post.value]
        && nextPostId == old(nextPostId) + 1
      ensures Tables() == old(Tables())
    {
      if postInsertFails {
        return None;
      }
      var row := PostRow(nextPostId, title, content, isPublished, description);
      posts := posts + [row];
      nextPostId := nextPostId + 1;
      return Some(row);
    }

    /** `select('id').eq('name', name).single()` on `tags`. */
    method FindTag(name: string) returns (id: Option<nat>)
      ensures id.Some? <==> name in tags
      ensures id.Some? ==> id.value == tags[name]
    {
      if name in tags {
        return Some(tags[name]);
      }
      return None;
    }

    /** `insert({ name }).select().single()` on `tags`: a rejected or taken name fails. */
    method InsertTag(name: string) returns (tag: Option<Tag>)
      requires Valid()
      modifies this
      ensures Valid()
      ensures name in rejectedTagNames || name in old(tags) ==>
        tag.None? && tags == old(tags) && nextTagId == old(nextTagId)
      ensures !(name in rejectedTagNames || name in old(tags)) ==>
        && tag == Some(Tag(old(nextTagId), name))
        && tags == old(tags)[name := old(nextTagId)]
        && nextTagId == old(nextTagId) + 1
      ensures links == old(links) && posts == old(posts) && nextPostId == old(nextPostId)
    {
      if name in rejectedTagNames || name in tags {
        return None;
      }
      var t := Tables();
      assert TablesValid(t);
      tags := tags[name := nextTagId];
      nextTagId := nextTagId + 1;
      forall i | 0 <= i < |links| ensures IsTagId(tags, links[i].tagId) {
        assert links[i] == t.links[i] && IsTagId(t.tags, t.links[i].tagId);
        var m :| m in t.tags && t.tags[m] == t.links[i].tagId;
        assert tags[m] == t.tags[m];
      }
      return Some(Tag(nextTagId - 1, name));
    }

    /** `insert({ post_id, tag_id })` on `posts_tags`; its result is not looked at. */
    method InsertLink(postId: nat, tagId: nat)
      requires Valid() && IsTagId(tags, tagId)
      modifies this
      ensures Valid()
      ensures links == old(links) + [Link(postId, tagId)]
      ensures tags == old(tags) && nextTagId == old(nextTagId)
      ensures posts == old(posts) && nextPostId == old(nextPostId)
    {
      links := links + [Link(postId, tagId)];
    }

    /**
     * One iteration of the tag loop: skip a blank name, otherwise link the
     * post to the tag of that name, creating it first when there is none;
     * a failed insert skips the name.
     */
    method AddTag(postId: nat, tagName: string)
      requires Valid()
      modifies this
      ensures Valid()
      ensures Tables() == Step(old(Tables()), rejectedTagNames, postId, tagName)
      ensures posts == old(posts) && nextPostId == old(nextPostId)
    {
      var trimmedName := Trim(tagName);
      if trimmedName == [] {
        return;
      }
      var tagId: nat;
      var existingTag := FindTag(trimmedName);
      if existingTag.Some? {
        tagId := existingTag.value;
      } else {
        var newTag := InsertTag(trimmedName);
        if newTag.None? {
          return;
        }
        tagId := newTag.value.id;
      }
      assert IsTagId(tags, tagId) by {
        assert tags[trimmedName] == tagId;
      }
      InsertLink(postId, tagId);
    }

    /** The loop over `tagNames` (lines 67-95), one `AddTag` per name in order. */
    method LinkTags(postId: nat, tagNames: seq<string>)
      requires Valid()
      modifies this
      ensures Valid()
      ensures Tables() == Reconcile(old(Tables()), rejectedTagNames, postId, tagNames)
      ensures posts == old(posts) && nextPostId == old(nextPostId)
    {
      if |tagNames| > 0 {
        for i := 0 to |tagNames|
          invariant Valid()
          invariant posts == old(posts) && nextPostId == old(nextPostId)
          invariant Tables() == Reconcile(old(Tables()), rejectedTagNames, postId, tagNames[..i])
        {
          assert tagNames[..i + 1][..i] == tagNames[..i];
          AddTag(postId, tagNames[i]);
        }
        assert tagNames[..|tagNames|] == tagNames;
      }
    }

    /**
     * `createPost`. When the post insert fails nothing changes and the
     * action fails before any tag is looked at. Otherwise one post row with
     * the automatic description is added, the tag tables become the
     * reconciliation of the names, and the action succeeds.
     */
    method CreatePost(title: string, content: string, tagNames: seq<string>, isPublished: bool)
      returns (outcome: Outcome)
      requires Valid()
      modifies this
      ensures Valid()
      ensures postInsertFails ==>
        && outcome == Failure(CreatePostFailed)
        && posts == old(posts) && nextPostId == old(nextPostId)
        && Tables() == old(Tables())
      ensures !postInsertFails ==>
        && outcome == Success
        && posts == old(posts) + [PostRow(old(nextPostId), title, content, isPublished, AutoDescription(content))]
        && nextPostId == old(nextPostId) + 1
        && Tables() == Reconcile(old(Tables()), rejectedTagNames, old(nextPostId), tagNames)
    {
      var post := InsertPost(title, content, isPublished, AutoDescription(content));
      if post.None? {
        return Failure(CreatePostFailed);
      }
      LinkTags(post.value.id, tagNames);
      return Success;
    }
  }
}
