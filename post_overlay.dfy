/**
 * The session overlay of the posts page. Posts come from a remote list the
 * application cannot change; the session keeps three collections on top of
 * it: `local_posts` (posts created here, with negative ids),
 * `edited_posts` (new versions of remote posts, by id) and `deleted_posts`
 * (ids of remote posts to hide). The listing is the remote list seen
 * through the overlay, with the local posts spliced in.
 *
 * The remote list is a parameter. Details the application leaves open are
 * parameters too: the id given to a new local post (any unused negative
 * id), where a new local post goes among the others, where the local posts
 * sit in the listing, and the page size.
 */
module PostOverlay {
  import opened Options
  import opened Pagination

  datatype Post = Post(id: int, title: string, body: string, userId: int)

  /** Local posts have negative, pairwise distinct ids. */
  predicate LocalIds(local: seq<Post>) {
    (forall i :: 0 <= i < |local| ==> local[i].id < 0)
    && (forall i, j :: 0 <= i < j < |local| ==> local[i].id != local[j].id)
  }

  /** Edited versions are stored under their own, non-negative id. */
  predicate EditedIds(edited: map<int, Post>) {
    forall k :: k in edited ==> k >= 0 && edited[k].id == k
  }

  /** Only remote (non-negative) ids are ever marked deleted. */
  predicate DeletedIds(deleted: set<int>) {
    forall d :: d in deleted ==> d >= 0
  }

  /** Inserting a post with an unused negative id keeps the local ids negative and distinct. */
  lemma InsertKeepsLocalIds(local: seq<Post>, at: nat, p: Post)
    requires LocalIds(local) && at <= |local|
    requires p.id < 0 && forall j :: 0 <= j < |local| ==> local[j].id != p.id
    ensures LocalIds(local[..at] + [p] + local[at..])
  {
    var r := local[..at] + [p] + local[at..];
    forall i | 0 <= i < |r|
      ensures r[i] == (if i < at then local[i] else if i == at then p else local[i - 1])
    {
    }
  }

  /** Removing the post at position k keeps the local ids negative and distinct, and drops its id. */
  lemma RemoveKeepsLocalIds(local: seq<Post>, k: nat)
    requires LocalIds(local) && k < |local|
    ensures LocalIds(local[..k] + local[k + 1..])
    ensures forall p :: p in local[..k] + local[k + 1..] ==> p.id != local[k].id
  {
    var r := local[..k] + local[k + 1..];
    forall i | 0 <= i < |r|
      ensures r[i] == local[if i < k then i else i + 1]
    {
    }
    forall p | p in r
      ensures p.id != local[k].id
    {
      var j :| 0 <= j < |r| && r[j] == p;
    }
  }

  /** The position of the local post with this id, if any. */
  function LocalIndex(local: seq<Post>, id: int): (k: Option<nat>)
    ensures k.Some? ==> k.value < |local| && local[k.value].id == id
    ensures k.None? ==> forall j :: 0 <= j < |local| ==> local[j].id != id
  {
    if local == [] then None
    else if local[0].id == id then Some(0)
    else match LocalIndex(local[1..], id) {
      case None => None
      case Some(j) => Some(j + 1)
    }
  }

  /** A remote post as the listing shows it: its edited version when there is one. */
  function Shown(p: Post, edited: map<int, Post>): (q: Post)
    requires EditedIds(edited)
    ensures q.id == p.id
    ensures p.id in edited ==> q == edited[p.id]
    ensures p.id !in edited ==> q == p
  {
    if p.id in edited then edited[p.id] else p
  }

  /** The number of remote posts whose id is marked deleted. */
  function DeletedCount(remote: seq<Post>, deleted: set<int>): nat {
    if remote == [] then 0
    else (if remote[0].id in deleted then 1 else 0) + DeletedCount(remote[1..], deleted)
  }

  /** The remote posts that are not deleted, each shown in its edited version, in remote order. */
  function Visible(remote: seq<Post>, edited: map<int, Post>, deleted: set<int>): (v: seq<Post>)
    requires EditedIds(edited)
    ensures |v| == |remote| - DeletedCount(remote, deleted)
    ensures forall p :: p in v ==> p.id !in deleted
    ensures forall p :: p in v ==> exists q :: q in remote && p == Shown(q, edited)
    ensures forall q :: q in remote && q.id !in deleted ==> Shown(q, edited) in v
  {
    if remote == [] then []
    else
      var rest := Visible(remote[1..], edited, deleted);
      assert forall q :: q in remote ==> q == remote[0] || q in remote[1..] by {
        forall q | q in remote
          ensures q == remote[0] || q in remote[1..]
        {
          var j :| 0 <= j < |remote| && remote[j] == q;
          if j > 0 {
            assert remote[1..][j - 1] == q;
          }
        }
      }
      assert forall p :: p in rest ==> exists q :: q in remote && p == Shown(q, edited) by {
        forall p | p in rest
          ensures exists q :: q in remote && p == Shown(q, edited)
        {
          var q :| q in remote[1..] && p == Shown(q, edited);
          assert q in remote;
        }
      }
      if remote[0].id in deleted then rest else [Shown(remote[0], edited)] + rest
  }

  lemma {:induction false} NothingDeleted(remote: seq<Post>)
    ensures DeletedCount(remote, {}) == 0
  {
    if remote != [] {
      NothingDeleted(remote[1..]);
    }
  }

  /** With nothing deleted, every remote post keeps its position, in its edited version if edited. */
  lemma {:induction false} EditedKeepPosition(remote: seq<Post>, edited: map<int, Post>, i: nat)
    requires EditedIds(edited) && i < |remote|
    ensures |Visible(remote, edited, {})| == |remote|
    ensures Visible(remote, edited, {})[i] == Shown(remote[i], edited)
  {
    NothingDeleted(remote);
    if i > 0 {
      EditedKeepPosition(remote[1..], edited, i - 1);
    }
  }

  /** The listing: the visible remote posts with the local posts inserted at position `localAt`. */
  function Feed(remote: seq<Post>, local: seq<Post>, edited: map<int, Post>, deleted: set<int>, localAt: nat): (f: seq<Post>)
    requires EditedIds(edited)
    ensures |f| == |remote| - DeletedCount(remote, deleted) + |local|
    ensures forall p :: p in local ==> p in f
    ensures forall p :: p in f ==> p in local || (p.id !in deleted && exists q :: q in remote && p == Shown(q, edited))
    ensures forall q :: q in remote && q.id !in deleted ==> Shown(q, edited) in f
  {
    var v := Visible(remote, edited, deleted);
    var at := Min(localAt, |v|);
    assert v == v[..at] + v[at..];
    assert forall p :: p in v ==> p in v[..at] || p in v[at..];
    v[..at] + local + v[at..]
  }

  /** No listed post has a deleted id, on any page. */
  lemma NoDeletedOnAnyPage(remote: seq<Post>, local: seq<Post>, edited: map<int, Post>, deleted: set<int>,
                           localAt: nat, perPage: nat, page: nat)
    requires LocalIds(local) && EditedIds(edited) && DeletedIds(deleted)
    requires perPage >= 1 && page >= 1
    ensures forall p :: p in Paginate(Feed(remote, local, edited, deleted, localAt), perPage, page).data ==> p.id !in deleted
  {
    forall p | p in Paginate(Feed(remote, local, edited, deleted, localAt), perPage, page).data
      ensures p.id !in deleted
    {
      if p in local {
        var j :| 0 <= j < |local| && local[j] == p;
      }
    }
  }

  /** Two remote posts, the first deleted: the listing has one post in total. */
  lemma DeletedPostNotCounted(perPage: nat, localAt: nat)
    requires perPage >= 1
    ensures var remote := [Post(1, "Post 1", "Body 1", 1), Post(2, "Post 2", "Body 2", 1)];
      Paginate(Feed(remote, [], map[], {1}, localAt), perPage, 1).total == 1
  {
    var remote := [Post(1, "Post 1", "Body 1", 1), Post(2, "Post 2", "Body 2", 1)];
    assert DeletedCount(remote, {1}) == 1 by {
      assert remote[1..][1..] == [];
    }
  }

  /** An edited first remote post is listed first, in its edited version, when there are no local posts. */
  lemma EditedPostListedInPlace(perPage: nat, localAt: nat)
    requires perPage >= 1
    ensures var remote := [Post(1, "Post 1", "Body 1", 1), Post(2, "Post 2", "Body 2", 1)];
      var edited := map[1 := Post(1, "Post Editado", "Contenido editado", 1)];
      Paginate(Feed(remote, [], edited, {}, localAt), perPage, 1).data[0].title == "Post Editado"
  {
    var remote := [Post(1, "Post 1", "Body 1", 1), Post(2, "Post 2", "Body 2", 1)];
    var edited := map[1 := Post(1, "Post Editado", "Contenido editado", 1)];
    EditedKeepPosition(remote, edited, 0);
  }

  /** The redirect after an update or a delete: the `page` parameter, 1 when absent. */
  function RedirectPage(pageParam: Option<int>): (page: int)
    ensures pageParam.None? ==> page == 1
    ensures pageParam.Some? ==> page == pageParam.value
  {
    pageParam.GetOr(1)
  }

  /** The three session collections. */
  class SessionOverlay {
    var localPosts: seq<Post>
    var editedPosts: map<int, Post>
    var deletedPosts: set<int>

    ghost predicate Valid()
      reads this
    {
      LocalIds(localPosts) && EditedIds(editedPosts) && DeletedIds(deletedPosts)
    }

    /** A fresh session: all three collections empty. */
    constructor()
      ensures Valid()
      ensures localPosts == [] && editedPosts == map[] && deletedPosts == {}
    {
      localPosts := [];
      editedPosts := map[];
      deletedPosts := {};
    }

    /** The page of the listing that index renders. */
    function Index(remote: seq<Post>, localAt: nat, perPage: nat, page: nat): (p: Page<Post>)
      reads this
      requires Valid() && perPage >= 1 && page >= 1
      ensures p.total == |remote| - DeletedCount(remote, deletedPosts) + |localPosts|
      ensures forall q :: q in p.data ==> q.id !in deletedPosts
    {
      NoDeletedOnAnyPage(remote, localPosts, editedPosts, deletedPosts, localAt, perPage, page);
      Paginate(Feed(remote, localPosts, editedPosts, deletedPosts, localAt), perPage, page)
    }

    /**
     * store: a new local post with an unused negative id, inserted at
     * position `at` among the local posts; nothing else changes.
     */
    method Store(title: string, body: string, userId: int, newId: int, at: nat)
      requires Valid()
      requires newId < 0 && LocalIndex(localPosts, newId).None?
      requires at <= |localPosts|
      modifies this
      ensures Valid()
      ensures localPosts == old(localPosts)[..at] + [Post(newId, title, body, userId)] + old(localPosts)[at..]
      ensures editedPosts == old(editedPosts) && deletedPosts == old(deletedPosts)
    {
      var p := Post(newId, title, body, userId);
      InsertKeepsLocalIds(localPosts, at, p);
      localPosts := localPosts[..at] + [p] + localPosts[at..];
    }

    /**
     * update: a negative id names a local post, which is replaced in place
     * (nothing changes when there is none); any other id records the new
     * version in `edited_posts`. Returns the page to redirect to.
     */
    method Update(id: int, title: string, body: string, userId: int, pageParam: Option<int>) returns (redirectPage: int)
      requires Valid()
      modifies this
      ensures Valid()
      ensures redirectPage == RedirectPage(pageParam)
      ensures deletedPosts == old(deletedPosts)
      ensures id < 0 ==> editedPosts == old(editedPosts)
      ensures id < 0 && LocalIndex(old(localPosts), id).Some? ==>
        localPosts == old(localPosts)[LocalIndex(old(localPosts), id).value := Post(id, title, body, userId)]
      ensures id < 0 && LocalIndex(old(localPosts), id).None? ==> localPosts == old(localPosts)
      ensures id >= 0 ==>
        localPosts == old(localPosts) && editedPosts == old(editedPosts)[id := Post(id, title, body, userId)]
    {
      if id < 0 {
        var k := LocalIndex(localPosts, id);
        if k.Some? {
          localPosts := localPosts[k.value := Post(id, title, body, userId)];
        }
      } else {
        editedPosts := editedPosts[id := Post(id, title, body, userId)];
      }
      redirectPage := RedirectPage(pageParam);
    }

    /**
     * destroy: a negative id removes that local post and keeps the others in
     * order; any other id is added to `deleted_posts`. Returns the page to
     * redirect to.
     */
    method Destroy(id: int, pageParam: Option<int>) returns (redirectPage: int)
      requires Valid()
      modifies this
      ensures Valid()
      ensures redirectPage == RedirectPage(pageParam)
      ensures editedPosts == old(editedPosts)
      ensures id < 0 ==> deletedPosts == old(deletedPosts)
      ensures id < 0 && LocalIndex(old(localPosts), id).Some? ==>
        var k := LocalIndex(old(localPosts), id).value;
        localPosts == old(localPosts)[..k] + old(localPosts)[k + 1..]
      ensures id < 0 ==> forall p :: p in localPosts ==> p.id != id
      ensures id < 0 && LocalIndex(old(localPosts), id).None? ==> localPosts == old(localPosts)
      ensures id >= 0 ==> localPosts == old(localPosts) && deletedPosts == old(deletedPosts) + {id}
    {
      if id < 0 {
        var k := LocalIndex(localPosts, id);
        if k.Some? {
          RemoveKeepsLocalIds(localPosts, k.value);
          localPosts := localPosts[..k.value] + localPosts[k.value + 1..];
        }
      } else {
        deletedPosts := deletedPosts + {id};
      }
      redirectPage := RedirectPage(pageParam);
    }
  }

  /** Storing on a fresh session leaves exactly one local post, with a negative id and the given title. */
  method StoreOnFreshSession(title: string, body: string, userId: int, newId: int) returns (s: SessionOverlay)
    requires newId < 0
    ensures s.Valid()
    ensures |s.localPosts| == 1 && s.localPosts[0].id < 0 && s.localPosts[0].title == title
  {
    s := new SessionOverlay();
    s.Store(title, body, userId, newId, 0);
  }

  /** Deleting -1 from the local posts [-1, -2] leaves [-2]. */
  method DeleteFirstLocalPost() returns (s: SessionOverlay)
    ensures |s.localPosts| == 1 && s.localPosts[0].id == -2
  {
    s := new SessionOverlay();
    s.Store("Post 1", "Body 1", 1, -1, 0);
    s.Store("Post 2", "Body 2", 1, -2, 1);
    var _ := s.Destroy(-1, None);
  }
}
