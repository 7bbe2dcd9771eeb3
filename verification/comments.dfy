/** The comments of a video: the `comments` table with its two mutations
    (`create`, with the one-level nesting rule, and `remove`, owner only)
    and the `getMany` listing, a keyset page of one video's top-level
    comments or of one comment's replies, each decorated with its like,
    dislike and reply counts and the viewer's own reaction, together with
    the number of comments on the video. */
module Comments {
  import opened Common
  import opened Keyset
  import opened CommentReactions

  datatype Comment = Comment(
    id: Id, userId: Id, videoId: Id, parentId: Option<Id>, value: string, updatedAt: Timestamp)

  /** A listed comment with its per-row aggregates. */
  datatype CommentItem = CommentItem(
    comment: Comment,
    likeCount: nat,
    dislikeCount: nat,
    viewerReaction: Option<ReactionType>,
    replyCount: Option<nat>)

  /** The response of `getMany`: the page and `totalCount`. */
  datatype CommentList = CommentList(page: Page<CommentItem>, totalCount: nat)

  // ---------------------------------------------------------------------
  // Per-row aggregates
  // ---------------------------------------------------------------------

  /** The keys of the reactions of kind `kind` on `commentId`. */
  function ReactionKeys(m: Reactions, commentId: Id, kind: ReactionType): set<(Id, Id)>
  {
    set k | k in m && k.1 == commentId && m[k] == kind
  }

  /** `likeCount` (kind `Like`) and `dislikeCount` (kind `Dislike`): how
      many users reacted to the comment with that kind. */
  function ReactionCount(m: Reactions, commentId: Id, kind: ReactionType): (n: nat)
    ensures n == 0 <==> forall k :: k in m && k.1 == commentId ==> m[k] != kind
  {
    var keys := ReactionKeys(m, commentId, kind);
    assert forall k :: k in m && k.1 == commentId && m[k] == kind ==> k in keys;
    |keys|
  }

  /** `viewerReaction`: the caller's own reaction to the comment; none for
      an anonymous caller or one who has not reacted. */
  function ViewerReaction(m: Reactions, viewer: Option<Id>, commentId: Id): (r: Option<ReactionType>)
    ensures viewer.None? ==> r.None?
    ensures viewer.Some? ==> (r.Some? <==> (viewer.value, commentId) in m)
    ensures r.Some? ==> viewer.Some? && m[(viewer.value, commentId)] == r.value
  {
    if viewer.Some? && (viewer.value, commentId) in m then Some(m[(viewer.value, commentId)]) else None
  }

  /** A toggle moves the requested kind's count by one: down when the
      caller had that reaction (it is deleted), up otherwise. */
  lemma ToggleCount(m: Reactions, userId: Id, commentId: Id, kind: ReactionType)
    ensures var key := (userId, commentId);
      var before, after := ReactionCount(m, commentId, kind), ReactionCount(Toggle(m, userId, commentId, kind), commentId, kind);
      if key in m && m[key] == kind then after + 1 == before else after == before + 1
  {
    var key := (userId, commentId);
    var before, after := ReactionKeys(m, commentId, kind), ReactionKeys(Toggle(m, userId, commentId, kind), commentId, kind);
    if key in m && m[key] == kind {
      assert after == before - {key};
    } else {
      assert after == before + {key};
    }
  }

  /** A toggle lowers the other kind's count by one when the caller had a
      reaction of that kind (the upsert overwrote it), and leaves it alone
      otherwise. */
  lemma ToggleOtherCount(m: Reactions, userId: Id, commentId: Id, kind: ReactionType, other: ReactionType)
    requires other != kind
    ensures var key := (userId, commentId);
      var before, after := ReactionCount(m, commentId, other), ReactionCount(Toggle(m, userId, commentId, kind), commentId, other);
      if key in m && m[key] == other then after + 1 == before else after == before
  {
    var key := (userId, commentId);
    var before, after := ReactionKeys(m, commentId, other), ReactionKeys(Toggle(m, userId, commentId, kind), commentId, other);
    if key in m && m[key] == other {
      assert after == before - {key};
    } else {
      assert after == before;
    }
  }

  /** A toggle on one comment leaves every other comment's counts alone. */
  lemma ToggleKeepsOtherCounts(m: Reactions, userId: Id, commentId: Id, kind: ReactionType, otherComment: Id, k: ReactionType)
    requires otherComment != commentId
    ensures ReactionCount(Toggle(m, userId, commentId, kind), otherComment, k) == ReactionCount(m, otherComment, k)
  {
    assert ReactionKeys(Toggle(m, userId, commentId, kind), otherComment, k) == ReactionKeys(m, otherComment, k);
  }

  /** After a toggle the caller sees no reaction if they had one of that
      kind, and that kind otherwise; every other viewer sees what they saw. */
  lemma ToggleViewerReaction(m: Reactions, userId: Id, commentId: Id, kind: ReactionType, viewer: Option<Id>)
    ensures var had := (userId, commentId) in m && m[(userId, commentId)] == kind;
      ViewerReaction(Toggle(m, userId, commentId, kind), Some(userId), commentId) ==
        (if had then None else Some(kind))
    ensures viewer != Some(userId) ==>
      ViewerReaction(Toggle(m, userId, commentId, kind), viewer, commentId) == ViewerReaction(m, viewer, commentId)
  {
    if viewer.Some? && viewer != Some(userId) {
      ToggleKeepsOthers(m, userId, commentId, kind, (viewer.value, commentId));
    }
  }

  predicate IsReplyTo(c: Comment, id: Id)
  {
    c.parentId == Some(id)
  }

  /** The comments that answer comment `id`, in table order. */
  function RepliesTo(comments: seq<Comment>, id: Id): seq<Comment>
  {
    Filter(comments, (c: Comment) => IsReplyTo(c, id))
  }

  /** `replyCount`: how many comments answer this one; null (`None`) when
      there are none, as the left join against the grouped counts gives. */
  function ReplyCount(comments: seq<Comment>, id: Id): (r: Option<nat>)
    ensures r.None? <==> forall i :: 0 <= i < |comments| ==> !IsReplyTo(comments[i], id)
    ensures r.Some? ==> 1 <= r.value <= |comments|
    ensures r.Some? ==> r.value == |RepliesTo(comments, id)|
  {
    var n := CountIf(comments, (c: Comment) => IsReplyTo(c, id));
    if n == 0 then None else Some(n)
  }

  /** The comments on the video, top-level and replies alike, in table
      order. */
  function OnVideo(comments: seq<Comment>, videoId: Id): seq<Comment>
  {
    Filter(comments, (c: Comment) => c.videoId == videoId)
  }

  /** `totalCount`: every comment on the video, top-level and replies alike,
      whatever the cursor and the `parentId` asked for. */
  function TotalCount(comments: seq<Comment>, videoId: Id): (n: nat)
    ensures n <= |comments|
    ensures n == 0 <==> forall i :: 0 <= i < |comments| ==> comments[i].videoId != videoId
    ensures n == |OnVideo(comments, videoId)|
  {
    CountIf(comments, (c: Comment) => c.videoId == videoId)
  }

  // ---------------------------------------------------------------------
  // getMany
  // ---------------------------------------------------------------------

  /** The scope filter: the comment is on the video, and it is a reply to
      `parentId`, or top-level when no `parentId` is given. */
  predicate InScope(c: Comment, videoId: Id, parentId: Option<Id>)
  {
    c.videoId == videoId && c.parentId == parentId
  }

  /** A comment seen by the paginator: positioned by `(updatedAt, id)` and
      decorated with its aggregates. */
  function Decorate(comments: seq<Comment>, m: Reactions, viewer: Option<Id>, c: Comment): Entry<CommentItem>
  {
    Entry(Pos(c.updatedAt, c.id),
      CommentItem(c, ReactionCount(m, c.id, Like), ReactionCount(m, c.id, Dislike),
        ViewerReaction(m, viewer, c.id), ReplyCount(comments, c.id)))
  }

  function Scoped(comments: seq<Comment>, m: Reactions, viewer: Option<Id>, videoId: Id, parentId: Option<Id>): seq<Entry<CommentItem>>
  {
    Select(comments, (c: Comment) => InScope(c, videoId, parentId), (c: Comment) => Decorate(comments, m, viewer, c))
  }

  /** Every scoped entry is a stored comment in scope, decorated. */
  lemma ScopedEntries(comments: seq<Comment>, m: Reactions, viewer: Option<Id>, videoId: Id, parentId: Option<Id>)
    ensures forall e | e in Scoped(comments, m, viewer, videoId, parentId) ::
      && e.row.comment in comments
      && InScope(e.row.comment, videoId, parentId)
      && e == Decorate(comments, m, viewer, e.row.comment)
  {
  }

  /** The rows listed by a query ordered by `order`. */
  function ListComments(order: Order, comments: seq<Comment>, m: Reactions, viewer: Option<Id>,
    videoId: Id, parentId: Option<Id>, cursor: Option<Pos>, limit: int): (r: Result<CommentList>)
    ensures r.Failure? <==> !(MinLimit <= limit <= MaxLimit)
    ensures r.Failure? ==> r.error == ValidationError
    ensures MinLimit <= limit <= MaxLimit ==>
      r == Success(CommentList(Fetch(order, Scoped(comments, m, viewer, videoId, parentId), cursor, limit),
                               TotalCount(comments, videoId)))
    ensures r.Success? ==> r.value.totalCount == TotalCount(comments, videoId)
    ensures r.Success? ==>
      var p := r.value.page;
      && |p.items| <= limit
      && p.items == Sort(order, Seek(Scoped(comments, m, viewer, videoId, parentId), cursor))[..|p.items|]
      && (p.nextCursor.Some? <==> |Seek(Scoped(comments, m, viewer, videoId, parentId), cursor)| > limit)
      && (p.nextCursor.None? ==> |p.items| == |Seek(Scoped(comments, m, viewer, videoId, parentId), cursor)|)
      && (p.nextCursor.Some? ==> |p.items| == limit && p.nextCursor.value == p.items[limit - 1].pos)
      && Sorted(order, p.items)
      && forall e | e in p.items ::
           && e.row.comment in comments
           && InScope(e.row.comment, videoId, parentId)
           && PastCursor(e.pos, cursor)
           && e == Decorate(comments, m, viewer, e.row.comment)
  {
    var table := Scoped(comments, m, viewer, videoId, parentId);
    ScopedEntries(comments, m, viewer, videoId, parentId);
    match Query(order, table, cursor, limit)
    case Failure(e) => Failure(e)
    case Success(p) => Success(CommentList(p, TotalCount(comments, videoId)))
  }

  /** `getMany` as written: the seek predicate breaks `updatedAt` ties by
      `id`, but the query orders by `updatedAt` alone, so tied comments
      come back in whatever order the database picks (here: table order). */
  function GetMany(comments: seq<Comment>, m: Reactions, viewer: Option<Id>,
    videoId: Id, parentId: Option<Id>, cursor: Option<Pos>, limit: int): (r: Result<CommentList>)
    ensures r == ListComments(ByAtOnly, comments, m, viewer, videoId, parentId, cursor, limit)
    ensures MinLimit <= limit <= MaxLimit ==>
      r == Success(CommentList(Fetch(ByAtOnly, Scoped(comments, m, viewer, videoId, parentId), cursor, limit),
                               TotalCount(comments, videoId)))
    ensures r.Success? ==> forall i, j :: 0 <= i < j < |r.value.page.items| ==>
      r.value.page.items[i].pos.at >= r.value.page.items[j].pos.at
  {
    ListComments(ByAtOnly, comments, m, viewer, videoId, parentId, cursor, limit)
  }

  /** `getMany` with the order its seek predicate assumes:
      `ORDER BY updatedAt DESC, id DESC`. */
  function GetManyOrdered(comments: seq<Comment>, m: Reactions, viewer: Option<Id>,
    videoId: Id, parentId: Option<Id>, cursor: Option<Pos>, limit: int): (r: Result<CommentList>)
    ensures r == ListComments(ByAtThenId, comments, m, viewer, videoId, parentId, cursor, limit)
    ensures MinLimit <= limit <= MaxLimit ==>
      r == Success(CommentList(Fetch(ByAtThenId, Scoped(comments, m, viewer, videoId, parentId), cursor, limit),
                               TotalCount(comments, videoId)))
  {
    ListComments(ByAtThenId, comments, m, viewer, videoId, parentId, cursor, limit)
  }

  predicate UniqueIds(comments: seq<Comment>)
  {
    forall i, j :: 0 <= i < j < |comments| ==> comments[i].id != comments[j].id
  }

  /** With the corrected order, following `nextCursor` from the first page
      until it is null lists every comment in scope exactly once, newest
      first. */
  lemma CommentsListedOnce(comments: seq<Comment>, m: Reactions, viewer: Option<Id>,
    videoId: Id, parentId: Option<Id>, limit: int)
    requires MinLimit <= limit <= MaxLimit
    requires UniqueIds(comments)
    ensures var table := Scoped(comments, m, viewer, videoId, parentId);
      var walk := Flatten(Pages(ByAtThenId, table, None, limit));
      && multiset(walk) == multiset(table)
      && Sorted(ByAtThenId, walk)
      && Distinct(walk)
      && forall c | c in comments && InScope(c, videoId, parentId) ::
           Decorate(comments, m, viewer, c) in walk
  {
    var table := Scoped(comments, m, viewer, videoId, parentId);
    SelectDistinct(comments, (c: Comment) => InScope(c, videoId, parentId), (c: Comment) => Decorate(comments, m, viewer, c));
    ListsEveryRowOnce(table, limit);
    var walk := Flatten(Pages(ByAtThenId, table, None, limit));
    forall c | c in comments && InScope(c, videoId, parentId)
      ensures Decorate(comments, m, viewer, c) in walk
    {
      assert Decorate(comments, m, viewer, c) in multiset(table);
    }
  }

  /** Two top-level comments on one video with the same `updatedAt`. */
  const TiedFirst: Comment := Comment(1, 10, 20, None, "first", 5)
  const TiedSecond: Comment := Comment(2, 11, 20, None, "second", 5)

  /** As written, a comment tied on `updatedAt` with the last row of a
      page, and with a larger id, is never listed: the first page (limit 1)
      holds the first comment and hands out the cursor `(5, 1)`; the next
      call, from that cursor, lists nothing, and the walk ends. */
  lemma TiedCommentSkipped()
    ensures var comments, m := [TiedFirst, TiedSecond], map[];
      var first := GetMany(comments, m, None, 20, None, None, 1);
      var second := GetMany(comments, m, None, 20, None, Some(Pos(5, 1)), 1);
      && InScope(TiedSecond, 20, None)
      && first.Success? && second.Success?
      && first.value.page.nextCursor == Some(Pos(5, 1))
      && |first.value.page.items| == 1 && first.value.page.items[0].row.comment == TiedFirst
      && second.value.page.items == [] && second.value.page.nextCursor.None?
  {
    var comments: seq<Comment>, m: Reactions := [TiedFirst, TiedSecond], map[];
    var e1, e2 := Decorate(comments, m, None, TiedFirst), Decorate(comments, m, None, TiedSecond);
    TiedScope();
    TiedPages(e1, e2);
  }

  /** Both tied comments are in the scope of the top-level listing of
      their video, in table order. */
  lemma TiedScope()
    ensures var comments: seq<Comment>, m: Reactions := [TiedFirst, TiedSecond], map[];
      Scoped(comments, m, None, 20, None) ==
        [Decorate(comments, m, None, TiedFirst), Decorate(comments, m, None, TiedSecond)]
  {
    var comments: seq<Comment>, m: Reactions := [TiedFirst, TiedSecond], map[];
    SelectBoth([TiedFirst, TiedSecond], (c: Comment) => InScope(c, 20, None),
      (c: Comment) => Decorate(comments, m, None, c));
  }

  /** Scoping two rows that both pass keeps both, in order. */
  lemma SelectBoth<R, T>(rows: seq<R>, keep: R -> bool, entry: R -> Entry<T>)
    requires |rows| == 2 && keep(rows[0]) && keep(rows[1])
    ensures Select(rows, keep, entry) == [entry(rows[0]), entry(rows[1])]
  {
    assert rows[1..][1..] == [];
  }

  /** The two pages of limit 1 over two entries tied on `at`, the one with
      the smaller id first, under the as-written order. */
  lemma TiedPages<T>(e1: Entry<T>, e2: Entry<T>)
    requires e1.pos == Pos(5, 1) && e2.pos == Pos(5, 2)
    ensures Fetch(ByAtOnly, [e1, e2], None, 1) == Page([e1], Some(Pos(5, 1)))
    ensures Fetch(ByAtOnly, [e1, e2], Some(Pos(5, 1)), 1) == Page([], None)
  {
    var table := [e1, e2];
    assert Seek(table, None) == [e1, e2] by {
      SeekSplit(table, None, 0);
    }
    assert Sort(ByAtOnly, [e2]) == [e2];
    assert Sort(ByAtOnly, [e1, e2]) == [e1, e2] by {
      assert [e1, e2][1..] == [e2];
    }
    assert Seek(table, Some(Pos(5, 1))) == [] by {
      assert table[1..] == [e2];
      assert table[1..][1..] == [];
    }
  }

  // ---------------------------------------------------------------------
  // The table and its mutations
  // ---------------------------------------------------------------------

  /** The first comment with id `id`. */
  function Find(comments: seq<Comment>, id: Id): (r: Option<Comment>)
    ensures r.Some? ==> r.value in comments && r.value.id == id
    ensures r.None? ==> forall i :: 0 <= i < |comments| ==> comments[i].id != id
  {
    if comments == [] then None
    else if comments[0].id == id then Some(comments[0])
    else
      assert forall i :: 1 <= i < |comments| ==> comments[i] == comments[1..][i - 1];
      Find(comments[1..], id)
  }

  /** Replies nest one level: a comment that answers a stored comment
      answers a top-level one. */
  predicate OneLevel(comments: seq<Comment>)
  {
    forall c, p | c in comments && p in comments && IsReplyTo(c, p.id) :: p.parentId.None?
  }

  /** An id the store may hand to a new comment: unused, and not the
      `parentId` of any stored comment (generated ids are never reused). */
  predicate FreshId(comments: seq<Comment>, id: Id)
  {
    forall i :: 0 <= i < |comments| ==> comments[i].id != id && !IsReplyTo(comments[i], id)
  }

  /** The `parentId` of a new comment is acceptable: none, or a stored
      top-level comment. */
  predicate ParentAccepts(comments: seq<Comment>, parentId: Option<Id>)
  {
    parentId.Some? ==> Find(comments, parentId.value).Some? && Find(comments, parentId.value).value.parentId.None?
  }

  class CommentTable {
    var comments: seq<Comment>

    predicate Valid()
      reads this
    {
      UniqueIds(comments) && OneLevel(comments)
    }

    constructor ()
      ensures comments == [] && Valid()
    {
      comments := [];
    }

    /** `create`: an empty text is rejected by the input schema; a
        `parentId` must name a stored comment (NOT_FOUND) that is not itself
        a reply (BAD_REQUEST); otherwise the comment is inserted with the
        generated id `newId` and the time `now`. */
    method Create(userId: Id, videoId: Id, value: string, parentId: Option<Id>, newId: Id, now: Timestamp)
      returns (r: Result<Comment>)
      requires Valid()
      requires FreshId(comments, newId)
      modifies this
      ensures Valid()
      ensures value == [] ==> r == Failure(ValidationError)
      ensures value != [] && parentId.Some? && Find(old(comments), parentId.value).None? ==>
        r == Failure(NotFound)
      ensures (value != [] && parentId.Some? && Find(old(comments), parentId.value).Some? &&
               Find(old(comments), parentId.value).value.parentId.Some?) ==> r == Failure(BadRequest)
      ensures r.Failure? ==> comments == old(comments)
      ensures r.Success? ==>
        && r.value == Comment(newId, userId, videoId, parentId, value, now)
        && comments == old(comments) + [r.value]
      ensures r.Success? <==> value != [] && ParentAccepts(old(comments), parentId)
    {
      if value == [] {
        return Failure(ValidationError);
      }
      if parentId.Some? {
        var existing := Find(comments, parentId.value);
        if existing.None? {
          return Failure(NotFound);
        }
        if existing.value.parentId.Some? {
          return Failure(BadRequest);
        }
      }
      var created := Comment(newId, userId, videoId, parentId, value, now);
      AppendKeepsValid(comments, created);
      comments := comments + [created];
      return Success(created);
    }

    /** `remove`: delete the caller's own comment with id `id`; NOT_FOUND,
        and no change, when the caller has no comment with that id. */
    method Remove(userId: Id, id: Id) returns (r: Result<Comment>)
      requires Valid()
      modifies this
      ensures Valid()
      ensures r.Failure? <==> !exists i :: 0 <= i < |old(comments)| && old(comments)[i].id == id && old(comments)[i].userId == userId
      ensures r.Failure? ==> r.error == NotFound && comments == old(comments)
      ensures r.Success? ==>
        && r.value in old(comments) && r.value.id == id && r.value.userId == userId
        && comments == Filter(old(comments), (c: Comment) => c.id != id)
    {
      var found := Find(comments, id);
      if found.None? || found.value.userId != userId {
        if found.Some? {
          UniqueIdFind(comments, id);
        }
        return Failure(NotFound);
      }
      RemoveKeepsValid(comments, id);
      comments := Filter(comments, (c: Comment) => c.id != id);
      return Success(found.value);
    }
  }

  /** Among unique ids, the comment `Find` returns is the only one with
      that id. */
  lemma UniqueIdFind(comments: seq<Comment>, id: Id)
    requires UniqueIds(comments)
    requires Find(comments, id).Some?
    ensures forall i :: 0 <= i < |comments| && comments[i].id == id ==> comments[i] == Find(comments, id).value
  {
    var c := Find(comments, id).value;
    var k :| 0 <= k < |comments| && comments[k] == c;
    forall i | 0 <= i < |comments| && comments[i].id == id ensures comments[i] == c {
      assert i == k;
    }
  }

  /** Inserting a top-level comment, or a reply to a stored top-level
      comment, under a fresh id keeps ids unique and nesting one level. */
  lemma AppendKeepsValid(comments: seq<Comment>, c: Comment)
    requires UniqueIds(comments) && OneLevel(comments)
    requires FreshId(comments, c.id)
    requires c.parentId.Some? ==> Find(comments, c.parentId.value).Some? && Find(comments, c.parentId.value).value.parentId.None?
    ensures UniqueIds(comments + [c]) && OneLevel(comments + [c])
  {
    var s := comments + [c];
    forall x, p | x in s && p in s && IsReplyTo(x, p.id) ensures p.parentId.None? {
      if x == c && p != c {
        var q := Find(comments, c.parentId.value).value;
        var k :| 0 <= k < |comments| && comments[k] == q;
        var j :| 0 <= j < |comments| && comments[j] == p;
        assert comments[k].id == comments[j].id;
      }
    }
  }

  /** Deleting a comment keeps ids unique and nesting one level. */
  lemma RemoveKeepsValid(comments: seq<Comment>, id: Id)
    requires UniqueIds(comments) && OneLevel(comments)
    ensures var s := Filter(comments, (c: Comment) => c.id != id); UniqueIds(s) && OneLevel(s)
  {
    FilterPairwise(comments, (c: Comment) => c.id != id, (a: Comment, b: Comment) => a.id != b.id);
  }
}
