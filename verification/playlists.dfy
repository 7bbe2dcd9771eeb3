/** Playlists: the caller's playlists, their watch history and liked
    videos as keyset pages, the playlists listing used when adding a video
    (with `containsVideo`), and the membership mutations `create`,
    `addVideo` and `removeVideo`. */
module Playlists {
  import opened Common
  import opened Keyset

  datatype Visibility = Public | Private

  datatype Playlist = Playlist(id: Id, userId: Id, name: string, updatedAt: Timestamp)

  datatype Video = Video(id: Id, userId: Id, visibility: Visibility)

  /** A row of `playlist_videos`. */
  datatype PlaylistVideo = PlaylistVideo(playlistId: Id, videoId: Id)

  /** A row of `video_reactions` without its key (userId, videoId). */
  datatype VideoReaction = VideoReaction(kind: ReactionType, updatedAt: Timestamp)

  /** `playlist_videos`: at most one row per (playlist, video), which is
      what the CONFLICT check of `addVideo` keeps. */
  type Memberships = set<PlaylistVideo>

  /** `video_views`: (userId, videoId) to the view's `updatedAt`. */
  type VideoViews = map<(Id, Id), Timestamp>

  /** `video_reactions`: (userId, videoId) to the reaction. */
  type VideoReactions = map<(Id, Id), VideoReaction>

  // ---------------------------------------------------------------------
  // Per-row aggregates
  // ---------------------------------------------------------------------

  function MembersOf(pv: Memberships, playlistId: Id): set<PlaylistVideo>
  {
    set x | x in pv && x.playlistId == playlistId
  }

  /** `videoCount`: the membership rows of the playlist. */
  function VideoCount(pv: Memberships, playlistId: Id): (n: nat)
    ensures n == 0 <==> forall x | x in pv :: x.playlistId != playlistId
  {
    assert forall x | x in pv && x.playlistId == playlistId :: x in MembersOf(pv, playlistId);
    |MembersOf(pv, playlistId)|
  }

  /** `containsVideo`: a membership row links the playlist to the video. */
  function ContainsVideo(pv: Memberships, playlistId: Id, videoId: Id): (b: bool)
    ensures b <==> exists x | x in pv :: x.playlistId == playlistId && x.videoId == videoId
  {
    assert forall x | x in pv && x.playlistId == playlistId && x.videoId == videoId :: x == PlaylistVideo(playlistId, videoId);
    PlaylistVideo(playlistId, videoId) in pv
  }

  /** The keys of the view rows of the video, one per viewer. */
  function ViewersOf(views: VideoViews, videoId: Id): set<(Id, Id)>
  {
    set k | k in views && k.1 == videoId
  }

  /** `viewCount`: the view rows of the video, one per viewer. */
  function ViewCount(views: VideoViews, videoId: Id): (n: nat)
    ensures n == 0 <==> forall k | k in views :: k.1 != videoId
  {
    assert forall k | k in views && k.1 == videoId :: k in ViewersOf(views, videoId);
    |ViewersOf(views, videoId)|
  }

  /** The keys of the "like" reactions to the video. */
  function LikersOf(reactions: VideoReactions, videoId: Id): set<(Id, Id)>
  {
    set k | k in reactions && k.1 == videoId && reactions[k].kind == Like
  }

  /** `likeCount`: the "like" reactions to the video. */
  function VideoLikeCount(reactions: VideoReactions, videoId: Id): (n: nat)
    ensures n == 0 <==> forall k | k in reactions && k.1 == videoId :: reactions[k].kind != Like
  {
    assert forall k | k in reactions && k.1 == videoId && reactions[k].kind == Like :: k in LikersOf(reactions, videoId);
    |LikersOf(reactions, videoId)|
  }

  /** Recording a view (a new row, or a new time on the viewer's row)
      raises the video's `viewCount` by one exactly when the viewer had no
      row yet; no other video's count moves. */
  lemma ViewCounts(views: VideoViews, userId: Id, videoId: Id, at: Timestamp, other: Id)
    ensures ViewCount(views[(userId, videoId) := at], videoId) ==
      ViewCount(views, videoId) + (if (userId, videoId) in views then 0 else 1)
    ensures other != videoId ==> ViewCount(views[(userId, videoId) := at], other) == ViewCount(views, other)
  {
    var key := (userId, videoId);
    var after := views[key := at];
    ViewersAfterRecord(views, key, at, videoId);
    SwapCount(ViewersOf(views, videoId), ViewersOf(after, videoId), key, key in views, true);
    if other != videoId {
      ViewersAfterRecord(views, key, at, other);
      SwapCount(ViewersOf(views, other), ViewersOf(after, other), key, false, false);
    }
  }

  /** The viewers after recording a view at `key`: the others, plus `key`
      when it names this video. */
  lemma ViewersAfterRecord(views: VideoViews, key: (Id, Id), at: Timestamp, videoId: Id)
    ensures ViewersOf(views[key := at], videoId) ==
      (ViewersOf(views, videoId) - {key}) + (if key.1 == videoId then {key} else {})
  {
  }

  /** Upserting a user's reaction to a video moves its `likeCount` by the
      like it overwrites and the like it stores; no other video's count
      moves. */
  lemma LikeUpsertCounts(reactions: VideoReactions, userId: Id, videoId: Id, r: VideoReaction, other: Id)
    ensures var key := (userId, videoId);
      VideoLikeCount(reactions[key := r], videoId) + (if key in reactions && reactions[key].kind == Like then 1 else 0) ==
        VideoLikeCount(reactions, videoId) + (if r.kind == Like then 1 else 0)
    ensures other != videoId ==>
      VideoLikeCount(reactions[(userId, videoId) := r], other) == VideoLikeCount(reactions, other)
  {
    var key := (userId, videoId);
    var after := reactions[key := r];
    LikersAfterUpsert(reactions, key, r, videoId);
    SwapCount(LikersOf(reactions, videoId), LikersOf(after, videoId), key,
      key in reactions && reactions[key].kind == Like, r.kind == Like);
    if other != videoId {
      LikersAfterUpsert(reactions, key, r, other);
      SwapCount(LikersOf(reactions, other), LikersOf(after, other), key, false, false);
    }
  }

  /** The likes after an upsert at `key`: the others, plus `key` when the
      stored reaction is a like of this video. */
  lemma LikersAfterUpsert(reactions: VideoReactions, key: (Id, Id), r: VideoReaction, videoId: Id)
    ensures LikersOf(reactions[key := r], videoId) ==
      (LikersOf(reactions, videoId) - {key}) + (if key.1 == videoId && r.kind == Like then {key} else {})
  {
  }

  /** Removing `key` from a set shrinks it by one exactly when it was
      there. */
  lemma DropCount<K>(s: set<K>, key: K)
    ensures |s - {key}| + (if key in s then 1 else 0) == |s|
  {
    if key in s {
      assert s == (s - {key}) + {key};
    } else {
      assert s - {key} == s;
    }
  }

  /** Replacing whether `key` is in a set changes its size by what was
      removed and what was added. */
  lemma SwapCount<K>(before: set<K>, after: set<K>, key: K, had: bool, has: bool)
    requires had <==> key in before
    requires after == (before - {key}) + (if has then {key} else {})
    ensures |after| + (if had then 1 else 0) == |before| + (if has then 1 else 0)
  {
    DropCount(before, key);
    if has {
      DropCount(after, key);
      assert after - {key} == before - {key};
    } else {
      assert after == before - {key};
    }
  }

  /** Deleting a user's reaction to a video removes its like, if it was
      one; no other video's count moves. */
  lemma LikeDeleteCounts(reactions: VideoReactions, userId: Id, videoId: Id, other: Id)
    ensures var key := (userId, videoId);
      VideoLikeCount(reactions - {key}, videoId) + (if key in reactions && reactions[key].kind == Like then 1 else 0) ==
        VideoLikeCount(reactions, videoId)
    ensures other != videoId ==>
      VideoLikeCount(reactions - {(userId, videoId)}, other) == VideoLikeCount(reactions, other)
  {
    var key := (userId, videoId);
    var after := reactions - {key};
    LikersAfterDelete(reactions, key, videoId);
    DropCount(LikersOf(reactions, videoId), key);
    if other != videoId {
      LikersAfterDelete(reactions, key, other);
      DropCount(LikersOf(reactions, other), key);
    }
  }

  /** The likes after deleting the reaction at `key`: the others. */
  lemma LikersAfterDelete(reactions: VideoReactions, key: (Id, Id), videoId: Id)
    ensures LikersOf(reactions - {key}, videoId) == LikersOf(reactions, videoId) - {key}
  {
  }

  // ---------------------------------------------------------------------
  // Listings
  // ---------------------------------------------------------------------

  datatype PlaylistItem = PlaylistItem(playlist: Playlist, videoCount: nat)

  datatype PlaylistForVideoItem = PlaylistForVideoItem(playlist: Playlist, videoCount: nat, containsVideo: bool)

  /** A video of the history or liked listing: `at` is `viewedAt` or
      `likedAt`. */
  datatype VideoItem = VideoItem(video: Video, at: Timestamp, viewCount: nat, likeCount: nat)

  predicate Owned(p: Playlist, userId: Id)
  {
    p.userId == userId
  }

  function PlaylistEntry(pv: Memberships, p: Playlist): Entry<PlaylistItem>
  {
    Entry(Pos(p.updatedAt, p.id), PlaylistItem(p, VideoCount(pv, p.id)))
  }

  function OwnedPlaylists(playlists: seq<Playlist>, pv: Memberships, userId: Id): seq<Entry<PlaylistItem>>
  {
    Select(playlists, (p: Playlist) => Owned(p, userId), (p: Playlist) => PlaylistEntry(pv, p))
  }

  /** `getMany`: the caller's playlists, newest first, with `videoCount`. */
  function GetMany(playlists: seq<Playlist>, pv: Memberships, userId: Id, cursor: Option<Pos>, limit: int)
    : (r: Result<Page<PlaylistItem>>)
    ensures r.Failure? <==> !(MinLimit <= limit <= MaxLimit)
    ensures r.Failure? ==> r.error == ValidationError
    ensures MinLimit <= limit <= MaxLimit ==>
      r == Success(Fetch(ByAtThenId, OwnedPlaylists(playlists, pv, userId), cursor, limit))
    ensures r.Success? ==>
      var p := r.value;
      && |p.items| <= limit
      && p.items == Sort(ByAtThenId, Seek(OwnedPlaylists(playlists, pv, userId), cursor))[..|p.items|]
      && (p.nextCursor.Some? <==> |Seek(OwnedPlaylists(playlists, pv, userId), cursor)| > limit)
      && (p.nextCursor.None? ==> |p.items| == |Seek(OwnedPlaylists(playlists, pv, userId), cursor)|)
      && (p.nextCursor.Some? ==> |p.items| == limit && p.nextCursor.value == p.items[limit - 1].pos)
      && Sorted(ByAtThenId, p.items)
      && forall e | e in p.items ::
           && e.row.playlist in playlists
           && Owned(e.row.playlist, userId)
           && PastCursor(e.pos, cursor)
           && e == PlaylistEntry(pv, e.row.playlist)
  {
    Query(ByAtThenId, OwnedPlaylists(playlists, pv, userId), cursor, limit)
  }

  function ForVideoEntry(pv: Memberships, videoId: Id, p: Playlist): Entry<PlaylistForVideoItem>
  {
    Entry(Pos(p.updatedAt, p.id), PlaylistForVideoItem(p, VideoCount(pv, p.id), ContainsVideo(pv, p.id, videoId)))
  }

  function OwnedPlaylistsForVideo(playlists: seq<Playlist>, pv: Memberships, userId: Id, videoId: Id)
    : seq<Entry<PlaylistForVideoItem>>
  {
    Select(playlists, (p: Playlist) => Owned(p, userId), (p: Playlist) => ForVideoEntry(pv, videoId, p))
  }

  /** `getManyForVideo`: the caller's playlists, each telling whether it
      already holds the video. */
  function GetManyForVideo(playlists: seq<Playlist>, pv: Memberships, userId: Id, videoId: Id,
    cursor: Option<Pos>, limit: int): (r: Result<Page<PlaylistForVideoItem>>)
    ensures r.Failure? <==> !(MinLimit <= limit <= MaxLimit)
    ensures r.Failure? ==> r.error == ValidationError
    ensures MinLimit <= limit <= MaxLimit ==>
      r == Success(Fetch(ByAtThenId, OwnedPlaylistsForVideo(playlists, pv, userId, videoId), cursor, limit))
    ensures r.Success? ==>
      var p := r.value;
      && |p.items| <= limit
      && p.items == Sort(ByAtThenId, Seek(OwnedPlaylistsForVideo(playlists, pv, userId, videoId), cursor))[..|p.items|]
      && (p.nextCursor.Some? <==> |Seek(OwnedPlaylistsForVideo(playlists, pv, userId, videoId), cursor)| > limit)
      && (p.nextCursor.None? ==> |p.items| == |Seek(OwnedPlaylistsForVideo(playlists, pv, userId, videoId), cursor)|)
      && (p.nextCursor.Some? ==> |p.items| == limit && p.nextCursor.value == p.items[limit - 1].pos)
      && Sorted(ByAtThenId, p.items)
      && forall e | e in p.items ::
           && e.row.playlist in playlists
           && Owned(e.row.playlist, userId)
           && PastCursor(e.pos, cursor)
           && e.row.videoCount == VideoCount(pv, e.row.playlist.id)
           && (e.row.containsVideo <==> PlaylistVideo(e.row.playlist.id, videoId) in pv)
  {
    Query(ByAtThenId, OwnedPlaylistsForVideo(playlists, pv, userId, videoId), cursor, limit)
  }

  /** The time stored for the key, or 0 for a key the scope filter has
      already excluded. */
  function ViewedAt(views: VideoViews, key: (Id, Id)): Timestamp
  {
    if key in views then views[key] else 0
  }

  predicate Viewed(v: Video, views: VideoViews, userId: Id)
  {
    v.visibility == Public && (userId, v.id) in views
  }

  function HistoryEntry(views: VideoViews, reactions: VideoReactions, userId: Id, v: Video): Entry<VideoItem>
  {
    var at := ViewedAt(views, (userId, v.id));
    Entry(Pos(at, v.id), VideoItem(v, at, ViewCount(views, v.id), VideoLikeCount(reactions, v.id)))
  }

  function History(videos: seq<Video>, views: VideoViews, reactions: VideoReactions, userId: Id): seq<Entry<VideoItem>>
  {
    Select(videos, (v: Video) => Viewed(v, views, userId), (v: Video) => HistoryEntry(views, reactions, userId, v))
  }

  /** `getManyHistory`: the public videos the caller viewed, most recently
      viewed first, keyed by `(viewedAt, id)`. */
  function GetManyHistory(videos: seq<Video>, views: VideoViews, reactions: VideoReactions, userId: Id,
    cursor: Option<Pos>, limit: int): (r: Result<Page<VideoItem>>)
    ensures r.Failure? <==> !(MinLimit <= limit <= MaxLimit)
    ensures r.Failure? ==> r.error == ValidationError
    ensures MinLimit <= limit <= MaxLimit ==>
      r == Success(Fetch(ByAtThenId, History(videos, views, reactions, userId), cursor, limit))
    ensures r.Success? ==>
      var p := r.value;
      && |p.items| <= limit
      && p.items == Sort(ByAtThenId, Seek(History(videos, views, reactions, userId), cursor))[..|p.items|]
      && (p.nextCursor.Some? <==> |Seek(History(videos, views, reactions, userId), cursor)| > limit)
      && (p.nextCursor.None? ==> |p.items| == |Seek(History(videos, views, reactions, userId), cursor)|)
      && (p.nextCursor.Some? ==> |p.items| == limit && p.nextCursor.value == p.items[limit - 1].pos)
      && Sorted(ByAtThenId, p.items)
      && forall e | e in p.items ::
           && e.row.video in videos
           && e.row.video.visibility == Public
           && (userId, e.row.video.id) in views
           && e.pos == Pos(views[(userId, e.row.video.id)], e.row.video.id)
           && PastCursor(e.pos, cursor)
           && e.row.viewCount == ViewCount(views, e.row.video.id)
           && e.row.likeCount == VideoLikeCount(reactions, e.row.video.id)
  {
    Query(ByAtThenId, History(videos, views, reactions, userId), cursor, limit)
  }

  predicate LikedBy(v: Video, reactions: VideoReactions, userId: Id)
  {
    v.visibility == Public && (userId, v.id) in reactions && reactions[(userId, v.id)].kind == Like
  }

  function LikedAt(reactions: VideoReactions, key: (Id, Id)): Timestamp
  {
    if key in reactions then reactions[key].updatedAt else 0
  }

  function LikedEntry(views: VideoViews, reactions: VideoReactions, userId: Id, v: Video): Entry<VideoItem>
  {
    var at := LikedAt(reactions, (userId, v.id));
    Entry(Pos(at, v.id), VideoItem(v, at, ViewCount(views, v.id), VideoLikeCount(reactions, v.id)))
  }

  function Liked(videos: seq<Video>, views: VideoViews, reactions: VideoReactions, userId: Id): seq<Entry<VideoItem>>
  {
    Select(videos, (v: Video) => LikedBy(v, reactions, userId), (v: Video) => LikedEntry(views, reactions, userId, v))
  }

  /** `getManyLiked`: the public videos the caller likes, most recently
      liked first, keyed by `(likedAt, id)`. */
  function GetManyLiked(videos: seq<Video>, views: VideoViews, reactions: VideoReactions, userId: Id,
    cursor: Option<Pos>, limit: int): (r: Result<Page<VideoItem>>)
    ensures r.Failure? <==> !(MinLimit <= limit <= MaxLimit)
    ensures r.Failure? ==> r.error == ValidationError
    ensures MinLimit <= limit <= MaxLimit ==>
      r == Success(Fetch(ByAtThenId, Liked(videos, views, reactions, userId), cursor, limit))
    ensures r.Success? ==>
      var p := r.value;
      && |p.items| <= limit
      && p.items == Sort(ByAtThenId, Seek(Liked(videos, views, reactions, userId), cursor))[..|p.items|]
      && (p.nextCursor.Some? <==> |Seek(Liked(videos, views, reactions, userId), cursor)| > limit)
      && (p.nextCursor.None? ==> |p.items| == |Seek(Liked(videos, views, reactions, userId), cursor)|)
      && (p.nextCursor.Some? ==> |p.items| == limit && p.nextCursor.value == p.items[limit - 1].pos)
      && Sorted(ByAtThenId, p.items)
      && forall e | e in p.items ::
           && e.row.video in videos
           && LikedBy(e.row.video, reactions, userId)
           && e.pos == Pos(reactions[(userId, e.row.video.id)].updatedAt, e.row.video.id)
           && PastCursor(e.pos, cursor)
           && e.row.viewCount == ViewCount(views, e.row.video.id)
           && e.row.likeCount == VideoLikeCount(reactions, e.row.video.id)
  {
    Query(ByAtThenId, Liked(videos, views, reactions, userId), cursor, limit)
  }

  // ---------------------------------------------------------------------
  // Following nextCursor
  // ---------------------------------------------------------------------

  predicate UniquePlaylistIds(playlists: seq<Playlist>)
  {
    forall i, j :: 0 <= i < j < |playlists| ==> playlists[i].id != playlists[j].id
  }

  predicate UniqueVideoIds(videos: seq<Video>)
  {
    forall i, j :: 0 <= i < j < |videos| ==> videos[i].id != videos[j].id
  }

  /** Following `nextCursor` of `getMany` from the first page until it is
      null lists each of the caller's playlists exactly once, newest first. */
  lemma PlaylistsListedOnce(playlists: seq<Playlist>, pv: Memberships, userId: Id, limit: int)
    requires MinLimit <= limit <= MaxLimit
    requires UniquePlaylistIds(playlists)
    ensures var table := OwnedPlaylists(playlists, pv, userId);
      var walk := Flatten(Pages(ByAtThenId, table, None, limit));
      && multiset(walk) == multiset(table)
      && Sorted(ByAtThenId, walk)
      && Distinct(walk)
      && forall p | p in playlists && Owned(p, userId) :: PlaylistEntry(pv, p) in walk
  {
    var table := OwnedPlaylists(playlists, pv, userId);
    SelectDistinct(playlists, (p: Playlist) => Owned(p, userId), (p: Playlist) => PlaylistEntry(pv, p));
    ListsEveryRowOnce(table, limit);
    var walk := Flatten(Pages(ByAtThenId, table, None, limit));
    forall p | p in playlists && Owned(p, userId) ensures PlaylistEntry(pv, p) in walk {
      assert PlaylistEntry(pv, p) in multiset(table);
    }
  }

  /** The history pages list each public video the caller viewed exactly
      once, most recently viewed first. */
  lemma HistoryListedOnce(videos: seq<Video>, views: VideoViews, reactions: VideoReactions, userId: Id, limit: int)
    requires MinLimit <= limit <= MaxLimit
    requires UniqueVideoIds(videos)
    ensures var table := History(videos, views, reactions, userId);
      var walk := Flatten(Pages(ByAtThenId, table, None, limit));
      && multiset(walk) == multiset(table)
      && Sorted(ByAtThenId, walk)
      && Distinct(walk)
      && forall v | v in videos && Viewed(v, views, userId) :: HistoryEntry(views, reactions, userId, v) in walk
  {
    var table := History(videos, views, reactions, userId);
    SelectDistinct(videos, (v: Video) => Viewed(v, views, userId), (v: Video) => HistoryEntry(views, reactions, userId, v));
    ListsEveryRowOnce(table, limit);
    var walk := Flatten(Pages(ByAtThenId, table, None, limit));
    forall v | v in videos && Viewed(v, views, userId) ensures HistoryEntry(views, reactions, userId, v) in walk {
      assert HistoryEntry(views, reactions, userId, v) in multiset(table);
    }
  }

  /** The liked pages list each public video the caller likes exactly
      once, most recently liked first. */
  lemma LikedListedOnce(videos: seq<Video>, views: VideoViews, reactions: VideoReactions, userId: Id, limit: int)
    requires MinLimit <= limit <= MaxLimit
    requires UniqueVideoIds(videos)
    ensures var table := Liked(videos, views, reactions, userId);
      var walk := Flatten(Pages(ByAtThenId, table, None, limit));
      && multiset(walk) == multiset(table)
      && Sorted(ByAtThenId, walk)
      && Distinct(walk)
      && forall v | v in videos && LikedBy(v, reactions, userId) :: LikedEntry(views, reactions, userId, v) in walk
  {
    var table := Liked(videos, views, reactions, userId);
    SelectDistinct(videos, (v: Video) => LikedBy(v, reactions, userId), (v: Video) => LikedEntry(views, reactions, userId, v));
    ListsEveryRowOnce(table, limit);
    var walk := Flatten(Pages(ByAtThenId, table, None, limit));
    forall v | v in videos && LikedBy(v, reactions, userId) ensures LikedEntry(views, reactions, userId, v) in walk {
      assert LikedEntry(views, reactions, userId, v) in multiset(table);
    }
  }

  // ---------------------------------------------------------------------
  // Mutations
  // ---------------------------------------------------------------------

  /** The caller's playlist with id `playlistId`, looked up by id and owner. */
  function FindOwned(playlists: seq<Playlist>, playlistId: Id, userId: Id): (r: Option<Playlist>)
    ensures r.Some? ==> r.value in playlists && r.value.id == playlistId && r.value.userId == userId
    ensures r.None? ==> forall p | p in playlists :: !(p.id == playlistId && p.userId == userId)
  {
    if playlists == [] then None
    else if playlists[0].id == playlistId && playlists[0].userId == userId then Some(playlists[0])
    else
      assert forall p | p in playlists :: p == playlists[0] || p in playlists[1..];
      FindOwned(playlists[1..], playlistId, userId)
  }

  function FindVideo(videos: seq<Video>, videoId: Id): (r: Option<Video>)
    ensures r.Some? ==> r.value in videos && r.value.id == videoId
    ensures r.None? ==> forall v | v in videos :: v.id != videoId
  {
    if videos == [] then None
    else if videos[0].id == videoId then Some(videos[0])
    else
      assert forall v | v in videos :: v == videos[0] || v in videos[1..];
      FindVideo(videos[1..], videoId)
  }

  /** What `addVideo` and `removeVideo` answer and what they leave in
      `playlist_videos`. */
  datatype Outcome = Outcome(result: Result<PlaylistVideo>, memberships: Memberships)

  /** `addVideo`: NOT_FOUND unless the caller owns the playlist, NOT_FOUND
      unless the video exists, CONFLICT when the pair is already there;
      otherwise the pair is inserted. */
  function AddVideoOutcome(playlists: seq<Playlist>, videos: seq<Video>, pv: Memberships,
    userId: Id, playlistId: Id, videoId: Id): (o: Outcome)
    ensures var pair := PlaylistVideo(playlistId, videoId);
      && (o.result.Success? <==>
            FindOwned(playlists, playlistId, userId).Some? && FindVideo(videos, videoId).Some? && pair !in pv)
      && (o.result.Success? ==> o.result.value == pair && o.memberships == pv + {pair})
      && (o.result.Failure? ==> o.memberships == pv)
      && (o.result.Failure? ==>
            (o.result.error == if FindOwned(playlists, playlistId, userId).Some? && FindVideo(videos, videoId).Some?
                               then Conflict else NotFound))
  {
    var pair := PlaylistVideo(playlistId, videoId);
    if FindOwned(playlists, playlistId, userId).None? then Outcome(Failure(NotFound), pv)
    else if FindVideo(videos, videoId).None? then Outcome(Failure(NotFound), pv)
    else if pair in pv then Outcome(Failure(Conflict), pv)
    else Outcome(Success(pair), pv + {pair})
  }

  /** `removeVideo`: NOT_FOUND unless the caller owns the playlist, the
      video exists and the pair is there; otherwise the pair is deleted. */
  function RemoveVideoOutcome(playlists: seq<Playlist>, videos: seq<Video>, pv: Memberships,
    userId: Id, playlistId: Id, videoId: Id): (o: Outcome)
    ensures var pair := PlaylistVideo(playlistId, videoId);
      && (o.result.Success? <==>
            FindOwned(playlists, playlistId, userId).Some? && FindVideo(videos, videoId).Some? && pair in pv)
      && (o.result.Success? ==> o.result.value == pair && o.memberships == pv - {pair})
      && (o.result.Failure? ==> o.result.error == NotFound && o.memberships == pv)
  {
    var pair := PlaylistVideo(playlistId, videoId);
    if FindOwned(playlists, playlistId, userId).None? then Outcome(Failure(NotFound), pv)
    else if FindVideo(videos, videoId).None? then Outcome(Failure(NotFound), pv)
    else if pair !in pv then Outcome(Failure(NotFound), pv)
    else Outcome(Success(pair), pv - {pair})
  }

  /** A successful `addVideo` followed by `removeVideo` of the same pair
      succeeds and restores the table. */
  lemma AddThenRemoveRestores(playlists: seq<Playlist>, videos: seq<Video>, pv: Memberships,
    userId: Id, playlistId: Id, videoId: Id)
    requires AddVideoOutcome(playlists, videos, pv, userId, playlistId, videoId).result.Success?
    ensures var added := AddVideoOutcome(playlists, videos, pv, userId, playlistId, videoId).memberships;
      var removed := RemoveVideoOutcome(playlists, videos, added, userId, playlistId, videoId);
      removed.result.Success? && removed.memberships == pv
  {
    var pair := PlaylistVideo(playlistId, videoId);
    assert pv + {pair} - {pair} == pv;
  }

  /** A successful `addVideo` raises the playlist's `videoCount` by one and
      makes `containsVideo` true; no other playlist's count moves. */
  lemma AddVideoCounts(playlists: seq<Playlist>, videos: seq<Video>, pv: Memberships,
    userId: Id, playlistId: Id, videoId: Id, other: Id)
    requires AddVideoOutcome(playlists, videos, pv, userId, playlistId, videoId).result.Success?
    ensures var after := AddVideoOutcome(playlists, videos, pv, userId, playlistId, videoId).memberships;
      && VideoCount(after, playlistId) == VideoCount(pv, playlistId) + 1
      && ContainsVideo(after, playlistId, videoId)
      && (other != playlistId ==> VideoCount(after, other) == VideoCount(pv, other))
  {
    var pair := PlaylistVideo(playlistId, videoId);
    var after := pv + {pair};
    assert MembersOf(after, playlistId) == MembersOf(pv, playlistId) + {pair};
    assert pair !in MembersOf(pv, playlistId);
    if other != playlistId {
      assert MembersOf(after, other) == MembersOf(pv, other);
    }
  }

  /** A successful `removeVideo` lowers the playlist's `videoCount` by one
      and makes `containsVideo` false; no other playlist's count moves. */
  lemma RemoveVideoCounts(playlists: seq<Playlist>, videos: seq<Video>, pv: Memberships,
    userId: Id, playlistId: Id, videoId: Id, other: Id)
    requires RemoveVideoOutcome(playlists, videos, pv, userId, playlistId, videoId).result.Success?
    ensures var after := RemoveVideoOutcome(playlists, videos, pv, userId, playlistId, videoId).memberships;
      && VideoCount(after, playlistId) + 1 == VideoCount(pv, playlistId)
      && !ContainsVideo(after, playlistId, videoId)
      && (other != playlistId ==> VideoCount(after, other) == VideoCount(pv, other))
  {
    var pair := PlaylistVideo(playlistId, videoId);
    var after := pv - {pair};
    assert MembersOf(after, playlistId) == MembersOf(pv, playlistId) - {pair};
    assert pair in MembersOf(pv, playlistId);
    if other != playlistId {
      assert MembersOf(after, other) == MembersOf(pv, other);
    }
  }

  class PlaylistTables {
    var playlists: seq<Playlist>
    var videos: seq<Video>
    var playlistVideos: Memberships

    /** The primary key of `playlists` holds. */
    predicate Valid()
      reads this
    {
      UniquePlaylistIds(playlists)
    }

    constructor (videos: seq<Video>)
      ensures this.playlists == [] && this.videos == videos && this.playlistVideos == {}
      ensures Valid()
    {
      this.playlists := [];
      this.videos := videos;
      this.playlistVideos := {};
    }

    /** `create`: an empty name is rejected by the input schema; otherwise
        the playlist is inserted with the generated id `newId` and the time
        `now`. */
    method Create(userId: Id, name: string, newId: Id, now: Timestamp) returns (r: Result<Playlist>)
      requires Valid()
      requires forall p | p in playlists :: p.id != newId
      modifies this
      ensures Valid()
      ensures name == [] ==> r == Failure(ValidationError) && playlists == old(playlists)
      ensures name != [] ==> r == Success(Playlist(newId, userId, name, now)) && playlists == old(playlists) + [r.value]
      ensures videos == old(videos) && playlistVideos == old(playlistVideos)
    {
      if name == [] {
        return Failure(ValidationError);
      }
      var created := Playlist(newId, userId, name, now);
      playlists := playlists + [created];
      return Success(created);
    }

    method AddVideo(userId: Id, playlistId: Id, videoId: Id) returns (r: Result<PlaylistVideo>)
      requires Valid()
      modifies this
      ensures Valid()
      ensures var o := AddVideoOutcome(old(playlists), old(videos), old(playlistVideos), userId, playlistId, videoId);
        r == o.result && playlistVideos == o.memberships
      ensures playlists == old(playlists) && videos == old(videos)
    {
      var existingPlaylist := FindOwned(playlists, playlistId, userId);
      if existingPlaylist.None? {
        return Failure(NotFound);
      }
      var existingVideo := FindVideo(videos, videoId);
      if existingVideo.None? {
        return Failure(NotFound);
      }
      var pair := PlaylistVideo(playlistId, videoId);
      if pair in playlistVideos {
        return Failure(Conflict);
      }
      playlistVideos := playlistVideos + {pair};
      return Success(pair);
    }

    method RemoveVideo(userId: Id, playlistId: Id, videoId: Id) returns (r: Result<PlaylistVideo>)
      requires Valid()
      modifies this
      ensures Valid()
      ensures var o := RemoveVideoOutcome(old(playlists), old(videos), old(playlistVideos), userId, playlistId, videoId);
        r == o.result && playlistVideos == o.memberships
      ensures playlists == old(playlists) && videos == old(videos)
    {
      var existingPlaylist := FindOwned(playlists, playlistId, userId);
      if existingPlaylist.None? {
        return Failure(NotFound);
      }
      var existingVideo := FindVideo(videos, videoId);
      if existingVideo.None? {
        return Failure(NotFound);
      }
      var pair := PlaylistVideo(playlistId, videoId);
      if pair !in playlistVideos {
        return Failure(NotFound);
      }
      playlistVideos := playlistVideos - {pair};
      return Success(pair);
    }
  }
}
