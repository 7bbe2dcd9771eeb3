/** The comment-reaction table and its two mutations, `like` and `dislike`.

    The table holds at most one reaction per (user, comment): the upsert's
    conflict target is that pair, so the table is a map keyed by it. Each
    mutation is a toggle: when the caller already has a reaction of the
    requested kind on the comment it is deleted, otherwise the caller's
    reaction is created or overwritten with the requested kind. */
module CommentReactions {
  import opened Common

  /** A row of `comment_reactions` as the mutations return it. */
  datatype CommentReaction = CommentReaction(userId: Id, commentId: Id, kind: ReactionType)

  /** The reaction table: (userId, commentId) to the reaction's type. */
  type Reactions = map<(Id, Id), ReactionType>

  /** The table after `userId` asks for a `kind` reaction on `commentId`. */
  function Toggle(m: Reactions, userId: Id, commentId: Id, kind: ReactionType): (r: Reactions)
    ensures (userId, commentId) in m && m[(userId, commentId)] == kind ==> (userId, commentId) !in r
    ensures !((userId, commentId) in m && m[(userId, commentId)] == kind) ==>
      (userId, commentId) in r && r[(userId, commentId)] == kind
    ensures r - {(userId, commentId)} == m - {(userId, commentId)}
  {
    var key := (userId, commentId);
    if key in m && m[key] == kind then m - {key} else m[key := kind]
  }

  class ReactionTable {
    var reactions: Reactions

    constructor ()
      ensures reactions == map[]
    {
      reactions := map[];
    }

    /** The shared body of `like` and `dislike`: look for the caller's
        reaction of this kind; delete the caller's row if there is one,
        otherwise upsert the row with this kind. Returns the row deleted
        or written. */
    method React(userId: Id, commentId: Id, kind: ReactionType) returns (row: CommentReaction)
      modifies this
      ensures reactions == Toggle(old(reactions), userId, commentId, kind)
      ensures row == CommentReaction(userId, commentId, kind)
    {
      var key := (userId, commentId);
      var existing := key in reactions && reactions[key] == kind;
      if existing {
        reactions := reactions - {key};
      } else {
        reactions := reactions[key := kind];
      }
      row := CommentReaction(userId, commentId, kind);
    }

    method Like(userId: Id, commentId: Id) returns (row: CommentReaction)
      modifies this
      ensures reactions == Toggle(old(reactions), userId, commentId, ReactionType.Like)
      ensures row == CommentReaction(userId, commentId, ReactionType.Like)
    {
      row := React(userId, commentId, ReactionType.Like);
    }

    method Dislike(userId: Id, commentId: Id) returns (row: CommentReaction)
      modifies this
      ensures reactions == Toggle(old(reactions), userId, commentId, ReactionType.Dislike)
      ensures row == CommentReaction(userId, commentId, ReactionType.Dislike)
    {
      row := React(userId, commentId, ReactionType.Dislike);
    }
  }

  /** Reactions of other users, and on other comments, are untouched. */
  lemma ToggleKeepsOthers(m: Reactions, userId: Id, commentId: Id, kind: ReactionType, k: (Id, Id))
    requires k != (userId, commentId)
    ensures k in Toggle(m, userId, commentId, kind) <==> k in m
    ensures k in m ==> Toggle(m, userId, commentId, kind)[k] == m[k]
  {
    var r := Toggle(m, userId, commentId, kind);
    assert k in r <==> k in r - {(userId, commentId)};
    assert k in m <==> k in m - {(userId, commentId)};
  }

  /** Whatever the caller's reaction was, `like` then `dislike` ends with
      a dislike (and `dislike` then `like` with a like). */
  lemma SecondKindWins(m: Reactions, userId: Id, commentId: Id, first: ReactionType, second: ReactionType)
    requires first != second
    ensures var r := Toggle(Toggle(m, userId, commentId, first), userId, commentId, second);
      (userId, commentId) in r && r[(userId, commentId)] == second
  {
  }

  /** From no reaction, asking for the same kind twice (say `like`, `like`)
      leaves no reaction: the table is as it was. */
  lemma ToggleTwiceRestores(m: Reactions, userId: Id, commentId: Id, kind: ReactionType)
    requires (userId, commentId) !in m
    ensures Toggle(Toggle(m, userId, commentId, kind), userId, commentId, kind) == m
  {
    var key := (userId, commentId);
    var r := Toggle(Toggle(m, userId, commentId, kind), userId, commentId, kind);
    assert key !in r;
    assert r == r - {key} == m - {key} == m;
  }
}
