/** Types shared by every part of the model: ids, timestamps, optional
    values, the error codes the request handlers raise, reaction kinds, and
    the two table operations every handler is built from: counting the rows
    that satisfy a condition (`db.$count`, `count()`) and deleting them
    (`db.delete(...).where(...)`). */
module Common {

  /** Row ids (uuids in the database) are opaque and only compared, so any
      totally ordered type will do. */
  type Id = int

  /** Timestamps (`updatedAt`, `viewedAt`, `likedAt`) are compared only. */
  type Timestamp = int

  datatype Option<+T> = None | Some(value: T)

  /** Error codes. `ValidationError` is a request rejected by the input
      schema before the handler body runs; the others are thrown by the
      handlers themselves; `UniqueViolation` is a primary-key clash
      reported by the store. */
  datatype ErrorCode = ValidationError | BadRequest | NotFound | Conflict | UniqueViolation

  datatype Result<+T> = Success(value: T) | Failure(error: ErrorCode)

  /** The two values of the `type` column of the reaction tables. */
  datatype ReactionType = Like | Dislike

  /** The number of rows of `s` that satisfy `p`. */
  function CountIf<T>(s: seq<T>, p: T -> bool): (n: nat)
    ensures n <= |s|
    ensures n == 0 <==> forall i :: 0 <= i < |s| ==> !p(s[i])
    ensures n == |Filter(s, p)|
  {
    if s == [] then 0
    else
      var init := s[..|s| - 1];
      assert forall i :: 0 <= i < |init| ==> init[i] == s[i];
      CountIf(init, p) + (if p(s[|s| - 1]) then 1 else 0)
  }

  /** The rows of `s` that satisfy `keep`, in table order: what is left
      after deleting the others. */
  function Filter<T>(s: seq<T>, keep: T -> bool): (r: seq<T>)
    ensures |r| <= |s|
    ensures forall x | x in r :: x in s && keep(x)
    ensures forall i | 0 <= i < |s| && keep(s[i]) :: s[i] in r
    ensures forall x | x in s :: multiset(r)[x] == if keep(x) then multiset(s)[x] else 0
  {
    if s == [] then []
    else
      var init := s[..|s| - 1];
      assert forall i :: 0 <= i < |init| ==> init[i] == s[i];
      assert s == init + [s[|s| - 1]];
      Filter(init, keep) + (if keep(s[|s| - 1]) then [s[|s| - 1]] else [])
  }

  /** Deleting rows that `keep` rejects from a table to which one such row
      was appended gives the table's own deletion. */
  lemma FilterAppend<T>(s: seq<T>, x: T, keep: T -> bool)
    ensures Filter(s + [x], keep) == Filter(s, keep) + (if keep(x) then [x] else [])
  {
    assert (s + [x])[..|s|] == s;
  }

  /** Deleting nothing leaves the table as it is. */
  lemma {:induction false} FilterKeepsAll<T>(s: seq<T>, keep: T -> bool)
    requires forall i :: 0 <= i < |s| ==> keep(s[i])
    ensures Filter(s, keep) == s
  {
    if s != [] {
      var init, last := s[..|s| - 1], s[|s| - 1];
      assert s == init + [last];
      forall i | 0 <= i < |init| ensures keep(init[i]) {
        assert init[i] == s[i];
      }
      FilterKeepsAll(init, keep);
      FilterAppend(init, last, keep);
    }
  }

  /** Deleting rows keeps any relation that held between every earlier
      row and every later one. */
  lemma {:induction false} FilterPairwise<T>(s: seq<T>, keep: T -> bool, rel: (T, T) -> bool)
    requires forall i, j :: 0 <= i < j < |s| ==> rel(s[i], s[j])
    ensures forall i, j :: 0 <= i < j < |Filter(s, keep)| ==> rel(Filter(s, keep)[i], Filter(s, keep)[j])
  {
    if s != [] {
      var init, last := s[..|s| - 1], s[|s| - 1];
      FilterPairwise(init, keep, rel);
      var r, fi := Filter(s, keep), Filter(init, keep);
      assert r == fi + (if keep(last) then [last] else []);
      forall i, j | 0 <= i < j < |r| ensures rel(r[i], r[j]) {
        if j < |fi| {
          assert r[i] == fi[i] && r[j] == fi[j];
          assert rel(fi[i], fi[j]);
        } else {
          assert r[i] == fi[i] && r[j] == last;
          assert fi[i] in fi;
          var k :| 0 <= k < |init| && init[k] == fi[i];
          assert s[k] == init[k];
          assert rel(s[k], s[|s| - 1]);
        }
      }
    }
  }
}
