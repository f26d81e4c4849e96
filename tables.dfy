/** The record-table logic shared by the player and enemy operations: a table
    is the sequence of rows of one CSV file, each row a record carrying an
    integer id. The functions here are the reference definitions that the
    store methods are proved against, and the lemmas state what creating,
    reading, updating and deleting do to a table's ids. */
module Tables {
  import opened Models

  datatype Option<T> = None | Some(value: T) {
    /** The wrapped value, or `default` when there is none. */
    function GetOr(default: T): T {
      match this
      case Some(v) => v
      case None => default
    }
  }

  /** Some record of `s` carries `id`. */
  predicate HasId<T>(s: seq<WithId<T>>, id: int) {
    exists i :: 0 <= i < |s| && s[i].id == id
  }

  /** Every id is positive and no two records share one: what the ids of a
      table built only by `Create`, `Update` and `Delete` look like. */
  predicate WellKeyed<T>(s: seq<WithId<T>>) {
    && (forall i :: 0 <= i < |s| ==> s[i].id > 0)
    && (forall i, j :: 0 <= i < j < |s| ==> s[i].id != s[j].id)
  }

  /** The largest id of a non-empty table. */
  function MaxId<T>(s: seq<WithId<T>>): (m: int)
    requires |s| > 0
    ensures forall i :: 0 <= i < |s| ==> s[i].id <= m
    ensures exists i :: 0 <= i < |s| && s[i].id == m
  {
    if |s| == 1 then s[0].id
    else
      var m := MaxId(s[..|s| - 1]);
      if s[|s| - 1].id > m then s[|s| - 1].id else m
  }

  /** The id a new record receives: one more than the largest id, or 1 when
      the table is empty. It exceeds every id in the table, and it is the
      smallest number that does, except in the empty table. */
  function NextId<T>(s: seq<WithId<T>>): (n: int)
    ensures forall i :: 0 <= i < |s| ==> s[i].id < n
    ensures |s| == 0 ==> n == 1
    ensures |s| > 0 ==> exists i :: 0 <= i < |s| && s[i].id == n - 1
  {
    if |s| == 0 then 1 else MaxId(s) + 1
  }

  /** The position of the first record with `id`, if any. */
  function FirstIndex<T>(s: seq<WithId<T>>, id: int): (r: Option<nat>)
    ensures r.None? <==> !HasId(s, id)
    ensures r.Some? ==> r.value < |s| && s[r.value].id == id
    ensures r.Some? ==> forall j :: 0 <= j < r.value ==> s[j].id != id
  {
    if s == [] then None
    else if s[0].id == id then Some(0)
    else
      match FirstIndex(s[1..], id)
      case None => None
      case Some(k) => Some(k + 1)
  }

  /** The first record with `id`, if any: what a linear scan finds. */
  function Lookup<T>(s: seq<WithId<T>>, id: int): (r: Option<WithId<T>>)
    ensures r.None? <==> !HasId(s, id)
    ensures r.Some? ==> exists i :: 0 <= i < |s| && s[i] == r.value && r.value.id == id
                          && forall j :: 0 <= j < i ==> s[j].id != id
  {
    match FirstIndex(s, id)
    case None => None
    case Some(i) => Some(s[i])
  }

  /** The table with every record carrying `id` filtered out, the others kept
      in their order. */
  function RemoveId<T>(s: seq<WithId<T>>, id: int): (r: seq<WithId<T>>)
    ensures |r| <= |s|
    ensures forall i :: 0 <= i < |r| ==> r[i] in s && r[i].id != id
    ensures forall i :: 0 <= i < |s| && s[i].id != id ==> s[i] in r
  {
    if s == [] then []
    else
      var rest := RemoveId(s[..|s| - 1], id);
      assert s == s[..|s| - 1] + [s[|s| - 1]];
      if s[|s| - 1].id == id then rest else rest + [s[|s| - 1]]
  }

  /** The last record with `id`, if any: the one a scan that overwrites its
      find on every match is left holding. */
  function LastMatch<T>(s: seq<WithId<T>>, id: int): (r: Option<WithId<T>>)
    ensures r.None? <==> !HasId(s, id)
    ensures r.Some? ==> exists i :: 0 <= i < |s| && s[i] == r.value && r.value.id == id
                          && forall j :: i < j < |s| ==> s[j].id != id
  {
    if s == [] then None
    else if s[|s| - 1].id == id then Some(s[|s| - 1])
    else
      var front := s[..|s| - 1];
      assert forall i :: 0 <= i < |front| ==> front[i] == s[i];
      LastMatch(front, id)
  }

  /** Filtering distributes over concatenation: the survivors of a table are
      the survivors of its front followed by the survivors of its back, so the
      filter never reorders records. */
  lemma {:induction false} RemoveIdConcat<T>(a: seq<WithId<T>>, b: seq<WithId<T>>, id: int)
    ensures RemoveId(a + b, id) == RemoveId(a, id) + RemoveId(b, id)
    decreases |b|
  {
    if b == [] {
      assert a + b == a;
    } else {
      var b' := b[..|b| - 1];
      assert (a + b)[..|a + b| - 1] == a + b';
      RemoveIdConcat(a, b', id);
    }
  }

  /** Deleting an id that no record carries leaves the table as it was. */
  lemma {:induction false} RemoveIdAbsent<T>(s: seq<WithId<T>>, id: int)
    requires !HasId(s, id)
    ensures RemoveId(s, id) == s
  {
    if s != [] {
      var front := s[..|s| - 1];
      assert forall i :: 0 <= i < |front| ==> front[i] == s[i];
      RemoveIdAbsent(front, id);
      assert s == front + [s[|s| - 1]];
    }
  }

  /** Deleting an id that some record carries makes the table shorter. */
  lemma {:induction false} RemoveIdShrinks<T>(s: seq<WithId<T>>, id: int)
    requires HasId(s, id)
    ensures |RemoveId(s, id)| < |s|
  {
    var front := s[..|s| - 1];
    if s[|s| - 1].id != id {
      assert HasId(front, id) by {
        var i :| 0 <= i < |s| && s[i].id == id;
        assert i < |s| - 1 && front[i].id == id;
      }
      RemoveIdShrinks(front, id);
    }
  }

  /** Appending a record with the next id keeps the ids positive and distinct. */
  lemma AppendNextKeepsWellKeyed<T>(s: seq<WithId<T>>, x: WithId<T>)
    requires WellKeyed(s) && x.id == NextId(s)
    ensures WellKeyed(s + [x])
  {
  }

  /** Replacing a record by one with the same id keeps the table well keyed. */
  lemma ReplaceKeepsWellKeyed<T>(s: seq<WithId<T>>, i: nat, x: WithId<T>)
    requires WellKeyed(s) && i < |s| && x.id == s[i].id
    ensures WellKeyed(s[i := x])
  {
  }

  /** Filtering keeps the table well keyed. */
  lemma {:induction false} RemoveIdKeepsWellKeyed<T>(s: seq<WithId<T>>, id: int)
    requires WellKeyed(s)
    ensures WellKeyed(RemoveId(s, id))
  {
    if s != [] {
      var front, last := s[..|s| - 1], s[|s| - 1];
      RemoveIdKeepsWellKeyed(front, id);
      var rest := RemoveId(front, id);
      if last.id != id {
        var t := rest + [last];
        forall i, j | 0 <= i < j < |t| ensures t[i].id != t[j].id {
          if j == |rest| {
            assert t[i] in front;
            var k :| 0 <= k < |front| && front[k] == t[i];
            assert s[k] == t[i];
          }
        }
        forall i | 0 <= i < |t| ensures t[i].id > 0 {
          if i < |rest| { assert t[i] in rest; }
        }
      }
    }
  }

  /** With distinct ids, the record a delete moves to the history is the one a
      read returns. */
  lemma DeleteMovesLookedUpRecord<T>(s: seq<WithId<T>>, id: int)
    requires WellKeyed(s)
    ensures LastMatch(s, id) == Lookup(s, id)
  {
  }

  /** With distinct ids, the survivors of a delete plus the record it moves to
      the history are exactly the original records: the move loses nothing and
      invents nothing. */
  lemma {:induction false} DeleteConservesRecords<T>(s: seq<WithId<T>>, id: int)
    requires WellKeyed(s) && HasId(s, id)
    ensures multiset(RemoveId(s, id)) + multiset{LastMatch(s, id).value} == multiset(s)
  {
    var front, last := s[..|s| - 1], s[|s| - 1];
    assert s == front + [last];
    assert WellKeyed(front);
    if last.id == id {
      assert !HasId(front, id) by {
        forall i | 0 <= i < |front| ensures front[i].id != id {
          assert s[i].id != s[|s| - 1].id;
        }
      }
      RemoveIdAbsent(front, id);
    } else {
      assert HasId(front, id) by {
        var i :| 0 <= i < |s| && s[i].id == id;
        assert i < |s| - 1 && front[i].id == id;
      }
      DeleteConservesRecords(front, id);
    }
  }

  /** With duplicate ids, a delete drops every record carrying the id but
      moves only the last of them to the history: the earlier ones vanish. */
  lemma DuplicateIdDeleteDropsRecord<T>(a: T, b: T)
    requires a != b
    ensures var s := [WithId(1, a), WithId(1, b)];
      && RemoveId(s, 1) == []
      && LastMatch(s, 1) == Some(WithId(1, b))
      && WithId(1, a) in s
  {
  }
}
