/** The enemy operations (operations/operations_enemy.py), built like the
    player ones: every operation but the history read starts by reading the
    whole enemies file; create, and an update or delete that finds its id,
    write the changed list back, and such a delete also appends the removed
    enemy to the deleted-enemies file. The two files are the `table` and
    `history` fields of an `EnemyStore`; a file that does not exist reads as
    the empty sequence. */
module EnemyOperations {
  import opened Models
  import opened Tables

  /** Every stored row is an enemy pydantic accepts: `EnemyWithID(**row)`
      raises on any other, so every read of the file demands it. */
  predicate AllEnemiesValid(s: seq<EnemyWithId>) {
    forall i :: 0 <= i < |s| ==> ValidEnemy(s[i].fields)
  }

  /** The keys an update dict carries, each with its new value; a field
      whose key is absent is `None`. */
  datatype EnemyPatch = EnemyPatch(
    speed: Option<real>,
    jump: Option<real>,
    hitSpeed: Option<int>,
    health: Option<int>,
    kind: Option<string>,
    spawn: Option<real>,
    probabilitySpawn: Option<real>)

  /** `setattr` of every key present in the patch. `setattr` does not
      validate, so a valid record stays valid exactly when every value the
      patch writes is valid; a patch with no keys changes nothing, and a patch
      with every key replaces every field. */
  function ApplyPatch(e: Enemy, u: EnemyPatch): (r: Enemy)
    ensures ValidEnemy(e) ==> (ValidEnemy(r) <==> ValidPatch(u))
    ensures u == EnemyPatch(None, None, None, None, None, None, None) ==> r == e
    ensures forall f :: u == FullPatch(f) ==> r == f
  {
    Enemy(
      u.speed.GetOr(e.speed),
      u.jump.GetOr(e.jump),
      u.hitSpeed.GetOr(e.hitSpeed),
      u.health.GetOr(e.health),
      u.kind.GetOr(e.kind),
      u.spawn.GetOr(e.spawn),
      u.probabilitySpawn.GetOr(e.probabilitySpawn))
  }

  /** Every value the patch carries meets its field's constraint. */
  predicate ValidPatch(u: EnemyPatch) {
    && (u.speed.Some? ==> u.speed.value > 0.0)
    && (u.jump.Some? ==> u.jump.value > 0.0)
    && (u.hitSpeed.Some? ==> u.hitSpeed.value >= 0)
    && (u.health.Some? ==> u.health.value >= 0)
    && (u.kind.Some? ==> |u.kind.value| >= 1)
    && (u.spawn.Some? ==> u.spawn.value > 0.0)
    && (u.probabilitySpawn.Some? ==> u.probabilitySpawn.value >= 0.0)
  }

  /** The dict of a fully given enemy, every key present. */
  function FullPatch(e: Enemy): EnemyPatch {
    EnemyPatch(Some(e.speed), Some(e.jump), Some(e.hitSpeed), Some(e.health),
               Some(e.kind), Some(e.spawn), Some(e.probabilitySpawn))
  }

  /** A full patch is valid exactly when the record it carries is, it
      replaces whatever it is applied to, and applying any patch twice is
      applying it once. */
  lemma PatchProperties(e: Enemy, f: Enemy, u: EnemyPatch)
    ensures ValidPatch(FullPatch(f)) <==> ValidEnemy(f)
    ensures ApplyPatch(e, FullPatch(f)) == f
    ensures ApplyPatch(ApplyPatch(e, u), u) == ApplyPatch(e, u)
  {
  }

  /** The two enemy files: `table` holds the rows of the enemies file and
      `history` those of the deleted-enemies file. */
  class EnemyStore {
    var table: seq<EnemyWithId>
    var history: seq<EnemyWithId>

    /** Both files hold only rows that read back as valid enemies. Each
        operation demands this only of the file it reads. */
    ghost predicate Valid()
      reads this
    {
      AllEnemiesValid(table) && AllEnemiesValid(history)
    }

    /** Neither file exists yet: both read as empty. */
    constructor ()
      ensures Valid()
      ensures table == [] && history == []
    {
      table := [];
      history := [];
    }

    /** Files that already hold valid rows. */
    constructor Load(rows: seq<EnemyWithId>, deleted: seq<EnemyWithId>)
      requires AllEnemiesValid(rows) && AllEnemiesValid(deleted)
      ensures Valid()
      ensures table == rows && history == deleted
    {
      table := rows;
      history := deleted;
    }

    /** `read_all_enemies`: every row of the enemies file, in file order. */
    method ReadAll() returns (enemies: seq<EnemyWithId>)
      requires AllEnemiesValid(table)
      ensures enemies == table
      ensures AllEnemiesValid(enemies)
    {
      enemies := table;
    }

    /** `read_deleted_enemies`: every row of the history, in file order. */
    method ReadDeleted() returns (enemies: seq<EnemyWithId>)
      requires AllEnemiesValid(history)
      ensures enemies == history
      ensures AllEnemiesValid(enemies)
    {
      enemies := history;
    }

    /** `read_one_enemy`: the first enemy with the id, or None. */
    method ReadOne(id: int) returns (r: Option<EnemyWithId>)
      requires AllEnemiesValid(table)
      ensures r == Lookup(table, id)
      ensures r.Some? ==> r.value.id == id && ValidEnemy(r.value.fields)
    {
      var i := 0;
      while i < |table|
        invariant 0 <= i <= |table|
        invariant forall j :: 0 <= j < i ==> table[j].id != id
      {
        if table[i].id == id {
          return Some(table[i]);
        }
        i := i + 1;
      }
      return None;
    }

    /** `create_enemy`: the enemy is appended with id one more than the
        largest id, or 1 in an empty file, and returned. */
    method Create(e: Enemy) returns (r: EnemyWithId)
      requires AllEnemiesValid(table) && ValidEnemy(e)
      modifies this
      ensures AllEnemiesValid(table)
      ensures r == WithId(NextId(old(table)), e)
      ensures table == old(table) + [r] && history == old(history)
      ensures old(WellKeyed(table)) ==> WellKeyed(table)
    {
      var newId := 1;
      if |table| > 0 {
        var m := table[0].id;
        var i := 1;
        while i < |table|
          invariant 1 <= i <= |table|
          invariant m == MaxId(table[..i])
        {
          assert table[..i + 1][..i] == table[..i];
          if table[i].id > m {
            m := table[i].id;
          }
          i := i + 1;
        }
        assert table[..i] == table;
        newId := m + 1;
      }
      r := WithId(newId, e);
      if WellKeyed(table) {
        AppendNextKeepsWellKeyed(table, r);
      }
      table := table + [r];
    }

    /** `update_enemy`: the keys of the patch are written over the first
        enemy with the id, which is returned; every other enemy is left
        alone. With no such enemy nothing is written and None is returned. */
    method Update(id: int, patch: EnemyPatch) returns (r: Option<EnemyWithId>)
      requires AllEnemiesValid(table)
      modifies this
      ensures ValidPatch(patch) ==> AllEnemiesValid(table)
      ensures history == old(history)
      ensures match FirstIndex(old(table), id)
        case None => r == None && table == old(table)
        case Some(i) =>
          && table == old(table)[i := WithId(id, ApplyPatch(old(table)[i].fields, patch))]
          && r == Some(table[i])
      ensures old(WellKeyed(table)) ==> WellKeyed(table)
    {
      var i := 0;
      while i < |table|
        invariant 0 <= i <= |table|
        invariant forall j :: 0 <= j < i ==> table[j].id != id
      {
        if table[i].id == id {
          var updated := WithId(table[i].id, ApplyPatch(table[i].fields, patch));
          if WellKeyed(table) {
            ReplaceKeepsWellKeyed(table, i, updated);
          }
          table := table[i := updated];
          return Some(updated);
        }
        i := i + 1;
      }
      return None;
    }

    /** `delete_enemy`: every enemy with the id is filtered out of the file,
        the survivors keep their order, and the last one removed is appended
        to the history and returned. With no such enemy neither file changes
        and None is returned. */
    method Delete(id: int) returns (r: Option<EnemyWithId>)
      requires AllEnemiesValid(table)
      modifies this
      ensures AllEnemiesValid(table)
      ensures old(AllEnemiesValid(history)) ==> AllEnemiesValid(history)
      ensures r == LastMatch(old(table), id)
      ensures r.None? ==> table == old(table) && history == old(history)
      ensures r.Some? ==> table == RemoveId(old(table), id) && history == old(history) + [r.value]
      ensures old(WellKeyed(table)) ==> WellKeyed(table)
    {
      var removed: Option<EnemyWithId> := None;
      var kept: seq<EnemyWithId> := [];
      var i := 0;
      while i < |table|
        invariant 0 <= i <= |table|
        invariant kept == RemoveId(table[..i], id)
        invariant removed == LastMatch(table[..i], id)
      {
        assert table[..i + 1][..i] == table[..i];
        if table[i].id == id {
          removed := Some(table[i]);
        } else {
          kept := kept + [table[i]];
        }
        i := i + 1;
      }
      assert table[..i] == table;
      if removed.Some? {
        if WellKeyed(table) {
          RemoveIdKeepsWellKeyed(table, id);
        }
        assert forall j :: 0 <= j < |kept| ==> kept[j] in table;
        table := kept;
        AppendToDeleted(removed.value);
      }
      return removed;
    }

    /** `append_to_deleted_enemies`: the enemy is added at the end of the
        history; the enemies file is not touched. */
    method AppendToDeleted(e: EnemyWithId)
      modifies this
      ensures history == old(history) + [e] && table == old(table)
      ensures AllEnemiesValid(old(history)) && ValidEnemy(e.fields) ==> AllEnemiesValid(history)
    {
      history := history + [e];
    }
  }
}
