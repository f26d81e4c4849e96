/** The player operations (operations/operations_player.py). Every operation
    but the history read starts by reading the whole players file; create, and
    an update or delete that finds its id, write the changed list back, and
    such a delete also appends the removed player to the deleted-players file.
    The two files are the `table` and `history` fields of a `PlayerStore`; a
    file that does not exist reads as the empty sequence. */
module PlayerOperations {
  import opened Models
  import opened Tables

  /** Every stored row is a player pydantic accepts: `PlayerWithID(**row)`
      raises on any other, so every read of the file demands it. */
  predicate AllPlayersValid(s: seq<PlayerWithId>) {
    forall i :: 0 <= i < |s| ==> ValidPlayer(s[i].fields)
  }

  /** The keys an update dict carries, each with its new value; a field
      whose key is absent is `None`. */
  datatype PlayerPatch = PlayerPatch(
    health: Option<int>,
    regenerateHealth: Option<int>,
    speed: Option<real>,
    jump: Option<real>,
    isDead: Option<bool>,
    armor: Option<int>,
    hitSpeed: Option<int>)

  /** `setattr` of every key present in the patch. `setattr` does not
      validate, so a valid record stays valid exactly when every value the
      patch writes is valid; a patch with no keys changes nothing, and a patch
      with every key replaces every field. */
  function ApplyPatch(p: Player, u: PlayerPatch): (r: Player)
    ensures ValidPlayer(p) ==> (ValidPlayer(r) <==> ValidPatch(u))
    ensures u == PlayerPatch(None, None, None, None, None, None, None) ==> r == p
    ensures forall q :: u == FullPatch(q) ==> r == q
  {
    Player(
      u.health.GetOr(p.health),
      u.regenerateHealth.GetOr(p.regenerateHealth),
      u.speed.GetOr(p.speed),
      u.jump.GetOr(p.jump),
      u.isDead.GetOr(p.isDead),
      u.armor.GetOr(p.armor),
      u.hitSpeed.GetOr(p.hitSpeed))
  }

  /** Every value the patch carries meets its field's constraint. */
  predicate ValidPatch(u: PlayerPatch) {
    && (u.health.Some? ==> u.health.value >= 0)
    && (u.regenerateHealth.Some? ==> u.regenerateHealth.value >= 0)
    && (u.speed.Some? ==> u.speed.value > 0.0)
    && (u.jump.Some? ==> u.jump.value > 0.0)
    && (u.armor.Some? ==> u.armor.value >= 0)
    && (u.hitSpeed.Some? ==> u.hitSpeed.value >= 0)
  }

  /** The dict of a fully given player, every key present. */
  function FullPatch(p: Player): PlayerPatch {
    PlayerPatch(Some(p.health), Some(p.regenerateHealth), Some(p.speed), Some(p.jump),
                Some(p.isDead), Some(p.armor), Some(p.hitSpeed))
  }

  /** A full patch is valid exactly when the record it carries is, it
      replaces whatever it is applied to, and applying any patch twice is
      applying it once. */
  lemma PatchProperties(p: Player, q: Player, u: PlayerPatch)
    ensures ValidPatch(FullPatch(q)) <==> ValidPlayer(q)
    ensures ApplyPatch(p, FullPatch(q)) == q
    ensures ApplyPatch(ApplyPatch(p, u), u) == ApplyPatch(p, u)
  {
  }

  /** `str(bool)`: how the players file stores `is_dead`, the boolean's name
      capitalised. */
  function EncodeIsDead(b: bool): (s: string)
    ensures ToLower(s) == if b then "true" else "false"
    ensures 'A' <= s[0] <= 'Z'
  {
    if b then "True" else "False"
  }

  /** `str.lower` on one character, for the ASCII letters. */
  function LowerChar(c: char): char {
    if 'A' <= c <= 'Z' then (c as int + ('a' as int - 'A' as int)) as char else c
  }

  /** `str.lower`, character by character. */
  function ToLower(s: string): (r: string)
    ensures |r| == |s|
    ensures forall i :: 0 <= i < |s| ==> r[i] == LowerChar(s[i])
  {
    if s == [] then [] else [LowerChar(s[0])] + ToLower(s[1..])
  }

  /** `row['is_dead'].lower() == 'true'`: how a stored `is_dead` is read
      back. It ignores case and accepts nothing but the four letters of
      "true": any other text, "1" and "yes" included, reads as false. */
  function DecodeIsDead(s: string): (b: bool)
    ensures b <==>
      && |s| == 4
      && LowerChar(s[0]) == 't' && LowerChar(s[1]) == 'r'
      && LowerChar(s[2]) == 'u' && LowerChar(s[3]) == 'e'
  {
    ToLower(s) == "true"
  }

  /** Writing `is_dead` and reading it back gives the original boolean. */
  lemma DecodeEncodeIsDead(b: bool)
    ensures DecodeIsDead(EncodeIsDead(b)) == b
  {
  }

  /** The two player files: `table` holds the rows of the players file and
      `history` those of the deleted-players file. */
  class PlayerStore {
    var table: seq<PlayerWithId>
    var history: seq<PlayerWithId>

    /** Both files hold only rows that read back as valid players. Each
        operation demands this only of the file it reads. */
    ghost predicate Valid()
      reads this
    {
      AllPlayersValid(table) && AllPlayersValid(history)
    }

    /** Neither file exists yet: both read as empty. */
    constructor ()
      ensures Valid()
      ensures table == [] && history == []
    {
      table := [];
      history := [];
    }

    /** Files that already hold valid rows. */
    constructor Load(rows: seq<PlayerWithId>, deleted: seq<PlayerWithId>)
      requires AllPlayersValid(rows) && AllPlayersValid(deleted)
      ensures Valid()
      ensures table == rows && history == deleted
    {
      table := rows;
      history := deleted;
    }

    /** `read_all_players`: every row of the players file, in file order. */
    method ReadAll() returns (players: seq<PlayerWithId>)
      requires AllPlayersValid(table)
      ensures players == table
      ensures AllPlayersValid(players)
    {
      players := table;
    }

    /** `read_deleted_players`: every row of the history, in file order. */
    method ReadDeleted() returns (players: seq<PlayerWithId>)
      requires AllPlayersValid(history)
      ensures players == history
      ensures AllPlayersValid(players)
    {
      players := history;
    }

    /** `read_one_player`: the first player with the id, or None. */
    method ReadOne(id: int) returns (r: Option<PlayerWithId>)
      requires AllPlayersValid(table)
      ensures r == Lookup(table, id)
      ensures r.Some? ==> r.value.id == id && ValidPlayer(r.value.fields)
    {
      var i := 0;
      while i < |table|
        invariant 0 <= i <= |table|
        invariant forall j :: 0 <= j < i ==> table[j].id != id
      {
        if table[i].id == id {
          return Some(table[i]);
        }
        i := i + 1;
      }
      return None;
    }

    /** `create_player`: the player is appended with id one more than the
        largest id, or 1 in an empty file, and returned. */
    method Create(p: Player) returns (r: PlayerWithId)
      requires AllPlayersValid(table) && ValidPlayer(p)
      modifies this
      ensures AllPlayersValid(table)
      ensures r == WithId(NextId(old(table)), p)
      ensures table == old(table) + [r] && history == old(history)
      ensures old(WellKeyed(table)) ==> WellKeyed(table)
    {
      var newId := 1;
      if |table| > 0 {
        var m := table[0].id;
        var i := 1;
        while i < |table|
          invariant 1 <= i <= |table|
          invariant m == MaxId(table[..i])
        {
          assert table[..i + 1][..i] == table[..i];
          if table[i].id > m {
            m := table[i].id;
          }
          i := i + 1;
        }
        assert table[..i] == table;
        newId := m + 1;
      }
      r := WithId(newId, p);
      if WellKeyed(table) {
        AppendNextKeepsWellKeyed(table, r);
      }
      table := table + [r];
    }

    /** `update_player`: the keys of the patch are written over the first
        player with the id, which is returned; every other player is left
        alone. With no such player nothing is written and None is returned. */
    method Update(id: int, patch: PlayerPatch) returns (r: Option<PlayerWithId>)
      requires AllPlayersValid(table)
      modifies this
      ensures ValidPatch(patch) ==> AllPlayersValid(table)
      ensures history == old(history)
      ensures match FirstIndex(old(table), id)
        case None => r == None && table == old(table)
        case Some(i) =>
          && table == old(table)[i := WithId(id, ApplyPatch(old(table)[i].fields, patch))]
          && r == Some(table[i])
      ensures old(WellKeyed(table)) ==> WellKeyed(table)
    {
      var i := 0;
      while i < |table|
        invariant 0 <= i <= |table|
        invariant forall j :: 0 <= j < i ==> table[j].id != id
      {
        if table[i].id == id {
          var updated := WithId(table[i].id, ApplyPatch(table[i].fields, patch));
          if WellKeyed(table) {
            ReplaceKeepsWellKeyed(table, i, updated);
          }
          table := table[i := updated];
          return Some(updated);
        }
        i := i + 1;
      }
      return None;
    }

    /** `delete_player`: every player with the id is filtered out of the
        file, the survivors keep their order, and the last one removed is
        appended to the history and returned. With no such player neither
        file changes and None is returned. */
    method Delete(id: int) returns (r: Option<PlayerWithId>)
      requires AllPlayersValid(table)
      modifies this
      ensures AllPlayersValid(table)
      ensures old(AllPlayersValid(history)) ==> AllPlayersValid(history)
      ensures r == LastMatch(old(table), id)
      ensures r.None? ==> table == old(table) && history == old(history)
      ensures r.Some? ==> table == RemoveId(old(table), id) && history == old(history) + [r.value]
      ensures old(WellKeyed(table)) ==> WellKeyed(table)
    {
      var removed: Option<PlayerWithId> := None;
      var kept: seq<PlayerWithId> := [];
      var i := 0;
      while i < |table|
        invariant 0 <= i <= |table|
        invariant kept == RemoveId(table[..i], id)
        invariant removed == LastMatch(table[..i], id)
      {
        assert table[..i + 1][..i] == table[..i];
        if table[i].id == id {
          removed := Some(table[i]);
        } else {
          kept := kept + [table[i]];
        }
        i := i + 1;
      }
      assert table[..i] == table;
      if removed.Some? {
        if WellKeyed(table) {
          RemoveIdKeepsWellKeyed(table, id);
        }
        assert forall j :: 0 <= j < |kept| ==> kept[j] in table;
        table := kept;
        AppendToDeleted(removed.value);
      }
      return removed;
    }

    /** `append_to_deleted_players`: the player is added at the end of the
        history; the players file is not touched. */
    method AppendToDeleted(p: PlayerWithId)
      modifies this
      ensures history == old(history) + [p] && table == old(table)
      ensures AllPlayersValid(old(history)) && ValidPlayer(p.fields) ==> AllPlayersValid(history)
    {
      history := history + [p];
    }
  }
}
