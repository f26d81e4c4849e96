/** The record types of the game API and the field constraints that pydantic
    enforces whenever one of them is built (models.py). Floats are modelled as
    reals; pydantic's rejection of a record is modelled by the list of the
    fields whose constraint fails. */
module Models {

  /** A player's attributes (models.py `Player`). */
  datatype Player = Player(
    health: int,
    regenerateHealth: int,
    speed: real,
    jump: real,
    isDead: bool,
    armor: int,
    hitSpeed: int)

  /** An enemy's attributes (models.py `Enemy`); `kind` is the source's `type`
      field, renamed because `type` is a Dafny keyword. */
  datatype Enemy = Enemy(
    speed: real,
    jump: real,
    hitSpeed: int,
    health: int,
    kind: string,
    spawn: real,
    probabilitySpawn: real)

  /** `PlayerWithID` and `EnemyWithID` extend the base record with nothing but
      an unconstrained integer `id`. */
  datatype WithId<T> = WithId(id: int, fields: T)

  type PlayerWithId = WithId<Player>

  type EnemyWithId = WithId<Enemy>

  /** The columns of a player row, in the order of `PLAYER_FIELDS`
      (operations/operations_player.py), id excluded. */
  datatype PlayerField =
    PHealth | PRegenerateHealth | PSpeed | PJump | PIsDead | PArmor | PHitSpeed

  /** The columns of an enemy row, in the order of `ENEMY_FIELDS`, id excluded. */
  datatype EnemyField =
    ESpeed | EJump | EHitSpeed | EHealth | EType | ESpawn | EProbabilitySpawn

  /** The `Field(..., ge=0)` and `Field(..., gt=0)` constraints of `Player`. */
  predicate ValidPlayer(p: Player)
    ensures ValidPlayer(p) <==> forall f :: PlayerFieldOk(p, f)
  {
    var ok :=
      && p.health >= 0
      && p.regenerateHealth >= 0
      && p.speed > 0.0
      && p.jump > 0.0
      && p.armor >= 0
      && p.hitSpeed >= 0;
    assert (forall f :: PlayerFieldOk(p, f)) ==>
      && PlayerFieldOk(p, PHealth) && PlayerFieldOk(p, PRegenerateHealth)
      && PlayerFieldOk(p, PSpeed) && PlayerFieldOk(p, PJump)
      && PlayerFieldOk(p, PArmor) && PlayerFieldOk(p, PHitSpeed);
    ok
  }

  /** The `Field` constraints of `Enemy`, `min_length=1` on `type` included. */
  predicate ValidEnemy(e: Enemy)
    ensures ValidEnemy(e) <==> forall f :: EnemyFieldOk(e, f)
  {
    var ok :=
      && e.speed > 0.0
      && e.jump > 0.0
      && e.hitSpeed >= 0
      && e.health >= 0
      && |e.kind| >= 1
      && e.spawn > 0.0
      && e.probabilitySpawn >= 0.0;
    assert (forall f :: EnemyFieldOk(e, f)) ==>
      && EnemyFieldOk(e, ESpeed) && EnemyFieldOk(e, EJump) && EnemyFieldOk(e, EHitSpeed)
      && EnemyFieldOk(e, EHealth) && EnemyFieldOk(e, EType) && EnemyFieldOk(e, ESpawn)
      && EnemyFieldOk(e, EProbabilitySpawn);
    ok
  }

  /** The fields of `Player` in declaration order. */
  const PlayerFields: seq<PlayerField> :=
    [PHealth, PRegenerateHealth, PSpeed, PJump, PIsDead, PArmor, PHitSpeed]

  /** The fields of `Enemy` in declaration order. */
  const EnemyFields: seq<EnemyField> :=
    [ESpeed, EJump, EHitSpeed, EHealth, EType, ESpawn, EProbabilitySpawn]

  /** The `Field` declaration of one player field, read as a test of its value. */
  predicate PlayerFieldOk(p: Player, f: PlayerField) {
    match f
    case PHealth => p.health >= 0
    case PRegenerateHealth => p.regenerateHealth >= 0
    case PSpeed => p.speed > 0.0
    case PJump => p.jump > 0.0
    case PIsDead => true
    case PArmor => p.armor >= 0
    case PHitSpeed => p.hitSpeed >= 0
  }

  /** The `Field` declaration of one enemy field, read as a test of its value. */
  predicate EnemyFieldOk(e: Enemy, f: EnemyField) {
    match f
    case ESpeed => e.speed > 0.0
    case EJump => e.jump > 0.0
    case EHitSpeed => e.hitSpeed >= 0
    case EHealth => e.health >= 0
    case EType => |e.kind| >= 1
    case ESpawn => e.spawn > 0.0
    case EProbabilitySpawn => e.probabilitySpawn >= 0.0
  }

  /** The fields among `fs` whose constraint the player fails, in order. */
  function PlayerFieldsFailing(p: Player, fs: seq<PlayerField>): (errs: seq<PlayerField>)
    ensures forall f :: f in errs <==> f in fs && !PlayerFieldOk(p, f)
  {
    if fs == [] then []
    else (if PlayerFieldOk(p, fs[0]) then [] else [fs[0]]) + PlayerFieldsFailing(p, fs[1..])
  }

  /** The fields among `fs` whose constraint the enemy fails, in order. */
  function EnemyFieldsFailing(e: Enemy, fs: seq<EnemyField>): (errs: seq<EnemyField>)
    ensures forall f :: f in errs <==> f in fs && !EnemyFieldOk(e, f)
  {
    if fs == [] then []
    else (if EnemyFieldOk(e, fs[0]) then [] else [fs[0]]) + EnemyFieldsFailing(e, fs[1..])
  }

  /** The fields pydantic names when it refuses to build a player: empty
      exactly when the player is valid, and containing exactly the fields
      whose own constraint fails. */
  function PlayerErrors(p: Player): (errs: seq<PlayerField>)
    ensures errs == [] <==> ValidPlayer(p)
    ensures forall f :: f in errs <==> !PlayerFieldOk(p, f)
    ensures PIsDead !in errs
  {
    var errs := PlayerFieldsFailing(p, PlayerFields);
    assert forall f :: f in PlayerFields by {
      assert PHealth in PlayerFields && PRegenerateHealth in PlayerFields && PSpeed in PlayerFields;
      assert PJump in PlayerFields && PIsDead in PlayerFields;
      assert PArmor in PlayerFields && PHitSpeed in PlayerFields;
      forall f ensures f in PlayerFields {
        assert f.PHealth? || f.PRegenerateHealth? || f.PSpeed? || f.PJump? || f.PIsDead?
          || f.PArmor? || f.PHitSpeed?;
      }
    }
    assert errs == [] <==> ValidPlayer(p) by {
      if errs != [] {
        assert !PlayerFieldOk(p, errs[0]);
      }
    }
    errs
  }

  /** The fields pydantic names when it refuses to build an enemy. */
  function EnemyErrors(e: Enemy): (errs: seq<EnemyField>)
    ensures errs == [] <==> ValidEnemy(e)
    ensures forall f :: f in errs <==> !EnemyFieldOk(e, f)
  {
    var errs := EnemyFieldsFailing(e, EnemyFields);
    assert forall f :: f in EnemyFields by {
      assert ESpeed in EnemyFields && EJump in EnemyFields && EHitSpeed in EnemyFields;
      assert EHealth in EnemyFields && EType in EnemyFields && ESpawn in EnemyFields;
      assert EProbabilitySpawn in EnemyFields;
      forall f ensures f in EnemyFields {
        assert f.ESpeed? || f.EJump? || f.EHitSpeed? || f.EHealth? || f.EType? || f.ESpawn?
          || f.EProbabilitySpawn?;
      }
    }
    assert errs == [] <==> ValidEnemy(e) by {
      if errs != [] {
        assert !EnemyFieldOk(e, errs[0]);
      }
    }
    errs
  }
}
