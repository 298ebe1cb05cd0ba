/** What the bot believes about each pac, own and enemy: where it was last seen, its form,
    its ability timers and whether it is alive. */
module PacBeliefs {
  import opened Wrappers
  import opened Traverse
  import opened Decimal
  import opened Model
  import Collections

  datatype Pac = Pac(id: nat, team: int, pos: Vec, form: string,
                     seenTick: int, abilityCooldownUntilTick: int, alive: bool, speedUntilTick: int)

  /** `new Pac(id, team, pos, form)`: never seen, no ability timers running, alive. */
  function NewPac(id: nat, team: int, pos: Vec, form: string): Pac {
    Pac(id, team, pos, form, 0, 0, true, 0)
  }

  /** `Pac.key`: "S" and the id for an own pac, "E" and the id for any other team. */
  function KeyOf(team: int, id: nat): (k: string)
    ensures |k| > 1 && k[0] == (if team == Self then 'S' else 'E')
  {
    (if team == Self then "S" else "E") + NatToString(id)
  }

  /** Two pacs share a key exactly when both or neither are own pacs and their ids agree. */
  lemma KeyOfInjective(team1: int, id1: nat, team2: int, id2: nat)
    ensures KeyOf(team1, id1) == KeyOf(team2, id2) <==> (team1 == Self <==> team2 == Self) && id1 == id2
  {
    if KeyOf(team1, id1) == KeyOf(team2, id2) {
      assert KeyOf(team1, id1)[1..] == NatToString(id1);
      assert KeyOf(team2, id2)[1..] == NatToString(id2);
      ParseNatToString(id1);
      ParseNatToString(id2);
    }
  }

  function Key(pac: Pac): string {
    KeyOf(pac.team, pac.id)
  }

  /** `initSelf`: an own pac as its sensor reports it, seen this tick. */
  function InitSelf(view: View, sensor: PacSensor): (pac: Pac)
    ensures Key(pac) == KeyOf(Self, sensor.id) && pac.alive
    ensures pac.pos == sensor.pos && pac.form == sensor.kind && pac.seenTick == view.tick
    ensures pac.abilityCooldownUntilTick == 0 && pac.speedUntilTick == 0
  {
    NewPac(sensor.id, Self, sensor.pos, sensor.kind).(seenTick := view.tick)
  }

  /** The column the enemy's matching pac starts in on a map mirrored left to right. */
  function MirrorX(view: View, x: int): int {
    view.width - 1 - x
  }

  /** `initEnemy` as written: the mirror column is `width - x`. */
  function InitEnemyAsWritten(view: View, sensor: PacSensor): (pac: Pac)
    ensures Key(pac) == KeyOf(Enemy, sensor.id) && pac.alive && pac.form == sensor.kind && pac.seenTick == view.tick
    ensures pac.pos.x + sensor.pos.x == view.width && pac.pos.y == sensor.pos.y
  {
    NewPac(sensor.id, Enemy, Vec(view.width - sensor.pos.x, sensor.pos.y), sensor.kind).(seenTick := view.tick)
  }

  /** An own pac in the leftmost column puts its enemy twin one column past the right edge. */
  lemma InitEnemyAsWrittenLeavesGrid(view: View, sensor: PacSensor)
    requires WithinBounds(sensor.pos, view.Dims()) && sensor.pos.x == 0
    ensures !WithinBounds(InitEnemyAsWritten(view, sensor).pos, view.Dims())
  {
  }

  /** `initEnemy`, mirroring the column within the grid: the enemy pac with the same id and
      form, seen this tick, at the mirror image of the own pac's cell. */
  function InitEnemy(view: View, sensor: PacSensor): (pac: Pac)
    ensures Key(pac) == KeyOf(Enemy, sensor.id) && pac.alive
    ensures pac.pos == Vec(MirrorX(view, sensor.pos.x), sensor.pos.y)
    ensures pac.form == sensor.kind && pac.seenTick == view.tick
    ensures pac.abilityCooldownUntilTick == 0 && pac.speedUntilTick == 0
  {
    NewPac(sensor.id, Enemy, Vec(MirrorX(view, sensor.pos.x), sensor.pos.y), sensor.kind).(seenTick := view.tick)
  }

  /** The mirrored cell is in the grid whenever the own pac's is, and mirroring twice is the
      identity. */
  lemma MirrorInGrid(view: View, p: Vec)
    ensures WithinBounds(p, view.Dims()) ==> WithinBounds(Vec(MirrorX(view, p.x), p.y), view.Dims())
    ensures MirrorX(view, MirrorX(view, p.x)) == p.x
  {
  }

  /** `seen`: a "DEAD" report only marks the pac dead; any other report moves the pac to the
      reported cell and form, stamps the tick, and starts each ability timer that is non-zero. */
  function Seen(pac: Pac, tick: int, sensor: PacSensor): (r: Pac)
    ensures r.id == pac.id && r.team == pac.team
    ensures r.alive ==> pac.alive
    ensures sensor.kind == Dead ==> !r.alive && r.pos == pac.pos && r.form == pac.form && r.seenTick == pac.seenTick
    ensures sensor.kind == Dead ==> r.abilityCooldownUntilTick == pac.abilityCooldownUntilTick && r.speedUntilTick == pac.speedUntilTick
    ensures sensor.kind != Dead ==> r.alive == pac.alive && r.pos == sensor.pos && r.form == sensor.kind && r.seenTick == tick
    ensures sensor.kind != Dead ==> r.abilityCooldownUntilTick == (if sensor.abilityCooldown == 0 then 0 else tick + sensor.abilityCooldown)
    ensures sensor.kind != Dead ==> r.speedUntilTick == (if sensor.speedTurnsLeft == 0 then 0 else tick + sensor.speedTurnsLeft)
  {
    if sensor.kind == Dead then
      pac.(alive := false)
    else
      pac.(pos := sensor.pos, form := sensor.kind, seenTick := tick,
           abilityCooldownUntilTick := if sensor.abilityCooldown != 0 then tick + sensor.abilityCooldown else 0,
           speedUntilTick := if sensor.speedTurnsLeft != 0 then tick + sensor.speedTurnsLeft else 0)
  }

  /** `pac` after each of `sensors` in turn. */
  function SeenBy(pac: Pac, tick: int, sensors: seq<PacSensor>): Pac
    decreases |sensors|
  {
    if sensors == [] then pac
    else Seen(SeenBy(pac, tick, sensors[..|sensors| - 1]), tick, sensors[|sensors| - 1])
  }

  /** However many reports arrive, a dead pac stays dead and keeps its key. */
  lemma {:induction false} SeenByKeepsDead(pac: Pac, tick: int, sensors: seq<PacSensor>)
    ensures Key(SeenBy(pac, tick, sensors)) == Key(pac)
    ensures SeenBy(pac, tick, sensors).alive ==> pac.alive
    decreases |sensors|
  {
    if sensors != [] {
      SeenByKeepsDead(pac, tick, sensors[..|sensors| - 1]);
    }
  }

  function SensorKey(sensor: PacSensor): string {
    KeyOf(sensor.team, sensor.id)
  }

  /** The keys the first turn adds: each own pac and its enemy twin. */
  function SeededKeys(sensors: seq<PacSensor>): set<string> {
    (set s | s in sensors && s.team == Self :: KeyOf(Self, s.id))
      + (set s | s in sensors && s.team == Self :: KeyOf(Enemy, s.id))
  }

  /** The reports about the pac with key `k`, in order. */
  function SensorsFor(sensors: seq<PacSensor>, k: string): seq<PacSensor> {
    Collections.Keep(sensors, s => SensorKey(s) == k)
  }

  lemma SeededKeysSnoc(sensors: seq<PacSensor>, s: PacSensor)
    ensures SeededKeys(sensors + [s]) ==
      SeededKeys(sensors) + if s.team == Self then {KeyOf(Self, s.id), KeyOf(Enemy, s.id)} else {}
  {
    var all := sensors + [s];
    assert forall t :: t in all <==> t in sensors || t == s;
  }

  lemma SensorsForSnoc(sensors: seq<PacSensor>, s: PacSensor, k: string)
    ensures SensorsFor(sensors + [s], k) == SensorsFor(sensors, k) + if SensorKey(s) == k then [s] else []
  {
    assert (sensors + [s])[..|sensors|] == sensors;
  }

  /** `pac` is the own pac, or its enemy twin, that the first turn makes from one of `sensors`. */
  ghost predicate SeededFrom(view: View, sensors: seq<PacSensor>, pac: Pac) {
    exists s :: s in sensors && s.team == Self && (pac == InitSelf(view, s) || pac == InitEnemy(view, s))
  }

  /** `r` is `pacs` with the first-turn entries for the reports `done` added. */
  ghost predicate SeededBy(view: View, pacs: map<string, Pac>, done: seq<PacSensor>, r: map<string, Pac>) {
    && r.Keys == pacs.Keys + SeededKeys(done)
    && (forall k :: k in r && k !in SeededKeys(done) ==> r[k] == pacs[k])
    && (forall k :: k in SeededKeys(done) ==> Key(r[k]) == k && SeededFrom(view, view.pacs, r[k]))
  }

  /** The entries one report adds on the first turn. */
  function SeedOne(view: View, r: map<string, Pac>, sensor: PacSensor): map<string, Pac> {
    if sensor.team == Self then
      var self := InitSelf(view, sensor);
      var enemy := InitEnemy(view, sensor);
      r[Key(self) := self][Key(enemy) := enemy]
    else r
  }

  lemma SeedStep(view: View, pacs: map<string, Pac>, done: seq<PacSensor>, r: map<string, Pac>, sensor: PacSensor)
    requires SeededBy(view, pacs, done, r) && sensor in view.pacs
    ensures SeededBy(view, pacs, done + [sensor], SeedOne(view, r, sensor))
  {
    SeededKeysSnoc(done, sensor);
    if sensor.team == Self {
      SeedStepOwn(view, pacs, done, r, sensor);
    }
  }

  lemma SeedStepOwn(view: View, pacs: map<string, Pac>, done: seq<PacSensor>, r: map<string, Pac>, sensor: PacSensor)
    requires SeededBy(view, pacs, done, r) && sensor in view.pacs && sensor.team == Self
    requires SeededKeys(done + [sensor]) == SeededKeys(done) + {KeyOf(Self, sensor.id), KeyOf(Enemy, sensor.id)}
    ensures SeededBy(view, pacs, done + [sensor], SeedOne(view, r, sensor))
  {
    var self := InitSelf(view, sensor);
    var enemy := InitEnemy(view, sensor);
    var next := r[Key(self) := self][Key(enemy) := enemy];
    assert SeededFrom(view, view.pacs, self) && SeededFrom(view, view.pacs, enemy);
    KeyOfInjective(Self, sensor.id, Enemy, sensor.id);
    forall k | k in SeededKeys(done + [sensor])
      ensures Key(next[k]) == k && SeededFrom(view, view.pacs, next[k])
    {
      if k != Key(self) && k != Key(enemy) {
        assert k in SeededKeys(done);
      }
    }
  }

  /** The first-turn half of `update`: every own pac reported and its enemy twin are entered
      under their keys, over whatever the map held. */
  method Seed(view: View, pacs: map<string, Pac>) returns (r: map<string, Pac>)
    ensures r.Keys == pacs.Keys + SeededKeys(view.pacs)
    ensures forall k :: k in r && k !in SeededKeys(view.pacs) ==> r[k] == pacs[k]
    ensures forall k :: k in SeededKeys(view.pacs) ==> Key(r[k]) == k && SeededFrom(view, view.pacs, r[k])
  {
    r := pacs;
    for i := 0 to |view.pacs|
      invariant SeededBy(view, pacs, view.pacs[..i], r)
    {
      var sensor := view.pacs[i];
      assert view.pacs[..i + 1] == view.pacs[..i] + [sensor];
      SeedStep(view, pacs, view.pacs[..i], r, sensor);
      if sensor.team == Self {
        var self := InitSelf(view, sensor);
        r := r[Key(self) := self];
        var enemy := InitEnemy(view, sensor);
        r := r[Key(enemy) := enemy];
      }
    }
    assert view.pacs[..|view.pacs|] == view.pacs;
  }

  /** `r` holds each pac of `pacs` after the reports `done` about it. */
  ghost predicate AppliedBy(pacs: map<string, Pac>, tick: int, done: seq<PacSensor>, r: map<string, Pac>) {
    && r.Keys == pacs.Keys
    && forall k :: k in r ==> r[k] == SeenBy(pacs[k], tick, SensorsFor(done, k))
  }

  lemma ApplyStep(pacs: map<string, Pac>, tick: int, done: seq<PacSensor>, r: map<string, Pac>, sensor: PacSensor)
    requires AppliedBy(pacs, tick, done, r) && SensorKey(sensor) in r
    ensures AppliedBy(pacs, tick, done + [sensor], r[SensorKey(sensor) := Seen(r[SensorKey(sensor)], tick, sensor)])
  {
    var key := SensorKey(sensor);
    var next := r[key := Seen(r[key], tick, sensor)];
    assert next.Keys == pacs.Keys;
    forall k | k in next ensures next[k] == SeenBy(pacs[k], tick, SensorsFor(done + [sensor], k)) {
      ApplyKey(pacs[k], tick, done, sensor, k);
      assert next[k] == if k == key then Seen(r[k], tick, sensor) else r[k];
    }
  }

  /** One more report changes only the pac with the report's key, by one more `seen`. */
  lemma ApplyKey(pac: Pac, tick: int, done: seq<PacSensor>, sensor: PacSensor, k: string)
    ensures SeenBy(pac, tick, SensorsFor(done + [sensor], k)) ==
      if k == SensorKey(sensor) then Seen(SeenBy(pac, tick, SensorsFor(done, k)), tick, sensor)
      else SeenBy(pac, tick, SensorsFor(done, k))
  {
    SensorsForSnoc(done, sensor, k);
    var before := SensorsFor(done, k);
    if k == SensorKey(sensor) {
      assert SensorsFor(done + [sensor], k) == before + [sensor];
      assert (before + [sensor])[..|before|] == before;
      assert SeenBy(pac, tick, before + [sensor]) == Seen(SeenBy(pac, tick, before), tick, sensor);
    } else {
      assert SensorsFor(done + [sensor], k) == before;
    }
  }

  /** The incremental half of `update`: every report, in order, is applied to the pac with
      the report's key, which must be known. */
  method Apply(view: View, pacs: map<string, Pac>) returns (r: map<string, Pac>)
    requires forall s :: s in view.pacs ==> SensorKey(s) in pacs
    ensures r.Keys == pacs.Keys
    ensures forall k :: k in r ==> r[k] == SeenBy(pacs[k], view.tick, SensorsFor(view.pacs, k))
  {
    r := pacs;
    for i := 0 to |view.pacs|
      invariant AppliedBy(pacs, view.tick, view.pacs[..i], r)
    {
      var sensor := view.pacs[i];
      assert view.pacs[..i + 1] == view.pacs[..i] + [sensor];
      ApplyStep(pacs, view.tick, view.pacs[..i], r, sensor);
      var key := SensorKey(sensor);
      r := r[key := Seen(r[key], view.tick, sensor)];
    }
    assert view.pacs[..|view.pacs|] == view.pacs;
  }

  /** `update`: on the first turn seed the map, then apply the reports. Every reported pac
      must be known by then. On the first turn each pac is its seeded entry after its own
      reports; later, each is the old entry after them, and no dead pac comes back to life. */
  method Update(view: View, pacs: map<string, Pac>) returns (r: map<string, Pac>)
    requires forall s :: s in view.pacs ==> SensorKey(s) in pacs || (view.tick == 0 && SensorKey(s) in SeededKeys(view.pacs))
    ensures r.Keys == pacs.Keys + if view.tick == 0 then SeededKeys(view.pacs) else {}
    ensures view.tick != 0 ==> forall k :: k in r ==> r[k] == SeenBy(pacs[k], view.tick, SensorsFor(view.pacs, k))
    ensures view.tick != 0 ==> forall k :: k in r && r[k].alive ==> pacs[k].alive
    ensures view.tick == 0 ==>
      exists s :: SeededBy(view, pacs, view.pacs, s) && forall k :: k in r ==> k in s && r[k] == SeenBy(s[k], view.tick, SensorsFor(view.pacs, k))
  {
    var seeded := pacs;
    if view.tick == 0 {
      seeded := Seed(view, pacs);
    }
    r := Apply(view, seeded);
    if view.tick == 0 {
      assert SeededBy(view, pacs, view.pacs, seeded);
    }
    forall k | k in r && view.tick != 0 ensures r[k].alive ==> pacs[k].alive {
      SeenByKeepsDead(pacs[k], view.tick, SensorsFor(view.pacs, k));
    }
  }
}
