/** The per-notification rules of proj_main_loop in src/main.c: keyboard flags,
    the cursor's accept/reject rule, the GAME-state tick counters and
    cadences, the fire cooldown, and the resolution pick with its mode change
    and enemy-pool reset. Notifications arrive as method calls carrying the
    scancode, packet fields or tick counter; callees defined elsewhere
    (button hit-tests, update_*_logic, spawn_dead_enemies, drawing, the VBE
    calls) are reduced to the inputs they provide and the flags they receive. */
module MainLoop {
  import opened Bytes
  import opened Graphics

  const ONE_SEC := 30
  const SCAN_CODE_A_PRESSED := 0x1E
  const SCAN_CODE_A_RELEASED := 0x9E
  const SCAN_CODE_D_PRESSED := 0x20
  const SCAN_CODE_D_RELEASED := 0xA0
  const SCAN_CODE_W_PRESSED := 0x11
  const SCAN_CODE_W_RELEASED := 0x91
  const SCAN_CODE_ENTER := 0x1C
  const MONSTER_LIFE := 5
  const MONSTER_DAMAGE := 5

  datatype GameState = Resolution | Menu | Game | LeaderBoard | ScoreBoard | Exit

  /* ---------------- keyboard ---------------- */

  /** key_a_pressed, key_d_pressed, key_w_pressed. */
  datatype Keys = Keys(a: bool, d: bool, w: bool)

  /** The if-else chain on the last scancode, run in every game state. */
  function KeyFlags(k: Keys, scancode: byte): (r: Keys)
    ensures scancode == SCAN_CODE_A_PRESSED ==> r == k.(a := true)
    ensures scancode == SCAN_CODE_A_RELEASED ==> r == k.(a := false)
    ensures scancode == SCAN_CODE_D_PRESSED ==> r == k.(d := true)
    ensures scancode == SCAN_CODE_D_RELEASED ==> r == k.(d := false)
    ensures scancode == SCAN_CODE_W_PRESSED ==> r == k.(w := true)
    ensures scancode == SCAN_CODE_W_RELEASED ==> r == k.(w := false)
    // a flag moves only on its own make or break code
    ensures r.a != k.a ==> scancode == SCAN_CODE_A_PRESSED || scancode == SCAN_CODE_A_RELEASED
    ensures r.d != k.d ==> scancode == SCAN_CODE_D_PRESSED || scancode == SCAN_CODE_D_RELEASED
    ensures r.w != k.w ==> scancode == SCAN_CODE_W_PRESSED || scancode == SCAN_CODE_W_RELEASED
  {
    if scancode == SCAN_CODE_A_PRESSED then k.(a := true)
    else if scancode == SCAN_CODE_A_RELEASED then k.(a := false)
    else if scancode == SCAN_CODE_D_PRESSED then k.(d := true)
    else if scancode == SCAN_CODE_D_RELEASED then k.(d := false)
    else if scancode == SCAN_CODE_W_PRESSED then k.(w := true)
    else if scancode == SCAN_CODE_W_RELEASED then k.(w := false)
    else k
  }

  /** Each scancode changes at most one flag; Enter, like every other code
      outside the six, changes none. */
  lemma KeyFlagsAtMostOne(k: Keys, scancode: byte)
    ensures var r := KeyFlags(k, scancode);
            (if r.a != k.a then 1 else 0) + (if r.d != k.d then 1 else 0) + (if r.w != k.w then 1 else 0) <= 1
    ensures scancode == SCAN_CODE_ENTER ==> KeyFlags(k, scancode) == k
  {
  }

  /** Repeating a scancode (typematic repeat) changes nothing further. */
  lemma KeyFlagsIdempotent(k: Keys, scancode: byte)
    ensures KeyFlags(KeyFlags(k, scancode), scancode) == KeyFlags(k, scancode)
  {
  }

  /* ---------------- cursor ---------------- */

  datatype Cursor = Cursor(x: int, y: int)

  /** The cursor's admissible region: 0 < x, x + 7 < XRes, 0 < y <= YRes. */
  predicate InRegion(c: Cursor, xRes: int, yRes: int)
  {
    0 < c.x && c.x + 7 < xRes && 0 < c.y <= yRes
  }

  /** A packet's displacement is applied only if it keeps the cursor inside
      the region; the y axis is inverted (y -= delta_y). */
  function MovedCursor(c: Cursor, dx: int, dy: int, xRes: int, yRes: int): (r: Cursor)
    ensures r == c || InRegion(r, xRes, yRes)
    ensures InRegion(Cursor(c.x + dx, c.y - dy), xRes, yRes) ==> r == Cursor(c.x + dx, c.y - dy)
    ensures !InRegion(Cursor(c.x + dx, c.y - dy), xRes, yRes) ==> r == c
  {
    if !((dx + c.x) <= 0 || (dx + c.x + 7) >= xRes || (-dy + c.y) <= 0 || (-dy + c.y) > yRes)
    then Cursor(c.x + dx, c.y - dy)
    else c
  }

  /** No packet can take a cursor out of the region. */
  lemma {:induction false} RegionPreserved(c: Cursor, moves: seq<(int, int)>, xRes: int, yRes: int)
    requires InRegion(c, xRes, yRes)
    ensures InRegion(Cursors(c, moves, xRes, yRes), xRes, yRes)
    decreases |moves|
  {
    if moves != [] {
      RegionPreserved(MovedCursor(c, moves[0].0, moves[0].1, xRes, yRes), moves[1..], xRes, yRes);
    }
  }

  /** The cursor after a run of packets. */
  function Cursors(c: Cursor, moves: seq<(int, int)>, xRes: int, yRes: int): Cursor
    decreases |moves|
  {
    if moves == [] then c
    else Cursors(MovedCursor(c, moves[0].0, moves[0].1, xRes, yRes), moves[1..], xRes, yRes)
  }

  /* ---------------- GAME-state timer tick ---------------- */

  /** C's `%` on int, which truncates toward zero. */
  function CRem(a: int, b: int): (r: int)
    requires b > 0
    ensures a >= 0 ==> r == a % b
    ensures r == 0 <==> a % b == 0
  {
    RemZeroNegated(a, b);
    if a >= 0 then a % b else -((-a) % b)
  }

  /** a and -a are divisible by b together. */
  lemma RemZeroNegated(a: int, b: int)
    requires b > 0
    ensures (-a) % b == 0 <==> a % b == 0
  {
    var q1, m1 := a / b, a % b;
    var q2, m2 := (-a) / b, (-a) % b;
    var k := q1 + q2;
    assert b * k + (m1 + m2) == 0;
    MulAtLeast(b, k);
    MulAtLeast(b, k + 1);
    assert b * (k + 1) == b * k + b;
  }

  /** What the second half of a GAME tick passes on and leaves behind:
      the create_enemy flag handed to update_enemy_logic, the new renew,
      whether spawn_dead_enemies runs, and whether the multiplier and the
      score are stepped. */
  datatype TickOutcome = TickOutcome(createEnemy: bool, renew: int, spawnDead: bool,
                                     multiplierStep: bool, scoreStep: bool)

  /** The cadences of a GAME tick at counter value `counter`, with create_enemy
      false on entry (it is reset at the end of every GAME tick).
      `counter_timer % ONE_SEC*2 == 0` is `(counter_timer % 30) * 2 == 0`, so the
      spawn flag and the multiplier step come every 30 ticks, not every 60.
      `stillGame` is whether update_player_logic left the state at GAME. */
  function EndOfTick(counter: int, renew: int, stillGame: bool): (r: TickOutcome)
    ensures r.createEnemy <==> counter % 30 == 0
    ensures r.multiplierStep <==> stillGame && counter % 30 == 0
    ensures r.scoreStep <==> stillGame && counter % 20 == 0
    ensures r.renew < 5 && (renew >= 0 ==> r.renew >= 0)
    ensures 0 <= renew < 5 ==> (r.spawnDead <==> renew == 4 && counter % 30 == 0)
    ensures 0 <= renew < 5 && !r.spawnDead ==> r.renew == renew + (if counter % 30 == 0 then 1 else 0)
  {
    var createEnemy := CRem(counter, ONE_SEC) * 2 == 0;
    var renew1 := if CRem(counter, ONE_SEC) == 0 then renew + 1 else renew;
    var spawn := renew1 >= 5;
    TickOutcome(createEnemy, if spawn then 0 else renew1, spawn,
                stillGame && CRem(counter, ONE_SEC) * 2 == 0, stillGame && CRem(counter, 20) == 0)
  }

  /** The spawn flag fires at counter 30, which is not a multiple of ONE_SEC*2. */
  lemma SpawnFlagEveryOneSecond()
    ensures EndOfTick(30, 0, true).createEnemy && 30 % (ONE_SEC * 2) != 0
  {
  }

  /** Number of 30-tick boundaries among the counters a, a+1, ..., a+n-1. */
  function Boundaries(a: int, n: nat): nat
  {
    if n == 0 then 0 else Boundaries(a, n - 1) + (if (a + n - 1) % 30 == 0 then 1 else 0)
  }

  /** renew after n consecutive GAME ticks with counters a, ..., a+n-1. */
  function RenewAfter(renew: int, a: int, n: nat): int
  {
    if n == 0 then renew else EndOfTick(a + n - 1, RenewAfter(renew, a, n - 1), true).renew
  }

  /** How many of those ticks call spawn_dead_enemies. */
  function SpawnsAfter(renew: int, a: int, n: nat): nat
  {
    if n == 0 then 0
    else SpawnsAfter(renew, a, n - 1)
         + (if EndOfTick(a + n - 1, RenewAfter(renew, a, n - 1), true).spawnDead then 1 else 0)
  }

  /** One GAME tick in terms of k = renew + boundaries so far: renew is
      k mod 5 before and (k + step) mod 5 after, and the tick revives enemies
      exactly when (k + step) div 5 moves up. */
  lemma RenewTick(k: nat, c: int)
    ensures var step := if c % 30 == 0 then 1 else 0;
            var t := EndOfTick(c, k % 5, true);
            t.renew == (k + step) % 5 && (k + step) / 5 == k / 5 + (if t.spawnDead then 1 else 0)
  {
    var r := k % 5;
    assert k == 5 * (k / 5) + r;
    if c % 30 == 0 && r == 4 {
      assert k + 1 == 5 * (k / 5 + 1);
    }
  }

  /** renew counts 30-tick boundaries modulo 5, and dead enemies are revived
      on every fifth boundary. */
  lemma {:induction false} RenewCycle(renew: int, a: int, n: nat)
    requires 0 <= renew < 5
    ensures RenewAfter(renew, a, n) == (renew + Boundaries(a, n)) % 5
    ensures SpawnsAfter(renew, a, n) == (renew + Boundaries(a, n)) / 5
  {
    if n > 0 {
      RenewCycle(renew, a, n - 1);
      RenewTick(renew + Boundaries(a, n - 1), a + n - 1);
    }
  }

  /* ---------------- firing ---------------- */

  /** A bullet as handed to createBullet: start, target, speed. */
  datatype Bullet = Bullet(x: int, y: int, targetX: int, targetY: int, speed: int)

  /** A packet fires when the state is GAME, the left button is down and more
      than 30 GAME ticks have passed since the cooldown was last reset. */
  predicate Fires(cooldown: int, lb: bool, state: GameState)
  {
    state == Game && lb && cooldown > 30
  }

  /** The notifications that touch bullet_cooldown: timer ticks and complete
      pointer packets, each with the state in force when it is handled. */
  datatype Event = Tick(state: GameState) | Packet(state: GameState, lb: bool)

  function CooldownStep(cooldown: int, e: Event): int
  {
    match e
    case Tick(s) => if s == Game then cooldown + 1 else cooldown
    case Packet(s, lb) => if Fires(cooldown, lb, s) then 0 else cooldown
  }

  function CooldownAfter(cooldown: int, evs: seq<Event>): int
    decreases |evs|
  {
    if evs == [] then cooldown else CooldownAfter(CooldownStep(cooldown, evs[0]), evs[1..])
  }

  predicate FiresOn(cooldown: int, e: Event)
  {
    e.Packet? && Fires(cooldown, e.lb, e.state)
  }

  function GameTicks(evs: seq<Event>): nat
    decreases |evs|
  {
    if evs == [] then 0 else (if evs[0] == Tick(Game) then 1 else 0) + GameTicks(evs[1..])
  }

  /** From a non-negative cooldown, a packet can fire only once the cooldown and
      the GAME ticks since then add up to more than 30. */
  lemma {:induction false} FireNeedsTicks(cooldown: int, evs: seq<Event>, e: Event)
    requires cooldown >= 0 && FiresOn(CooldownAfter(cooldown, evs), e)
    ensures cooldown + GameTicks(evs) > 30
    decreases |evs|
  {
    if evs != [] {
      FireNeedsTicks(CooldownStep(cooldown, evs[0]), evs[1..], e);
    }
  }

  /** Firing resets the cooldown to 0, so two shots are separated by at least
      31 GAME ticks. */
  lemma ShotsAtLeast31TicksApart(between: seq<Event>, next: Event)
    requires FiresOn(CooldownAfter(0, between), next)
    ensures GameTicks(between) >= 31
  {
    FireNeedsTicks(0, between, next);
  }

  /* ---------------- resolution selection ---------------- */

  /** The hit-tests in the order the source runs them; the first that reports
      a hit chooses the mode. */
  function PickMode(hit14C: bool, hit115: bool, hit110: bool, hit11A: bool): (r: Option<uint16>)
    ensures r.None? <==> !hit14C && !hit115 && !hit110 && !hit11A
    ensures r == Some(0x14C) <==> hit14C
    ensures r == Some(0x115) <==> !hit14C && hit115
    ensures r == Some(0x110) <==> !hit14C && !hit115 && hit110
    ensures r == Some(0x11A) <==> !hit14C && !hit115 && !hit110 && hit11A
  {
    if hit14C then Some(0x14C)
    else if hit115 then Some(0x115)
    else if hit110 then Some(0x110)
    else if hit11A then Some(0x11A)
    else None
  }

  /** One slot of `monsters` as createEnemy builds it after a mode change. */
  datatype Enemy = Enemy(life: int, damage: int, x: int, y: int, width: int, height: int, alive: bool)

  function FreshMonster(i: int): Enemy
  {
    var v := 10;
    Enemy(MONSTER_LIFE, MONSTER_DAMAGE, 5 + i + v, 5 + i + v, 3, 3, false)
  }

  /* ---------------- the loop's state ---------------- */

  /** The variables proj_main_loop and its globals update between
      notifications, with the framebuffer it draws into and the enemy pool
      it refills. */
  class Session {
    var state: GameState          // currentState
    var mode: uint16              // mode
    var keys: Keys                // key_a_pressed, key_d_pressed, key_w_pressed
    var cursor: Cursor            // mouse->x, mouse->y
    var unvulnerability: int
    var bulletCooldown: int       // bullet_cooldown
    var createEnemy: bool         // create_enemy
    var renew: int                // renew
    const monsters: array<Enemy>  // monsters[10]
    const fb: FrameBuffer         // info, video_buffer, write_buffer

    /** What every GAME tick and packet maintains. */
    ghost predicate Valid()
      reads this
    {
      monsters.Length == 10 && 0 <= renew < 5 && bulletCooldown >= 0 && !createEnemy
    }

    /** The loop's locals as initialised, with the default mode 0x110. */
    constructor (fb: FrameBuffer, monsters: array<Enemy>, cursor: Cursor)
      requires monsters.Length == 10
      ensures Valid() && this.fb == fb && this.monsters == monsters && this.cursor == cursor
      ensures state == Resolution && mode == 0x110 && keys == Keys(false, false, false)
      ensures unvulnerability == 0 && bulletCooldown == 0 && renew == 0
    {
      this.fb := fb;
      this.monsters := monsters;
      this.cursor := cursor;
      state := Resolution;
      mode := 0x110;
      keys := Keys(false, false, false);
      unvulnerability := 0;
      bulletCooldown := 0;
      createEnemy := false;
      renew := 0;
    }

    /** Keyboard notification: the flag chain on the new scancode. */
    method OnScancode(scancode: byte)
      modifies this`keys
      ensures keys == KeyFlags(old(keys), scancode)
    {
      if scancode == SCAN_CODE_A_PRESSED {
        keys := keys.(a := true);
      } else if scancode == SCAN_CODE_A_RELEASED {
        keys := keys.(a := false);
      } else if scancode == SCAN_CODE_D_PRESSED {
        keys := keys.(d := true);
      } else if scancode == SCAN_CODE_D_RELEASED {
        keys := keys.(d := false);
      } else if scancode == SCAN_CODE_W_PRESSED {
        keys := keys.(w := true);
      } else if scancode == SCAN_CODE_W_RELEASED {
        keys := keys.(w := false);
      }
    }

    /** Complete pointer packet, first step: move the cursor if the move is
        admissible in the current mode. */
    method OnPacketMove(dx: int, dy: int)
      modifies this`cursor
      ensures cursor == MovedCursor(old(cursor), dx, dy, fb.info.xRes, fb.info.yRes)
      ensures InRegion(old(cursor), fb.info.xRes, fb.info.yRes) ==> InRegion(cursor, fb.info.xRes, fb.info.yRes)
    {
      if !((dx + cursor.x) <= 0 || (dx + cursor.x + 7) >= fb.info.xRes
           || (-dy + cursor.y) <= 0 || (-dy + cursor.y) > fb.info.yRes) {
        cursor := Cursor(cursor.x + dx, cursor.y - dy);
      }
    }

    /** Timer notification in GAME, up to update_player_logic: both counters
        advance by one. */
    method BeginGameTick()
      requires state == Game
      modifies this`unvulnerability, this`bulletCooldown
      ensures unvulnerability == old(unvulnerability) + 1
      ensures bulletCooldown == old(bulletCooldown) + 1
    {
      unvulnerability := unvulnerability + 1;
      bulletCooldown := bulletCooldown + 1;
    }

    /** Timer notification in GAME, after update_player_logic: the spawn and
        renew cadences, the score and multiplier cadences (only if the state
        is still GAME), and the reset of create_enemy. */
    method EndGameTick(counter: int) returns (out: TickOutcome)
      requires Valid()
      modifies this`renew, this`createEnemy
      ensures Valid()
      ensures out == EndOfTick(counter, old(renew), state == Game) && renew == out.renew
    {
      if CRem(counter, ONE_SEC) * 2 == 0 {
        createEnemy := true;
      }
      if CRem(counter, ONE_SEC) == 0 {
        renew := renew + 1;
      }
      var spawnDead := false;
      if renew >= 5 {
        spawnDead := true;
        renew := 0;
      }
      var multiplierStep, scoreStep := false, false;
      if state == Game {
        if CRem(counter, ONE_SEC) * 2 == 0 {
          multiplierStep := true;
        }
        if CRem(counter, 20) == 0 {
          scoreStep := true;
        }
      }
      out := TickOutcome(createEnemy, renew, spawnDead, multiplierStep, scoreStep);
      createEnemy := false;
    }

    /** Complete pointer packet, last step: fire from the player's position
        (px, py) towards the cursor when the cooldown allows it. */
    method OnPacketFire(lb: bool, px: int, py: int) returns (shot: Option<Bullet>)
      requires Valid()
      modifies this`bulletCooldown
      ensures Valid()
      ensures Fires(old(bulletCooldown), lb, state) ==>
                shot == Some(Bullet(px + 75, py + 50, cursor.x, cursor.y, 3)) && bulletCooldown == 0
      ensures !Fires(old(bulletCooldown), lb, state) ==>
                shot == None && bulletCooldown == old(bulletCooldown)
    {
      shot := None;
      if state == ScoreBoard {
        // menuButton: outside the model
      } else if state == Game {
        if lb {
          if bulletCooldown > 30 {
            bulletCooldown := 0;
            shot := Some(Bullet(px + 75, py + 50, cursor.x, cursor.y, 3));
          }
        }
      }
    }

    /** change_mode: `mode` is set first, then the old mode is left (vg_exit,
        `exitOk`), the new mode is queried and mapped (`reply`), a fresh back
        buffer is allocated and the mode is set (`setModeOk`). */
    method ChangeMode(newMode: uint16, exitOk: bool, reply: Option<ModeInfo>, setModeOk: bool)
      returns (status: int)
      modifies this`mode, fb
      ensures mode == newMode
      ensures !exitOk ==> status == 1 && unchanged(fb)
      ensures exitOk && reply.None? ==>
                status == 1 && fb.info == ModeInfo(0, 0, 0)
                && fb.videoBuffer == old(fb.videoBuffer) && fb.writeBuffer == old(fb.writeBuffer)
      ensures exitOk && reply.Some? ==>
                status == (if setModeOk then 0 else 1) && fb.info == reply.value && fb.Valid()
                && fresh(fb.videoBuffer) && fresh(fb.writeBuffer)
                && forall k :: 0 <= k < fb.writeBuffer.Length ==> fb.writeBuffer[k] == 0
    {
      mode := newMode;
      if !exitOk {
        return 1;
      }
      status := fb.SetBuffer(reply);
      if status != 0 {
        return 1;
      }
      status := fb.AllocateWriteBuffer();
      if !setModeOk {
        return 1;
      }
      return 0;
    }

    /** The loop that refills all ten enemy slots after a mode change. */
    method ResetMonsters()
      requires monsters.Length == 10
      modifies monsters
      ensures forall i :: 0 <= i < 10 ==> monsters[i] == FreshMonster(i)
    {
      for i := 0 to 10
        invariant forall t :: 0 <= t < i ==> monsters[t] == FreshMonster(t)
      {
        monsters[i] := FreshMonster(i);
      }
    }

    /** Complete pointer packet while choosing a resolution: the first option
        hit changes the mode, rebuilds the enemy pool and ends the selection
        loop (`done`). The hits are res14C, res115, res110 and res11A at the
        cursor. */
    method OnResolutionPacket(hit14C: bool, hit115: bool, hit110: bool, hit11A: bool,
                              exitOk: bool, reply: Option<ModeInfo>, setModeOk: bool)
      returns (done: bool)
      requires Valid()
      modifies this`mode, fb, monsters
      ensures Valid()
      ensures done <==> state == Resolution && PickMode(hit14C, hit115, hit110, hit11A).Some?
      ensures done ==> mode == PickMode(hit14C, hit115, hit110, hit11A).value
                       && forall i :: 0 <= i < 10 ==> monsters[i] == FreshMonster(i)
      ensures done && !exitOk ==> unchanged(fb)
      ensures done && exitOk && reply.None? ==>
                fb.info == ModeInfo(0, 0, 0)
                && fb.videoBuffer == old(fb.videoBuffer) && fb.writeBuffer == old(fb.writeBuffer)
      ensures done && exitOk && reply.Some? ==>
                fb.info == reply.value && fb.Valid() && fresh(fb.videoBuffer) && fresh(fb.writeBuffer)
                && forall k :: 0 <= k < fb.writeBuffer.Length ==> fb.writeBuffer[k] == 0
      ensures !done ==> mode == old(mode) && unchanged(fb) && unchanged(monsters)
    {
      done := false;
      if state == Resolution {
        var pick := PickMode(hit14C, hit115, hit110, hit11A);
        if pick.Some? {
          var _ := ChangeMode(pick.value, exitOk, reply, setModeOk);
          ResetMonsters();
          done := true;
        }
      }
    }
  }
}
