/** The board: the shared game state and the operations that change it —
    layout, the per-frame tick, the collision gate, click handling and the
    locked-to-unlocked transition. */
module Game {
  import opened Options
  import opened Geometry
  import opened Heads
  import opened Effects
  import opened Layout

  /** Frames the heads stay scared after a hit. */
  const SCARE_DURATION: int := 40

  /** A page button: its cached bounding rectangle and whether it shows as locked. */
  datatype Button = Button(rect: Rect, locked: bool)

  /** What the page shows under the pointer once the canvas is hidden: no
      link or button, one of the tracked buttons, or some other link or
      button (which never carries the locked flag). */
  datatype Pointee = NoControl | TrackedButton(index: nat) | OtherControl

  /** What a pointer event ended up doing. */
  datatype ClickOutcome =
    | Ignored                 // a move, or any event once the board is unlocked
    | Destroyed(index: nat)   // the head at this index was hit and removed
    | ButtonClicked(index: nat)
    | ControlClicked
    | Absorbed                // no head hit, and nothing clickable or a locked button below

  /** Some head's rectangle overlaps `r` on both axes. */
  predicate Covered(heads: seq<Head>, r: Rect) {
    exists i :: 0 <= i < |heads| && Overlaps(HeadRect(heads[i]), r)
  }

  /** The inner loop of `checkCollisions`: whether any head covers the button. */
  method Blocks(heads: seq<Head>, r: Rect) returns (blocked: bool)
    ensures blocked <==> Covered(heads, r)
  {
    blocked := false;
    for i := 0 to |heads|
      invariant !blocked
      invariant forall j :: 0 <= j < i ==> !Overlaps(HeadRect(heads[j]), r)
    {
      if Overlaps(HeadRect(heads[i]), r) {
        blocked := true;
        break;
      }
    }
  }

  predicate AnyHit(heads: seq<Head>, px: real, py: real) {
    exists i :: 0 <= i < |heads| && IsHit(heads[i], px, py)
  }

  /** i is the highest index whose head the pointer hits. */
  predicate IsLastHit(heads: seq<Head>, px: real, py: real, i: nat) {
    && i < |heads|
    && IsHit(heads[i], px, py)
    && forall j :: i < j < |heads| ==> !IsHit(heads[j], px, py)
  }

  /** The search of `handleInput`: heads are tried from the last to the
      first and the first one hit is taken. */
  method FindLastHit(heads: seq<Head>, px: real, py: real) returns (k: Option<nat>)
    ensures k.None? <==> !AnyHit(heads, px, py)
    ensures k.Some? ==> IsLastHit(heads, px, py, k.value)
  {
    var i := |heads| - 1;
    while i >= 0
      invariant -1 <= i < |heads|
      invariant forall j :: i < j < |heads| ==> !IsHit(heads[j], px, py)
    {
      if IsHit(heads[i], px, py) {
        return Some(i);
      }
      i := i - 1;
    }
    return None;
  }

  /** A click that hit no head: the control below is clicked unless it is a
      tracked button that is locked. */
  function ControlOutcome(below: Pointee, buttons: seq<Button>): (o: ClickOutcome)
    requires below.TrackedButton? ==> below.index < |buttons|
    ensures o.ButtonClicked? <==> below.TrackedButton? && !buttons[below.index].locked
    ensures o.ButtonClicked? ==> o.index == below.index
    ensures o.ControlClicked? <==> below.OtherControl?
    ensures o == Absorbed <==> below.NoControl? || (below.TrackedButton? && buttons[below.index].locked)
  {
    match below
    case NoControl => Absorbed
    case TrackedButton(k) => if buttons[k].locked then Absorbed else ButtonClicked(k)
    case OtherControl => ControlClicked
  }

  /** `after` is `before` as the collision gate leaves it: same rectangles,
      each button locked exactly when some head covers it. */
  ghost predicate IsGated(after: seq<Button>, before: seq<Button>, heads: seq<Head>) {
    && |after| == |before|
    && forall i :: 0 <= i < |after| ==>
         after[i].rect == before[i].rect && (after[i].locked <==> Covered(heads, before[i].rect))
  }

  /** `after` is `before` with every locked flag cleared. */
  ghost predicate IsCleared(after: seq<Button>, before: seq<Button>) {
    && |after| == |before|
    && forall i :: 0 <= i < |after| ==> after[i] == before[i].(locked := false)
  }

  class Board {
    var heads: seq<Head>
    var particles: seq<Particle>
    var cursorTrail: seq<TrailPoint>
    var scareTimer: int
    var isUnlocked: bool
    var mouse: Point
    var buttons: seq<Button>

    /** The board invariant: the scare timer stays in [0, SCARE_DURATION],
        every head has the standard size, every particle has life in (0, 1],
        the trail has its ladder shape, and an unlocked board has no heads
        and no locked button. */
    ghost predicate Valid()
      reads this
    {
      && 0 <= scareTimer <= SCARE_DURATION
      && (forall i :: 0 <= i < |heads| ==> heads[i].size == HEAD_SIZE)
      && (forall i :: 0 <= i < |particles| ==> 0.0 < particles[i].life <= 1.0)
      && IsLadder(cursorTrail)
      && (isUnlocked ==> heads == [] && forall i :: 0 <= i < |buttons| ==> !buttons[i].locked)
    }

    /** The state before `init` lays out the grid: the pointer in the middle
        of the viewport and the page buttons cached, none locked. */
    constructor (width: real, height: real, rects: seq<Rect>)
      ensures Valid()
      ensures heads == [] && particles == [] && cursorTrail == []
      ensures scareTimer == 0 && !isUnlocked
      ensures mouse == Point(width / 2.0, height / 2.0)
      ensures |buttons| == |rects|
      ensures forall i :: 0 <= i < |rects| ==> buttons[i] == Button(rects[i], false)
    {
      heads := [];
      particles := [];
      cursorTrail := [];
      scareTimer := 0;
      isUnlocked := false;
      mouse := Point(width / 2.0, height / 2.0);
      buttons := seq(|rects|, i requires 0 <= i < |rects| => Button(rects[i], false));
    }

    /** `createGrid`: on a locked board, replace the heads by the grid; on an
        unlocked board, do nothing. */
    method CreateGrid(g: Grid)
      requires Valid() && WellFormed(g)
      modifies this`heads
      ensures Valid()
      ensures isUnlocked ==> heads == old(heads)
      ensures !isUnlocked ==> heads == GridHeads(g, g.rows)
      ensures !isUnlocked ==> |heads| == g.rows * g.cols
      ensures !isUnlocked ==> forall h :: h in heads ==> LaidOut(g, h) && CentredInView(g, h)
    {
      if isUnlocked {
        return;
      }
      heads := [];
      var r := 0;
      while r < g.rows
        invariant 0 <= r <= g.rows
        invariant heads == GridHeads(g, r)
      {
        var c := 0;
        while c < g.cols
          invariant 0 <= c <= g.cols
          invariant heads == GridHeads(g, r) + RowHeads(g, r, c)
        {
          var x, y := CellX(g, c), CellY(g, r);
          if x > -g.spacing && x < g.width && y > -g.spacing && y < g.height {
            heads := heads + [NewHead(x, y)];
          }
          c := c + 1;
        }
        assert GridHeads(g, r + 1) == GridHeads(g, r) + RowHeads(g, r, g.cols);
        r := r + 1;
      }
      GridHeadsShape(g, g.rows);
      GridKeepsEveryCell(g, g.rows);
      assert forall i :: 0 <= i < |heads| ==> heads[i] in GridHeads(g, g.rows);
    }

    /** `checkCollisions`: on a locked board, flag each button locked exactly
        when some head's rectangle covers it; on an unlocked board, do nothing. */
    method CheckCollisions()
      requires Valid()
      modifies this`buttons
      ensures Valid()
      ensures isUnlocked ==> buttons == old(buttons)
      ensures !isUnlocked ==> IsGated(buttons, old(buttons), heads)
    {
      if isUnlocked {
        return;
      }
      var i := 0;
      while i < |buttons|
        invariant 0 <= i <= |buttons| == |old(buttons)|
        invariant forall j :: 0 <= j < i ==>
          buttons[j].rect == old(buttons)[j].rect && (buttons[j].locked <==> Covered(heads, old(buttons)[j].rect))
        invariant forall j :: i <= j < |buttons| ==> buttons[j] == old(buttons)[j]
      {
        var blocked := Blocks(heads, buttons[i].rect);
        buttons := buttons[i := buttons[i].(locked := blocked)];
        i := i + 1;
      }
    }

    /** `explode`: append a burst of particles at the head's centre. */
    method Explode(h: Head, draws: seq<ParticleDraws>)
      requires Valid() && IsBurstDraws(draws)
      modifies this`particles
      ensures Valid()
      ensures particles == old(particles) + Burst(Centre(h), draws)
    {
      var c := Centre(h);
      var burst := Burst(c, draws);
      for i := 0 to BURST_SIZE
        invariant particles == old(particles) + burst[..i]
        invariant forall j :: 0 <= j < |particles| ==> 0.0 < particles[j].life <= 1.0
      {
        particles := particles + [NewParticle(c, draws[i])];
        assert burst[..i + 1] == burst[..i] + [burst[i]];
      }
      assert burst[..BURST_SIZE] == burst;
    }

    /** `checkWinCondition`: with no heads left the board unlocks and every
        button's locked flag is cleared; otherwise nothing changes. */
    method CheckWinCondition()
      requires Valid()
      modifies this`isUnlocked, this`buttons
      ensures Valid()
      ensures heads == [] ==> isUnlocked && IsCleared(buttons, old(buttons))
      ensures heads != [] ==> isUnlocked == old(isUnlocked) && buttons == old(buttons)
    {
      if |heads| == 0 {
        isUnlocked := true;
        for i := 0 to |buttons|
          invariant isUnlocked
          invariant |buttons| == |old(buttons)|
          invariant forall j :: 0 <= j < i ==> buttons[j] == old(buttons)[j].(locked := false)
          invariant forall j :: i <= j < |buttons| ==> buttons[j] == old(buttons)[j]
        {
          buttons := buttons[i := buttons[i].(locked := false)];
        }
      }
    }

    /** `handleInput`: record the pointer; on a click on a locked board,
        destroy the last head hit (exploding it and scaring the rest), or
        else click the control below unless it is locked; then check for
        the win. */
    method HandleInput(px: real, py: real, isClick: bool, below: Pointee, draws: seq<ParticleDraws>)
      returns (outcome: ClickOutcome)
      requires Valid()
      requires IsBurstDraws(draws)
      requires below.TrackedButton? ==> below.index < |buttons|
      modifies this
      ensures Valid()
      ensures mouse == Point(px, py)
      ensures cursorTrail == old(cursorTrail)
      ensures old(isUnlocked) ==> isUnlocked
      ensures isUnlocked && !old(isUnlocked) ==> isClick && heads == []
      ensures |old(heads)| - 1 <= |heads| <= |old(heads)|
      ensures !isClick || old(isUnlocked) ==>
        && outcome == Ignored && isUnlocked == old(isUnlocked) && buttons == old(buttons)
        && heads == old(heads) && particles == old(particles) && scareTimer == old(scareTimer)
      ensures isClick && !old(isUnlocked) ==>
        && outcome != Ignored
        && isUnlocked == (heads == [])
        && (heads == [] ==> IsCleared(buttons, old(buttons)))
        && (heads != [] ==> buttons == old(buttons))
      ensures isClick && !old(isUnlocked) && AnyHit(old(heads), px, py) ==> outcome.Destroyed?
      ensures outcome.Destroyed? ==>
        var i := outcome.index;
        && IsLastHit(old(heads), px, py, i)
        && heads == old(heads)[..i] + old(heads)[i + 1..]
        && particles == old(particles) + Burst(Centre(old(heads)[i]), draws)
        && scareTimer == SCARE_DURATION
      ensures isClick && !old(isUnlocked) && !outcome.Destroyed? ==>
        && !AnyHit(old(heads), px, py)
        && outcome == ControlOutcome(below, old(buttons))
        && heads == old(heads) && particles == old(particles) && scareTimer == old(scareTimer)
    {
      mouse := Point(px, py);
      outcome := Ignored;
      if !isClick || isUnlocked {
        return;
      }
      var hit := FindLastHit(heads, px, py);
      match hit {
        case Some(i) =>
          Explode(heads[i], draws);
          heads := heads[..i] + heads[i + 1..];
          scareTimer := SCARE_DURATION;
          outcome := Destroyed(i);
        case None =>
          outcome := ControlOutcome(below, buttons);
      }
      CheckWinCondition();
    }

    /** The head pass of `animate`, last head first. */
    method UpdateHeads(jitter: seq<JitterDraws>)
      requires Valid()
      requires |jitter| == |heads| && forall i :: 0 <= i < |jitter| ==> IsJitterDraws(jitter[i])
      modifies this`heads
      ensures Valid()
      ensures |heads| == |old(heads)|
      ensures forall i :: 0 <= i < |heads| ==> heads[i] == UpdateHead(old(heads)[i], scareTimer > 0, jitter[i])
    {
      var i := |heads| - 1;
      while i >= 0
        invariant -1 <= i < |heads| == |old(heads)|
        invariant forall j :: 0 <= j <= i ==> heads[j] == old(heads)[j]
        invariant forall j :: i < j < |heads| ==> heads[j] == UpdateHead(old(heads)[j], scareTimer > 0, jitter[j])
      {
        heads := heads[i := UpdateHead(heads[i], scareTimer > 0, jitter[i])];
        i := i - 1;
      }
    }

    /** The particle pass of `animate`, last particle first: step each one
        and splice it out when its life has run out. */
    method UpdateParticles()
      requires Valid()
      modifies this`particles
      ensures Valid()
      ensures particles == Survivors(old(particles))
    {
      ghost var start := particles;
      var i := |particles| - 1;
      while i >= 0
        invariant -1 <= i < |start|
        invariant particles == start[..i + 1] + Survivors(start[i + 1..])
      {
        assert particles[i] == start[i];
        particles := particles[i := StepParticle(particles[i])];
        if particles[i].life <= 0.0 {
          particles := particles[..i] + particles[i + 1..];
        }
        assert start[i..][1..] == start[i + 1..];
        assert start[..i + 1] == start[..i] + [start[i]];
        i := i - 1;
      }
      assert start[0..] == start;
      SurvivorsSpec(start);
      forall j | 0 <= j < |particles| ensures 0.0 < particles[j].life <= 1.0 {
        assert particles[j] in Survivors(start);
        var p :| p in start && particles[j] == StepParticle(p);
      }
    }

    /** The trail part of `drawCursor`: age every point in place, keep the
        living ones, then append the pointer with full life. */
    method AdvanceTrail()
      requires Valid()
      modifies this`cursorTrail
      ensures Valid()
      ensures cursorTrail == TrailStep(old(cursorTrail), mouse)
      ensures forall j :: 0 <= j < |cursorTrail| ==> 0.0 < cursorTrail[j].life <= 1.0
    {
      ghost var start := cursorTrail;
      for i := 0 to |cursorTrail|
        invariant |cursorTrail| == |start|
        invariant forall j :: 0 <= j < i ==> cursorTrail[j] == Faded(start)[j]
        invariant forall j :: i <= j < |cursorTrail| ==> cursorTrail[j] == start[j]
      {
        cursorTrail := cursorTrail[i := cursorTrail[i].(life := cursorTrail[i].life - TRAIL_FADE)];
      }
      assert cursorTrail == Faded(start);
      cursorTrail := Live(cursorTrail);
      cursorTrail := cursorTrail + [TrailPoint(mouse.x, mouse.y, 1.0)];
      TrailStepKeepsLadder(start, mouse);
      LadderLives(cursorTrail);
    }

    /** `animate` without the drawing: count the scare timer down, run the
        collision gate against the heads as they stand, move the heads, run
        the particle pass and advance the cursor trail. */
    method Tick(jitter: seq<JitterDraws>)
      requires Valid()
      requires |jitter| == |heads| && forall i :: 0 <= i < |jitter| ==> IsJitterDraws(jitter[i])
      modifies this
      ensures Valid()
      ensures scareTimer == if old(scareTimer) > 0 then old(scareTimer) - 1 else 0
      ensures isUnlocked == old(isUnlocked) && mouse == old(mouse)
      ensures old(isUnlocked) ==> buttons == old(buttons)
      ensures !old(isUnlocked) ==> IsGated(buttons, old(buttons), old(heads))
      ensures |heads| == |old(heads)|
      ensures forall i :: 0 <= i < |heads| ==> heads[i] == UpdateHead(old(heads)[i], scareTimer > 0, jitter[i])
      ensures particles == Survivors(old(particles))
      ensures cursorTrail == TrailStep(old(cursorTrail), mouse)
    {
      if scareTimer > 0 {
        scareTimer := scareTimer - 1;
      }
      CheckCollisions();
      UpdateHeads(jitter);
      UpdateParticles();
      AdvanceTrail();
    }
  }

  /** A one-cell grid on an 80 x 80 viewport, clicked at its head's centre:
      the head is destroyed, a burst of BURST_SIZE particles appears and the
      board unlocks. */
  method LastHeadScenario(draws: seq<ParticleDraws>)
    returns (outcome: ClickOutcome, unlocked: bool, particleCount: nat)
    requires IsBurstDraws(draws)
    ensures outcome == Destroyed(0) && unlocked && particleCount == BURST_SIZE
  {
    var board := new Board(80.0, 80.0, []);
    var g := Grid(80.0, 80.0, 80.0, 1, 1);
    assert GridHeads(g, 1) == [NewHead(16.0, 16.0)];
    board.CreateGrid(g);
    HitAtCentre(board.heads[0]);
    outcome := board.HandleInput(40.0, 40.0, true, NoControl, draws);
    unlocked := board.isUnlocked;
    particleCount := |board.particles|;
  }

  /** A button lying inside a head's rectangle is locked by the collision
      gate, and a click on it that misses the head's hit circle (near the
      rectangle's corner) is absorbed: the button is not clicked. */
  method CoveredButtonScenario(draws: seq<ParticleDraws>)
    returns (locked: bool, outcome: ClickOutcome)
    requires IsBurstDraws(draws)
    ensures locked && outcome == Absorbed
  {
    var board := new Board(80.0, 80.0, [Rect(16.5, 20.0, 16.5, 20.0)]);
    var g := Grid(80.0, 80.0, 80.0, 1, 1);
    assert GridHeads(g, 1) == [NewHead(16.0, 16.0)];
    board.CreateGrid(g);
    board.CheckCollisions();
    assert Overlaps(HeadRect(board.heads[0]), Rect(16.5, 20.0, 16.5, 20.0));
    locked := board.buttons[0].locked;
    assert !IsHit(board.heads[0], 17.0, 17.0);
    outcome := board.HandleInput(17.0, 17.0, true, TrackedButton(0), draws);
  }
}
