# Face-grid overlay game — verified model

A grid of faces ("heads") is laid over a web page and blocks the page's
buttons until the player has clicked every face away. This project models the
game logic of `assets/js/script.js` in Dafny, without the canvas and DOM calls:

- the layout of the grid (`createGrid`);
- the hit test and bounding box of a head;
- the collision gate that locks every button a head covers (`checkCollisions`);
- click handling: destroy the last head hit, or else click the control below
  unless it is locked (`handleInput`);
- the explosion burst (`explode`);
- the one-way locked → unlocked transition (`checkWinCondition`);
- the state part of the frame loop (`animate`): scare timer, head jitter, the
  particle pass and the cursor trail of `drawCursor`.

Modules:

- `Options` holds the optional value.
- `Geometry` holds points, rectangles, strict overlap and squared distance.
- `Heads` holds the head record, `IsHit`, `HeadRect` and `UpdateHead`.
- `Effects` holds particles, bursts, the particle pass and the cursor trail.
- `Layout` holds the grid as specification functions, with lemmas about them.
- `Game` holds the `Board` class. Its fields are the script's globals
  (`heads`, `particles`, `cursorTrail`, `scareTimer`, `isUnlocked`, `mouse`,
  `buttons`). Its methods change them in place, as the script does.

`Board.Valid()` is the invariant that every method keeps:

- the scare timer stays in [0, 40];
- every head has size 48;
- every particle has life in (0, 1];
- the cursor trail has at most 10 points, aged 0.1 apart;
- an unlocked board has no heads and no locked button.

Randomness is passed in as parameters with range preconditions:

- `JitterDraws` gives one pair of draws per head per frame;
- `ParticleDraws` gives four draws per burst particle, in the order the
  script draws them.

The page element under the pointer is an input, a `Pointee`. It is one of:
nothing clickable, a tracked button given by its index, or some other link or
button. That other kind is never flagged locked, so it is always clicked.
A synthesized click is reported in the returned `ClickOutcome`; the model does
not perform it.

Numbers are exact `real`s. `createGrid`'s `spacing`, `cols` and `rows` are
inputs, given as a `Grid`. `Layout.WellFormed` states that they are what
`Math.max`/`Math.sqrt`/`Math.ceil` compute, through their defining
inequalities.

## Where the code does less than its names suggest

`MAX_HEADS` and `maxSpacing` (script.js:7, 154) suggest a cap of 100 heads.
The code does not enforce it. With `Math.ceil` the grid can hold more than
`MAX_HEADS` heads: a 1250 × 800 viewport gets spacing exactly 100 and a
13 × 8 grid of 104 heads (`Layout.GridCanExceedMaxHeads`). The model follows
the code.

The filter at script.js:167 suggests that cells can fall outside the
viewport. When `cols` and `rows` are the ceilings, it never drops a cell. The
grid holds exactly `rows * cols` heads, and every head's centre lies strictly
inside the viewport (`Layout.GridKeepsEveryCell`).

The comments at script.js:191 and 196 promise a "safety margin" and "some
padding on heads". `getRect` (script.js:107-114) adds no padding, so the gate
tests the bare 48-pixel box. The model follows the code (`Heads.HeadRect`,
`Geometry.Overlaps`).

## Model

| member | source | states |
|---|---|---|
| `Heads.HitAtCentre` | assets/js/script.js:100-105 | a click at the exact centre of a size-48 head hits it |
| `Heads.HitRadiusOfStandardHead` | assets/js/script.js:100-105 | for a size-48 head, a hit is exactly a squared distance from the centre below 29², so nothing at distance 29 or more hits |
| `Heads.NewHead` | assets/js/script.js:64-70 | a new head stands at home at (x, y) with size 48, so its centre is (x + 24, y + 24) |
| `Heads.IsHit` | assets/js/script.js:100-114 | every hit point lies inside the head's box grown by the 5-pixel margin on every side |
| `Heads.IsHitMatchesDistance` | assets/js/script.js:100-105 | the squared-distance test agrees with the script's test: a hit exactly when the distance to the centre is below size / 2 + 5 |
| `Geometry.Overlaps` | assets/js/script.js:197-198 | for a head box of positive size and a button rectangle with ordered edges, they overlap exactly when some point strictly inside the head box lies on the button (border included); boxes that only touch do not overlap |
| `Heads.HeadRect` | assets/js/script.js:107-114 | the head's box is a square of side `size` whose midpoint is the head's centre |
| `Heads.UpdateHead` | assets/js/script.js:72-80 | home and size never change; a scared head lies within 3 pixels of home (in [-3, 3)); otherwise it is exactly at home |
| `Effects.PaletteColour` | assets/js/script.js:348-349 | the colour is a palette entry, or `#fff`; it is `#fff` exactly when the draw is below 1/5, the share of the null entry |
| `Effects.NewParticle` | assets/js/script.js:118-126 | a new particle starts at the given point with life 1.0, size in [4, 10) and speed in [-7.5, 7.5) on each axis |
| `Effects.Burst` | assets/js/script.js:344-351 | an explosion makes exactly 20 particles, each at the head's centre with life 1.0 |
| `Effects.StepParticle` | assets/js/script.js:128-132 | an update moves the particle by its speed and lowers its life by 0.05; speed, size and colour do not change |
| `Effects.ParticleLifetime` | assets/js/script.js:128-132 | a particle born with life 1.0 still has life after k updates exactly when k < 20, so the pass removes it on its twentieth frame |
| `Effects.SurvivorsSpec` | assets/js/script.js:128-132 | after the particle pass, a particle is present exactly when it is an old particle moved by its speed, with life lowered by 0.05 and still above 0; the pass never adds particles |
| `Effects.LiveSpec` | assets/js/script.js:223 | the trail filter keeps exactly the points with life above 0, and never adds any |
| `Effects.TrailStepSpec` | assets/js/script.js:214-226 | after a trail step, the last point is the pointer with life 1.0; the earlier points are exactly the old points that still have life above 0 after losing 0.1 |
| `Effects.TrailStepKeepsLadder` | assets/js/script.js:214-226 | a trail step keeps the trail at most 10 points long, with lives 1.0, 0.9, 0.8, … from newest to oldest |
| `Layout.GridHeadsShape` | assets/js/script.js:162-171 | the first r rows hold at most r·cols heads; each is at home, has size 48 and lies in -spacing < x < width, -spacing < y < height |
| `Layout.CellCentreInsideX` | assets/js/script.js:156-164 | when cols is the ceiling of width/spacing, every column's head has its centre strictly inside the viewport horizontally |
| `Layout.CellCentreInsideY` | assets/js/script.js:157-165 | when rows is the ceiling of height/spacing, every row's head has its centre strictly inside the viewport vertically |
| `Layout.GridKeepsEveryCell` | assets/js/script.js:153-171 | with the computed spacing and ceilings, the grid holds exactly rows·cols heads, each centred inside the viewport |
| `Layout.Grid800By600` | assets/js/script.js:153-171 | an 800×600 viewport keeps spacing 80 and gets a 10×8 grid of 80 heads |
| `Layout.GridCanExceedMaxHeads` | assets/js/script.js:153-171 | a 1250×800 viewport gets spacing 100 and 104 heads, more than MAX_HEADS = 100 |
| `Game.Blocks` | assets/js/script.js:187-202 | the button is blocked exactly when some head's rectangle strictly overlaps it on both axes |
| `Game.FindLastHit` | assets/js/script.js:292-303 | the search finds nothing exactly when no head is hit; otherwise it returns the highest index whose head is hit |
| `Game.ControlOutcome` | assets/js/script.js:305-321 | a click that misses every head clicks a tracked button exactly when that button is not locked, always clicks another link or button, and otherwise is absorbed |
| `Game.Board.constructor` | assets/js/script.js:9-16 | the initial state: no heads, particles or trail points; timer 0; locked; pointer at the middle of the viewport; buttons cached, none locked |
| `Game.Board.CreateGrid` | assets/js/script.js:149-171 | on a locked board, the heads are replaced by the grid: rows·cols heads, each at home, size 48, centred in the viewport; on an unlocked board nothing changes |
| `Game.Board.CheckCollisions` | assets/js/script.js:184-210 | on a locked board, each button keeps its rectangle and is locked exactly when a head covers it; on an unlocked board nothing changes |
| `Game.Board.Explode` | assets/js/script.js:344-351 | exactly the burst at the head's centre is appended; existing particles are unchanged |
| `Game.Board.CheckWinCondition` | assets/js/script.js:327-342 | with no heads left, the board becomes unlocked and every locked flag is cleared; otherwise nothing changes |
| `Game.Board.HandleInput` | assets/js/script.js:266-325 | see below |
| `Game.Board.UpdateHeads` | assets/js/script.js:248-251 | each head is replaced by its jittered or home position, as the scare timer says |
| `Game.Board.UpdateParticles` | assets/js/script.js:253-259 | the backward update-and-splice loop leaves exactly the survivors, in their old order |
| `Game.Board.AdvanceTrail` | assets/js/script.js:212-226 | the trail is aged in place, filtered, and extended by the pointer; every point then has life in (0, 1] |
| `Game.Board.Tick` | assets/js/script.js:241-264 | see below |
| `Game.LastHeadScenario` | assets/js/script.js:292-342 | clicking the centre of the last head destroys it, spawns 20 particles and unlocks the board |
| `Game.CoveredButtonScenario` | assets/js/script.js:184-210 | a button inside a head's box is locked, and a click on it that misses the hit circle is absorbed |

What `Game.Board.HandleInput` states:

- The pointer is always updated first.
- A move, or any event on an unlocked board, changes nothing else.
- A click on a locked board removes at most one head: the highest-index head
  that is hit. The other heads keep their order.
- Such a hit appends the burst and sets the scare timer to 40.
- A miss leaves heads, particles and timer alone, and resolves the control
  below.
- The board then becomes unlocked exactly when no heads are left. When it
  does, every locked flag is cleared.
- An unlocked board never relocks, and it unlocks only on a click that leaves
  no heads.

What `Game.Board.Tick` states:

- The timer drops by one while it is positive.
- The gate runs against the heads as they stood before they move.
- Every head is updated with the new timer.
- The particles become exactly their survivors.
- The trail takes one step.
- The unlock flag and the pointer do not change.

## Left out

- Drawing is not modelled: the `ctx` calls, the `atan2` rotation towards the
  pointer, image smoothing, the image `complete` checks, `globalAlpha`,
  `Head.draw` and `Particle.draw`. They are rendering only.
- `playExplosionSound` is not modelled. It is a Web Audio call whose failures
  are swallowed, so it has no effect on game state.
- `updateButtonPositions` and `resize` are not modelled. They query the DOM
  for button rectangles and the window size. The constructor takes the cached
  rectangles instead, and `CreateGrid` takes the viewport as a `Grid`.
  `resize`'s own `isUnlocked` guard repeats the one inside `createGrid`.
- The `elementFromPoint` peek-through and the `closest('a')`/`closest('button')`
  lookup are not modelled. The `Pointee` input replaces them.
- The status text, the win banner and the cursor style are not modelled. They
  are DOM writes with no game state behind them.
- Event-listener wiring, touch and mouse coordinate extraction, `preventDefault`,
  `requestAnimationFrame` and `setTimeout` are not modelled. They are
  environment glue; `HandleInput` receives the pointer coordinates directly.
- Floating point is not modelled. Every quantity is an exact real, so the
  repeated `-= 0.05` and `-= 0.1` are exact. For particles this changes
  nothing: in doubles twenty steps of `-= 0.05` from 1.0 leave about -3.2e-16,
  so a particle is removed on its twentieth frame, as
  `Effects.ParticleLifetime` states for exact reals.
- `Effects.TrailStepKeepsLadder`: its 10-point bound holds for exact reals
  only. In doubles ten steps of `-= 0.1` from 1.0 leave about +1.4e-16, so the
  oldest point survives one more frame and the trail holds up to 11 points.
- `Math.sqrt` and `Math.ceil` are not computed. `Layout.WellFormed` states the
  inequalities that define their results.
- Updates of a head, particle or trail point in place are modelled by
  replacing the record in its sequence. The script keeps no other reference to
  these objects, so nothing can observe the difference.
- `Game.Board.UpdateHeads` and `Game.Board.Tick` take one pair of random draws
  for every head, even when the head is not scared. The script draws only for
  scared heads. The order of draws across heads is a convention of the model.
- `Game.Board.Tick` calls its steps as separate methods. In the script they
  are inline in `animate`.
- The search for the hit head is a separate method, `Game.FindLastHit`. In the
  script the removal happens inside the same loop; the result is the same.
- The head count is not bounded by `MAX_HEADS`, because the code does not
  guarantee it (see `Layout.GridCanExceedMaxHeads`).
