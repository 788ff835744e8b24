/** The game's rules as values: a snapshot of the session state, the scoring and speed formulas,
    and what a tick, a key press, starting and pausing do to a snapshot. The Session class in
    module Engine performs these transitions in place and is proved to agree with them. */
module Rules {
  import opened Board
  import opened Pieces
  import opened Collision

  datatype Option<T> = None | Some(value: T)

  /** Everything the engine keeps between events. current and next are None only before the
      first game starts. */
  datatype Game = Game(board: Grid, score: int, level: int, lines: int,
                       dropCounter: int, dropInterval: int,
                       running: bool, paused: bool,
                       current: Option<Piece>, next: Option<Piece>)

  /** The keys the keydown handler reacts to; any other key is OtherKey. */
  datatype Key = ArrowLeft | ArrowRight | ArrowUp | ArrowDown | Space | Escape | OtherKey

  /** Points for clearing n rows at once. */
  function LineScore(n: int): (s: int)
    ensures s >= 0 && (s == 0 <==> n == 0)
  {
    n * n * 100
  }

  /** The level reached after a number of cleared lines: one more per ten lines. Dafny's division
      by a positive constant rounds down, as Math.floor does. */
  function LevelFor(lines: int): (level: int)
    ensures lines >= 0 ==> level >= 1
  {
    lines / 10 + 1
  }

  /** Milliseconds between automatic drops at a level: 50 less per level, never below 200. */
  function IntervalFor(level: int): (ms: int)
    ensures 200 <= ms && (level >= 1 ==> ms <= 1000)
  {
    var t := 1000 - (level - 1) * 50;
    if t < 200 then 200 else t
  }

  /** The state before any game: the values the globals are declared with. */
  function Initial(): Game
  {
    Game(CreateBoard(), 0, 1, 0, 0, 1000, false, false, None, None)
  }

  /** The shape of a state the operations can work on. */
  predicate Formed(g: Game)
  {
    IsGrid(g.board) &&
    (g.current.Some? <==> g.next.Some?) &&
    (g.running ==> g.current.Some?) &&
    (g.current.Some? ==> ValidPiece(g.current.value) && ValidPiece(g.next.value))
  }

  /** What every reachable state satisfies: score and line count are non-negative, level and drop
      interval follow the line count, and while a game runs the active piece lies within the
      walls, above the floor and on empty cells only. */
  predicate Inv(g: Game)
  {
    Formed(g) &&
    g.score >= 0 && g.lines >= 0 &&
    g.level == LevelFor(g.lines) && g.dropInterval == IntervalFor(g.level) &&
    (g.running ==> Fits(g.board, g.current.value, 0, 0))
  }

  /** startGame with the two random catalog indices: a fresh board and counters, running and not
      paused, the first piece active and the second waiting. */
  function Started(k1: int, k2: int): Game
    requires 0 <= k1 < |Catalog()| && 0 <= k2 < |Catalog()|
  {
    Game(CreateBoard(), 0, 1, 0, 0, 1000, true, false, Some(Spawn(k1)), Some(Spawn(k2)))
  }

  /** togglePause: flips the paused flag of a running game and does nothing otherwise. */
  function Toggled(g: Game): Game
  {
    if !g.running then g else g.(paused := !g.paused)
  }

  /** isGameOver: there is an active piece and it does not fit where it is. */
  predicate IsOver(g: Game)
    requires IsGrid(g.board)
  {
    g.current.Some? && !Fits(g.board, g.current.value, 0, 0)
  }

  /** clearLines: the board loses its full rows; when there were any, the line count, score,
      level and drop interval are updated. */
  function ClearedGame(g: Game): Game
    requires IsGrid(g.board)
  {
    var n := FullCount(g.board);
    var g1 := g.(board := Cleared(g.board));
    if n > 0 then
      var lines := g.lines + n;
      g1.(lines := lines, score := g.score + LineScore(n),
          level := LevelFor(lines), dropInterval := IntervalFor(LevelFor(lines)))
    else
      g1
  }

  /** The piece lands: it is merged into the board, full rows are cleared, the waiting piece
      becomes active and a new piece (catalog index k) waits. */
  function Settled(g: Game, k: int): Game
    requires Formed(g) && g.current.Some? && 0 <= k < |Catalog()|
  {
    var c := ClearedGame(g.(board := Merged(g.board, g.current.value)));
    c.(current := c.next, next := Some(Spawn(k)))
  }

  /** Landing followed by the game-over check: the game stops when the new active piece does not
      fit where it spawned. */
  function Locked(g: Game, k: int): Game
    requires Formed(g) && g.current.Some? && 0 <= k < |Catalog()|
  {
    var s := Settled(g, k);
    if IsOver(s) then s.(running := false) else s
  }

  /** The automatic drop, once the accumulated time is past the interval: the piece moves down
      a row or, when it cannot, lands. The accumulator restarts from 0 unless the game just
      ended. */
  function Fall(g: Game, k: int): Game
    requires Formed(g) && g.running && 0 <= k < |Catalog()|
  {
    var p := g.current.value;
    if Fits(g.board, p, 0, 1) then
      g.(current := Some(p.(y := p.y + 1)), dropCounter := 0)
    else
      var l := Locked(g, k);
      if l.running then l.(dropCounter := 0) else l
  }

  /** update(dt): only a running, unpaused game advances. The elapsed time is accumulated, and
      only once it is strictly above the drop interval the piece falls. */
  function Tick(g: Game, dt: int, k: int): Game
    requires Formed(g) && 0 <= k < |Catalog()|
  {
    if !g.running || g.paused then g
    else
      var g1 := g.(dropCounter := g.dropCounter + dt);
      if g1.dropCounter > g1.dropInterval then Fall(g1, k) else g1
  }

  /** Left or right arrow: move the active piece one column when that is legal. */
  function Shifted(g: Game, dx: int): Game
    requires Formed(g) && g.current.Some?
  {
    var p := g.current.value;
    if Fits(g.board, p, dx, 0) then g.(current := Some(p.(x := p.x + dx))) else g
  }

  /** Up arrow, rotatePiece: take the quarter-turned shape when it fits in place, otherwise keep
      the original shape. Position and colour never change. */
  function Turned(g: Game): Game
    requires Formed(g) && g.current.Some?
  {
    var p := g.current.value;
    var q := p.(shape := Rotated(p.shape));
    if Fits(g.board, q, 0, 0) then g.(current := Some(q)) else g
  }

  /** Down arrow: move down a row and score a point, when that is legal. */
  function SoftDropped(g: Game): Game
    requires Formed(g) && g.current.Some?
  {
    var p := g.current.value;
    if Fits(g.board, p, 0, 1) then g.(current := Some(p.(y := p.y + 1)), score := g.score + 1) else g
  }

  /** The state just before a hard-dropped piece lands: the piece moved down by its drop
      distance d, and d points added. */
  function DropLanded(g: Game): Game
    requires Formed(g) && g.current.Some?
  {
    var p := g.current.value;
    var d := DropDistance(g.board, p);
    g.(current := Some(p.(y := p.y + d)), score := g.score + d)
  }

  /** DropLanded with the drop distance named. */
  lemma DropLandedBy(g: Game, d: nat)
    requires Formed(g) && g.current.Some? && d == DropDistance(g.board, g.current.value)
    ensures DropLanded(g) == g.(current := Some(g.current.value.(y := g.current.value.y + d)), score := g.score + d)
  {
  }

  /** Space: fall as far as possible, a point per row, then land (exactly once, even when the
      piece could not move at all). */
  function HardDropped(g: Game, k: int): Game
    requires Formed(g) && g.current.Some? && 0 <= k < |Catalog()|
  {
    Locked(DropLanded(g), k)
  }

  /** The keydown handler: nothing unless a game is running. The paused flag is not consulted,
      so moves, rotations and drops still apply while paused. */
  function Pressed(g: Game, key: Key, k: int): Game
    requires Formed(g) && 0 <= k < |Catalog()|
  {
    if !g.running then g
    else
      match key
      case ArrowLeft => Shifted(g, -1)
      case ArrowRight => Shifted(g, 1)
      case ArrowUp => Turned(g)
      case ArrowDown => SoftDropped(g)
      case Space => HardDropped(g, k)
      case Escape => Toggled(g)
      case OtherKey => g
  }

  // ---------------------------------------------------------------------------------------------
  // Properties of the rules
  // ---------------------------------------------------------------------------------------------

  /** Clearing 1, 2, 3 or 4 rows at once pays 100, 400, 900 or 1600 points. */
  lemma ScoreTable()
    ensures LineScore(1) == 100 && LineScore(2) == 400 && LineScore(3) == 900 && LineScore(4) == 1600
  {
  }

  /** Clearing rows together pays at least as much as clearing them in separate steps. */
  lemma LineScoreSuperadditive(a: nat, b: nat)
    ensures LineScore(a + b) >= LineScore(a) + LineScore(b)
  {
    assert (a + b) * (a + b) == a * a + 2 * a * b + b * b;
  }

  /** After exactly 10k cleared lines the level is k + 1 and the drop interval is
      max(200, 1000 - 50k). */
  lemma LevelAfterTenK(k: nat)
    ensures LevelFor(10 * k) == k + 1
    ensures IntervalFor(LevelFor(10 * k)) == if 1000 - 50 * k < 200 then 200 else 1000 - 50 * k
  {
  }

  /** More cleared lines never slow the game down. */
  lemma IntervalNonIncreasing(l1: int, l2: int)
    requires 0 <= l1 <= l2
    ensures IntervalFor(LevelFor(l2)) <= IntervalFor(LevelFor(l1))
  {
  }

  /** clearLines on a state: the rows are compacted as Cleared describes; when n > 0 rows were
      full, lines grows by n, score by n*n*100, and level and drop interval follow the new line
      count; when none were full only the (unchanged) board is rewritten. */
  lemma ClearScoring(g: Game)
    requires IsGrid(g.board)
    ensures var n := FullCount(g.board);
            var c := ClearedGame(g);
            c.board == Cleared(g.board) &&
            c.lines == g.lines + n && c.score == g.score + n * n * 100 &&
            (n > 0 ==> c.level == (g.lines + n) / 10 + 1 && c.dropInterval == IntervalFor(c.level)) &&
            (n == 0 ==> c == g) &&
            c.running == g.running && c.paused == g.paused && c.current == g.current && c.next == g.next
  {
    if FullCount(g.board) == 0 {
      FullCountZero(g.board);
      KeptAll(g.board);
      assert EmptyRows(0) + g.board == g.board;
    }
  }

  /** Calling clearLines again right away removes nothing and changes nothing. */
  lemma ClearTwice(g: Game)
    requires IsGrid(g.board)
    ensures FullCount(ClearedGame(g).board) == 0
    ensures ClearedGame(ClearedGame(g)) == ClearedGame(g)
  {
    ClearedIdempotent(g.board);
  }

  /** Starting a game gives a state satisfying the invariant: the first piece fits the empty
      board. */
  lemma StartedInv(k1: int, k2: int)
    requires 0 <= k1 < |Catalog()| && 0 <= k2 < |Catalog()|
    ensures Inv(Started(k1, k2))
  {
    SpawnFitsEmpty(k1);
  }

  /** Landing yields a well-formed state whose counters still follow the laws of Inv, with score
      and line count no lower than before. */
  lemma SettledCounters(g: Game, k: int)
    requires Formed(g) && g.current.Some? && 0 <= k < |Catalog()|
    requires g.score >= 0 && g.lines >= 0 && g.level == LevelFor(g.lines) && g.dropInterval == IntervalFor(g.level)
    ensures var s := Settled(g, k);
            Formed(s) && s.current == g.next && s.running == g.running &&
            s.score >= g.score && s.lines >= g.lines &&
            s.level == LevelFor(s.lines) && s.dropInterval == IntervalFor(s.level)
  {
    var m := g.(board := Merged(g.board, g.current.value));
    ClearScoring(m);
  }

  /** Landing on its own never stops the game; only the game-over check after it does. */
  lemma SettledRunning(g: Game, k: int)
    requires Formed(g) && g.current.Some? && 0 <= k < |Catalog()|
    ensures Settled(g, k).running == g.running
    ensures Locked(g, k).running <==> g.running && !IsOver(Settled(g, k))
  {
    ClearScoring(g.(board := Merged(g.board, g.current.value)));
  }

  /** Landing keeps the invariant as long as the counters satisfy it (the landing piece itself
      need not fit any more), never lowers score or line count, and ends the game exactly when
      the promoted piece does not fit. */
  lemma LockedInv(g: Game, k: int)
    requires Formed(g) && g.current.Some? && 0 <= k < |Catalog()|
    requires g.score >= 0 && g.lines >= 0 && g.level == LevelFor(g.lines) && g.dropInterval == IntervalFor(g.level)
    ensures Inv(Locked(g, k))
    ensures Locked(g, k).score >= g.score && Locked(g, k).lines >= g.lines
    ensures Locked(g, k).running <==> g.running && Fits(Locked(g, k).board, g.next.value, 0, 0)
  {
    SettledCounters(g, k);
  }

  /** A tick keeps the invariant and never lowers score or line count. */
  lemma TickInv(g: Game, dt: int, k: int)
    requires Inv(g) && 0 <= k < |Catalog()|
    ensures Inv(Tick(g, dt, k))
    ensures Tick(g, dt, k).score >= g.score && Tick(g, dt, k).lines >= g.lines
  {
    if g.running && !g.paused && g.dropCounter + dt > g.dropInterval {
      var p := g.current.value;
      TickAboveThreshold(g, dt, k);
      if Fits(g.board, p, 0, 1) {
        MovedInv(g, 0, 1);
        assert p.(y := p.y + 1) == p.(x := p.x + 0, y := p.y + 1);
      } else {
        LockedInv(g.(dropCounter := g.dropCounter + dt), k);
      }
    }
  }

  /** Moving sideways or down keeps the invariant: the moved piece fits where it now is. */
  lemma MovedInv(g: Game, dx: int, dy: int)
    requires Inv(g) && g.running
    ensures var p := g.current.value;
            Fits(g.board, p, dx, dy) ==> Inv(g.(current := Some(p.(x := p.x + dx, y := p.y + dy))))
  {
    FitsShift(g.board, g.current.value, dx, dy);
  }

  /** A hard drop keeps the invariant: the piece is legal all the way down, then lands. */
  lemma HardDroppedInv(g: Game, k: int)
    requires Inv(g) && g.running && 0 <= k < |Catalog()|
    ensures Inv(HardDropped(g, k))
    ensures HardDropped(g, k).score >= g.score && HardDropped(g, k).lines >= g.lines
  {
    DropLandingFits(g.board, g.current.value);
    LockedInv(DropLanded(g), k);
  }

  /** A sideways move keeps the invariant and the counters. */
  lemma ShiftedInv(g: Game, dx: int)
    requires Inv(g) && g.running
    ensures Inv(Shifted(g, dx)) && Shifted(g, dx).score == g.score && Shifted(g, dx).lines == g.lines
  {
    MovedInv(g, dx, 0);
  }

  /** A rotation keeps the invariant and the counters: the turned shape is well formed and is
      only taken where it fits. */
  lemma TurnedInv(g: Game)
    requires Inv(g) && g.running
    ensures Inv(Turned(g)) && Turned(g).score == g.score && Turned(g).lines == g.lines
  {
    RotatedIsShape(g.current.value.shape);
  }

  /** A soft drop keeps the invariant and never lowers the score. */
  lemma SoftDroppedInv(g: Game)
    requires Inv(g) && g.running
    ensures Inv(SoftDropped(g)) && SoftDropped(g).score >= g.score && SoftDropped(g).lines == g.lines
  {
    MovedInv(g, 0, 1);
    var p := g.current.value;
    assert p.(y := p.y + 1) == p.(x := p.x + 0, y := p.y + 1);
  }

  /** A key press keeps the invariant and never lowers score or line count. */
  lemma PressedInv(g: Game, key: Key, k: int)
    requires Inv(g) && 0 <= k < |Catalog()|
    ensures Inv(Pressed(g, key, k))
    ensures Pressed(g, key, k).score >= g.score && Pressed(g, key, k).lines >= g.lines
  {
    if g.running {
      match key
      case ArrowLeft => ShiftedInv(g, -1);
      case ArrowRight => ShiftedInv(g, 1);
      case ArrowUp => TurnedInv(g);
      case ArrowDown => SoftDroppedInv(g);
      case Space => HardDroppedInv(g, k);
      case Escape =>
      case OtherKey =>
    }
  }

  /** Once the game has stopped (game over, or before the first start), ticks and keys change
      nothing: in particular the board is frozen. */
  lemma StoppedIsFrozen(g: Game, dt: int, key: Key, k: int)
    requires Formed(g) && 0 <= k < |Catalog()| && !g.running
    ensures Tick(g, dt, k) == g && Pressed(g, key, k) == g && Toggled(g) == g
  {
  }

  /** A paused game ignores ticks, but the movement keys act exactly as they would when not
      paused, and a hard drop still lands the piece. */
  lemma PausedIgnoresTicksNotKeys(g: Game, dt: int, key: Key, k: int)
    requires Formed(g) && 0 <= k < |Catalog()| && g.running && g.paused
    ensures Tick(g, dt, k) == g
    ensures key in {ArrowLeft, ArrowRight, ArrowUp, ArrowDown} ==>
              Pressed(g, key, k) == Pressed(g.(paused := false), key, k).(paused := true)
    ensures Pressed(g, Space, k) == HardDropped(g, k)
  {
    var u := g.(paused := false);
    assert Formed(u) && u.(paused := true) == g;
    match key
    case ArrowLeft => assert Pressed(u, key, k) == Shifted(u, -1);
    case ArrowRight => assert Pressed(u, key, k) == Shifted(u, 1);
    case ArrowUp => assert Pressed(u, key, k) == Turned(u);
    case ArrowDown => assert Pressed(u, key, k) == SoftDropped(u);
    case _ =>
  }

  /** The drop timer fires only when the accumulated time is strictly above the interval: up to
      and including it, a tick only accumulates. */
  lemma TickBelowThreshold(g: Game, dt: int, k: int)
    requires Formed(g) && 0 <= k < |Catalog()| && g.running && !g.paused
    requires g.dropCounter + dt <= g.dropInterval
    ensures Tick(g, dt, k) == g.(dropCounter := g.dropCounter + dt)
  {
  }

  /** Once the timer fires, a piece that can move down moves exactly one row and the timer
      restarts; one that cannot lands. */
  lemma TickAboveThreshold(g: Game, dt: int, k: int)
    requires Formed(g) && 0 <= k < |Catalog()| && g.running && !g.paused
    requires g.dropCounter + dt > g.dropInterval
    ensures Fits(g.board, g.current.value, 0, 1) ==>
              Tick(g, dt, k) == g.(current := Some(g.current.value.(y := g.current.value.y + 1)), dropCounter := 0)
    ensures !Fits(g.board, g.current.value, 0, 1) ==>
              var l := Locked(g.(dropCounter := g.dropCounter + dt), k);
              Tick(g, dt, k) == if l.running then l.(dropCounter := 0) else l
  {
    var g1 := g.(dropCounter := g.dropCounter + dt);
    var p := g.current.value;
    assert Tick(g, dt, k) == Fall(g1, k);
    if Fits(g.board, p, 0, 1) {
      assert Fall(g1, k) == g1.(current := Some(p.(y := p.y + 1)), dropCounter := 0);
    } else {
      var l := Locked(g1, k);
      assert Fall(g1, k) == if l.running then l.(dropCounter := 0) else l;
    }
  }

  /** Hard drop moves the piece straight down by some d >= 0 rows and adds the same d to the
      score, then lands it once; a piece that cannot move lands in place (d = 0) and still lands
      exactly once. */
  lemma HardDropLands(g: Game, k: int)
    requires Formed(g) && 0 <= k < |Catalog()| && g.running
    ensures Pressed(g, Space, k) == Locked(DropLanded(g), k)
    ensures var p := g.current.value;
            var q := DropLanded(g).current.value;
            q == p.(y := q.y) && q.y >= p.y && DropLanded(g).score == g.score + (q.y - p.y) &&
            !Fits(g.board, q, 0, 1) &&
            (forall y :: p.y <= y < q.y ==> Fits(g.board, p.(y := y), 0, 1)) &&
            (!Fits(g.board, p, 0, 1) ==> DropLanded(g) == g)
  {
    assert Pressed(g, Space, k) == HardDropped(g, k);
    DropLands(g.board, g.current.value);
    DropDistanceStep(g.board, g.current.value);
  }

  /** Soft drop scores a point exactly when the piece can move down. */
  lemma SoftDropScores(g: Game, k: int)
    requires Formed(g) && 0 <= k < |Catalog()| && g.running
    ensures Pressed(g, ArrowDown, k).score == g.score + (if Fits(g.board, g.current.value, 0, 1) then 1 else 0)
  {
  }

  /** A failed rotation leaves the piece exactly as it was; a successful one changes only the
      shape. */
  lemma RotationRestores(g: Game, k: int)
    requires Formed(g) && 0 <= k < |Catalog()| && g.running
    ensures var p := g.current.value;
            var t := Pressed(g, ArrowUp, k);
            t.current.Some? && t.current.value.x == p.x && t.current.value.y == p.y && t.current.value.color == p.color &&
            (Fits(g.board, p.(shape := Rotated(p.shape)), 0, 0) ==> t.current.value.shape == Rotated(p.shape)) &&
            (!Fits(g.board, p.(shape := Rotated(p.shape)), 0, 0) ==> t == g)
  {
  }
}
