/** The ball and chain of libnethack/src/ball.c: where they go when the hero moves, and the protocol that picks
    them up before a move and puts them down after it. */
module Ball {

  datatype Pos = Pos(x: int, y: int)

  function Abs(n: int): (a: nat) { if n < 0 then -n else n }

  /** `distmin`: the distance in king's moves. */
  function Distmin(p: Pos, q: Pos): (d: nat) {
    var dx, dy := Abs(p.x - q.x), Abs(p.y - q.y);
    if dx < dy then dy else dx
  }

  /** `dist2`: the square of the Euclidean distance. */
  function Dist2(p: Pos, q: Pos): (d: int) {
    (p.x - q.x) * (p.x - q.x) + (p.y - q.y) * (p.y - q.y)
  }

  lemma Square(n: int)
    ensures n * n == Abs(n) * Abs(n) >= 0
    ensures n == 0 <==> n * n == 0
    ensures Abs(n) <= 1 <==> n * n <= 1
    ensures Abs(n) <= 2 <==> n * n <= 4
    ensures Abs(n) == 1 <==> n * n == 1
    ensures Abs(n) == 2 <==> n * n == 4
    ensures Abs(n) >= 3 ==> n * n >= 9
  {
    if Abs(n) >= 3 {
      assert Abs(n) * Abs(n) >= 3 * Abs(n);
    }
  }

  /** The two distances agree on what is next to what, and on the shapes two squares apart. */
  lemma Distances(p: Pos, q: Pos)
    ensures Dist2(p, q) <= 2 <==> Distmin(p, q) <= 1
    ensures Distmin(p, q) <= 2 ==> Dist2(p, q) in {0, 1, 2, 4, 5, 8}
    ensures Dist2(p, q) == 8 <==> Abs(p.x - q.x) == 2 && Abs(p.y - q.y) == 2
    ensures Distmin(p, q) <= 2 && Dist2(p, q) == 5 ==>
              (Abs(p.x - q.x) == 1 && Abs(p.y - q.y) == 2) || (Abs(p.x - q.x) == 2 && Abs(p.y - q.y) == 1)
    ensures Dist2(p, q) == 4 <==> (Abs(p.x - q.x) == 2 && p.y == q.y) || (p.x == q.x && Abs(p.y - q.y) == 2)
    ensures Dist2(p, q) == 2 <==> Abs(p.x - q.x) == 1 && Abs(p.y - q.y) == 1
    ensures Dist2(p, q) == 1 ==> Distmin(p, q) == 1
  {
    Square(p.x - q.x);
    Square(p.y - q.y);
  }

  // ---------------------------------------------------------------- where the chain goes

  type Terrain = Pos -> bool

  function Middle(p: Pos, q: Pos): Pos { Pos((p.x + q.x) / 2, (p.y + q.y) / 2) }

  /** CHAIN_IN_MIDDLE: next to the hero's target and to the ball. */
  predicate InMiddle(target: Pos, ball: Pos, c: Pos) {
    Distmin(target, c) <= 1 && Distmin(c, ball) <= 1
  }

  /** The two squares between the target and a ball that is a knight's move away. */
  function Between(target: Pos, ball: Pos): (Pos, Pos) {
    if Abs(target.x - ball.x) == 1 then
      (Pos(target.x, (ball.y + target.y) / 2), Pos(ball.x, (ball.y + target.y) / 2))
    else
      (Pos((ball.x + target.x) / 2, target.y), Pos((ball.x + target.x) / 2, ball.y))
  }

  /** What `drag_ball` looks at before it decides. `rock` is IS_CHAIN_ROCK, `coin` the outcome of `rn2(2)`. */
  datatype Scene = Scene(hero: Pos, ball: Pos, chain: Pos, carried: bool, rock: Terrain)

  datatype Chance = Chance(coin: bool, overloaded: bool, hazard: bool, levitating: bool, monster: bool)

  predicate AlreadyInRock(s: Scene) { s.rock(s.hero) || s.rock(s.chain) || s.rock(s.ball) }

  datatype Choice = MoveTo(chain: Pos) | SkipToDrag

  function UnlessRock(s: Scene, c: Pos): Choice {
    if s.rock(c) && !AlreadyInRock(s) then SkipToDrag else MoveTo(c)
  }

  /** The moves that would leave the chain across a corner, which only a teleporting hero may do. */
  predicate Pathological(s: Scene, target: Pos, c: Pos) {
    (Dist2(s.hero, s.ball) == 5 && Dist2(target, c) == 1) || (Dist2(s.hero, s.ball) == 4 && Dist2(target, c) == 2)
  }

  function KnightChoice(s: Scene, target: Pos, allowDrag: bool, coin: bool): Choice {
    var (a, b) := Between(target, s.ball);
    if s.rock(a) && !s.rock(b) && !AlreadyInRock(s) then
      if allowDrag && Pathological(s, target, a) then SkipToDrag else MoveTo(b)
    else if !s.rock(a) && s.rock(b) && !AlreadyInRock(s) then
      if allowDrag && Pathological(s, target, b) then SkipToDrag else MoveTo(a)
    else if s.rock(a) && s.rock(b) && !AlreadyInRock(s) then SkipToDrag
    else if Dist2(a, s.chain) < Dist2(b, s.chain) || (Dist2(a, s.chain) == Dist2(b, s.chain) && coin) then MoveTo(a)
    else MoveTo(b)
  }

  /** The square on which the special case of a chain two squares off puts it. */
  function Corner(s: Scene, target: Pos): Pos {
    if s.chain.y == target.y then Pos(s.ball.x, s.chain.y) else Pos(s.chain.x, s.ball.y)
  }

  /** The switch of `drag_ball`, for a ball that need not move. */
  function ChainChoice(s: Scene, target: Pos, allowDrag: bool, coin: bool): (c: Choice)
  {
    var d := Dist2(target, s.ball);
    if d == 8 then UnlessRock(s, Middle(s.ball, target))
    else if d == 5 then KnightChoice(s, target, allowDrag, coin)
    else if d == 4 then
      if InMiddle(target, s.ball, s.chain) then MoveTo(s.chain) else UnlessRock(s, Middle(target, s.ball))
    else if d == 2 && Dist2(target, s.chain) == 4 then UnlessRock(s, Corner(s, target))
    else if d == 0 || d == 1 || d == 2 then
      if InMiddle(target, s.ball, s.chain) then MoveTo(s.chain)
      else if InMiddle(target, s.ball, s.hero) then MoveTo(s.hero)
      else MoveTo(target)
    else MoveTo(s.chain)
  }

  /** What `drag_ball` decides: nothing moves, the chain moves, both are dragged along, both are teleported,
      the hero cannot drag the load, or is jerked back by a ball that is stuck. */
  datatype Plan = Stay | Chain(to: Pos) | Drag | Teleport | TooHeavy | JerkBack

  predicate BallInRange(s: Scene, target: Pos) { Distmin(target, s.ball) <= 2 }

  /** The part of `drag_ball` after the label `drag`. */
  function DragPlan(s: Scene, target: Pos, e: Chance): Plan {
    if e.overloaded && Dist2(target, s.hero) <= 2 then TooHeavy
    else if e.hazard && !e.levitating then JerkBack
    else if Dist2(target, s.hero) > 2 then Teleport
    else Drag
  }

  function PlanOf(s: Scene, target: Pos, allowDrag: bool, e: Chance): (p: Plan) {
    if Dist2(target, s.chain) <= 2 then Stay
    else if s.carried then Chain(if Distmin(target, s.chain) > 1 then s.hero else s.chain)
    else if BallInRange(s, target) then
      match ChainChoice(s, target, allowDrag, e.coin)
      case MoveTo(c) => Chain(c)
      case SkipToDrag => DragPlan(s, target, e)
    else DragPlan(s, target, e)
  }

  /** Where hero, ball and chain are once the plan is carried out. */
  function After(s: Scene, target: Pos, p: Plan, e: Chance): (r: Scene) {
    match p
    case Stay => s.(hero := target)
    case Chain(c) => s.(hero := target, chain := c)
    case Drag => s.(hero := target, ball := s.chain, chain := s.hero)
    case Teleport => s.(hero := target, ball := target, chain := target)
    case TooHeavy => s
    case JerkBack => s.(hero := if e.monster then s.hero else s.chain, ball := s.chain)
  }

  /** `drag_ball` returns TRUE. */
  predicate Allows(p: Plan) { p != TooHeavy && p != JerkBack }

  // ---------------------------------------------------------------- the leash

  /** The chain is next to the hero and to a ball that is not carried. */
  predicate Leashed(s: Scene) {
    Distmin(s.hero, s.chain) <= 1 && (!s.carried ==> Distmin(s.chain, s.ball) <= 1)
  }

  /** Moves that `drag_ball` is called for: steps, and jumps that leave an uncarried ball in range. */
  predicate Legal(s: Scene, target: Pos) {
    Distmin(s.hero, target) <= 1 || (!s.carried && BallInRange(s, target))
  }

  /** The switch never takes its default branch: a ball in range is at one of the distances it lists. */
  lemma NoBadChainMovement(target: Pos, ball: Pos)
    requires Distmin(target, ball) <= 2
    ensures Dist2(target, ball) in {0, 1, 2, 4, 5, 8}
  {
    Distances(target, ball);
  }

  lemma MiddleInMiddle(target: Pos, ball: Pos)
    requires Dist2(target, ball) == 8 || Dist2(target, ball) == 4
    ensures InMiddle(target, ball, Middle(target, ball)) && InMiddle(target, ball, Middle(ball, target))
  {
    Distances(target, ball);
  }

  lemma BetweenInMiddle(target: Pos, ball: Pos)
    requires Distmin(target, ball) <= 2 && Dist2(target, ball) == 5
    ensures InMiddle(target, ball, Between(target, ball).0) && InMiddle(target, ball, Between(target, ball).1)
  {
    Distances(target, ball);
  }

  lemma CornerInMiddle(s: Scene, target: Pos)
    requires Dist2(target, s.ball) == 2 && Dist2(target, s.chain) == 4
    ensures InMiddle(target, s.ball, Corner(s, target))
  {
    Distances(target, s.ball);
    Distances(target, s.chain);
  }

  lemma ChoiceInMiddle(s: Scene, target: Pos, allowDrag: bool, coin: bool)
    requires BallInRange(s, target)
    ensures var c := ChainChoice(s, target, allowDrag, coin);
            c.MoveTo? ==> InMiddle(target, s.ball, c.chain)
  {
    hide Dist2;
    NoBadChainMovement(target, s.ball);
    var d := Dist2(target, s.ball);
    if d == 8 || d == 4 {
      MiddleInMiddle(target, s.ball);
    } else if d == 5 {
      BetweenInMiddle(target, s.ball);
    } else {
      Distances(target, s.ball);
      if d == 2 && Dist2(target, s.chain) == 4 {
        CornerInMiddle(s, target);
      }
    }
  }

  /** After every legal move, granted or refused, the leash holds again. */
  lemma LeashKept(s: Scene, target: Pos, allowDrag: bool, e: Chance)
    requires Leashed(s) && Legal(s, target)
    ensures Leashed(After(s, target, PlanOf(s, target, allowDrag, e), e))
  {
    hide Dist2, ChainChoice;
    Distances(target, s.chain);
    Distances(target, s.hero);
    if BallInRange(s, target) {
      ChoiceInMiddle(s, target, allowDrag, e.coin);
    }
  }

  /** A step that is granted and then not made: the hero stays, and the chain is next to both hero and ball all the same. */
  lemma LeashKeptInPlace(s: Scene, target: Pos, e: Chance)
    requires Leashed(s) && Distmin(s.hero, target) <= 1 && Allows(PlanOf(s, target, true, e))
    ensures Leashed(After(s, target, PlanOf(s, target, true, e), e).(hero := s.hero))
  {
    var p := PlanOf(s, target, true, e);
    Distances(target, s.chain);
    Distances(target, s.hero);
    if !s.carried && BallInRange(s, target) && p.Chain? {
      hide Dist2;
      ChoiceInMiddle(s, target, true, e.coin);
      NearHero(s, target, e.coin);
    }
  }

  /** A hero between the target and the chain, with the ball behind the chain. */
  predicate Trailing(h: Pos, t: Pos, c: Pos, b: Pos) {
    Distmin(h, c) <= 1 && Distmin(c, b) <= 1 && Distmin(h, t) <= 1 && Distmin(t, c) > 1 && Distmin(t, b) <= 2
  }

  lemma MiddleNear(h: Pos, t: Pos, c: Pos, b: Pos)
    requires Trailing(h, t, c, b) && (Dist2(t, b) == 8 || Dist2(t, b) == 4)
    ensures Distmin(h, Middle(t, b)) <= 1 && Middle(t, b) == Middle(b, t)
  {
    Distances(t, b);
  }

  lemma FarAlong(s: Scene, t: Pos, p: Pos, q: Pos)
    requires Trailing(s.hero, t, s.chain, s.ball) && Dist2(t, s.ball) == 5 && Distmin(s.hero, p) > 1
    requires (p, q) == Between(t, s.ball) || (q, p) == Between(t, s.ball)
    requires Abs(t.x - s.ball.x) == 1
    ensures Dist2(q, s.chain) < Dist2(p, s.chain) && Pathological(s, t, q)
  {
    Distances(t, s.ball);
    Distances(s.hero, s.ball);
  }

  lemma FarAcross(s: Scene, t: Pos, p: Pos, q: Pos)
    requires Trailing(s.hero, t, s.chain, s.ball) && Dist2(t, s.ball) == 5 && Distmin(s.hero, p) > 1
    requires (p, q) == Between(t, s.ball) || (q, p) == Between(t, s.ball)
    requires Abs(t.x - s.ball.x) == 2
    ensures Dist2(q, s.chain) < Dist2(p, s.chain) && Pathological(s, t, q)
  {
    Distances(t, s.ball);
    Distances(s.hero, s.ball);
  }

  /** A square away from the hero is the farther one from the chain, and to leave out the other would be pathological. */
  lemma FarSquare(s: Scene, t: Pos, p: Pos, q: Pos)
    requires Trailing(s.hero, t, s.chain, s.ball) && Dist2(t, s.ball) == 5 && Distmin(s.hero, p) > 1
    requires (p, q) == Between(t, s.ball) || (q, p) == Between(t, s.ball)
    ensures Dist2(q, s.chain) < Dist2(p, s.chain) && Pathological(s, t, q)
  {
    hide Between, Pathological, Dist2;
    Distances(t, s.ball);
    if Abs(t.x - s.ball.x) == 1 {
      FarAlong(s, t, p, q);
    } else {
      FarAcross(s, t, p, q);
    }
  }

  lemma KnightNear(s: Scene, t: Pos, coin: bool)
    requires Trailing(s.hero, t, s.chain, s.ball) && Dist2(t, s.ball) == 5
    ensures var c := KnightChoice(s, t, true, coin); c.MoveTo? ==> Distmin(s.hero, c.chain) <= 1
  {
    hide Dist2, Between, Pathological, Distmin, Trailing;
    var (p, q) := Between(t, s.ball);
    if Distmin(s.hero, p) > 1 {
      FarSquare(s, t, p, q);
    }
    if Distmin(s.hero, q) > 1 {
      FarSquare(s, t, q, p);
    }
  }

  lemma CornerNear(s: Scene, t: Pos)
    requires Trailing(s.hero, t, s.chain, s.ball) && Dist2(t, s.ball) == 2 && Dist2(t, s.chain) == 4
    ensures Distmin(s.hero, Corner(s, t)) <= 1
  {
    Distances(t, s.ball);
    Distances(t, s.chain);
  }

  /** The square that the switch chooses on a step is next to where the hero comes from. */
  lemma NearHero(s: Scene, target: Pos, coin: bool)
    requires Trailing(s.hero, target, s.chain, s.ball)
    ensures var c := ChainChoice(s, target, true, coin);
            c.MoveTo? ==> Distmin(s.hero, c.chain) <= 1
  {
    hide Dist2, Between, Middle, Corner, Pathological, Distmin, KnightChoice;
    Itself(s.hero);
    var d := Dist2(target, s.ball);
    if d == 8 || d == 4 {
      MiddleNear(s.hero, target, s.chain, s.ball);
    } else if d == 5 {
      KnightNear(s, target, coin);
    } else if d == 2 && Dist2(target, s.chain) == 4 {
      CornerNear(s, target);
    } else {
      NoBadChainMovement(target, s.ball);
    }
  }

  lemma Itself(p: Pos)
    ensures Distmin(p, p) == 0
  {}

  /** On squares that a caller can look at: every square that would keep the chain between the hero's target and the ball is
      rock, or would leave the chain across a corner of rock while dragging is allowed. None of the three is in rock now. */
  predicate Blocked(s: Scene, target: Pos, allowDrag: bool) {
    var dx, dy := Abs(target.x - s.ball.x), Abs(target.y - s.ball.y);
    && !s.rock(s.hero) && !s.rock(s.chain) && !s.rock(s.ball)
    && if dx == 2 && dy == 2 then s.rock(Middle(s.ball, target))
       else if dx + dy == 3 then
         var (a, b) := Between(target, s.ball);
         || (s.rock(a) && s.rock(b))
         || (allowDrag && s.rock(a) && AcrossCorner(s, target, a))
         || (allowDrag && s.rock(b) && AcrossCorner(s, target, b))
       else if dx + dy == 2 && dx != dy then
         (Distmin(target, s.chain) > 1 || Distmin(s.chain, s.ball) > 1) && s.rock(Middle(target, s.ball))
       else dx == 1 && dy == 1 && Abs(target.x - s.chain.x) + Abs(target.y - s.chain.y) == 2
            && (target.x == s.chain.x || target.y == s.chain.y) && s.rock(Corner(s, target))
  }

  /** The rock `c` is beside the hero's target after a knight's move from the ball, or diagonal to it after two squares straight. */
  predicate AcrossCorner(s: Scene, target: Pos, c: Pos) {
    var hx, hy := Abs(s.hero.x - s.ball.x), Abs(s.hero.y - s.ball.y);
    var cx, cy := Abs(target.x - c.x), Abs(target.y - c.y);
    || (((hx == 1 && hy == 2) || (hx == 2 && hy == 1)) && cx + cy == 1)
    || (((hx == 2 && hy == 0) || (hx == 0 && hy == 2)) && cx == 1 && cy == 1)
  }

  lemma DistanceFive(p: Pos, q: Pos)
    ensures Dist2(p, q) == 5 <==> (Abs(p.x - q.x) == 1 && Abs(p.y - q.y) == 2) || (Abs(p.x - q.x) == 2 && Abs(p.y - q.y) == 1)
    ensures Dist2(p, q) == 1 <==> Abs(p.x - q.x) + Abs(p.y - q.y) == 1
  {
    Square(p.x - q.x);
    Square(p.y - q.y);
  }

  lemma PathologicalIff(s: Scene, target: Pos, c: Pos)
    ensures Pathological(s, target, c) <==> AcrossCorner(s, target, c)
  {
    hide Dist2;
    DistanceFive(s.hero, s.ball);
    DistanceFive(target, c);
    Distances(s.hero, s.ball);
    Distances(target, c);
  }

  /** The switch finds no square for the chain exactly if all are blocked. */
  lemma SkipIffBlocked(s: Scene, target: Pos, allowDrag: bool, coin: bool)
    requires BallInRange(s, target)
    ensures ChainChoice(s, target, allowDrag, coin) == SkipToDrag <==> Blocked(s, target, allowDrag)
  {
    hide Dist2, Pathological, AcrossCorner;
    Distances(target, s.ball);
    DistanceFive(target, s.ball);
    Distances(target, s.chain);
    var (a, b) := Between(target, s.ball);
    PathologicalIff(s, target, a);
    PathologicalIff(s, target, b);
  }

  /** When `drag_ball` returns FALSE, in terms of squares and loads that are known before the call. */
  lemma RefusedIff(s: Scene, target: Pos, allowDrag: bool, e: Chance)
    ensures !Allows(PlanOf(s, target, allowDrag, e)) <==>
              && !s.carried && Distmin(target, s.chain) > 1
              && (Distmin(target, s.ball) > 2 || Blocked(s, target, allowDrag))
              && ((e.overloaded && Distmin(target, s.hero) <= 1) || (e.hazard && !e.levitating))
  {
    hide Dist2, ChainChoice, Blocked;
    Distances(target, s.chain);
    Distances(target, s.hero);
    if BallInRange(s, target) {
      SkipIffBlocked(s, target, allowDrag, e.coin);
    }
  }

  // ---------------------------------------------------------------- where everything ends up

  /** The ball cannot stay where it is: it is too far from the target, or no square is left for the chain. */
  predicate MustDrag(s: Scene, target: Pos, allowDrag: bool) {
    !s.carried && Distmin(target, s.chain) > 1 && (Distmin(target, s.ball) > 2 || Blocked(s, target, allowDrag))
  }

  lemma DragsIff(s: Scene, target: Pos, allowDrag: bool, e: Chance)
    ensures MustDrag(s, target, allowDrag) <==> PlanOf(s, target, allowDrag, e) in {Drag, Teleport, TooHeavy, JerkBack}
  {
    hide Dist2, ChainChoice, Blocked;
    Distances(target, s.chain);
    if BallInRange(s, target) {
      SkipIffBlocked(s, target, allowDrag, e.coin);
    }
  }

  /** A granted step moves the ball one square at most, and only when it must be dragged: then ball and chain move up along
      the way the hero came, the ball to where the chain was and the chain to where he was. */
  lemma BallFollows(s: Scene, target: Pos, allowDrag: bool, e: Chance)
    requires Leashed(s) && Distmin(s.hero, target) <= 1 && Allows(PlanOf(s, target, allowDrag, e))
    ensures var r := After(s, target, PlanOf(s, target, allowDrag, e), e);
            && r.hero == target && r.carried == s.carried && Distmin(s.ball, r.ball) <= 1
            && (r.ball != s.ball ==> r.ball == s.chain && r.chain == s.hero)
            && (r.ball != s.ball <==> MustDrag(s, target, allowDrag) && s.ball != s.chain)
            && (MustDrag(s, target, allowDrag) ==> r.chain == s.hero)
  {
    hide Dist2, ChainChoice, Blocked;
    DragsIff(s, target, allowDrag, e);
    Distances(target, s.hero);
    Swapped(s.ball, s.chain);
    Itself(s.ball);
  }

  lemma Swapped(p: Pos, q: Pos)
    ensures Distmin(p, q) == Distmin(q, p)
  {}

  /** A granted jump that must drag the ball takes both to the target. */
  lemma BothTeleported(s: Scene, target: Pos, allowDrag: bool, e: Chance)
    requires Distmin(s.hero, target) > 1 && MustDrag(s, target, allowDrag) && Allows(PlanOf(s, target, allowDrag, e))
    ensures After(s, target, PlanOf(s, target, allowDrag, e), e) == s.(hero := target, ball := target, chain := target)
  {
    hide Dist2, ChainChoice, Blocked;
    DragsIff(s, target, allowDrag, e);
    Distances(target, s.hero);
  }

  /** A refusal for the load changes nothing. Any other one pulls the ball to the chain, which stays, and the hero too unless a
      monster is there. */
  lemma Refused(s: Scene, target: Pos, allowDrag: bool, e: Chance)
    requires !Allows(PlanOf(s, target, allowDrag, e))
    ensures var r := After(s, target, PlanOf(s, target, allowDrag, e), e);
            && r.chain == s.chain && r.carried == s.carried
            && (e.overloaded && Distmin(target, s.hero) <= 1 ==> r.hero == s.hero && r.ball == s.ball)
            && (!(e.overloaded && Distmin(target, s.hero) <= 1) ==> r.ball == s.chain && r.hero == if e.monster then s.hero else s.chain)
  {
    hide Dist2, ChainChoice;
    Distances(target, s.hero);
  }

  /** The square `m` halfway between `p` and `q`. */
  predicate Halfway(m: Pos, p: Pos, q: Pos) {
    m.x + m.x == p.x + q.x && m.y + m.y == p.y + q.y
  }

  /** Of the squares next to both target and ball `c` is one that is nearest to `from`. */
  ghost predicate Nearest(c: Pos, target: Pos, ball: Pos, from: Pos) {
    InMiddle(target, ball, c) && forall q: Pos :: InMiddle(target, ball, q) ==> Dist2(c, from) <= Dist2(q, from)
  }

  /** Two squares two columns and one row apart, or one column and two rows. */
  predicate KnightsMove(p: Pos, q: Pos) {
    (Abs(p.x - q.x) == 1 && Abs(p.y - q.y) == 2) || (Abs(p.x - q.x) == 2 && Abs(p.y - q.y) == 1)
  }

  /** Where the chain goes when the ball stays: nowhere if it reaches the target; with a carried ball to where the hero was;
      halfway to a ball two squares off in a line; after a knight's move to the free one of the two squares between, or the
      nearer one; halfway to the target where it is two squares straight behind; and else to where the hero was, if that is
      between, or under him. */
  lemma ChainFollows(s: Scene, target: Pos, allowDrag: bool, e: Chance)
    requires Leashed(s) && !MustDrag(s, target, allowDrag)
    ensures var r := After(s, target, PlanOf(s, target, allowDrag, e), e);
            var dx, dy := Abs(target.x - s.ball.x), Abs(target.y - s.ball.y);
            && r == s.(hero := target, chain := r.chain)
            && if Distmin(target, s.chain) <= 1 then r.chain == s.chain
               else if s.carried then r.chain == s.hero
               else if (dx == 2 && dy != 1) || (dy == 2 && dx != 1) then Halfway(r.chain, target, s.ball)
               else if KnightsMove(target, s.ball) then
                 && InMiddle(target, s.ball, r.chain)
                 && (!AlreadyInRock(s) ==> !s.rock(r.chain))
                 && (AlreadyInRock(s) || (forall q: Pos :: InMiddle(target, s.ball, q) ==> !s.rock(q)) ==>
                       Nearest(r.chain, target, s.ball, s.chain))
               else if dx == 1 && dy == 1 && Dist2(target, s.chain) == 4 then Halfway(r.chain, target, s.chain)
               else r.chain == if InMiddle(target, s.ball, s.hero) then s.hero else target
  {
    hide Dist2, KnightChoice, Blocked, Between, Nearest, Halfway;
    DragsIff(s, target, allowDrag, e);
    Distances(target, s.chain);
    if Distmin(target, s.chain) > 1 && !s.carried {
      Distances(target, s.ball);
      DistanceFive(target, s.ball);
      MiddleHalfway(target, s.ball);
      if KnightsMove(target, s.ball) {
        KnightFollows(s, target, allowDrag, e.coin);
      } else {
        CornerHalfway(s, target);
      }
    }
  }

  lemma MiddleHalfway(p: Pos, q: Pos)
    ensures (Abs(p.x - q.x) == 2 || p.x == q.x) && (Abs(p.y - q.y) == 2 || p.y == q.y) ==>
              Halfway(Middle(p, q), p, q) && Middle(p, q) == Middle(q, p)
  {}

  lemma CornerHalfway(s: Scene, target: Pos)
    requires Distmin(s.chain, s.ball) <= 1
    ensures Dist2(target, s.ball) == 2 && Dist2(target, s.chain) == 4 ==> Halfway(Corner(s, target), target, s.chain)
  {
    Distances(target, s.ball);
    Distances(target, s.chain);
  }

  lemma KnightFollows(s: Scene, target: Pos, allowDrag: bool, coin: bool)
    requires KnightsMove(target, s.ball) && KnightChoice(s, target, allowDrag, coin).MoveTo?
    ensures var c := KnightChoice(s, target, allowDrag, coin).chain;
            && InMiddle(target, s.ball, c)
            && (!AlreadyInRock(s) ==> !s.rock(c))
            && (AlreadyInRock(s) || (forall q: Pos :: InMiddle(target, s.ball, q) ==> !s.rock(q)) ==> Nearest(c, target, s.ball, s.chain))
  {
    hide Dist2, Between, Pathological, InMiddle, KnightsMove;
    var (a, b) := Between(target, s.ball);
    OnlyBetween(target, s.ball);
    assert InMiddle(target, s.ball, a) && InMiddle(target, s.ball, b);
  }

  lemma OnlyBetween(target: Pos, ball: Pos)
    requires KnightsMove(target, ball)
    ensures var (a, b) := Between(target, ball);
            forall q: Pos :: InMiddle(target, ball, q) <==> q == a || q == b
  {}

  // ---------------------------------------------------------------- terrain

  /** Unless one of the three is in rock already, chain and ball end up on rock only under the hero. */
  lemma TerrainRespected(s: Scene, target: Pos, allowDrag: bool, e: Chance)
    requires !AlreadyInRock(s) && Allows(PlanOf(s, target, allowDrag, e))
    ensures var r := After(s, target, PlanOf(s, target, allowDrag, e), e);
            && (r.rock(r.chain) ==> r.chain == target)
            && (r.rock(r.ball) ==> r.ball == target)
  {
    hide Dist2, Distmin;
  }

  /** Of two free squares the chain takes the one that is nearer to it. */
  lemma NearerSquare(s: Scene, target: Pos, allowDrag: bool, coin: bool)
    requires Dist2(target, s.ball) == 5
    ensures var (a, b) := Between(target, s.ball);
            var c := ChainChoice(s, target, allowDrag, coin);
            !s.rock(a) && !s.rock(b) ==>
              c.MoveTo? && (c.chain == a || c.chain == b) && Dist2(c.chain, s.chain) <= Dist2(a, s.chain) && Dist2(c.chain, s.chain) <= Dist2(b, s.chain)
  {
    hide Dist2;
  }

  // ---------------------------------------------------------------- teleporting and throwing

  /** `teleds` asks `drag_ball` where the ball is in range, or where the hero may drag it and goes one square. */
  predicate TeledsDrags(s: Scene, target: Pos, allowDrag: bool) {
    (!s.carried && BallInRange(s, target)) || (allowDrag && Distmin(s.hero, target) <= 1)
  }

  /** `teleds`: the hero goes to the target even when `drag_ball` refuses. */
  function Teleds(s: Scene, target: Pos, allowDrag: bool, e: Chance): (r: Scene) {
    if TeledsDrags(s, target, allowDrag) then
      After(s, target, PlanOf(s, target, allowDrag, e), e).(hero := target)
    else
      s.(hero := target, chain := target, ball := if s.carried then s.ball else target)
  }

  /** Teleporting keeps the leash, unless `drag_ball` is asked and refuses: then it never does. */
  lemma TeledsLeash(s: Scene, target: Pos, allowDrag: bool, e: Chance)
    requires Leashed(s)
    ensures Leashed(Teleds(s, target, allowDrag, e)) <==>
              !TeledsDrags(s, target, allowDrag) || Allows(PlanOf(s, target, allowDrag, e))
  {
    hide Dist2, ChainChoice;
    if TeledsDrags(s, target, allowDrag) {
      LeashKept(s, target, allowDrag, e);
      Distances(target, s.chain);
    }
  }

  /** A jump takes ball and chain along to the target, unless the ball is within reach of it, or the hero goes one square with
      leave to drag: then the ball stays, or is dragged like on a step. A carried ball is never moved. */
  lemma TeledsMoves(s: Scene, target: Pos, allowDrag: bool, e: Chance)
    requires Leashed(s)
    ensures var r := Teleds(s, target, allowDrag, e);
            && r.hero == target && r.carried == s.carried && (s.carried ==> r.ball == s.ball)
            && (if !s.carried && Distmin(target, s.ball) <= 2 then
                  !MustDrag(s, target, allowDrag) ==> r.ball == s.ball
                else if allowDrag && Distmin(s.hero, target) <= 1 then
                  if s.carried then r.chain == (if Distmin(target, s.chain) <= 1 then s.chain else s.hero)
                  else Allows(PlanOf(s, target, allowDrag, e)) ==> r.ball == s.chain && r.chain == s.hero
                else r.chain == target && (!s.carried ==> r.ball == target))
  {
    hide Dist2, ChainChoice, Blocked, PlanOf;
    if !s.carried && Distmin(target, s.ball) > 2 {
      ReachIsNear(s, target);
    }
    if TeledsDrags(s, target, allowDrag) {
      if !MustDrag(s, target, allowDrag) {
        ChainFollows(s, target, allowDrag, e);
      } else if Allows(PlanOf(s, target, allowDrag, e)) {
        DragsIff(s, target, allowDrag, e);
        if Distmin(s.hero, target) <= 1 {
          BallFollows(s, target, allowDrag, e);
        }
      }
    }
  }

  lemma ReachIsNear(s: Scene, target: Pos)
    requires Leashed(s) && !s.carried && Distmin(target, s.ball) > 2
    ensures Distmin(target, s.chain) > 1
  {}

  /** Chain and ball in line behind an overloaded hero: going one square with leave to drag, he is refused, goes all the
      same, and leaves the chain two squares behind. */
  lemma TeledsBreaksLeash(e: Chance)
    requires e.overloaded
    ensures var s := Scene(Pos(2, 0), Pos(0, 0), Pos(1, 0), false, _ => false);
            Leashed(s) && TeledsDrags(s, Pos(3, 0), true) && !Leashed(Teleds(s, Pos(3, 0), true, e))
  {
    var s := Scene(Pos(2, 0), Pos(0, 0), Pos(1, 0), false, _ => false);
    TeledsLeash(s, Pos(3, 0), true, e);
    RefusedIff(s, Pos(3, 0), true, e);
  }

  /** `drop_ball`: the ball lies at `at` after a throw by (`dx`, `dy`); `falls` tells whether it drags the hero into
      a pool, pit or hole with it. */
  function Dropped(s: Scene, at: Pos, dx: int, dy: int, falls: bool): (r: Scene) {
    var t := s.(ball := at, carried := false);
    if at == s.hero then t
    else
      var h := if falls then at else Pos(at.x - dx, at.y - dy);
      t.(hero := h, chain := h)
  }

  lemma DroppedLeash(s: Scene, at: Pos, dx: int, dy: int, falls: bool)
    requires Leashed(s) && -1 <= dx <= 1 && -1 <= dy <= 1
    ensures Leashed(Dropped(s, at, dx, dy, falls))
  {}

  /** A thrown ball lies one square beyond the hero in the direction of the throw, or where he fell in with it; one that comes
      down where he is moves nobody. The chain lies where he lands. */
  lemma ThrownAhead(s: Scene, at: Pos, dx: int, dy: int, falls: bool)
    ensures var r := Dropped(s, at, dx, dy, falls);
            && r.ball == at && !r.carried
            && (at == s.hero ==> r.hero == s.hero && r.chain == s.chain)
            && (at != s.hero ==> r.chain == r.hero && r.ball == if falls then r.hero else Pos(r.hero.x + dx, r.hero.y + dy))
  {}

  // ---------------------------------------------------------------- runs

  /** What happens to a punished hero. `barred`: a region does not let him in or out; `stays`: a pet could not make room. */
  datatype Event =
    | Walk(target: Pos, e: Chance, barred: bool, stays: bool)
    | Jump(target: Pos, allowDrag: bool, e: Chance)
    | Throw(at: Pos, dx: int, dy: int, falls: bool)
    | PickUpBall
    | PlaceUnderHero

  /** A step of the hero: he may be barred after `drag_ball` has granted it, or not move after all. */
  function Walked(s: Scene, target: Pos, e: Chance, barred: bool, stays: bool): (r: Scene) {
    var p := PlanOf(s, target, true, e);
    if !Allows(p) then After(s, target, p, e)
    else if barred then s
    else if stays then After(s, target, p, e).(hero := s.hero)
    else After(s, target, p, e)
  }

  function Next(s: Scene, ev: Event): (r: Scene) {
    match ev
    case Walk(target, e, barred, stays) => Walked(s, target, e, barred, stays)
    case Jump(target, allowDrag, e) => Teleds(s, target, allowDrag, e)
    case Throw(at, dx, dy, falls) => Dropped(s, at, dx, dy, falls)
    case PickUpBall => s.(carried := true)
    case PlaceUnderHero => s.(chain := s.hero, ball := if s.carried then s.ball else s.hero)
  }

  /** A step goes to a square next to the hero, and a throw goes along a direction. */
  predicate Possible(s: Scene, ev: Event) {
    match ev
    case Walk(target, _, _, _) => Distmin(s.hero, target) <= 1
    case Throw(_, dx, dy, _) => -1 <= dx <= 1 && -1 <= dy <= 1
    case _ => true
  }

  /** A jump that `drag_ball` is asked about and refuses. */
  predicate RefusedJump(s: Scene, ev: Event) {
    ev.Jump? && TeledsDrags(s, ev.target, ev.allowDrag) && !Allows(PlanOf(s, ev.target, ev.allowDrag, ev.e))
  }

  ghost predicate PossibleRun(s: Scene, evs: seq<Event>)
    decreases |evs|
  {
    evs == [] || (Possible(s, evs[0]) && PossibleRun(Next(s, evs[0]), evs[1..]))
  }

  ghost predicate NoRefusedJump(s: Scene, evs: seq<Event>)
    decreases |evs|
  {
    evs == [] || (!RefusedJump(s, evs[0]) && NoRefusedJump(Next(s, evs[0]), evs[1..]))
  }

  ghost function Run(s: Scene, evs: seq<Event>): Scene
    decreases |evs|
  {
    if evs == [] then s else Run(Next(s, evs[0]), evs[1..])
  }

  lemma WalkedLeash(s: Scene, target: Pos, e: Chance, barred: bool, stays: bool)
    requires Leashed(s) && Distmin(s.hero, target) <= 1
    ensures Leashed(Walked(s, target, e, barred, stays))
  {
    hide PlanOf, Distmin;
    LeashKept(s, target, true, e);
    if Allows(PlanOf(s, target, true, e)) {
      LeashKeptInPlace(s, target, e);
    }
  }

  /** One event keeps the leash exactly if it is not a refused jump. */
  lemma NextLeash(s: Scene, ev: Event)
    requires Leashed(s) && Possible(s, ev)
    ensures Leashed(Next(s, ev)) <==> !RefusedJump(s, ev)
  {
    hide PlanOf, Teleds, Walked, TeledsDrags, Dropped;
    match ev
    case Walk(target, e, barred, stays) => WalkedLeash(s, target, e, barred, stays);
    case Jump(target, allowDrag, e) => TeledsLeash(s, target, allowDrag, e);
    case Throw(at, dx, dy, falls) => DroppedLeash(s, at, dx, dy, falls);
    case _ =>
  }

  /** Over whole runs, for any terrain and any coordinates, the chain is next to hero and ball all the time, exactly if no
      jump of the run is refused by `drag_ball`. */
  lemma {:induction false} LeashKeptOverRuns(s: Scene, evs: seq<Event>)
    requires Leashed(s) && PossibleRun(s, evs)
    ensures (forall n :: 0 <= n <= |evs| ==> Leashed(Run(s, evs[..n]))) <==> NoRefusedJump(s, evs)
    decreases |evs|
  {
    hide Next, Leashed, RefusedJump, Possible;
    if evs == [] {
      assert forall n :: 0 <= n <= |evs| ==> evs[..n] == [];
    } else {
      NextLeash(s, evs[0]);
      var t, rest := Next(s, evs[0]), evs[1..];
      assert Run(s, evs[..0]) == s;
      forall n | 0 <= n <= |rest| ensures Run(s, evs[..n + 1]) == Run(t, rest[..n]) {
        assert evs[..n + 1][1..] == rest[..n];
      }
      assert rest[..0] == [] && Run(s, evs[..0 + 1]) == t;
      if Leashed(t) {
        LeashKeptOverRuns(t, rest);
        if NoRefusedJump(t, rest) {
          forall n | 0 <= n <= |evs| ensures Leashed(Run(s, evs[..n])) {
            assert n > 0 ==> Run(s, evs[..n - 1 + 1]) == Run(t, rest[..n - 1]);
          }
        }
      }
    }
  }

  // ---------------------------------------------------------------- piles of objects

  datatype Thing = TheBall | TheChain | Other(id: nat)

  /** `u.bc_order`. */
  datatype Order = Differ | ChainOnTop | BallOnTop

  type Floor = map<Pos, seq<Thing>>

  /** `level->objects[x][y]`, the topmost object first. */
  function Pile(floor: Floor, p: Pos): seq<Thing> { if p in floor then floor[p] else [] }

  /** The objects of a pile that are neither ball nor chain. */
  function Rest(pile: seq<Thing>): seq<Thing> {
    if pile == [] then [] else (if pile[0].Other? then [pile[0]] else []) + Rest(pile[1..])
  }

  /** `remove_object`: a pile without its first `t`. */
  function Without(pile: seq<Thing>, t: Thing): seq<Thing> {
    if pile == [] then [] else if pile[0] == t then pile[1..] else [pile[0]] + Without(pile[1..], t)
  }

  function Top(pile: seq<Thing>): Order {
    if pile == [] then Differ
    else if pile[0] == TheChain then ChainOnTop
    else if pile[0] == TheBall then BallOnTop
    else Top(pile[1..])
  }

  /** How the two lie on one another, if they lie on one square. */
  function Stacking(floor: Floor, ball: Pos, chain: Pos, carried: bool): Order {
    if chain != ball || carried then Differ else Top(Pile(floor, ball))
  }

  lemma {:induction false} WithoutCounts(pile: seq<Thing>, t: Thing)
    ensures multiset(Without(pile, t)) == multiset(pile) - multiset{t}
  {
    if pile != [] {
      assert pile == [pile[0]] + pile[1..];
      if pile[0] != t {
        WithoutCounts(pile[1..], t);
      }
    }
  }

  lemma {:induction false} WithoutRest(pile: seq<Thing>, t: Thing)
    requires !t.Other?
    ensures Rest(Without(pile, t)) == Rest(pile)
  {
    if pile != [] && pile[0] != t {
      WithoutRest(pile[1..], t);
      assert ([pile[0]] + Without(pile[1..], t))[1..] == Without(pile[1..], t);
    }
  }

  lemma OnTop(pile: seq<Thing>, t: Thing)
    ensures multiset([t] + pile) == multiset(pile) + multiset{t}
    ensures !t.Other? ==> Rest([t] + pile) == Rest(pile)
    ensures Top([t] + pile) == match t case TheChain => ChainOnTop case TheBall => BallOnTop case Other(_) => Top(pile)
  {
    assert ([t] + pile)[1..] == pile;
  }

  /** How often ball and chain are in a pile. */
  predicate Holds(pile: seq<Thing>, balls: nat, chains: nat) {
    multiset(pile)[TheBall] == balls && multiset(pile)[TheChain] == chains
  }

  /** The chain lies at `chain` and the ball at `ball`, if they lie on the floor, and nowhere else. */
  ghost predicate Lying(floor: Floor, ball: Pos, chain: Pos, ballDown: bool, chainDown: bool) {
    forall p: Pos :: Holds(Pile(floor, p), if ballDown && p == ball then 1 else 0, if chainDown && p == chain then 1 else 0)
  }

  /** No other object is touched. */
  ghost predicate SameRest(f: Floor, g: Floor) {
    forall p: Pos :: Rest(Pile(f, p)) == Rest(Pile(g, p))
  }

  function Put(floor: Floor, t: Thing, p: Pos): Floor { floor[p := [t] + Pile(floor, p)] }

  function Take(floor: Floor, t: Thing, p: Pos): Floor { floor[p := Without(Pile(floor, p), t)] }

  lemma PutBall(floor: Floor, ball: Pos, chain: Pos, chainDown: bool, p: Pos)
    requires Lying(floor, ball, chain, false, chainDown)
    ensures Lying(Put(floor, TheBall, p), p, chain, true, chainDown) && SameRest(floor, Put(floor, TheBall, p))
    ensures Top(Pile(Put(floor, TheBall, p), p)) == BallOnTop
  {
    OnTop(Pile(floor, p), TheBall);
    assert Holds(Pile(floor, p), 0, if chainDown && p == chain then 1 else 0);
    forall q: Pos | q != p ensures Pile(Put(floor, TheBall, p), q) == Pile(floor, q) && Holds(Pile(floor, q), 0, if chainDown && q == chain then 1 else 0) {}
  }

  lemma PutChain(floor: Floor, ball: Pos, chain: Pos, ballDown: bool, p: Pos)
    requires Lying(floor, ball, chain, ballDown, false)
    ensures Lying(Put(floor, TheChain, p), ball, p, ballDown, true) && SameRest(floor, Put(floor, TheChain, p))
    ensures Top(Pile(Put(floor, TheChain, p), p)) == ChainOnTop
  {
    OnTop(Pile(floor, p), TheChain);
    assert Holds(Pile(floor, p), if ballDown && p == ball then 1 else 0, 0);
    forall q: Pos | q != p ensures Pile(Put(floor, TheChain, p), q) == Pile(floor, q) && Holds(Pile(floor, q), if ballDown && q == ball then 1 else 0, 0) {}
  }

  lemma TakeBall(floor: Floor, ball: Pos, chain: Pos, chainDown: bool)
    requires Lying(floor, ball, chain, true, chainDown)
    ensures Lying(Take(floor, TheBall, ball), ball, chain, false, chainDown) && SameRest(floor, Take(floor, TheBall, ball))
  {
    WithoutCounts(Pile(floor, ball), TheBall);
    WithoutRest(Pile(floor, ball), TheBall);
    assert Holds(Pile(floor, ball), 1, if chainDown && ball == chain then 1 else 0);
    forall q: Pos | q != ball ensures Pile(Take(floor, TheBall, ball), q) == Pile(floor, q) && Holds(Pile(floor, q), 0, if chainDown && q == chain then 1 else 0) {}
  }

  lemma TakeChain(floor: Floor, ball: Pos, chain: Pos, ballDown: bool)
    requires Lying(floor, ball, chain, ballDown, true)
    ensures Lying(Take(floor, TheChain, chain), ball, chain, ballDown, false) && SameRest(floor, Take(floor, TheChain, chain))
  {
    WithoutCounts(Pile(floor, chain), TheChain);
    WithoutRest(Pile(floor, chain), TheChain);
    assert Holds(Pile(floor, chain), if ballDown && chain == ball then 1 else 0, 1);
    forall q: Pos | q != chain ensures Pile(Take(floor, TheChain, chain), q) == Pile(floor, q) && Holds(Pile(floor, q), if ballDown && q == ball then 1 else 0, 0) {}
  }

  lemma SameRestTransitive(f: Floor, g: Floor, h: Floor)
    requires SameRest(f, g) && SameRest(g, h)
    ensures SameRest(f, h)
  {}

  // ---------------------------------------------------------------- the protocol

  const BC_BALL: nat := 1
  const BC_CHAIN: nat := 2

  predicate HasBall(control: nat) { control % 2 == 1 }

  predicate HasChain(control: nat) { control / 2 % 2 == 1 }

  /** A punished hero: `uball` and `uchain` with their places, and the piles they may lie in. */
  class Punished {
    const rock: Terrain
    var hero: Pos
    var ball: Pos
    var chain: Pos
    var carried: bool
    var blind: bool
    var order: Order
    var floor: Floor

    /** Ball and chain are in the piles, as far as the ball is not carried. */
    ghost var down: bool
    /** A call that picks them up has not been followed by one that puts them down. */
    ghost var owed: bool

    constructor (rock: Terrain, hero: Pos, floor: Floor, blind: bool)
      requires forall p: Pos :: Holds(Pile(floor, p), 0, 0)
      ensures this.rock == rock && this.hero == hero && this.floor == floor && this.blind == blind
      ensures Valid() && !down && !owed && !carried && Leashed(View())
    {
      this.rock, this.hero, this.floor, this.blind := rock, hero, floor, blind;
      ball, chain, carried, order := hero, hero, false, Differ;
      down, owed := false, false;
    }

    ghost predicate Valid()
      reads this
    {
      && Lying(floor, ball, chain, down && !carried, down)
      && (owed ==> down == blind)
    }

    function View(): Scene
      reads this
    {
      Scene(hero, ball, chain, carried, rock)
    }

    /** `bc_order`: ball and chain on one square are in one pile, so the search does not fail. */
    method BcOrder() returns (r: Order)
      requires Valid() && down
      ensures r == Stacking(floor, ball, chain, carried)
    {
      if chain != ball || carried {
        return Differ;
      }
      var pile := Pile(floor, ball);
      assert Holds(pile, 1, 1);
      var i := 0;
      assert pile[0..] == pile;
      while i < |pile|
        invariant i <= |pile| && Top(pile) == Top(pile[i..]) && multiset(pile[i..])[TheChain] == 1
        decreases |pile| - i
      {
        assert pile[i..] == [pile[i]] + pile[i + 1..];
        if pile[i] == TheChain {
          return ChainOnTop;
        }
        if pile[i] == TheBall {
          return BallOnTop;
        }
        i := i + 1;
      }
      assert false;
      r := Differ;
    }

    method PlaceBall(p: Pos, ghost chainDown: bool)
      requires Lying(floor, ball, chain, false, chainDown)
      modifies `floor, `ball
      ensures ball == p && Lying(floor, ball, chain, true, chainDown) && SameRest(old(floor), floor)
      ensures Top(Pile(floor, p)) == BallOnTop && floor == Put(old(floor), TheBall, p)
    {
      PutBall(floor, ball, chain, chainDown, p);
      floor := Put(floor, TheBall, p);
      ball := p;
    }

    method PlaceChain(p: Pos, ghost ballDown: bool)
      requires Lying(floor, ball, chain, ballDown, false)
      modifies `floor, `chain
      ensures chain == p && Lying(floor, ball, chain, ballDown, true) && SameRest(old(floor), floor)
      ensures Top(Pile(floor, p)) == ChainOnTop && floor == Put(old(floor), TheChain, p)
    {
      PutChain(floor, ball, chain, ballDown, p);
      floor := Put(floor, TheChain, p);
      chain := p;
    }

    method RemoveBall(ghost chainDown: bool)
      requires Lying(floor, ball, chain, true, chainDown)
      modifies `floor
      ensures Lying(floor, ball, chain, false, chainDown) && SameRest(old(floor), floor)
    {
      TakeBall(floor, ball, chain, chainDown);
      floor := Take(floor, TheBall, ball);
    }

    method RemoveChain(ghost ballDown: bool)
      requires Lying(floor, ball, chain, ballDown, true)
      modifies `floor
      ensures Lying(floor, ball, chain, ballDown, false) && SameRest(old(floor), floor)
    {
      TakeChain(floor, ball, chain, ballDown);
      floor := Take(floor, TheChain, chain);
    }

    /** `move_bc` before a move: a hero who sees picks them up. */
    method PickUp(control: nat)
      requires Valid() && down && !owed && (carried ==> !HasBall(control))
      modifies `order, `floor, `down, `owed
      ensures Valid() && owed && SameRest(old(floor), floor)
      ensures blind ==> floor == old(floor) && order == old(order)
      ensures !blind && control == 0 ==> order == Stacking(old(floor), ball, chain, carried)
    {
      hide Lying, SameRest, Stacking;
      SameRestRefl(floor);
      if !blind {
        if control == 0 {
          order := BcOrder();
        }
        RemoveChain(!carried);
        if !carried {
          ghost var f := floor;
          RemoveBall(false);
          SameRestTransitive(old(floor), f, floor);
        }
        down := false;
      }
      owed := true;
    }

    /** `move_bc` after a move. */
    method PutDown(control: nat, ballTo: Pos, chainTo: Pos)
      requires Valid() && owed && (carried ==> !HasBall(control))
      requires (!HasBall(control) ==> ballTo == ball) && (!HasChain(control) ==> chainTo == chain)
      modifies `order, `floor, `down, `owed, `ball, `chain
      ensures Valid() && down && !owed && SameRest(old(floor), floor)
      ensures ball == ballTo && chain == chainTo
      ensures ball != chain || carried ==> Stacking(floor, ball, chain, carried) == Differ
      ensures ball == chain && !carried && HasChain(control) ==> Stacking(floor, ball, chain, carried) == ChainOnTop
      ensures ball == chain && !carried && HasBall(control) && !HasChain(control) ==> Stacking(floor, ball, chain, carried) == BallOnTop
      ensures ball == chain && !carried && !blind && control == 0 ==>
                Stacking(floor, ball, chain, carried) == (if old(order) == ChainOnTop then ChainOnTop else BallOnTop)
      ensures blind && control == 0 ==> floor == old(floor)
    {
      hide Lying, SameRest;
      SameRestRefl(floor);
      if blind {
        if HasBall(control) {
          MoveBall(ballTo);
        }
        ghost var f := floor;
        if HasChain(control) {
          MoveChain(chainTo);
        }
        SameRestTransitive(old(floor), f, floor);
        order := BcOrder();
      } else if HasChain(control) || (control == 0 && order == ChainOnTop) {
        if !carried {
          PlaceBall(ballTo, false);
        }
        ghost var f := floor;
        PlaceChain(chainTo, !carried);
        SameRestTransitive(old(floor), f, floor);
      } else {
        PlaceChain(chainTo, false);
        ghost var f := floor;
        SameRestRefl(floor);
        if !carried {
          PlaceBall(ballTo, true);
        }
        SameRestTransitive(old(floor), f, floor);
      }
      down := true;
      owed := false;
    }

    /** `movobj` on the ball. */
    method MoveBall(p: Pos)
      requires Lying(floor, ball, chain, true, true)
      modifies `floor, `ball
      ensures ball == p && Lying(floor, ball, chain, true, true) && SameRest(old(floor), floor) && Top(Pile(floor, p)) == BallOnTop
    {
      RemoveBall(true);
      ghost var f := floor;
      PlaceBall(p, true);
      SameRestTransitive(old(floor), f, floor);
    }

    /** `movobj` on the chain. */
    method MoveChain(p: Pos)
      requires Lying(floor, ball, chain, !carried, true)
      modifies `floor, `chain
      ensures chain == p && Lying(floor, ball, chain, !carried, true) && SameRest(old(floor), floor) && Top(Pile(floor, p)) == ChainOnTop
    {
      RemoveChain(!carried);
      ghost var f := floor;
      PlaceChain(p, !carried);
      SameRestTransitive(old(floor), f, floor);
    }

    // -------------------------------------------------------------- drag_ball

    /** `drag_ball`: exactly one put-down is owed when it grants the move, none when it refuses. */
    method DragBall(target: Pos, allowDrag: bool, e: Chance) returns (granted: bool, control: nat, ballTo: Pos, chainTo: Pos, delay: bool)
      requires Valid() && down && !owed
      modifies `hero, `ball, `chain, `order, `floor, `down, `owed
      ensures Valid() && SameRest(old(floor), floor)
      ensures var s, p := old(View()), PlanOf(old(View()), target, allowDrag, e);
              && granted == Allows(p) && owed == granted && delay == (p == Drag || p == Teleport)
              && (granted ==> View() == s && After(s, target, p, e) == s.(hero := target, ball := ballTo, chain := chainTo))
              && (!granted ==> down && View() == After(s, target, p, e))
      ensures granted ==>
                && (carried ==> !HasBall(control))
                && (!HasBall(control) ==> ballTo == ball) && (!HasChain(control) ==> chainTo == chain)
    {
      hide Lying, SameRest, ChainChoice;
      ghost var f0, s := floor, View();
      ballTo, chainTo, control, delay := ball, chain, 0, false;
      if Dist2(target, chain) <= 2 {
        PickUp(control);
        return true, control, ballTo, chainTo, delay;
      }
      if carried || Distmin(target, ball) <= 2 {
        var oldChain := chain;
        control := BC_CHAIN;
        var scene := View();
        PickUp(control);
        if carried {
          if Distmin(target, chain) > 1 {
            chainTo := hero;
          }
          return true, control, ballTo, chainTo, delay;
        }
        var choice := ChainChoice(scene, target, allowDrag, e.coin);
        if choice.MoveTo? {
          chainTo := choice.chain;
          return true, control, ballTo, chainTo, delay;
        }
        chainTo := oldChain;
        ghost var f := floor;
        PutDown(control, ballTo, chainTo);
        SameRestTransitive(f0, f, floor);
      } else {
        SameRestRefl(f0);
      }
      ghost var f1 := floor;
      if e.overloaded && Dist2(target, hero) <= 2 {
        return false, control, ballTo, chainTo, delay;
      }
      if e.hazard && !e.levitating {
        if !e.monster {
          hero := chain;
        }
        control := BC_BALL;
        PickUp(control);
        ghost var f2 := floor;
        ballTo := chain;
        PutDown(control, ballTo, chainTo);
        SameRestTransitive(f0, f1, f2);
        SameRestTransitive(f0, f2, floor);
        return false, control, ballTo, chainTo, delay;
      }
      control := BC_BALL + BC_CHAIN;
      PickUp(control);
      SameRestTransitive(f0, f1, floor);
      if Dist2(target, hero) > 2 {
        ballTo, chainTo := target, target;
      } else {
        ballTo := chain;
        chainTo := hero;
      }
      delay := true;
      granted := true;
    }

    /** A step of the hero: `barred` tells that `in_out_region` refuses, `stays` that the hero did not move after all because
        a pet could not be displaced. Where the region refuses what `drag_ball` has granted, the put-down stays owed. */
    method Step(target: Pos, e: Chance, barred: bool, stays: bool) returns (moved: bool)
      requires Valid() && down && !owed
      modifies `hero, `ball, `chain, `order, `floor, `down, `owed
      ensures Valid() && SameRest(old(floor), floor)
      ensures View() == Next(old(View()), Walk(target, e, barred, stays))
      ensures var granted := Allows(PlanOf(old(View()), target, true, e));
              && (owed <==> granted && barred) && (moved <==> granted && !barred && !stays)
              && (!owed ==> down)
      ensures Leashed(old(View())) && Distmin(old(hero), target) <= 1 ==> Leashed(View())
    {
      hide Lying, SameRest, PlanOf, Leashed, Distmin;
      ghost var s := View();
      if Leashed(s) && Distmin(s.hero, target) <= 1 {
        WalkedLeash(s, target, e, barred, stays);
      }
      var granted, control, ballTo, chainTo, delay := DragBall(target, true, e);
      moved := granted && !barred && !stays;
      if !granted {
        return;
      }
      if barred {
        return;
      }
      ghost var f := floor;
      if !stays {
        hero := target;
      }
      PutDown(control, ballTo, chainTo);
      SameRestTransitive(old(floor), f, floor);
    }

    /** `unplacebc`. */
    method UnplaceBc()
      requires Valid() && down && !owed
      modifies `floor, `down
      ensures Valid() && !down && SameRest(old(floor), floor)
    {
      hide Lying, SameRest;
      SameRestRefl(floor);
      if !carried {
        RemoveBall(true);
      }
      ghost var f := floor;
      RemoveChain(false);
      SameRestTransitive(old(floor), f, floor);
      down := false;
    }

    /** `placebc`: under the hero, the chain on top. */
    method PlaceBc()
      requires Valid() && !down && !owed
      modifies `floor, `down, `ball, `chain, `order
      ensures Valid() && down && SameRest(old(floor), floor) && View() == Next(old(View()), PlaceUnderHero)
      ensures order == Stacking(floor, ball, chain, carried)
      ensures Leashed(View())
    {
      hide Lying, SameRest;
      SameRestRefl(floor);
      if carried {
        order := Differ;
      } else {
        PlaceBall(hero, false);
        order := ChainOnTop;
      }
      ghost var f := floor;
      PlaceChain(hero, !carried);
      SameRestTransitive(old(floor), f, floor);
      down := true;
    }

    /** `teleds`, as far as ball and chain go. */
    method TeledsTo(target: Pos, allowDrag: bool, e: Chance)
      requires Valid() && down && !owed
      modifies `hero, `ball, `chain, `order, `floor, `down, `owed
      ensures Valid() && down && !owed && SameRest(old(floor), floor)
      ensures View() == Next(old(View()), Jump(target, allowDrag, e))
    {
      hide Lying, SameRest, PlanOf;
      ghost var f0 := floor;
      var drags := (!carried && Distmin(target, ball) <= 2) || (allowDrag && Distmin(hero, target) <= 1);
      if !drags {
        UnplaceBc();
        ghost var f1 := floor;
        hero := target;
        PlaceBc();
        SameRestTransitive(f0, f1, floor);
      } else {
        var granted, control, ballTo, chainTo, delay := DragBall(target, allowDrag, e);
        ghost var f1 := floor;
        if granted {
          PutDown(control, ballTo, chainTo);
          SameRestTransitive(f0, f1, floor);
        }
        hero := target;
      }
    }

    /** `drop_ball` for a ball that already lies at `at`. */
    method DropBall(at: Pos, dx: int, dy: int, falls: bool)
      requires Valid() && down && !owed && !carried && ball == at
      modifies `hero, `chain, `order, `floor
      ensures Valid() && SameRest(old(floor), floor)
      ensures View() == Dropped(old(View()), at, dx, dy, falls)
    {
      hide Lying, SameRest;
      SameRestRefl(floor);
      if blind {
        order := BcOrder();
      }
      if at != hero {
        if falls {
          hero := at;
        } else {
          hero := Pos(at.x - dx, at.y - dy);
        }
        MoveChain(hero);
        if blind {
          order := BcOrder();
        }
      }
    }
  }

  /** A seeing hero whom a region bars from a granted step: ball and chain are in no pile any more. */
  method BarredLosesBoth(rock: Terrain, hero: Pos, floor: Floor, e: Chance) returns (u: Punished)
    requires forall p: Pos :: Holds(Pile(floor, p), 0, 0)
    ensures fresh(u) && u.Valid() && u.owed && !u.down && !u.carried
    ensures forall p: Pos :: TheBall !in Pile(u.floor, p) && TheChain !in Pile(u.floor, p)
  {
    hide SameRest, Distmin, Dist2;
    u := new Punished(rock, hero, floor, false);
    u.PlaceBc();
    ghost var s := u.View();
    Beside(hero);
    assert PlanOf(s, Pos(hero.x + 1, hero.y), true, e) == Stay;
    var moved := u.Step(Pos(hero.x + 1, hero.y), e, true, false);
    forall p: Pos ensures TheBall !in Pile(u.floor, p) && TheChain !in Pile(u.floor, p) {
      NowhereDown(u.floor, u.ball, u.chain, p);
    }
  }

  lemma Beside(p: Pos)
    ensures Dist2(Pos(p.x + 1, p.y), p) == 1
  {}

  lemma NowhereDown(floor: Floor, ball: Pos, chain: Pos, p: Pos)
    requires Lying(floor, ball, chain, false, false)
    ensures TheBall !in Pile(floor, p) && TheChain !in Pile(floor, p)
  {
    assert Holds(Pile(floor, p), 0, 0);
  }

  lemma SameRestRefl(f: Floor)
    ensures SameRest(f, f)
  {}

  /** Picking up and putting down without a move leaves the two stacked as they were. */
  method Unmoved(u: Punished)
    requires u.Valid() && u.down && !u.owed
    modifies u
    ensures u.Valid() && u.View() == old(u.View()) && SameRest(old(u.floor), u.floor)
    ensures Stacking(u.floor, u.ball, u.chain, u.carried) == old(Stacking(u.floor, u.ball, u.chain, u.carried))
  {
    hide SameRest;
    StackedWhenTogether(u.floor, u.ball, u.chain, u.carried);
    u.PickUp(0);
    ghost var f := u.floor;
    u.PutDown(0, u.ball, u.chain);
    SameRestTransitive(old(u.floor), f, u.floor);
  }

  lemma StackedWhenTogether(floor: Floor, ball: Pos, chain: Pos, carried: bool)
    requires Lying(floor, ball, chain, !carried, true)
    ensures Stacking(floor, ball, chain, carried) == Differ <==> ball != chain || carried
  {
    if ball == chain && !carried {
      assert Holds(Pile(floor, ball), 1, 1);
      TopOfHeld(Pile(floor, ball));
    }
  }

  lemma {:induction false} TopOfHeld(pile: seq<Thing>)
    requires multiset(pile)[TheChain] == 1
    ensures Top(pile) != Differ
  {
    assert pile == [pile[0]] + pile[1..];
    if pile[0].Other? {
      TopOfHeld(pile[1..]);
    }
  }
}
