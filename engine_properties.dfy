/** Properties of the engine's specification functions: directions, the
    initial placement, the move rules, cell classification and the cache. */
module EngineProperties {
  import opened Host
  import opened Engine

  // ---- Directions ----

  lemma OppositeIsInvolution(d: Direction)
    ensures Opposite(Opposite(d)) == d
    ensures Opposite(d) != d
    ensures (d == Up <==> Opposite(d) == Down) && (d == Right <==> Opposite(d) == Left)
  {
  }

  /** Asking for the reverse of the current direction, any number of times,
      never changes the direction. */
  lemma {:induction false} ReversalsAreIgnored(d: Direction, requests: seq<Direction>)
    requires forall i :: 0 <= i < |requests| ==> requests[i] == Opposite(d)
    ensures TurnAll(d, requests) == d
    decreases |requests|
  {
    if requests != [] {
      assert Turn(d, requests[0]) == d;
      ReversalsAreIgnored(d, requests[1..]);
    }
  }

  /** No single request reverses the head: the direction after a run of
      requests is never the reverse of the direction just before the last
      one. */
  lemma {:induction false} LastTurnNeverReverses(d: Direction, requests: seq<Direction>)
    requires requests != []
    ensures TurnAll(d, requests) != Opposite(TurnAll(d, requests[..|requests| - 1]))
    decreases |requests|
  {
    if |requests| > 1 {
      assert requests[1..][..|requests| - 2] == requests[..|requests| - 1][1..];
      LastTurnNeverReverses(Turn(d, requests[0]), requests[1..]);
    } else {
      assert requests[..0] == [];
    }
  }

  /** The new head is the cell next to the old one along the direction:
      stepping back the opposite way returns to it, and the step changes
      the line for a vertical direction and the column otherwise. */
  lemma NextHeadIsAdjacent(p: Pos, d: Direction)
    ensures NextHead(NextHead(p, d), Opposite(d)) == p
    ensures NextHead(p, d) != p
    ensures IsVertical(d) ==> NextHead(p, d).column == p.column
    ensures !IsVertical(d) ==> NextHead(p, d).line == p.line
  {
  }

  // ---- Initial placement ----

  /** The initial body has three cells on the tail's line, at consecutive
      columns, with the head (rightmost) first and the tail last. */
  lemma InitialBodyShape(tail: Pos)
    ensures var body := InitialBody(tail);
      && |body| == INITIAL_SNAKE_LENGTH
      && body[0] == Pos(tail.line, tail.column + 2)
      && body[1] == Pos(tail.line, tail.column + 1)
      && body[2] == tail
      && NoDuplicates(body)
  {
    PlacementShape(tail, INITIAL_SNAKE_LENGTH);
  }

  /** The run from `col` is the longest stretch of whitespace cells
      starting there and ending before `end`: every cell in it is
      whitespace, and it stops at the edge or at a cell that is not. */
  lemma {:induction false} RunIsMaximalWhitespace(cache: map<Pos, char>, doc: Pos -> char, line: int, col: int, end: int)
    ensures var r := Run(cache, doc, line, col, end);
      && (col + r <= end || r == 0)
      && (forall k :: col <= k < col + r ==> IsWhitespace(CharOf(cache, doc, Pos(line, k))))
      && (col + r < end ==> !IsWhitespace(CharOf(cache, doc, Pos(line, col + r))))
    decreases end - col
  {
    if col < end && IsWhitespace(CharOf(cache, doc, Pos(line, col))) {
      RunIsMaximalWhitespace(cache, doc, line, col + 1, end);
    }
  }

  /** The scan from (line, col) finds the first fitting position at or after
      (line, col) in row-major order, or reports that there is none. */
  lemma {:induction false} ScanFromFindsFirst(cache: map<Pos, char>, doc: Pos -> char, ed: Editor, line: int, col: int)
    requires ed.lines.start <= line && ed.columns.start <= col
    ensures match ScanFrom(cache, doc, ed, line, col)
      case Some(p) =>
        && ed.InView(p) && Fits(cache, doc, ed, p) && !Before(p, line, col)
        && forall q :: ed.InView(q) && !Before(q, line, col) && Before(q, p.line, p.column) ==> !Fits(cache, doc, ed, q)
      case None =>
        forall q :: ed.InView(q) && !Before(q, line, col) ==> !Fits(cache, doc, ed, q)
    decreases ed.lines.end - line, ed.columns.end - col
  {
    if line >= ed.lines.end {
    } else if col >= ed.columns.end {
      ScanFromFindsFirst(cache, doc, ed, line + 1, ed.columns.start);
    } else if Fits(cache, doc, ed, Pos(line, col)) {
    } else {
      ScanFromFindsFirst(cache, doc, ed, line, col + 1);
      assert forall q :: ed.InView(q) && !Before(q, line, col) && Before(q, line, col + 1) ==> q == Pos(line, col);
    }
  }

  /** The tail position is the first fitting position of the view in
      row-major order; when no position fits it is the top-left one. */
  lemma BestSnakePositionIsFirstFit(cache: map<Pos, char>, doc: Pos -> char, ed: Editor)
    ensures var r := BestSnakePosition(cache, doc, ed);
      (exists q :: ed.InView(q) && Fits(cache, doc, ed, q)) ==>
        && ed.InView(r) && Fits(cache, doc, ed, r)
        && forall q :: ed.InView(q) && Before(q, r.line, r.column) ==> !Fits(cache, doc, ed, q)
    ensures (forall q :: ed.InView(q) ==> !Fits(cache, doc, ed, q)) ==>
      BestSnakePosition(cache, doc, ed) == ed.TopLeft()
  {
    ScanFromFindsFirst(cache, doc, ed, ed.lines.start, ed.columns.start);
  }

  // ---- Moves ----

  /** Each outcome of a move, by the rule that decides it: the bounds check
      first, then self-collision against the whole body (tail included),
      then the type of the new head's cell. */
  lemma AttemptCases(s: Snapshot, ed: Editor)
    requires |s.snake| > 0
    ensures var h := NextHead(s.snake[0], s.heading);
      && (Attempt(s, ed) == OutOfView <==> !ed.InView(h))
      && (Attempt(s, ed) == SelfCollision <==> ed.InView(h) && h in s.snake)
      && (Attempt(s, ed) == HitWall <==> ed.InView(h) && CellAt(s, ed.charAt, h) == Wall)
      && (Attempt(s, ed) == Ate <==> ed.InView(h) && CellAt(s, ed.charAt, h) == Food)
      && (Attempt(s, ed) == Stepped <==> ed.InView(h) && CellAt(s, ed.charAt, h) == Empty)
  {
  }

  /** The head may not move into the cell the tail occupies. */
  lemma MoveIntoTailFails(s: Snapshot, ed: Editor)
    requires |s.snake| > 0
    requires NextHead(s.snake[0], s.heading) == s.snake[|s.snake| - 1]
    ensures !Attempt(s, ed).Succeeded()
    ensures MoveStep(s, ed) == s
  {
  }

  /** A failed move leaves the body, the eaten cells and the direction as
      they were. */
  lemma FailedMoveKeepsBody(s: Snapshot, ed: Editor)
    requires |s.snake| > 0
    requires !Attempt(s, ed).Succeeded()
    ensures var r := MoveStep(s, ed);
      r.snake == s.snake && r.eaten == s.eaten && r.heading == s.heading
  {
  }

  /** A move onto an empty cell drops the tail and pushes the new head: the
      length is unchanged. */
  lemma EmptyMoveKeepsLength(s: Snapshot, ed: Editor)
    requires |s.snake| > 0
    requires Attempt(s, ed) == Stepped
    ensures var r := MoveStep(s, ed);
      && |r.snake| == |s.snake|
      && r.snake[0] == NextHead(s.snake[0], s.heading)
      && r.snake[1..] == s.snake[..|s.snake| - 1]
      && r.eaten == s.eaten
  {
  }

  /** A move onto a food cell keeps the whole body and pushes the new head,
      which is marked eaten. */
  lemma FoodMoveGrows(s: Snapshot, ed: Editor)
    requires |s.snake| > 0
    requires Attempt(s, ed) == Ate
    ensures var r := MoveStep(s, ed);
      && |r.snake| == |s.snake| + 1
      && r.snake == [NextHead(s.snake[0], s.heading)] + s.snake
      && r.eaten == s.eaten + {NextHead(s.snake[0], s.heading)}
  {
  }

  /** The length grows by exactly one on food and is otherwise unchanged. */
  lemma LengthGrowsOnlyOnFood(s: Snapshot, ed: Editor)
    requires |s.snake| > 0
    ensures |MoveStep(s, ed).snake| == |s.snake| + (if Attempt(s, ed) == Ate then 1 else 0)
  {
  }

  /** A move never turns the head, never forgets an eaten cell and only adds
      editor characters to the cache. */
  lemma MoveKeepsHistory(s: Snapshot, ed: Editor)
    requires |s.snake| > 0
    ensures var r := MoveStep(s, ed);
      && r.heading == s.heading
      && s.eaten <= r.eaten
      && Extends(s.cache, r.cache, ed.charAt)
  {
  }

  /** A cell that has been eaten is EMPTY whenever the body does not cover
      it, whatever character the editor shows there. */
  lemma EatenCellIsEmpty(t: Snapshot, doc: Pos -> char, p: Pos)
    requires p in t.eaten && p !in t.snake
    ensures CellAt(t, doc, p) == Empty
  {
  }

  /** Once a move eats food, that cell stays EMPTY in every later state
      that keeps the eaten cells and does not cover it. */
  lemma EatenFoodStaysEmpty(s: Snapshot, ed: Editor, later: Snapshot, doc: Pos -> char)
    requires |s.snake| > 0
    requires Attempt(s, ed) == Ate
    requires MoveStep(s, ed).eaten <= later.eaten
    requires NextHead(s.snake[0], s.heading) !in later.snake
    ensures CellAt(later, doc, NextHead(s.snake[0], s.heading)) == Empty
  {
  }

  /** The body [(0,2), (0,1), (0,0)] facing right moves onto the empty
      cell (0,3): the tail cell (0,0) is dropped. */
  lemma StepRightExample(ed: Editor)
    requires ed.lines.Contains(0) && ed.columns.Contains(3)
    requires ed.charAt(Pos(0, 3)) == ' '
    ensures var s := Snapshot([Pos(0, 2), Pos(0, 1), Pos(0, 0)], {}, map[], Right);
      && Attempt(s, ed) == Stepped
      && MoveStep(s, ed).snake == [Pos(0, 3), Pos(0, 2), Pos(0, 1)]
  {
  }

  // ---- Cell types and the cache ----

  /** Rendering a cell classifies it by precedence: SNAKE if the body covers
      it, else EMPTY for whitespace or an eaten cell, else FOOD for one of
      the food characters, else WALL. */
  lemma CellPrecedence(s: Snapshot, doc: Pos -> char, p: Pos)
    ensures var c := CharOf(s.cache, doc, p);
      && (CellAt(s, doc, p) == Snake <==> p in s.snake)
      && (CellAt(s, doc, p) == Empty <==> p !in s.snake && (IsWhitespace(c) || p in s.eaten))
      && (CellAt(s, doc, p) == Food <==> p !in s.snake && !IsWhitespace(c) && p !in s.eaten && c in ANTI_PYTHON_CHARS)
      && (CellAt(s, doc, p) == Wall <==> p !in s.snake && !IsWhitespace(c) && p !in s.eaten && c !in ANTI_PYTHON_CHARS)
  {
  }

  /** A cached character is what the model sees from then on, whatever the
      editor later shows. */
  lemma CachedCharIsKept(cache: map<Pos, char>, next: map<Pos, char>, doc: Pos -> char, later: Pos -> char, p: Pos)
    requires p in cache && Extends(cache, next, doc)
    ensures CharOf(next, later, p) == cache[p]
  {
  }
}
