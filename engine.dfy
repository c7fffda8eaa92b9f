/** The snake game engine: the snake's body, the eaten food cells, the
    character cache and the move rules, over an abstract editor. */
module Engine {
  import opened Host

  const INITIAL_SNAKE_LENGTH: nat := 3

  /** Characters the snake eats. */
  const ANTI_PYTHON_CHARS: set<char> := {'{', '}', ';'}

  datatype Option<T> = None | Some(value: T)

  datatype Direction = Up | Right | Down | Left

  predicate IsVertical(d: Direction) {
    d == Up || d == Down
  }

  /** The reverse direction, on the same axis. */
  function Opposite(d: Direction): (r: Direction)
    ensures r != d
    ensures IsVertical(r) == IsVertical(d)
  {
    match d
    case Up => Down
    case Right => Left
    case Down => Up
    case Left => Right
  }

  /** The direction the head-direction setter keeps when `requested` is
      assigned while the head points to `current`: a reversal is refused,
      anything else is taken. */
  function Turn(current: Direction, requested: Direction): (r: Direction)
    ensures r == current || r == requested
    ensures r != Opposite(current)
    ensures requested != Opposite(current) ==> r == requested
  {
    if requested != Opposite(current) then requested else current
  }

  /** The head direction after the setter is called with each of
      `requests` in turn. */
  function TurnAll(d: Direction, requests: seq<Direction>): Direction
    decreases |requests|
  {
    if requests == [] then d else TurnAll(Turn(d, requests[0]), requests[1..])
  }

  /** The position one cell away from `p` along `d`. */
  function NextHead(p: Pos, d: Direction): Pos {
    match d
    case Down => Pos(p.line + 1, p.column)
    case Right => Pos(p.line, p.column + 1)
    case Up => Pos(p.line - 1, p.column)
    case Left => Pos(p.line, p.column - 1)
  }

  datatype CellType = Food | Wall | Empty | Snake

  predicate NoDuplicates(body: seq<Pos>) {
    forall i, j :: 0 <= i < j < |body| ==> body[i] != body[j]
  }

  /** The character the model sees at `p`: the cached one if there is one,
      otherwise the one the editor shows now. */
  function CharOf(cache: map<Pos, char>, doc: Pos -> char, p: Pos): char {
    if p in cache then cache[p] else doc(p)
  }

  /** `next` is `cache` plus entries read from `doc`: nothing cached before
      is lost or changed. */
  ghost predicate Extends(cache: map<Pos, char>, next: map<Pos, char>, doc: Pos -> char) {
    && cache.Keys <= next.Keys
    && forall p :: p in next ==> next[p] == CharOf(cache, doc, p)
  }

  /** The type of a cell the snake does not cover, holding character `c`. */
  function CharCellType(eaten: set<Pos>, p: Pos, c: char): (t: CellType)
    ensures t != Snake
    ensures t == Empty <==> IsWhitespace(c) || p in eaten
    ensures t == Food <==> !IsWhitespace(c) && p !in eaten && c in ANTI_PYTHON_CHARS
  {
    if IsWhitespace(c) || p in eaten then Empty
    else if c in ANTI_PYTHON_CHARS then Food
    else Wall
  }

  /** The engine's state as a value: the body with the head first, the eaten
      cells, the character cache and the head direction. */
  datatype Snapshot = Snapshot(
    snake: seq<Pos>,
    eaten: set<Pos>,
    cache: map<Pos, char>,
    heading: Direction)

  /** Cell type at `p`: SNAKE over EMPTY over FOOD over WALL. */
  function CellAt(s: Snapshot, doc: Pos -> char, p: Pos): CellType {
    if p in s.snake then Snake else CharCellType(s.eaten, p, CharOf(s.cache, doc, p))
  }

  /** How a move attempt ends. */
  datatype Outcome = OutOfView | SelfCollision | HitWall | Ate | Stepped {
    predicate Succeeded() {
      this == Ate || this == Stepped
    }
  }

  /** The outcome of moving the head of `s` one cell along its direction. */
  function Attempt(s: Snapshot, ed: Editor): Outcome
    requires |s.snake| > 0
  {
    var h := NextHead(s.snake[0], s.heading);
    if !ed.InView(h) then OutOfView
    else if h in s.snake then SelfCollision
    else
      var t := CharCellType(s.eaten, h, CharOf(s.cache, ed.charAt, h));
      if t == Empty then Stepped
      else if t == Food then Ate
      else HitWall
  }

  /** The state after one move attempt. Classifying the new head reads (and
      caches) its character once the bounds and self-collision checks have
      passed; an empty cell drops the tail, a food cell is marked eaten, and
      on success the new head is pushed at the front. */
  function MoveStep(s: Snapshot, ed: Editor): Snapshot
    requires |s.snake| > 0
  {
    var h := NextHead(s.snake[0], s.heading);
    var cached := s.cache[h := CharOf(s.cache, ed.charAt, h)];
    match Attempt(s, ed)
    case OutOfView => s
    case SelfCollision => s
    case HitWall => s.(cache := cached)
    case Ate => s.(snake := [h] + s.snake, eaten := s.eaten + {h}, cache := cached)
    case Stepped => s.(snake := [h] + s.snake[..|s.snake| - 1], cache := cached)
  }

  /** The number of whitespace cells on `line` from `col` up to (not
      including) column `end`, stopping at the first other character. */
  function Run(cache: map<Pos, char>, doc: Pos -> char, line: int, col: int, end: int): nat
    decreases end - col
  {
    if col >= end || !IsWhitespace(CharOf(cache, doc, Pos(line, col))) then 0
    else 1 + Run(cache, doc, line, col + 1, end)
  }

  /** Whether a snake may be placed with its tail at `p`: the whitespace run
      from `p` to the right edge of the view is at least twice the initial
      length. */
  predicate Fits(cache: map<Pos, char>, doc: Pos -> char, ed: Editor, p: Pos) {
    Run(cache, doc, p.line, p.column, ed.columns.end) >= INITIAL_SNAKE_LENGTH * 2
  }

  /** The cells of `line` from column `from` up to (not including) `to`
      (their membership is proved in `RowCellsMembers`). */
  ghost function RowCells(line: int, from: int, to: int): set<Pos>
    decreases to - from
  {
    if to <= from then {} else RowCells(line, from, to - 1) + {Pos(line, to - 1)}
  }

  lemma {:induction false} RowCellsMembers(line: int, from: int, to: int)
    ensures forall p :: (p in RowCells(line, from, to) <==> p.line == line && from <= p.column < to)
    decreases if to > from then to - from else 0
  {
    if from < to {
      RowCellsMembers(line, from, to - 1);
    }
  }

  /** `p` comes before (line, col) in row-major order. */
  predicate Before(p: Pos, line: int, col: int) {
    p.line < line || (p.line == line && p.column < col)
  }

  /** The row-major scan of the view from (line, col) for a fitting position. */
  function ScanFrom(cache: map<Pos, char>, doc: Pos -> char, ed: Editor, line: int, col: int): Option<Pos>
    decreases ed.lines.end - line, ed.columns.end - col
  {
    if line >= ed.lines.end then None
    else if col >= ed.columns.end then ScanFrom(cache, doc, ed, line + 1, ed.columns.start)
    else if Fits(cache, doc, ed, Pos(line, col)) then Some(Pos(line, col))
    else ScanFrom(cache, doc, ed, line, col + 1)
  }

  /** Where the snake's tail is placed: the first fitting position of the
      view, or its top-left position when none fits. */
  function BestSnakePosition(cache: map<Pos, char>, doc: Pos -> char, ed: Editor): Pos {
    match ScanFrom(cache, doc, ed, ed.lines.start, ed.columns.start)
    case Some(p) => p
    case None => ed.TopLeft()
  }

  /** `n` cells on the tail's line, at columns tail.column + n - 1 down to
      tail.column: the head first and the tail last. */
  function Placement(tail: Pos, n: nat): seq<Pos> {
    if n == 0 then [] else [Pos(tail.line, tail.column + n - 1)] + Placement(tail, n - 1)
  }

  function InitialBody(tail: Pos): seq<Pos> {
    Placement(tail, INITIAL_SNAKE_LENGTH)
  }

  lemma {:induction false} PlacementShape(tail: Pos, n: nat)
    ensures |Placement(tail, n)| == n
    ensures forall k :: 0 <= k < n ==> Placement(tail, n)[k] == Pos(tail.line, tail.column + n - 1 - k)
  {
    if n > 0 {
      PlacementShape(tail, n - 1);
    }
  }

  /** The game's model: a snake on the editor's visible area. */
  class GameModel {
    var headDirection: Direction
    /** The body, head first (the front of the deque) and tail last. */
    var snakeCells: seq<Pos>
    var eatenCells: set<Pos>
    var charCache: map<Pos, char>

    ghost predicate Valid()
      reads this
    {
      |snakeCells| >= INITIAL_SNAKE_LENGTH && NoDuplicates(snakeCells)
    }

    function State(): Snapshot
      reads this
    {
      Snapshot(snakeCells, eatenCells, charCache, headDirection)
    }

    function SnakeLength(): (n: nat)
      reads this
      ensures Valid() ==> n >= INITIAL_SNAKE_LENGTH
    {
      |snakeCells|
    }

    /** The state of a model just built on `ed`. */
    ghost predicate StartedOn(ed: Editor)
      reads this
    {
      && Valid()
      && headDirection == Right
      && snakeCells == InitialBody(BestSnakePosition(map[], ed.charAt, ed))
      && eatenCells == {}
      && Extends(map[], charCache, ed.charAt)
    }

    /** Places a snake of the initial length, facing right, with its tail at
        the best snake position. */
    constructor (ed: Editor)
      ensures StartedOn(ed)
    {
      headDirection := Right;
      eatenCells := {};
      snakeCells := [];
      charCache := map[];
      new;
      var tailCell := FindBestSnakePosition(ed);
      for i := 0 to INITIAL_SNAKE_LENGTH
        invariant snakeCells == Placement(tailCell, i)
        invariant headDirection == Right && eatenCells == {}
        invariant Extends(map[], charCache, ed.charAt)
      {
        snakeCells := [Pos(tailCell.line, tailCell.column + i)] + snakeCells;
      }
      PlacementShape(tailCell, INITIAL_SNAKE_LENGTH);
    }

    /** The head-direction setter. */
    method SetHeadDirection(direction: Direction)
      modifies this`headDirection
      ensures headDirection == Turn(old(headDirection), direction)
    {
      if direction != Opposite(headDirection) {
        headDirection := direction;
      }
    }

    /** The character at `pos`, read from the editor only the first time. */
    method GetCharAt(ed: Editor, pos: Pos) returns (c: char)
      modifies this`charCache
      ensures c == CharOf(old(charCache), ed.charAt, pos)
      ensures pos in old(charCache) ==> c == old(charCache)[pos]
      ensures charCache == old(charCache)[pos := c]
    {
      if pos in charCache {
        return charCache[pos];
      }
      c := ed.charAt(pos);
      charCache := charCache[pos := c];
    }

    /** The length of the whitespace run on `line` from `startColumn` to the
        right edge of the view. The cells read, and so cached, are those of
        the run and the visible cell just after it. */
    method CountEmptyColumnsAfter(ed: Editor, line: int, startColumn: int) returns (count: nat)
      modifies this`charCache
      ensures count == Run(old(charCache), ed.charAt, line, startColumn, ed.columns.end)
      ensures Extends(old(charCache), charCache, ed.charAt)
      ensures charCache.Keys == old(charCache).Keys +
        RowCells(line, startColumn, if startColumn + count < ed.columns.end then startColumn + count + 1 else ed.columns.end)
    {
      ghost var cache0 := charCache;
      count := 0;
      var col := startColumn;
      while col < ed.columns.end
        invariant col == startColumn + count
        invariant col <= ed.columns.end || col == startColumn
        invariant Extends(cache0, charCache, ed.charAt)
        invariant count + Run(cache0, ed.charAt, line, col, ed.columns.end)
               == Run(cache0, ed.charAt, line, startColumn, ed.columns.end)
        invariant charCache.Keys == cache0.Keys + RowCells(line, startColumn, col)
        decreases ed.columns.end - col
      {
        var c := GetCharAt(ed, Pos(line, col));
        if IsWhitespace(c) {
          count := count + 1;
        } else {
          break;
        }
        col := col + 1;
      }
    }

    /** The tail position for a new snake: the row-major scan of the view. */
    method FindBestSnakePosition(ed: Editor) returns (tail: Pos)
      modifies this`charCache
      ensures tail == BestSnakePosition(old(charCache), ed.charAt, ed)
      ensures Extends(old(charCache), charCache, ed.charAt)
    {
      ghost var cache0 := charCache;
      ghost var whole := ScanFrom(cache0, ed.charAt, ed, ed.lines.start, ed.columns.start);
      var line := ed.lines.start;
      while line < ed.lines.end
        invariant Extends(cache0, charCache, ed.charAt)
        invariant ScanFrom(cache0, ed.charAt, ed, line, ed.columns.start) == whole
        decreases ed.lines.end - line
      {
        var found, col := ScanLine(ed, line, cache0, whole);
        if found {
          return Pos(line, col);
        }
        line := line + 1;
      }
      assert whole == None;
      return ed.TopLeft();
    }

    /** The inner loop of the scan: the columns of one line, left to right,
        up to the first whose run is at least 6. */
    method ScanLine(ed: Editor, line: int, ghost cache0: map<Pos, char>, ghost whole: Option<Pos>)
      returns (found: bool, col: int)
      requires line < ed.lines.end
      requires Extends(cache0, charCache, ed.charAt)
      requires ScanFrom(cache0, ed.charAt, ed, line, ed.columns.start) == whole
      modifies this`charCache
      ensures Extends(cache0, charCache, ed.charAt)
      ensures found ==> whole == Some(Pos(line, col))
      ensures !found ==> ScanFrom(cache0, ed.charAt, ed, line + 1, ed.columns.start) == whole
    {
      col := ed.columns.start;
      while col < ed.columns.end
        invariant Extends(cache0, charCache, ed.charAt)
        invariant ScanFrom(cache0, ed.charAt, ed, line, col) == whole
        decreases ed.columns.end - col
      {
        ghost var before := charCache;
        var count := CountEmptyColumnsAfter(ed, line, col);
        ScanStep(cache0, before, charCache, ed, line, col, count, whole);
        if count >= INITIAL_SNAKE_LENGTH * 2 {
          return true, col;
        }
        col := col + 1;
      }
      return false, col;
    }

    /** The type of the cell at `pos`; only the cache may change. */
    method GetCellType(ed: Editor, pos: Pos) returns (t: CellType)
      modifies this`charCache
      ensures t == CellAt(old(State()), ed.charAt, pos)
      ensures charCache == if pos in snakeCells then old(charCache)
                           else old(charCache)[pos := CharOf(old(charCache), ed.charAt, pos)]
    {
      if pos in snakeCells {
        return Snake;
      }
      var c := GetCharAt(ed, pos);
      t := CharCellType(eatenCells, pos, c);
    }

    /** Moves the snake one cell along its head direction; false when the
        move is impossible and the game is over. */
    method Move(ed: Editor) returns (ok: bool)
      requires Valid()
      modifies this`snakeCells, this`eatenCells, this`charCache
      ensures Valid()
      ensures ok == Attempt(old(State()), ed).Succeeded()
      ensures State() == MoveStep(old(State()), ed)
    {
      ghost var s := State();
      var head := snakeCells[0];
      var newLine, newCol := head.line, head.column;
      match headDirection {
        case Down => newLine := newLine + 1;
        case Right => newCol := newCol + 1;
        case Up => newLine := newLine - 1;
        case Left => newCol := newCol - 1;
      }
      ghost var outcome := Attempt(s, ed);
      assert Pos(newLine, newCol) == NextHead(s.snake[0], s.heading);
      if !ed.columns.Contains(newCol) || !ed.lines.Contains(newLine) {
        assert outcome == OutOfView;
        return false;
      }
      var newHead := Pos(newLine, newCol);
      if newHead in snakeCells {
        assert outcome == SelfCollision;
        return false;
      }
      var cellType := GetCellType(ed, newHead);
      ghost var cached := charCache;
      assert cellType == CharCellType(s.eaten, newHead, CharOf(s.cache, ed.charAt, newHead));
      assert cached == s.cache[newHead := CharOf(s.cache, ed.charAt, newHead)];
      // The tail is removed before the new head is pushed.
      if cellType == Empty {
        snakeCells := snakeCells[..|snakeCells| - 1];
      }
      if cellType == Wall || cellType == Snake {
        assert outcome == HitWall;
        return false;
      }
      if cellType == Food {
        assert outcome == Ate;
        eatenCells := eatenCells + {newHead};
      } else {
        assert outcome == Stepped;
      }
      snakeCells := [newHead] + snakeCells;
      MoveKeepsDistinct(s, ed);
      return true;
    }
  }

  lemma {:induction false} RunStable(cache: map<Pos, char>, next: map<Pos, char>, doc: Pos -> char,
                                     line: int, col: int, end: int)
    requires Extends(cache, next, doc)
    ensures Run(next, doc, line, col, end) == Run(cache, doc, line, col, end)
    decreases end - col
  {
    assert CharOf(next, doc, Pos(line, col)) == CharOf(cache, doc, Pos(line, col));
    if col < end {
      RunStable(cache, next, doc, line, col + 1, end);
    }
  }

  /** One column of the placement scan: probing (line, col) against a cache
      that extends `cache0` decides the scan of `cache0` the same way. */
  lemma ScanStep(cache0: map<Pos, char>, before: map<Pos, char>, after: map<Pos, char>, ed: Editor,
                 line: int, col: int, count: nat, whole: Option<Pos>)
    requires Extends(cache0, before, ed.charAt) && Extends(before, after, ed.charAt)
    requires count == Run(before, ed.charAt, line, col, ed.columns.end)
    requires line < ed.lines.end && col < ed.columns.end
    requires ScanFrom(cache0, ed.charAt, ed, line, col) == whole
    ensures Extends(cache0, after, ed.charAt)
    ensures count >= INITIAL_SNAKE_LENGTH * 2 ==> whole == Some(Pos(line, col))
    ensures count < INITIAL_SNAKE_LENGTH * 2 ==> ScanFrom(cache0, ed.charAt, ed, line, col + 1) == whole
  {
    RunStable(cache0, before, ed.charAt, line, col, ed.columns.end);
    ExtendsTransitive(cache0, before, after, ed.charAt);
  }

  lemma ExtendsTransitive(a: map<Pos, char>, b: map<Pos, char>, c: map<Pos, char>, doc: Pos -> char)
    requires Extends(a, b, doc) && Extends(b, c, doc)
    ensures Extends(a, c, doc)
  {
    forall p | p in c
      ensures c[p] == CharOf(a, doc, p)
    {
      assert c[p] == CharOf(b, doc, p);
    }
  }

  /** Caching one more editor character keeps the cache an extension. */
  lemma ExtendsByOne(a: map<Pos, char>, b: map<Pos, char>, c: map<Pos, char>, doc: Pos -> char, p: Pos)
    requires Extends(a, b, doc)
    requires c == b || c == b[p := CharOf(b, doc, p)]
    ensures Extends(a, c, doc)
  {
    if c != b {
      assert CharOf(b, doc, p) == CharOf(a, doc, p);
    }
  }

  /** A successful move keeps the body free of duplicates. */
  lemma MoveKeepsDistinct(s: Snapshot, ed: Editor)
    requires |s.snake| > 0 && NoDuplicates(s.snake)
    ensures NoDuplicates(MoveStep(s, ed).snake)
  {
    var h := NextHead(s.snake[0], s.heading);
    var r := MoveStep(s, ed).snake;
    if Attempt(s, ed).Succeeded() {
      assert h !in s.snake;
      forall i, j | 0 <= i < j < |r|
        ensures r[i] != r[j]
      {
        if i == 0 {
          assert r[j] in s.snake;
        } else {
          assert r[i] == s.snake[i - 1] && r[j] == s.snake[j - 1];
        }
      }
    }
  }
}
