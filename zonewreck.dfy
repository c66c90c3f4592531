/**
 * The Zone Wreck engine: an 8×8 board of piece references, two players
 * with a reserve of points and a list of live pieces, and the player whose
 * turn it is. Pieces are placed on their owner's home row ("zone"), move
 * forward onto empty cells or capture in any direction within their range,
 * and fight round by round when they capture. Moving onto an empty cell of
 * the opposite zone costs the opponent the mover's attack from its reserve.
 */
module ZoneWreck {
  import opened Grids
  import opened CombatRules

  datatype Color = White | Black

  function Other(c: Color): (o: Color)
    ensures o != c
  {
    if c == Black then White else Black
  }

  type Position = Cell

  const BoardSize := 8
  const InitialReserve := 140

  predicate InBoard(p: Position) {
    0 <= p.0 < BoardSize && 0 <= p.1 < BoardSize
  }

  /** A colour's zone: White's is row 7, Black's is row 0, whatever the column. */
  function IsInZone(position: Position, color: Color): (r: bool)
    ensures r <==> (color == White && position.0 == 7) || (color == Black && position.0 == 0)
  {
    var row := position.0;
    if color == White && row == 7 then true
    else if color == Black && row == 0 then true
    else false
  }

  /** No cell belongs to both zones, and the column never matters. */
  lemma ZonesDisjoint(position: Position)
    ensures !(IsInZone(position, White) && IsInZone(position, Black))
    ensures forall col: int, c: Color :: IsInZone((position.0, col), c) == IsInZone(position, c)
  {
  }

  /** Where the placement phase puts a piece of colour `color` in column `col`. */
  function PlacementPosition(color: Color, col: int): (p: Position)
    ensures p.1 == col
    ensures IsInZone(p, color)
  {
    if color == Black then (0, col) else (7, col)
  }

  /** One stat value accepted by the stat prompt: between 0 and what is left of the budget. */
  predicate StatAllowed(power: int, spent: int, value: int) {
    0 <= value <= 4 * power - spent
  }

  /** The budget test of the placement phase: the four stats fit in 4 × power. */
  predicate WithinBudget(power: int, a: int, h: int, s: int, d: int) {
    a + h + s + d <= 4 * power
  }

  /**
   * Stats read one by one through the stat prompt always pass the budget
   * test, so its "exceeds budget" branch is never taken.
   */
  lemma PromptedStatsWithinBudget(power: int, a: int, h: int, s: int, d: int)
    requires StatAllowed(power, 0, a) && StatAllowed(power, a, h)
    requires StatAllowed(power, a + h, s) && StatAllowed(power, a + h + s, d)
    ensures WithinBudget(power, a, h, s, d)
    ensures a >= 0 && h >= 0 && s >= 0 && d >= 0
  {
  }

  /** Direction rule for empty destinations: White moves to lower rows, Black to higher rows. */
  predicate Forward(color: Color, rowDiff: int) {
    match color
    case White => rowDiff < 0
    case Black => rowDiff > 0
  }

  /** The index of the first occurrence of `x` in `s`. */
  function IndexOf<T(==)>(s: seq<T>, x: T): (k: nat)
    requires x in s
    ensures k < |s| && s[k] == x && x !in s[..k]
  {
    if s[0] == x then 0 else IndexOf(s[1..], x) + 1
  }

  /** `list.remove`: drops the first occurrence of `x` and keeps the order of the rest. */
  function RemoveFirst<T(==)>(s: seq<T>, x: T): (r: seq<T>)
    requires x in s
    ensures |r| == |s| - 1
    ensures multiset(r) == multiset(s) - multiset{x}
  {
    var k := IndexOf(s, x);
    assert s == s[..k] + [x] + s[k + 1..];
    s[..k] + s[k + 1..]
  }

  /** What a move attempt did: rejected, carried out, or stopped by `list.remove` raising. */
  datatype MoveResult = Invalid | Done | ListRemoveFailed

  class Piece {
    const P: int
    const A: int
    var H: int
    const S: int
    const D: int
    var position: Option<Position>
    const color: Color

    constructor (P: int, A: int, H: int, S: int, D: int, color: Color)
      ensures this.P == P && this.A == A && this.H == H && this.S == S && this.D == D
      ensures this.color == color && position == None
    {
      this.P, this.A, this.H, this.S, this.D := P, A, H, S, D;
      this.color := color;
      position := None;
    }

    /** The points a placement costs: the sum of the four stats. */
    function Cost(): int
      reads this
    {
      A + H + S + D
    }

    function AsFighter(): (f: Fighter)
      reads this
      ensures f.attack == A && f.health == H && f.speed == S
    {
      Fighter(A, H, S)
    }
  }

  class Player {
    const color: Color
    var reserve: int
    var pieces: seq<Piece>

    constructor (color: Color)
      ensures this.color == color && reserve == InitialReserve && pieces == []
    {
      this.color := color;
      reserve := InitialReserve;
      pieces := [];
    }

    /**
     * Places `piece` at `position` if that cell is in this player's zone.
     * The cell's occupant is not looked at: a piece already there is
     * overwritten on the board (and stays in its owner's list).
     */
    method AddPieceToZone(game: Game, piece: Piece, position: Position) returns (ok: bool)
      requires game.Valid()
      requires InBoard(position)
      modifies this, piece`position, game.board
      ensures ok <==> IsInZone(position, color)
      ensures ok ==> && piece.position == Some(position)
                     && FromArray(game.board) == Put(old(FromArray(game.board)), position, piece)
                     && pieces == old(pieces) + [piece]
                     && reserve == old(reserve) - piece.Cost()
      ensures !ok ==> && piece.position == old(piece.position)
                      && FromArray(game.board) == old(FromArray(game.board))
                      && pieces == old(pieces) && reserve == old(reserve)
    {
      if IsInZone(position, color) {
        ghost var before := FromArray(game.board);
        piece.position := Some(position);
        game.board[position.0, position.1] := piece;
        SameCells(FromArray(game.board), Put(before, position, piece));
        pieces := pieces + [piece];
        reserve := reserve - (piece.A + piece.H + piece.S + piece.D);
        return true;
      }
      return false;
    }

    /**
     * Moves `piece` to `destination` if the move is legal. An empty
     * destination is simply entered (and costs the opponent `piece.A` when
     * it lies in the zone of the colour opposite to the piece's). An enemy
     * destination starts combat: a losing mover leaves its list and its cell
     * is cleared; a winning mover takes the destination but its old cell and
     * `position` are left as they were, so it then stands on two cells.
     */
    method MovePiece(game: Game, piece: Piece, destination: Position) returns (result: MoveResult)
      requires game.Valid() && this == game.currentTurn
      requires piece.position.Some? && InBoard(piece.position.value) && InBoard(destination)
      requires game.IsValidMove(piece, destination) && game.board[destination.0, destination.1] != null ==>
                 CombatEnds(piece.AsFighter(), game.board[destination.0, destination.1].AsFighter())
      modifies this, game.Opponent(), piece, game.board,
        (if game.board[destination.0, destination.1] == null then {}
         else {game.board[destination.0, destination.1]})`H
      ensures game.Valid() && game.Opponent() == old(game.Opponent())
      ensures reserve == old(reserve)
      ensures forall q: Piece :: q == old(game.board[destination.0, destination.1]) ==>
                q.position == old(q.position)
      ensures forall q: Piece :: (q == old(game.board[destination.0, destination.1]) &&
                !old(game.IsValidMove(piece, destination))) ==> q.H == old(q.H)
      ensures !old(game.IsValidMove(piece, destination)) ==>
                && result == Invalid
                && FromArray(game.board) == old(FromArray(game.board))
                && piece.position == old(piece.position) && piece.H == old(piece.H)
                && pieces == old(pieces)
                && game.Opponent().pieces == old(game.Opponent().pieces)
                && game.Opponent().reserve == old(game.Opponent().reserve)
      ensures old(game.IsValidMove(piece, destination)) && old(game.board[destination.0, destination.1]) == null ==>
                EnteredEmpty(game, piece, destination, result)
      ensures old(game.IsValidMove(piece, destination)) && old(game.board[destination.0, destination.1]) != null ==>
                Captured(game, piece, old(game.board[destination.0, destination.1]), destination, result)
    {
      var valid := game.IsValidMove(piece, destination);
      if !valid {
        return Invalid;
      }
      var enemyPiece := game.board[destination.0, destination.1];
      if enemyPiece != null {
        result := Capture(game, piece, enemyPiece, destination);
      } else {
        result := EnterEmpty(game, piece, destination);
      }
    }

    /**
     * The new state after `piece` entered the empty cell `destination`: its
     * old cell is cleared, it stands on the destination, and the opponent
     * pays `piece.A` if the destination is in the zone of the other colour.
     */
    twostate predicate EnteredEmpty(game: Game, piece: Piece, destination: Position, result: MoveResult)
      requires old(game.Valid()) && game.Valid()
      requires old(piece.position).Some? && InBoard(old(piece.position).value) && InBoard(destination)
      reads this, game, game.white, game.black, piece, game.board
    {
      && result == Done
      && FromArray(game.board) ==
         Put(Put(old(FromArray(game.board)), old(piece.position).value, null), destination, piece)
      && piece.position == Some(destination) && piece.H == old(piece.H)
      && pieces == old(pieces)
      && game.Opponent().pieces == old(game.Opponent().pieces)
      && game.Opponent().reserve ==
         old(game.Opponent().reserve) - (if IsInZone(destination, Other(piece.color)) then piece.A else 0)
    }

    method EnterEmpty(game: Game, piece: Piece, destination: Position) returns (result: MoveResult)
      requires game.Valid() && this == game.currentTurn
      requires piece.position.Some? && InBoard(piece.position.value) && InBoard(destination)
      modifies game.Opponent()`reserve, piece`position, game.board
      ensures game.Valid() && game.Opponent() == old(game.Opponent())
      ensures EnteredEmpty(game, piece, destination, result)
    {
      var opponent := game.Opponent();
      ghost var before := FromArray(game.board);
      // An unopposed move into the enemy zone costs the enemy's reserve.
      if IsInZone(destination, Other(piece.color)) {
        opponent.reserve := opponent.reserve - piece.A;
      }
      var origin := piece.position.value;
      game.board[origin.0, origin.1] := null;
      ghost var cleared := FromArray(game.board);
      SameCells(cleared, Put(before, origin, null));
      piece.position := Some(destination);
      game.board[destination.0, destination.1] := piece;
      SameCells(FromArray(game.board), Put(cleared, destination, piece));
      result := Done;
    }

    /**
     * The new state after `piece` attacked `enemy` on `destination`. Both
     * healths are the combat's final ones and no reserve changes. A losing
     * mover is removed from this player's list and its recorded cell is
     * cleared. A winning mover is added to this player's list if missing,
     * the enemy is removed from the opponent's list and the mover is put on
     * the destination; its old cell and `position` stay as they were. When
     * `list.remove` finds nothing to remove, the board is left unchanged.
     */
    twostate predicate Captured(game: Game, piece: Piece, enemy: Piece, destination: Position, result: MoveResult)
      requires old(game.Valid()) && game.Valid()
      requires old(piece.position).Some? && InBoard(old(piece.position).value) && InBoard(destination)
      requires CombatEnds(old(piece.AsFighter()), old(enemy.AsFighter()))
      reads this, game, game.white, game.black, piece, enemy, game.board
    {
      var fight := Resolve(old(piece.AsFighter()), old(enemy.AsFighter()));
      && piece.H == fight.moverHealth && enemy.H == fight.defenderHealth
      && piece.position == old(piece.position)
      && game.Opponent().reserve == old(game.Opponent().reserve)
      && (!fight.moverWins ==>
            && game.Opponent().pieces == old(game.Opponent().pieces)
            && (piece in old(pieces) ==>
                  && result == Done
                  && pieces == RemoveFirst(old(pieces), piece)
                  && FromArray(game.board) == Put(old(FromArray(game.board)), old(piece.position).value, null))
            && (piece !in old(pieces) ==>
                  && result == ListRemoveFailed
                  && pieces == old(pieces)
                  && FromArray(game.board) == old(FromArray(game.board))))
      && (fight.moverWins ==>
            && pieces == (if piece in old(pieces) then old(pieces) else old(pieces) + [piece])
            && (enemy in old(game.Opponent().pieces) ==>
                  && result == Done
                  && game.Opponent().pieces == RemoveFirst(old(game.Opponent().pieces), enemy)
                  && FromArray(game.board) == Put(old(FromArray(game.board)), destination, piece))
            && (enemy !in old(game.Opponent().pieces) ==>
                  && result == ListRemoveFailed
                  && game.Opponent().pieces == old(game.Opponent().pieces)
                  && FromArray(game.board) == old(FromArray(game.board))))
    }

    method Capture(game: Game, piece: Piece, enemy: Piece, destination: Position) returns (result: MoveResult)
      requires game.Valid() && this == game.currentTurn
      requires piece.position.Some? && InBoard(piece.position.value) && InBoard(destination)
      requires piece != enemy && game.board[destination.0, destination.1] == enemy
      requires CombatEnds(piece.AsFighter(), enemy.AsFighter())
      modifies this`pieces, game.Opponent()`pieces, piece`H, enemy`H, game.board
      ensures game.Valid() && game.Opponent() == old(game.Opponent())
      ensures Captured(game, piece, enemy, destination, result)
    {
      var opponent := game.Opponent();
      ghost var before := FromArray(game.board);
      result := Done;
      var winner := game.Combat(piece, enemy);
      if winner == enemy {
        // The mover was knocked out.
        if piece !in pieces {
          result := ListRemoveFailed;
        } else {
          pieces := RemoveFirst(pieces, piece);
          var origin := piece.position.value;
          game.board[origin.0, origin.1] := null;
          SameCells(FromArray(game.board), Put(before, origin, null));
        }
      } else {
        // The defender was knocked out.
        if winner !in pieces {
          pieces := pieces + [winner];
        }
        if enemy !in opponent.pieces {
          result := ListRemoveFailed;
        } else {
          opponent.pieces := RemoveFirst(opponent.pieces, enemy);
          game.board[destination.0, destination.1] := piece;
          SameCells(FromArray(game.board), Put(before, destination, piece));
        }
      }
    }
  }

  class Game {
    const board: array2<Piece?>
    const white: Player
    const black: Player
    var currentTurn: Player

    ghost predicate Valid()
      reads this
    {
      && board.Length0 == BoardSize && board.Length1 == BoardSize
      && white.color == White && black.color == Black
      && (currentTurn == white || currentTurn == black)
    }

    /** An empty board, both players with a full reserve and no pieces, White to play. */
    constructor ()
      ensures Valid() && fresh(board) && fresh(white) && fresh(black)
      ensures forall i, j :: 0 <= i < BoardSize && 0 <= j < BoardSize ==> board[i, j] == null
      ensures white.reserve == InitialReserve && white.pieces == []
      ensures black.reserve == InitialReserve && black.pieces == []
      ensures currentTurn == white
    {
      board := new Piece?[BoardSize, BoardSize]((i, j) => null);
      white := new Player(White);
      black := new Player(Black);
      currentTurn := white;
    }

    /** The player whose turn it is not. */
    function Opponent(): (p: Player)
      requires Valid()
      reads this
      ensures p != currentTurn && (p == white || p == black)
      ensures p.color == Other(currentTurn.color)
    {
      if currentTurn == white then black else white
    }

    method SwitchTurn()
      requires Valid()
      modifies this
      ensures Valid()
      ensures currentTurn == old(Opponent()) && Opponent() == old(currentTurn)
    {
      currentTurn := if currentTurn == white then black else white;
    }

    /**
     * Legality of moving `piece` to `destination`: within `piece.D` on each
     * axis; onto an empty cell only forward; onto an occupied cell only when
     * the occupant has the other colour (in any direction).
     */
    function IsValidMove(piece: Piece, destination: Position): (valid: bool)
      requires Valid()
      requires piece.position.Some? && InBoard(piece.position.value) && InBoard(destination)
      reads this, piece, board
      ensures var start := piece.position.value;
        var rowDiff, colDiff := destination.0 - start.0, destination.1 - start.1;
        var occupant := board[destination.0, destination.1];
        && (Abs(rowDiff) > piece.D || Abs(colDiff) > piece.D ==> !valid)
        && (Abs(rowDiff) <= piece.D && Abs(colDiff) <= piece.D && occupant == null ==>
              (valid <==> Forward(piece.color, rowDiff)))
        && (Abs(rowDiff) <= piece.D && Abs(colDiff) <= piece.D && occupant != null ==>
              (valid <==> occupant.color != piece.color))
    {
      var start := piece.position.value;
      var verticalDiff := destination.0 - start.0;
      var horizontalDiff := destination.1 - start.1;
      if Abs(horizontalDiff) > piece.D || Abs(verticalDiff) > piece.D then
        false
      else if board[destination.0, destination.1] == null then
        if piece.color == White && verticalDiff >= 0 then false
        else if piece.color == Black && verticalDiff <= 0 then false
        else true
      else
        board[destination.0, destination.1].color != piece.color
    }

    /**
     * A piece with non-negative range may move onto its own recorded cell
     * only when an enemy stands there; in particular never while it
     * occupies that cell itself.
     */
    lemma OwnCellNeedsEnemy(piece: Piece)
      requires Valid()
      requires piece.position.Some? && InBoard(piece.position.value) && piece.D >= 0
      ensures var p := piece.position.value;
        var occupant := board[p.0, p.1];
        && (IsValidMove(piece, p) <==> occupant != null && occupant.color != piece.color)
        && (occupant == piece ==> !IsValidMove(piece, p))
    {
    }

    /**
     * The fight between the moving `attacker` and `defender`, run in place
     * on their healths; returns the winner.
     */
    method Combat(attacker: Piece, defender: Piece) returns (winner: Piece)
      requires attacker != defender
      requires CombatEnds(attacker.AsFighter(), defender.AsFighter())
      modifies attacker`H, defender`H
      ensures var r := Resolve(old(attacker.AsFighter()), old(defender.AsFighter()));
        && winner == (if r.moverWins then attacker else defender)
        && attacker.H == r.moverHealth && defender.H == r.defenderHealth
    {
      var firstAttacker, secondAttacker := defender, attacker;
      if attacker.S > defender.S {
        firstAttacker, secondAttacker := attacker, defender;
      }
      if attacker.S == defender.S {
        firstAttacker, secondAttacker := attacker, defender;
      }
      ghost var total := Fight(Side(firstAttacker.A, firstAttacker.H), Side(secondAttacker.A, secondAttacker.H));
      var roundNum := 1;
      while true
        invariant firstAttacker != secondAttacker
        invariant {firstAttacker, secondAttacker} == {attacker, defender}
        invariant Terminates(Side(firstAttacker.A, firstAttacker.H), Side(secondAttacker.A, secondAttacker.H))
        invariant var rest := Fight(Side(firstAttacker.A, firstAttacker.H), Side(secondAttacker.A, secondAttacker.H));
          && total.firstWins == rest.firstWins
          && total.firstHealth == rest.firstHealth && total.secondHealth == rest.secondHealth
          && total.rounds == rest.rounds + roundNum - 1
        decreases Fight(Side(firstAttacker.A, firstAttacker.H), Side(secondAttacker.A, secondAttacker.H)).rounds
      {
        secondAttacker.H := secondAttacker.H - firstAttacker.A;
        if secondAttacker.H <= 0 {
          return firstAttacker;
        }
        firstAttacker.H := firstAttacker.H - secondAttacker.A;
        if firstAttacker.H <= 0 {
          return secondAttacker;
        }
        roundNum := roundNum + 1;
      }
    }

    /**
     * The end-of-turn check: a current player with no reserve left ends the
     * game and the opponent wins; otherwise the turn passes to the opponent.
     */
    method EndTurn() returns (winner: Option<Color>)
      requires Valid()
      modifies this
      ensures Valid()
      ensures old(currentTurn.reserve) <= 0 ==>
                winner == Some(Other(old(currentTurn).color)) && currentTurn == old(currentTurn)
      ensures old(currentTurn.reserve) > 0 ==>
                winner == None && currentTurn == old(Opponent())
    {
      if currentTurn.reserve <= 0 {
        return Some(Opponent().color);
      }
      SwitchTurn();
      return None;
    }
  }
}
