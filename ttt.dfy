/**
 * The move input of the tic-tac-toe game in ttt/ttt.c: get_input's parse of
 * one typed line into a column and a row, the retry loop around it, and the
 * move log that record_move appends to.
 *
 * BOARD_SIZE and N_GRIDS are defined in ttt.h, which is not part of this
 * model; they are parameters here. A `char` stands for one byte of a line
 * as getline returns it (the trailing newline included).
 */
module Ttt {

  /** isalpha in the C locale. */
  predicate IsAlpha(c: char)
  {
    'a' <= c <= 'z' || 'A' <= c <= 'Z'
  }

  /** isdigit. */
  predicate IsDigit(c: char)
  {
    '0' <= c <= '9'
  }

  /** s[i..j) holds letters only. */
  predicate LettersIn(s: string, i: nat, j: nat)
    requires i <= j <= |s|
  {
    forall m :: i <= m < j ==> IsAlpha(s[m])
  }

  /** s[i..j) holds digits only. */
  predicate DigitsIn(s: string, i: nat, j: nat)
    requires i <= j <= |s|
  {
    forall m :: i <= m < j ==> IsDigit(s[m])
  }

  /** tolower(c) - 'a' + 1: the place of a letter in the alphabet, in either case. */
  function LetterValue(c: char): (v: int)
    requires IsAlpha(c)
    ensures 1 <= v <= 26
  {
    if 'a' <= c <= 'z' then c as int - 'a' as int + 1 else c as int - 'A' as int + 1
  }

  /** The value of a decimal digit. */
  function DigitValue(c: char): (v: int)
    requires IsDigit(c)
    ensures 0 <= v <= 9
  {
    c as int - '0' as int
  }

  /**
   * The 1-based column the letters s[0..j) name, x = x*26 + letter for each
   * letter in turn: "a" is 1, "z" is 26, "aa" is 27.
   */
  function Column(s: string, j: nat): (v: int)
    requires j <= |s| && LettersIn(s, 0, j)
    ensures v >= 0 && (j > 0 ==> v >= 1)
  {
    if j == 0 then 0 else Column(s, j - 1) * 26 + LetterValue(s[j - 1])
  }

  /** The 1-based row the digits s[k..j) name in decimal, y = y*10 + digit. */
  function Row(s: string, k: nat, j: nat): (v: int)
    requires k <= j <= |s| && DigitsIn(s, k, j)
    ensures v >= 0
    decreases j
  {
    if j == k then 0 else Row(s, k, j - 1) * 10 + DigitValue(s[j - 1])
  }

  /** The end of the run of letters that starts at i, within the first n characters. */
  function LetterRunFrom(s: string, i: nat, n: nat): (r: nat)
    requires i <= n <= |s|
    ensures i <= r <= n && LettersIn(s, i, r)
    ensures r < n ==> !IsAlpha(s[r])
    decreases n - i
  {
    if i < n && IsAlpha(s[i]) then LetterRunFrom(s, i + 1, n) else i
  }

  /** The length of the leading run of letters among the first n characters. */
  function LetterRun(s: string, n: nat): (k: nat)
    requires n <= |s|
    ensures k <= n && LettersIn(s, 0, k)
    ensures k < n ==> !IsAlpha(s[k])
  {
    LetterRunFrom(s, 0, n)
  }

  /**
   * What get_input accepts, on a board of side B, in the first n characters
   * of a line: a non-empty run of letters naming a column in 1..B followed
   * by a non-empty run of digits naming a row in 1..B, and nothing else.
   */
  predicate Accepts(s: string, n: nat, B: int)
    requires n <= |s|
  {
    var k := LetterRun(s, n);
    1 <= k < n && DigitsIn(s, k, n) && Column(s, k) <= B && 1 <= Row(s, k, n) <= B
  }

  /** The 0-based column and row that the accepted first n characters select. */
  function Decode(s: string, n: nat): (int, int)
    requires n <= |s| && DigitsIn(s, LetterRun(s, n), n)
  {
    var k := LetterRun(s, n);
    (Column(s, k) - 1, Row(s, k, n) - 1)
  }

  /**
   * A whole line get_input accepts: long enough to be parsed, and accepted
   * in all its characters but the last, which is the newline.
   */
  predicate Acceptable(line: string, B: int)
  {
    |line| >= 2 && Accepts(line, |line| - 1, B)
  }

  /** The exit test of get_input's retry loop: both coordinates lie in [0, B-1]. */
  predicate InBoard(x: int, y: int, B: int)
  {
    0 <= x <= B - 1 && 0 <= y <= B - 1
  }

  /**
   * The pair (x, y) that get_input leaves after parsing the first n
   * characters of s decides them as Accepts does: both lie in [-1, B], they
   * are on the board exactly when the text is accepted, and then they are
   * the square it names.
   */
  ghost predicate Decides(x: int, y: int, s: string, n: nat, B: int)
    requires n <= |s|
  {
    -1 <= x <= B && -1 <= y <= B
    && (InBoard(x, y, B) <==> Accepts(s, n, B))
    && (InBoard(x, y, B) ==> DigitsIn(s, LetterRun(s, n), n) && (x, y) == Decode(s, n))
  }

  /** What one line read by get_input comes to: skipped as too short, or the pair (x, y) it left. */
  datatype LineOutcome = Skipped | Parsed(x: int, y: int)

  /** What get_input ends with: the end of input (where it exits), or a move on the board. */
  datatype Input = EndOfInput | Entered(x: int, y: int)

  /** More letters never name a smaller column. */
  lemma {:induction false} ColumnMonotone(s: string, j: nat, m: nat)
    requires j <= m <= |s| && LettersIn(s, 0, m)
    ensures Column(s, j) <= Column(s, m)
    decreases m
  {
    if j < m {
      ColumnMonotone(s, j, m - 1);
    }
  }

  /** More digits never name a smaller row. */
  lemma {:induction false} RowMonotone(s: string, k: nat, j: nat, m: nat)
    requires k <= j <= m <= |s| && DigitsIn(s, k, m)
    ensures Row(s, k, j) <= Row(s, k, m)
    decreases m
  {
    if j < m {
      RowMonotone(s, k, j, m - 1);
    }
  }

  /** A text whose leading letters already name a column past the board is rejected, whatever follows. */
  lemma ColumnPastBoardRejected(s: string, n: nat, j: nat, B: int)
    requires j <= n <= |s| && LettersIn(s, 0, j) && Column(s, j) > B
    ensures !Accepts(s, n, B)
  {
    ColumnMonotone(s, j, LetterRun(s, n));
  }

  /** A text whose row digits already name a row past the board is rejected, whatever follows. */
  lemma RowPastBoardRejected(s: string, n: nat, j: nat, B: int)
    requires n <= |s| && LetterRun(s, n) <= j <= n
    requires DigitsIn(s, LetterRun(s, n), j) && Row(s, LetterRun(s, n), j) > B
    ensures !Accepts(s, n, B)
  {
    if DigitsIn(s, LetterRun(s, n), n) {
      RowMonotone(s, LetterRun(s, n), j, n);
    }
  }

  /** A text that does not start with a letter is rejected. */
  lemma NoLeadingLetterRejected(s: string, n: nat, B: int)
    requires 0 < n <= |s| && !IsAlpha(s[0])
    ensures !Accepts(s, n, B)
  {
  }

  /** A character other than a digit anywhere after the leading letters is rejected, a letter included. */
  lemma StrayCharacterRejected(s: string, n: nat, i: nat, B: int)
    requires n <= |s| && LetterRun(s, n) <= i < n && !IsDigit(s[i])
    ensures !Accepts(s, n, B)
  {
  }

  /** A text of letters only is rejected: it names no row. */
  lemma LettersOnlyRejected(s: string, n: nat, B: int)
    requires n <= |s| && LettersIn(s, 0, n)
    ensures !Accepts(s, n, B)
  {
  }

  /** Where the parse loop of get_input stopped, and why. */
  datatype ScanEnd =
    | ColumnPast(j: nat)   // the letters s[0..j) already name a column past the board
    | NoLetter             // the first character is not a letter
    | RowPast(j: nat)      // the digits up to j already name a row past the board
    | Stray(i: nat)        // s[i], after the letters, is not a digit
    | LettersOnly          // the whole text is letters
    | Finished             // the whole text is letters then digits, both in range

  /** The values x, y the loop leaves (before the decrement) when it ends as e on the first n characters of s. */
  ghost predicate Ended(e: ScanEnd, s: string, n: nat, x: int, y: int, B: int)
    requires n <= |s|
  {
    match e
    case ColumnPast(j) => j <= n && LettersIn(s, 0, j) && Column(s, j) > B && x == B + 1 && y == 0
    case NoLetter => 0 < n && !IsAlpha(s[0]) && x == 0 && y == 0
    case RowPast(j) =>
      LetterRun(s, n) <= j <= n && DigitsIn(s, LetterRun(s, n), j) && Row(s, LetterRun(s, n), j) > B
      && 1 <= x <= B && y == B + 1
    case Stray(i) => LetterRun(s, n) <= i < n && !IsDigit(s[i]) && x == 0 && y == 0
    case LettersOnly => LettersIn(s, 0, n) && 0 <= x <= B && y == 0
    case Finished =>
      1 <= LetterRun(s, n) < n && DigitsIn(s, LetterRun(s, n), n)
      && x == Column(s, LetterRun(s, n)) <= B && y == Row(s, LetterRun(s, n), n) <= B
  }

  /** However the loop ends, the decremented values decide the text as Accepts and Decode do. */
  lemma EndedDecides(e: ScanEnd, s: string, n: nat, x: int, y: int, B: int)
    requires n <= |s| && B >= 1 && Ended(e, s, n, x, y, B)
    ensures Decides(x - 1, y - 1, s, n, B)
  {
    match e
    case ColumnPast(j) => ColumnPastBoardRejected(s, n, j, B);
    case NoLetter => NoLeadingLetterRejected(s, n, B);
    case RowPast(j) => RowPastBoardRejected(s, n, j, B);
    case Stray(i) => StrayCharacterRejected(s, n, i, B);
    case LettersOnly => LettersOnlyRejected(s, n, B);
    case Finished =>
  }

  /**
   * The per-line body of get_input (ttt/ttt.c:76-117). A line shorter than
   * two characters is skipped. Otherwise the loop reads the first r-1
   * characters: letters while still reading the column, then digits for the
   * row. It stops early on the first character that is not a letter when no
   * letter came before (y = 0), on any other character that is not a digit
   * (x = y = 0), and as soon as x or y exceeds the board side (pinned to
   * B+1). Then both are decremented to 0-based.
   */
  method ParseLine(line: string, boardSize: int) returns (o: LineOutcome)
    requires boardSize >= 1
    ensures o.Skipped? <==> |line| < 2
    ensures o.Parsed? ==> Decides(o.x, o.y, line, |line| - 1, boardSize)
  {
    var r := |line|;
    if r < 2 {
      return Skipped;
    }
    var x, y := 0, 0;
    var parseX := true;
    ghost var n, k := r - 1, LetterRun(line, r - 1);
    ghost var stopped, end := false, Finished;
    for i := 0 to r - 1
      invariant !stopped
      invariant parseX ==> i <= k && x == Column(line, i) && x <= boardSize && y == 0
      invariant !parseX ==> 1 <= k < i && x == Column(line, k) && x <= boardSize
      invariant !parseX ==> DigitsIn(line, k, i) && y == Row(line, k, i) && y <= boardSize
    {
      if IsAlpha(line[i]) && parseX {
        x := x * 26 + LetterValue(line[i]);
        assert x <= 26 * boardSize + 26;
        if x > boardSize {
          x := boardSize + 1;
          stopped, end := true, ColumnPast(i + 1);
          break;
        }
        continue;
      }
      if x == 0 {
        y := 0;
        stopped, end := true, NoLetter;
        break;
      }
      parseX := false;
      if IsDigit(line[i]) {
        y := y * 10 + DigitValue(line[i]);
        assert y <= 26 * boardSize + 26;
        if y > boardSize {
          y := boardSize + 1;
          stopped, end := true, RowPast(i + 1);
          break;
        }
        continue;
      }
      x, y := 0, 0;
      stopped, end := true, Stray(i);
      break;
    }
    if !stopped {
      end := if parseX then LettersOnly else Finished;
    }
    EndedDecides(end, line, n, x, y, boardSize);
    x := x - 1;
    y := y - 1;
    return Parsed(x, y);
  }

  /**
   * get_input (ttt/ttt.c:64-121) on the lines the player types, in order.
   * It reads lines until one puts both coordinates on the board (the test
   * at line 71); when getline reports the end of input it exits, which is
   * EndOfInput here. `used` counts the lines it consumed.
   */
  method GetInput(lines: seq<string>, boardSize: int) returns (move: Input, used: nat)
    requires boardSize >= 1
    ensures used <= |lines|
    ensures move.EndOfInput? ==> used == |lines| && forall j :: 0 <= j < |lines| ==> !Acceptable(lines[j], boardSize)
    ensures move.Entered? ==> 1 <= used && InBoard(move.x, move.y, boardSize)
    ensures move.Entered? ==> Acceptable(lines[used - 1], boardSize) && (move.x, move.y) == Decode(lines[used - 1], |lines[used - 1]| - 1)
    ensures move.Entered? ==> forall j :: 0 <= j < used - 1 ==> !Acceptable(lines[j], boardSize)
  {
    var x, y := -1, -1;
    used := 0;
    while x < 0 || x > boardSize - 1 || y < 0 || y > boardSize - 1
      invariant used <= |lines|
      invariant !InBoard(x, y, boardSize) ==> forall j :: 0 <= j < used ==> !Acceptable(lines[j], boardSize)
      invariant InBoard(x, y, boardSize) ==> 1 <= used && Acceptable(lines[used - 1], boardSize)
      invariant InBoard(x, y, boardSize) ==> (x, y) == Decode(lines[used - 1], |lines[used - 1]| - 1)
      invariant InBoard(x, y, boardSize) ==> forall j :: 0 <= j < used - 1 ==> !Acceptable(lines[j], boardSize)
      decreases |lines| - used
    {
      if used == |lines| {
        return EndOfInput, used;
      }
      var line := lines[used];
      used := used + 1;
      var o := ParseLine(line, boardSize);
      if o.Parsed? {
        x, y := o.x, o.y;
      }
    }
    return Entered(x, y), used;
  }

  /** Two texts that agree on their first j characters name the same column with them. */
  lemma {:induction false} ColumnAgree(s: string, t: string, j: nat)
    requires j <= |s| && j <= |t| && LettersIn(s, 0, j)
    requires forall i :: 0 <= i < j ==> s[i] == t[i]
    ensures LettersIn(t, 0, j) && Column(s, j) == Column(t, j)
  {
    if j > 0 {
      ColumnAgree(s, t, j - 1);
    }
  }

  /** The same n digits, wherever they stand, name the same row. */
  lemma {:induction false} RowShift(s: string, k: nat, t: string, k': nat, n: nat)
    requires k + n <= |s| && k' + n <= |t| && DigitsIn(s, k, k + n)
    requires forall i :: k' <= i < k' + n ==> t[i] == s[i - k' + k]
    ensures DigitsIn(t, k', k' + n) && Row(s, k, k + n) == Row(t, k', k' + n)
  {
    if n > 0 {
      RowShift(s, k, t, k', n - 1);
    }
  }

  /** The capital letter at place v of the alphabet. */
  function LetterOf(v: int): (c: char)
    requires 1 <= v <= 26
    ensures IsAlpha(c) && LetterValue(c) == v
  {
    (v - 1 + 'A' as int) as char
  }

  /** The decimal digit of value v. */
  function DigitOf(v: int): (c: char)
    requires 0 <= v <= 9
    ensures IsDigit(c) && !IsAlpha(c) && DigitValue(c) == v
  {
    (v + '0' as int) as char
  }

  /** The letters of column n (1-based) in the notation "A".."Z", "AA", ...: the inverse of Column. */
  function ColumnName(n: int): (s: string)
    requires n >= 1
    ensures s != [] && LettersIn(s, 0, |s|)
    decreases n
  {
    if n <= 26 then [LetterOf(n)] else ColumnName((n - 1) / 26) + [LetterOf((n - 1) % 26 + 1)]
  }

  /** The decimal digits of n, without leading zeros: the inverse of Row. */
  function RowName(n: nat): (s: string)
    ensures s != [] && DigitsIn(s, 0, |s|)
  {
    if n < 10 then [DigitOf(n)] else RowName(n / 10) + [DigitOf(n % 10)]
  }

  /** The text naming 0-based square (x, y); for x < 26 it is what print_moves writes. */
  function SquareName(x: nat, y: nat): string
  {
    ColumnName(x + 1) + RowName(y + 1)
  }

  lemma {:induction false} ColumnOfColumnName(n: int)
    requires n >= 1
    ensures Column(ColumnName(n), |ColumnName(n)|) == n
    decreases n
  {
    if n > 26 {
      var q := (n - 1) / 26;
      var p := ColumnName(q);
      ColumnOfColumnName(q);
      ColumnAgree(p, ColumnName(n), |p|);
      assert q * 26 + (n - 1) % 26 + 1 == n;
    }
  }

  lemma {:induction false} RowOfRowName(n: nat)
    ensures Row(RowName(n), 0, |RowName(n)|) == n
  {
    if n >= 10 {
      var p := RowName(n / 10);
      RowOfRowName(n / 10);
      RowShift(p, 0, RowName(n), 0, |p|);
      assert (n / 10) * 10 + n % 10 == n;
    }
  }

  /** A line of letters a, then digits d, then the newline reads as the column of a and the row of d. */
  lemma NamedLine(a: string, d: string)
    requires a != [] && LettersIn(a, 0, |a|) && d != [] && DigitsIn(d, 0, |d|)
    ensures LetterRun(a + d + "\n", |a| + |d|) == |a|
    ensures DigitsIn(a + d + "\n", |a|, |a| + |d|)
    ensures Column(a + d + "\n", |a|) == Column(a, |a|)
    ensures Row(a + d + "\n", |a|, |a| + |d|) == Row(d, 0, |d|)
  {
    var line := a + d + "\n";
    ColumnAgree(a, line, |a|);
    RowShift(d, 0, line, |a|, |d|);
    assert !IsAlpha(line[|a|]);
  }

  /**
   * Every square of the board can be entered: the line naming square (x, y)
   * is accepted and selects exactly that square.
   */
  lemma SquareNameAccepted(x: nat, y: nat, B: int)
    requires x < B && y < B
    ensures Acceptable(SquareName(x, y) + "\n", B)
    ensures Decode(SquareName(x, y) + "\n", |SquareName(x, y)|) == (x, y)
  {
    var a, d := ColumnName(x + 1), RowName(y + 1);
    NamedLine(a, d);
    ColumnOfColumnName(x + 1);
    RowOfRowName(y + 1);
    assert SquareName(x, y) + "\n" == a + d + "\n";
  }

  /** "a1" and "A1" select the corner square; "b3" on a 3-board selects column 1, row 2. */
  lemma AcceptedExamples()
    ensures Acceptable("a1\n", 3) && Decode("a1\n", 2) == (0, 0)
    ensures Acceptable("A1\n", 3) && Decode("A1\n", 2) == (0, 0)
    ensures Acceptable("b3\n", 3) && Decode("b3\n", 2) == (1, 2)
  {
    assert LetterRun("a1\n", 2) == 1;
    assert LetterRun("A1\n", 2) == 1;
    assert LetterRun("b3\n", 2) == 1;
  }

  /**
   * Lines get_input rejects: row 0, digits before any letter, letters only,
   * a letter after the digits, a space inside, a column past the board, and
   * a bare newline.
   */
  lemma RejectedExamples()
    ensures !Acceptable("a0\n", 3)
    ensures !Acceptable("1a\n", 3)
    ensures !Acceptable("ab\n", 3)
    ensures !Acceptable("a1b\n", 3)
    ensures !Acceptable("a 1\n", 3)
    ensures !Acceptable("d1\n", 3)
    ensures !Acceptable("\n", 3)
  {
    assert LetterRun("a0\n", 2) == 1;
    assert LetterRun("1a\n", 2) == 0;
    assert LetterRun("ab\n", 2) == 2;
    assert LetterRun("a1b\n", 3) == 1 && !IsDigit("a1b\n"[2]);
    assert LetterRun("a 1\n", 3) == 1 && !IsDigit("a 1\n"[1]);
    assert LetterRun("d1\n", 2) == 1;
  }

  /** move_record and move_count: the moves of the current game, oldest first. */
  class MoveLog {
    const moveRecord: array<int>
    var moveCount: int

    ghost predicate Valid()
      reads this
    {
      0 <= moveCount <= moveRecord.Length
    }

    ghost function Moves(): seq<int>
      reads this, moveRecord
      requires Valid()
    {
      moveRecord[..moveCount]
    }

    /** The global arrays start zeroed, with no move recorded; nGrids is N_GRIDS. */
    constructor (nGrids: nat)
      ensures Valid() && fresh(moveRecord) && moveRecord.Length == nGrids
      ensures moveCount == 0 && Moves() == []
      ensures forall i :: 0 <= i < nGrids ==> moveRecord[i] == 0
    {
      moveRecord := new int[nGrids](_ => 0);
      moveCount := 0;
    }

    /**
     * The start of a game in ttt() and in the AI-against-AI mode
     * (ttt/ttt.c:131-132, 408-409): move_record is zeroed and move_count reset.
     */
    method Reset()
      modifies this, moveRecord
      ensures Valid() && moveCount == 0 && Moves() == []
      ensures forall i :: 0 <= i < moveRecord.Length ==> moveRecord[i] == 0
    {
      forall i | 0 <= i < moveRecord.Length {
        moveRecord[i] := 0;
      }
      moveCount := 0;
    }

    /**
     * record_move (ttt/ttt.c:46-49): stores the move at index move_count and
     * increments it. The array has N_GRIDS entries, so a move can be stored
     * only while fewer than N_GRIDS are recorded.
     */
    method Record(move: int)
      requires Valid() && moveCount < moveRecord.Length
      modifies this, moveRecord
      ensures Valid() && moveCount == old(moveCount) + 1
      ensures Moves() == old(Moves()) + [move]
      ensures moveRecord[..] == old(moveRecord[..])[old(moveCount) := move]
    {
      moveRecord[moveCount] := move;
      moveCount := moveCount + 1;
    }
  }
}
