/** The referee adapter `InputTranslate.cpp`: moves travel as text such as
    "h8" (a column letter, then a 1-based row number), the program answers
    the opponent's opening with the swap rule or a move of its own, and then
    answers each opponent move with a move on a free cell. Its board holds 0
    for a free cell, 1 for its own stones and 2 for the opponent's. */
module InputTranslate {
  import opened Wrappers

  /** `BOARD_SIZE`. */
  const Size := 11

  /** The range of a 32-bit `int`, which `stoi` enforces. */
  const IntMin := -0x8000_0000
  const IntMax := 0x7fff_ffff

  /** `Coord`: `x` is the row, `y` the column. */
  datatype Coord = Coord(x: int, y: int)

  // ---------------------------------------------------------------------
  // Text of numbers: `std::stoi` and `std::to_string`
  // ---------------------------------------------------------------------

  predicate IsDigit(ch: char) {
    '0' <= ch <= '9'
  }

  /** The characters `isspace` accepts: blank, tab, newline, vertical tab,
      form feed, carriage return. */
  predicate IsSpace(ch: char) {
    ch == ' ' || ('\t' <= ch <= '\r')
  }

  /** The value of one decimal digit. */
  function DigitValue(ch: char): (d: nat)
    requires IsDigit(ch)
  {
    ch as int - '0' as int
  }

  /** The number written by a run of decimal digits. */
  function Value(ds: seq<char>): (n: nat)
    requires forall k :: 0 <= k < |ds| ==> IsDigit(ds[k])
  {
    if ds == [] then 0 else Value(ds[..|ds| - 1]) * 10 + DigitValue(ds[|ds| - 1])
  }

  /** The decimal digits of n, without leading zeros. */
  function Digits(n: nat): (ds: seq<char>)
    ensures |ds| > 0 && forall k :: 0 <= k < |ds| ==> IsDigit(ds[k])
  {
    if n < 10 then [('0' as int + n) as char] else Digits(n / 10) + [('0' as int + n % 10) as char]
  }

  /** Reading back the digits of n gives n. */
  lemma {:induction false} ValueOfDigits(n: nat)
    ensures Value(Digits(n)) == n
  {
    if n >= 10 {
      ValueOfDigits(n / 10);
      assert Digits(n)[..|Digits(n)| - 1] == Digits(n / 10);
    }
  }

  /** `std::to_string` of an integer: a minus sign for a negative value,
      then the digits of its magnitude. */
  function IntToString(n: int): (s: string)
    ensures |s| > 0 && (s[0] == '-' <==> n < 0)
    ensures forall k :: (if n < 0 then 1 else 0) <= k < |s| ==> IsDigit(s[k])
  {
    if n < 0 then "-" + Digits(-n) else Digits(n)
  }

  function SkipSpaces(t: string): (u: string)
    ensures |u| <= |t|
    ensures |u| > 0 ==> !IsSpace(u[0])
  {
    if |t| > 0 && IsSpace(t[0]) then SkipSpaces(t[1..]) else t
  }

  /** The length of the run of digits t starts with. */
  function DigitRun(t: string): (k: nat)
    ensures k <= |t| && forall j :: 0 <= j < k ==> IsDigit(t[j])
    ensures k < |t| ==> !IsDigit(t[k])
  {
    if |t| > 0 && IsDigit(t[0]) then 1 + DigitRun(t[1..]) else 0
  }

  /** `std::stoi(t)`: skip leading white space, read an optional sign and
      the longest run of digits after it, ignoring whatever follows. It
      throws (`None`) when there is no digit or the value does not fit in an
      `int`. */
  function Stoi(t: string): (r: Option<int>)
    ensures r.Some? ==> IntMin <= r.value <= IntMax
  {
    var u := SkipSpaces(t);
    var signed := |u| > 0 && (u[0] == '-' || u[0] == '+');
    var v := if signed then u[1..] else u;
    var k := DigitRun(v);
    if k == 0 then None
    else
      var magnitude: int := Value(v[..k]);
      var n: int := if signed && u[0] == '-' then -magnitude else magnitude;
      if IntMin <= n <= IntMax then Some(n) else None
  }

  /** A text of digits only is one run of digits. */
  lemma AllDigitsRun(ds: string)
    requires forall k :: 0 <= k < |ds| ==> IsDigit(ds[k])
    ensures DigitRun(ds) == |ds|
  {
  }

  /** `stoi` of a run of digits is the number they write, when it fits in
      an `int`. */
  lemma StoiOfDigits(ds: string)
    requires |ds| > 0 && forall k :: 0 <= k < |ds| ==> IsDigit(ds[k])
    requires Value(ds) <= IntMax
    ensures Stoi(ds) == Some(Value(ds))
  {
    assert !IsSpace(ds[0]) && SkipSpaces(ds) == ds;
    AllDigitsRun(ds);
    assert ds[..|ds|] == ds;
  }

  /** `stoi` of a minus sign and a run of digits is the negated number,
      when it fits in an `int`. */
  lemma StoiOfNegatedDigits(ds: string)
    requires |ds| > 0 && forall k :: 0 <= k < |ds| ==> IsDigit(ds[k])
    requires IntMin <= -(Value(ds) as int)
    ensures Stoi("-" + ds) == Some(-(Value(ds) as int))
  {
    var s := "-" + ds;
    assert !IsSpace(s[0]) && SkipSpaces(s) == s;
    assert s[1..] == ds;
    AllDigitsRun(ds);
    assert ds[..|ds|] == ds;
  }

  /** `stoi` reads back what `to_string` wrote, for every `int`. */
  lemma StoiOfIntToString(n: int)
    requires IntMin <= n <= IntMax
    ensures Stoi(IntToString(n)) == Some(n)
  {
    if n < 0 {
      var ds := Digits(-n);
      ValueOfDigits(-n);
      StoiOfNegatedDigits(ds);
      assert IntToString(n) == "-" + ds;
    } else {
      var ds := Digits(n);
      ValueOfDigits(n);
      StoiOfDigits(ds);
      assert IntToString(n) == ds;
    }
  }

  // ---------------------------------------------------------------------
  // Coordinates as text
  // ---------------------------------------------------------------------

  /** `tolower` on one character. */
  function ToLower(ch: char): (r: char)
    ensures 'a' <= r <= 'z' <==> 'a' <= ch <= 'z' || 'A' <= ch <= 'Z'
    ensures !('A' <= ch <= 'Z') ==> r == ch
  {
    if 'A' <= ch <= 'Z' then (ch as int + 32) as char else ch
  }

  /** `parse_coord(s)`: the column is the first character, lower-cased, as
      an offset from 'a'; the row is the number after it, minus one.
      `s[0]` of an empty string is the terminating NUL, and then
      `s.substr(1)` throws; `stoi` throws on text without a number. Those
      cases are `None`. The result is not checked against the board. */
  function ParseCoord(s: string): (r: Option<Coord>)
    ensures r.Some? <==> |s| > 0 && Stoi(s[1..]).Some?
    ensures r.Some? ==> r.value.y == ToLower(s[0]) as int - 'a' as int && r.value.x + 1 == Stoi(s[1..]).value
  {
    if |s| == 0 then None
    else
      match Stoi(s[1..])
      case None => None
      case Some(n) => Some(Coord(n - 1, ToLower(s[0]) as int - 'a' as int))
  }

  /** `format_coord(c)`: the column letter `'a' + c.y`, truncated to a
      `char` byte, then `to_string(c.x + 1)`. */
  function FormatCoord(c: Coord): (s: string)
    ensures |s| >= 2 && s[1..] == IntToString(c.x + 1)
    ensures 0 <= c.y < 26 ==> 'a' <= s[0] <= 'z' && s[0] as int - 'a' as int == c.y
  {
    [((97 + c.y) % 256) as char] + IntToString(c.x + 1)
  }

  /** Formatting then parsing gives the coordinate back, for every column
      that has a letter and every row the text of an `int` can carry,
      the whole board among them. */
  lemma ParseOfFormat(c: Coord)
    requires 0 <= c.y < 26 && IntMin <= c.x + 1 <= IntMax
    ensures ParseCoord(FormatCoord(c)) == Some(c)
  {
    StoiOfIntToString(c.x + 1);
  }

  /** Parsing then formatting gives the text back when it is a lower-case
      letter followed by the decimal text of an `int`, such as "a1" or
      "k11". */
  lemma FormatOfParse(letter: char, n: int)
    requires 'a' <= letter <= 'z' && IntMin <= n <= IntMax
    ensures ParseCoord([letter] + IntToString(n)).Some?
    ensures FormatCoord(ParseCoord([letter] + IntToString(n)).value) == [letter] + IntToString(n)
  {
    var s := [letter] + IntToString(n);
    assert s[1..] == IntToString(n);
    StoiOfIntToString(n);
    var c := ParseCoord(s).value;
    assert c == Coord(n - 1, letter as int - 'a' as int);
    assert ((97 + c.y) % 256) as char == letter;
  }

  /** The letter is read case-insensitively: "h8" and "H8" are both row 7,
      column 7; text without a number is refused. */
  lemma ParseExamples()
    ensures ParseCoord("h8") == Some(Coord(7, 7)) && ParseCoord("H8") == Some(Coord(7, 7))
    ensures ParseCoord("k11") == Some(Coord(10, 10)) && ParseCoord(" a 3") == None
    ensures ParseCoord("") == None && ParseCoord("h") == None && ParseCoord("hx") == None
  {
    assert "8"[..1] == "8";
    assert "11"[..2] == "11" && "11"[..1] == "1";
    assert SkipSpaces("8") == "8" && DigitRun("8") == 1;
    assert SkipSpaces("11") == "11" && DigitRun("11") == 2;
    assert "11"[1..] == "1" && DigitRun("1") == 1;
    assert " a 3"[1..] == "a 3" && SkipSpaces("a 3") == "a 3" && DigitRun("a 3") == 0;
    assert "h"[1..] == "" && "hx"[1..] == "x" && DigitRun("x") == 0;
  }

  // ---------------------------------------------------------------------
  // The board and the swap rule
  // ---------------------------------------------------------------------

  /** `get_symmetric`: the mirror image in the main diagonal. */
  function Symmetric(c: Coord): (m: Coord)
    ensures m.x == c.y && m.y == c.x
  {
    Coord(c.y, c.x)
  }

  /** The cell exists on the 11x11 board. */
  predicate OnBoard(c: Coord) {
    0 <= c.x < Size && 0 <= c.y < Size
  }

  /** Mirroring twice is the identity; it keeps cells on the board. */
  lemma SymmetricInvolution(c: Coord)
    ensures Symmetric(Symmetric(c)) == c
    ensures OnBoard(Symmetric(c)) <==> OnBoard(c)
  {
  }

  function Abs(n: int): nat {
    if n < 0 then -n else n
  }

  /** `should_swap`: the opening lies within two rows and two columns of
      the centre cell (5, 5), the central 5x5 square. */
  function ShouldSwap(c: Coord): (r: bool)
    ensures r <==> 3 <= c.x <= 7 && 3 <= c.y <= 7
    ensures r ==> OnBoard(c) && OnBoard(Symmetric(c))
  {
    var center := Size / 2;
    Abs(c.x - center) <= 2 && Abs(c.y - center) <= 2
  }

  lemma ShouldSwapExamples()
    ensures ShouldSwap(Coord(5, 5)) && !ShouldSwap(Coord(0, 0))
    ensures ShouldSwap(Coord(3, 7)) && !ShouldSwap(Coord(2, 5))
  {
  }

  /** The board: `Size` rows of `Size` cells. */
  predicate IsBoard(b: seq<seq<int>>) {
    |b| == Size && forall i :: 0 <= i < Size ==> |b[i]| == Size
  }

  /** Every cell is free or holds a stone of one side. */
  predicate Stones(b: seq<seq<int>>) {
    IsBoard(b) && forall i, j :: 0 <= i < Size && 0 <= j < Size ==> b[i][j] in {0, 1, 2}
  }

  /** `board[c.x][c.y] = v`. */
  function Put(b: seq<seq<int>>, c: Coord, v: int): (b': seq<seq<int>>)
    requires IsBoard(b) && OnBoard(c)
    ensures IsBoard(b') && b'[c.x][c.y] == v
    ensures forall i, j :: 0 <= i < Size && 0 <= j < Size && (i != c.x || j != c.y) ==> b'[i][j] == b[i][j]
  {
    b[c.x := b[c.x][c.y := v]]
  }

  /** The board of a new `GomokuAI`: all cells free. */
  function EmptyBoard(): (b: seq<seq<int>>)
    ensures Stones(b) && forall i, j :: 0 <= i < Size && 0 <= j < Size ==> b[i][j] == 0
  {
    seq(Size, _ => seq(Size, _ => 0))
  }

  /** `a` comes before `b` in row-major order. */
  predicate Before(a: Coord, b: Coord) {
    a.x < b.x || (a.x == b.x && a.y < b.y)
  }

  /** The free cells of row i before column j, left to right. */
  function RowFree(b: seq<seq<int>>, i: int, j: int): (cs: seq<Coord>)
    requires IsBoard(b) && 0 <= i < Size && 0 <= j <= Size
    ensures forall c :: c in cs <==> c.x == i && 0 <= c.y < j && b[i][c.y] == 0
    ensures forall a, a' :: 0 <= a < a' < |cs| ==> Before(cs[a], cs[a'])
  {
    if j == 0 then []
    else RowFree(b, i, j - 1) + (if b[i][j - 1] == 0 then [Coord(i, j - 1)] else [])
  }

  /** The free cells of the rows before i, in row-major order: the vector
      `empty` of `find_valid_move` once rows 0 .. i-1 are scanned. */
  function FreeBefore(b: seq<seq<int>>, i: int): (cs: seq<Coord>)
    requires IsBoard(b) && 0 <= i <= Size
    ensures forall c :: c in cs <==> 0 <= c.x < i && 0 <= c.y < Size && b[c.x][c.y] == 0
    ensures forall a, a' :: 0 <= a < a' < |cs| ==> Before(cs[a], cs[a'])
  {
    if i == 0 then []
    else
      var above := FreeBefore(b, i - 1);
      var row := RowFree(b, i - 1, |b[i - 1]|);
      assert forall a, a' :: 0 <= a < |above| && 0 <= a' < |row| ==> Before(above[a], row[a']) by {
        forall a, a' | 0 <= a < |above| && 0 <= a' < |row| ensures Before(above[a], row[a']) {
          assert above[a] in above && row[a'] in row;
        }
      }
      above + row
  }

  /** All free cells, in row-major order. */
  function FreeCells(b: seq<seq<int>>): (cs: seq<Coord>)
    requires IsBoard(b)
    ensures forall c :: c in cs <==> OnBoard(c) && b[c.x][c.y] == 0
    ensures forall a, a' :: 0 <= a < a' < |cs| ==> Before(cs[a], cs[a'])
  {
    FreeBefore(b, |b|)
  }

  /** The move `find_valid_move` answers when `rand()` gives `rnd`: entry
      `rnd % n` of the n free cells, or (-1, -1) on a full board. */
  function Choice(b: seq<seq<int>>, rnd: nat): (c: Coord)
    requires IsBoard(b)
    ensures FreeCells(b) == [] <==> c == Coord(-1, -1)
    ensures c != Coord(-1, -1) ==> OnBoard(c) && b[c.x][c.y] == 0
  {
    var cs := FreeCells(b);
    if cs == [] then Coord(-1, -1) else
      assert cs[rnd % |cs|] in cs;
      cs[rnd % |cs|]
  }

  /** What one call of the program did. `BadInput`: `stoi` or `substr`
      threw. `OffBoard`: the program indexed its board outside its range,
      which the C++ leaves undefined; nothing is written. `BoardFull`:
      `find_valid_move` found no free cell and `game_loop` returned. */
  datatype Reply = Swapped(at: Coord) | Placed(at: Coord) | Finished | BadInput | OffBoard | BoardFull

  /** The answer to an opponent move `o` (`game_loop`, lines 119-124):
      write 2 on o without checking that it is free, then play 1 on the
      chosen free cell. */
  function Respond(b: seq<seq<int>>, o: Coord, rnd: nat): (r: (Reply, seq<seq<int>>))
    requires IsBoard(b)
    ensures IsBoard(r.1)
    ensures r.0 == OffBoard <==> !OnBoard(o)
    ensures r.0 == OffBoard ==> r.1 == b
    ensures r.0 == BoardFull <==> OnBoard(o) && FreeCells(Put(b, o, 2)) == []
    ensures r.0 == BoardFull ==> r.1 == Put(b, o, 2)
    ensures r.0 in {OffBoard, BoardFull} || r.0.Placed?
    ensures r.0.Placed? ==>
              var m := r.0.at;
              && OnBoard(o) && OnBoard(m) && m != o && b[m.x][m.y] == 0
              && r.1[o.x][o.y] == 2 && r.1[m.x][m.y] == 1
              && forall i, j :: 0 <= i < Size && 0 <= j < Size && Coord(i, j) != o && Coord(i, j) != m ==>
                   r.1[i][j] == b[i][j]
  {
    if !OnBoard(o) then (OffBoard, b)
    else
      var b1 := Put(b, o, 2);
      var m := Choice(b1, rnd);
      if m == Coord(-1, -1) then (BoardFull, b1) else (Placed(m), Put(b1, m, 1))
  }

  /** One round of `game_loop`: the line "finish" ends the game; otherwise
      the line is parsed as the opponent's move and answered. */
  function Turn(b: seq<seq<int>>, line: string, rnd: nat): (r: (Reply, seq<seq<int>>))
    requires IsBoard(b)
    ensures IsBoard(r.1)
    ensures r.0 == Finished <==> line == "finish"
    ensures r.0 == BadInput <==> line != "finish" && ParseCoord(line).None?
    ensures r.0 in {Finished, BadInput} ==> r.1 == b
    ensures r.0 !in {Finished, BadInput} ==> r == Respond(b, ParseCoord(line).value, rnd)
  {
    if line == "finish" then (Finished, b)
    else
      match ParseCoord(line)
      case None => (BadInput, b)
      case Some(o) => Respond(b, o, rnd)
  }

  /** A turn keeps every cell free or holding a stone of one side. */
  lemma TurnKeepsStones(b: seq<seq<int>>, line: string, rnd: nat)
    requires Stones(b)
    ensures Stones(Turn(b, line, rnd).1)
  {
    var r := Turn(b, line, rnd);
    if r.0.Placed? {
      var o := ParseCoord(line).value;
      var m := r.0.at;
      forall i, j | 0 <= i < Size && 0 <= j < Size ensures r.1[i][j] in {0, 1, 2} {
        if Coord(i, j) != o && Coord(i, j) != m {
          assert r.1[i][j] == b[i][j];
        }
      }
    }
  }

  /** The opponent's move is written without an `is_valid` check: an
      opponent move on the program's own stone replaces it. */
  lemma OpponentOverwrites(b: seq<seq<int>>, rnd: nat)
    requires Stones(b) && b[0][0] == 1 && b[1][1] == 0
    ensures var r := Turn(b, "a1", rnd); r.1[0][0] == 2 && r.0.Placed?
  {
    assert "1"[..1] == "1" && SkipSpaces("1") == "1" && DigitRun("1") == 1;
    assert ParseCoord("a1") == Some(Coord(0, 0));
    var b1 := Put(b, Coord(0, 0), 2);
    assert Coord(1, 1) in FreeCells(b1);
  }

  /** The rounds of `game_loop` over the input lines, `rnds[k]` being what
      `rand()` gives in round k, up to and including the first round that
      does not place a stone: the final board and every reply. */
  function Replay(b: seq<seq<int>>, lines: seq<string>, rnds: seq<nat>): (r: (seq<seq<int>>, seq<Reply>))
    requires IsBoard(b) && |rnds| == |lines|
    ensures IsBoard(r.0) && |r.1| <= |lines|
    ensures forall k :: 0 <= k < |r.1| - 1 ==> r.1[k].Placed?
    decreases |lines|
  {
    if lines == [] then (b, [])
    else
      var t := Turn(b, lines[0], rnds[0]);
      if t.0.Placed? then
        var rest := Replay(t.1, lines[1..], rnds[1..]);
        (rest.0, [t.0] + rest.1)
      else (t.1, [t.0])
  }

  /** Part way through a replay whose outcome is `total`: `replies` were
      given so far, and replaying `lines` from board b gives the rest. */
  ghost predicate Replaying(total: (seq<seq<int>>, seq<Reply>), b: seq<seq<int>>,
                            lines: seq<string>, rnds: seq<nat>, replies: seq<Reply>) {
    IsBoard(b) && |rnds| == |lines| && total == (Replay(b, lines, rnds).0, replies + Replay(b, lines, rnds).1)
  }

  /** What is left of the replay after round k: the lines after it when
      the round placed a stone, nothing otherwise. */
  lemma ReplayAdvance(total: (seq<seq<int>>, seq<Reply>), b0: seq<seq<int>>, b1: seq<seq<int>>,
                      lines: seq<string>, rnds: seq<nat>, k: int, replies: seq<Reply>, r: Reply)
    requires 0 <= k < |lines| == |rnds| && Replaying(total, b0, lines[k..], rnds[k..], replies)
    requires (r, b1) == Turn(b0, lines[k], rnds[k])
    ensures r.Placed? ==> Replaying(total, b1, lines[k + 1..], rnds[k + 1..], replies + [r])
    ensures !r.Placed? ==> total == (b1, replies + [r])
  {
    var ls, rs := lines[k..], rnds[k..];
    assert ls[0] == lines[k] && rs[0] == rnds[k];
    if r.Placed? {
      assert ls[1..] == lines[k + 1..] && rs[1..] == rnds[k + 1..];
      assert replies + ([r] + Replay(b1, ls[1..], rs[1..]).1) == (replies + [r]) + Replay(b1, ls[1..], rs[1..]).1;
    }
  }

  /** Every round keeps the board made of free cells and stones. */
  lemma {:induction false} ReplayKeepsStones(b: seq<seq<int>>, lines: seq<string>, rnds: seq<nat>)
    requires Stones(b) && |rnds| == |lines|
    ensures Stones(Replay(b, lines, rnds).0)
    decreases |lines|
  {
    if lines != [] {
      TurnKeepsStones(b, lines[0], rnds[0]);
      ReplayKeepsStones(Turn(b, lines[0], rnds[0]).1, lines[1..], rnds[1..]);
    }
  }

  /** The play on one line: the answer to an opening `o` that is not
      swapped, in `play_second` as written: a free cell of the board, on
      which the opening was never recorded. */
  function OpeningReplyAsWritten(b: seq<seq<int>>, rnd: nat): (r: (Reply, seq<seq<int>>))
    requires IsBoard(b)
    ensures r.0 == OffBoard <==> FreeCells(b) == []
    ensures r.0 == OffBoard ==> r.1 == b
    ensures r.0 != OffBoard ==> r.0.Placed? && OnBoard(r.0.at) && r.1 == Put(b, r.0.at, 1) && b[r.0.at.x][r.0.at.y] == 0
  {
    var m := Choice(b, rnd);
    // `board[-1][-1] = 1` on a full board
    if m == Coord(-1, -1) then (OffBoard, b) else (Placed(m), Put(b, m, 1))
  }

  /** `play_second(first_move)` as written: parse the opening; when it
      should be swapped, take its mirror image with a stone of 1;
      otherwise play a free cell of a board the opening was not written
      to. */
  function SecondAsWritten(b: seq<seq<int>>, line: string, rnd: nat): (r: (Reply, seq<seq<int>>))
    requires IsBoard(b)
    ensures IsBoard(r.1)
    ensures r.0 == BadInput <==> ParseCoord(line).None?
    ensures r.0.Swapped? <==> ParseCoord(line).Some? && ShouldSwap(ParseCoord(line).value)
    ensures r.0.Swapped? ==> r.0.at == Symmetric(ParseCoord(line).value) && r.1 == Put(b, r.0.at, 1)
  {
    match ParseCoord(line)
    case None => (BadInput, b)
    case Some(o) =>
      if ShouldSwap(o) then
        var m := Symmetric(o);
        (Swapped(m), Put(b, m, 1))
      else OpeningReplyAsWritten(b, rnd)
  }

  /** On a board where a1 is free, the empty board of a new program among
      them, after the opening "a1" (not central, so not swapped), `rand()`
      giving 0 makes `play_second` answer a1 again: the program plays on
      the opponent's own stone. */
  lemma SecondRepliesOnOpening(b: seq<seq<int>>)
    requires IsBoard(b) && b[0][0] == 0
    ensures ParseCoord("a1") == Some(Coord(0, 0))
    ensures SecondAsWritten(b, "a1", 0).0 == Placed(Coord(0, 0))
  {
    assert "1"[..1] == "1" && SkipSpaces("1") == "1" && DigitRun("1") == 1;
    CornerFirst(b);
  }

  /** When the corner (0, 0) is free, it is the first free cell. */
  lemma CornerFirst(b: seq<seq<int>>)
    requires IsBoard(b) && b[0][0] == 0
    ensures Choice(b, 0) == Coord(0, 0)
  {
    assert Coord(0, 0) in FreeCells(b);
  }

  /** `play_second` as evidently intended: an opening that is not swapped
      is recorded as the opponent's stone, as `game_loop` records every
      later move, before the program answers it. */
  function Second(b: seq<seq<int>>, line: string, rnd: nat): (r: (Reply, seq<seq<int>>))
    requires IsBoard(b)
    ensures IsBoard(r.1)
    ensures r.0 == BadInput <==> ParseCoord(line).None?
    ensures r.0.Swapped? <==> ParseCoord(line).Some? && ShouldSwap(ParseCoord(line).value)
    ensures r.0.Swapped? ==> r.0.at == Symmetric(ParseCoord(line).value) && r.1 == Put(b, r.0.at, 1)
    ensures r.0.Placed? ==> ParseCoord(line).Some? && r.0.at != ParseCoord(line).value
                            && OnBoard(ParseCoord(line).value) && r.1[ParseCoord(line).value.x][ParseCoord(line).value.y] == 2
  {
    match ParseCoord(line)
    case None => (BadInput, b)
    case Some(o) =>
      if ShouldSwap(o) then
        var m := Symmetric(o);
        (Swapped(m), Put(b, m, 1))
      else Respond(b, o, rnd)
  }

  /** `GomokuAI`: the board and the swap flag that `play_second` and
      `game_loop` update. `is_first` is only set by `run`. */
  class GomokuAI {
    var board: seq<seq<int>>
    var isFirst: bool
    var isSwapped: bool

    ghost predicate Valid()
      reads this
    {
      Stones(board)
    }

    constructor ()
      ensures Valid() && board == EmptyBoard() && !isFirst && !isSwapped
    {
      board := EmptyBoard();
      isFirst, isSwapped := false, false;
    }

    /** `is_valid`: c is one of the free cells `find_valid_move` draws
        from. */
    function IsValid(c: Coord): (r: bool)
      reads this
      requires Valid()
      ensures r <==> c in FreeCells(board)
    {
      0 <= c.x < Size && 0 <= c.y < Size && board[c.x][c.y] == 0
    }

    /** `find_valid_move`: scan the board row by row collecting the free
        cells, then answer entry `rand() % n` of them, or (-1, -1) when
        there is none. */
    method FindValidMove(rnd: nat) returns (c: Coord)
      requires Valid()
      ensures c == Choice(board, rnd)
      ensures c == Coord(-1, -1) || IsValid(c)
    {
      var empty: seq<Coord> := [];
      for i := 0 to Size
        invariant empty == FreeBefore(board, i)
      {
        for j := 0 to Size
          invariant empty == FreeBefore(board, i) + RowFree(board, i, j)
        {
          if board[i][j] == 0 {
            empty := empty + [Coord(i, j)];
          }
        }
      }
      if empty != [] {
        return empty[rnd % |empty|];
      }
      return Coord(-1, -1);
    }

    /** The reply to an opponent move o: lines 119-124 of `game_loop`. */
    method Answer(o: Coord, rnd: nat) returns (r: Reply)
      requires Valid()
      modifies this
      ensures Valid() && (r, board) == Respond(old(board), o, rnd)
      ensures isSwapped == old(isSwapped) && isFirst == old(isFirst)
    {
      if !(0 <= o.x < Size && 0 <= o.y < Size) {
        return OffBoard;
      }
      board := board[o.x := board[o.x][o.y := 2]];
      var m := FindValidMove(rnd);
      if m.x == -1 {
        return BoardFull;
      }
      board := board[m.x := board[m.x][m.y := 1]];
      r := Placed(m);
    }

    /** One round of `game_loop` on the input line `line`. */
    method Round(line: string, rnd: nat) returns (r: Reply)
      requires Valid()
      modifies this
      ensures Valid() && (r, board) == Turn(old(board), line, rnd)
      ensures isSwapped == old(isSwapped) && isFirst == old(isFirst)
    {
      if line == "finish" {
        return Finished;
      }
      var opponent := ParseCoord(line);
      if opponent.None? {
        return BadInput;
      }
      r := Answer(opponent.value, rnd);
    }

    /** `game_loop` over the input lines: answer each line until one does
        not place a stone ("finish", a refused line, a move off the board
        or a full board) or the lines run out. */
    method GameLoop(lines: seq<string>, rnds: seq<nat>) returns (replies: seq<Reply>)
      requires Valid() && |rnds| == |lines|
      modifies this
      ensures Valid() && (board, replies) == Replay(old(board), lines, rnds)
      ensures isSwapped == old(isSwapped) && isFirst == old(isFirst)
    {
      ghost var total := Replay(board, lines, rnds);
      replies := [];
      assert lines[0..] == lines && rnds[0..] == rnds && [] + total.1 == total.1;
      for k := 0 to |lines|
        invariant Valid() && isSwapped == old(isSwapped) && isFirst == old(isFirst)
        invariant Replaying(total, board, lines[k..], rnds[k..], replies)
      {
        ghost var b0 := board;
        var r := Round(lines[k], rnds[k]);
        ReplayAdvance(total, b0, board, lines, rnds, k, replies, r);
        replies := replies + [r];
        if !r.Placed? {
          return;
        }
      }
      assert lines[|lines|..] == [] && replies + [] == replies;
    }

    /** `play_second(first_move)` as written. */
    method PlaySecondAsWritten(firstMove: string, rnd: nat) returns (r: Reply)
      requires Valid()
      modifies this
      ensures Valid() && (r, board) == SecondAsWritten(old(board), firstMove, rnd)
      ensures isSwapped == (old(isSwapped) || r.Swapped?) && isFirst == old(isFirst)
    {
      var opponent := ParseCoord(firstMove);
      if opponent.None? {
        return BadInput;
      }
      var o := opponent.value;
      if ShouldSwap(o) {
        isSwapped := true;
        var symm := Symmetric(o);
        board := board[symm.x := board[symm.x][symm.y := 1]];
        return Swapped(symm);
      }
      var m := FindValidMove(rnd);
      if m.x == -1 {
        return OffBoard;
      }
      board := board[m.x := board[m.x][m.y := 1]];
      r := Placed(m);
    }

    /** `play_second(first_move)` with the opening recorded. */
    method PlaySecond(firstMove: string, rnd: nat) returns (r: Reply)
      requires Valid()
      modifies this
      ensures Valid() && (r, board) == Second(old(board), firstMove, rnd)
      ensures isSwapped == (old(isSwapped) || r.Swapped?) && isFirst == old(isFirst)
    {
      var opponent := ParseCoord(firstMove);
      if opponent.None? {
        return BadInput;
      }
      var o := opponent.value;
      if ShouldSwap(o) {
        isSwapped := true;
        var symm := Symmetric(o);
        board := board[symm.x := board[symm.x][symm.y := 1]];
        return Swapped(symm);
      }
      r := Answer(o, rnd);
    }
  }
}
